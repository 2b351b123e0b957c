// DTLSMessageChannel and its SessionPersist record: the persistence of a session, proved against SessionSpec.
// The results of mbedTLS calls are parameters.
module DtlsChannel {
  import opened Words
  import opened SessionSpec

  const RECORD_SIZE := 220

  // The bytes of a record, as far as they matter; the keys are represented by the session number of the specification.
  datatype Image = Image(size: uint16, persistent: bool, useCounter: byte, keysChecksum: uint32, nextCoapId: uint16)

  ghost predicate Encodes(i: Image, r: Record) {
    && i.size == (if r.valid then RECORD_SIZE else 0)
    && i.persistent == r.persistent && i.useCounter == r.uses && i.keysChecksum == r.keysChecksum
    && i.nextCoapId == Low16(r.nextId)
  }

  // The storage behind the save and restore callbacks.
  class Storage {
    var image: Option<Image>

    constructor ()
      ensures image == None
    {
      image := None;
    }

    method Save(i: Image)
      modifies this
      ensures image == Some(i)
    {
      image := Some(i);
    }
  }

  ghost predicate Stores(image: Option<Image>, record: Option<Record>) {
    match record
    case None => image == None
    case Some(r) => image.Some? && Encodes(image.value, r)
  }

  // The record in memory.
  class SessionPersist {
    var size: uint16
    var persistent: bool
    var useCounter: byte
    var keysChecksum: uint32
    var nextCoapId: uint16

    constructor ()
      ensures View() == Image(0, false, 0, 0, 0)
    {
      size, persistent, useCounter, keysChecksum, nextCoapId := 0, false, 0, 0, 0;
    }

    function View(): Image
      reads this
    {
      Image(size, persistent, useCounter, keysChecksum, nextCoapId)
    }

    predicate IsValid()
      reads this
    {
      size == RECORD_SIZE
    }

    method SaveTo(storage: Storage)
      modifies storage
      ensures storage.image == if persistent then Some(View()) else old(storage.image)
    {
      if persistent {
        storage.Save(View());
      }
    }

    method RestoreFrom(storage: Storage) returns (found: bool)
      modifies this
      ensures found <==> storage.image.Some?
      ensures View() == if found then storage.image.value else old(View())
    {
      found := storage.image.Some?;
      if found {
        var i := storage.image.value;
        size, persistent, useCounter, keysChecksum, nextCoapId :=
          i.size, i.persistent, i.useCounter, i.keysChecksum, i.nextCoapId;
      }
    }

    method Clear(storage: Storage)
      modifies this`persistent, this`size, storage
      ensures storage.image == Some(old(View()).(persistent := true, size := 0))
      ensures View() == old(View()).(persistent := false, size := 0)
    {
      persistent := true;
      size := 0;
      SaveTo(storage);
      persistent := false;
    }
  }

  datatype RestoreStatus = Complete | NoSession | RestoreError
  datatype ReadResult = Bytes(count: nat) | WantRead | UnexpectedMessage | PeerCloseNotify | ReadError
  datatype ChannelResult = Ok | SessionResumed | InvalidState | SetupFailed | EstablishFailed | ReceiveFailed | SendFailed

  function ReceptionOf(r: ReadResult): Reception {
    match r
    case Bytes(n) => if n > 0 then Got else Nothing
    case WantRead => Nothing
    case UnexpectedMessage => Nothing
    case PeerCloseNotify => ClosedByPeer
    case ReadError => Failed
  }

  class DtlsMessageChannel {
    const persist: SessionPersist
    const storage: Storage
    const keys: uint32             // the check sum of the keys of server and device
    var handshakeOver: bool
    var moveSession: bool
    var coapState: uint16          // the message ID of the CoAP channel above
    ghost var device: Device
    ghost var seed0: nat           // of the first start
    ghost var events: seq<Event>   // everything since, reboots included

    // The channel is in the state of the specification.
    ghost predicate Matches()
      reads this, persist, storage
    {
      && Encodes(persist.View(), device.memory) && Stores(storage.image, device.stored)
      && handshakeOver == device.open && moveSession == device.moving && coapState == Low16(device.nextId)
    }

    // That state is what all the events have made of a new device.
    ghost predicate Valid()
      reads this, persist, storage
    {
      Matches() && device == Run(Factory(seed0), events)
    }

    // The theorems about runs, for this channel.
    lemma Guarantees()
      requires Valid()
      ensures Inv(device) && device.streak <= MAXIMUM_SESSION_USES
      ensures forall a: Attempt :: Resumes(device, SessionSpec.Establish(keys, a)) ==>
                device.cleared < device.handshakes == device.stored.value.session
      ensures forall i, j :: 0 <= i < j < |device.sentIds| && device.sentIds[j] - device.sentIds[i] < 0x1_0000 ==>
                Low16(device.sentIds[i]) != Low16(device.sentIds[j])
    {
      hide Run;
      RunKeepsInv(Factory(seed0), events);
      forall i, j | 0 <= i < j < |device.sentIds| && device.sentIds[j] - device.sentIds[i] < 0x1_0000
        ensures Low16(device.sentIds[i]) != Low16(device.sentIds[j])
      {
        LowBitsDiffer(device.sentIds[i], device.sentIds[j]);
      }
    }

    // Once a session of this channel has been given up, no connection resumes one before a handshake has succeeded.
    lemma GivenUpIsNotResumed(k: nat, a: Attempt)
      requires Valid() && k < |events| && GivesUp(Run(Factory(seed0), events[..k]), events[k])
      requires forall m :: k < m < |events| ==> !Shakes(events[m])
      ensures !Resumes(device, SessionSpec.Establish(keys, a))
    {
      hide Run, Step, Resumes;
      if Resumes(device, SessionSpec.Establish(keys, a)) {
        GivenUpIsNeverResumed(seed0, events, k, SessionSpec.Establish(keys, a));
      }
    }

    // Records that the event has happened.
    ghost method Log(e: Event, before: Device)
      requires before == Run(Factory(seed0), events) && device == Step(before, e)
      modifies this`events
      ensures events == old(events) + [e] && device == Run(Factory(seed0), events)
    {
      RunStep(Factory(seed0), events, e);
      events := events + [e];
    }

    // A device without a stored session.
    constructor (storage: Storage, keys: uint32, seed: uint16)
      requires storage.image == None
      ensures Valid() && device == Factory(seed) && events == [] && this.storage == storage && this.keys == keys
    {
      persist := new SessionPersist();
      this.storage, this.keys := storage, keys;
      handshakeOver, moveSession, coapState := false, false, seed;
      device, seed0, events := Factory(seed), seed, [];
    }

    // After a reboot only the storage of the channel before is left.
    constructor Reboot(before: DtlsMessageChannel, keys: uint32, seed: uint16)
      requires before.Valid()
      ensures Valid() && device == Step(before.device, SessionSpec.Reboot(seed))
      ensures events == before.events + [SessionSpec.Reboot(seed)] && seed0 == before.seed0
      ensures storage == before.storage && this.keys == keys
    {
      persist := new SessionPersist();
      storage, this.keys := before.storage, keys;
      handshakeOver, moveSession, coapState := false, false, seed;
      device, seed0, events := Rebooted(before.device, seed), before.seed0, before.events + [SessionSpec.Reboot(seed)];
      RunStep(Factory(before.seed0), before.events, SessionSpec.Reboot(seed));
    }

    method SaveSession()
      requires Matches()
      modifies storage, this`device
      ensures Matches() && device == Saved(old(device))
    {
      persist.SaveTo(storage);
      device := Saved(device);
    }

    // Once a message has been received the session no longer has to be moved, and its uses are counted anew.
    method CancelMoveSession()
      requires Matches()
      modifies this`moveSession, this`device, persist`useCounter, storage
      ensures Matches() && device == MoveCancelled(old(device))
      ensures !moveSession && (old(moveSession) ==> persist.useCounter == 0)
      ensures old(moveSession) && persist.persistent ==> storage.image == Some(persist.View())
    {
      if moveSession {
        moveSession := false;
        persist.useCounter := 0;
        device := device.(moving := false, memory := device.memory.(uses := 0));
        SaveSession();
      }
    }

    method ResetSession()
      requires Matches()
      modifies this`moveSession, this`handshakeOver, this`device, persist, storage
      ensures Matches() && device == SessionReset(old(device))
      ensures !handshakeOver && !moveSession && !persist.IsValid()
      ensures storage.image.Some? && storage.image.value.size == 0
    {
      CancelMoveSession();
      handshakeOver := false;
      persist.Clear(storage);
      device := Cleared(device.(open := false));
    }

    method SaveRecord()
      requires Encodes(persist.View(), device.memory) && Stores(storage.image, device.stored)
      modifies storage, this`device
      ensures Stores(storage.image, device.stored) && device == Saved(old(device))
    {
      persist.SaveTo(storage);
      device := Saved(device);
    }

    // SessionPersist::restore
    method Restore(derived: bool) returns (status: RestoreStatus)
      requires Matches()
      modifies this`coapState, this`device, persist, storage
      ensures Matches()
      ensures status == if !Resumable(old(device), keys) then NoSession else if derived then Complete else RestoreError
      ensures device == match status
                        case NoSession => SessionSpec.Discarded(old(device), keys)
                        case RestoreError =>
                          var r := UseCounted(old(device));
                          r.(memory := r.memory.(valid := false), nextId := r.memory.nextId)
                        case Complete =>
                          var r := UseCounted(old(device));
                          r.(nextId := r.memory.nextId)
    {
      var found := persist.RestoreFrom(storage);
      device := Restored(device);
      if !found {
        return NoSession;
      }
      if !persist.IsValid() || persist.keysChecksum != keys {
        return NoSession;
      }
      if persist.useCounter >= MAXIMUM_SESSION_USES {
        persist.size := 0;
        device := device.(memory := device.memory.(valid := false));
        SaveRecord();
        return NoSession;
      }
      persist.useCounter := persist.useCounter + 1;
      device := device.(memory := device.memory.(uses := device.memory.uses + 1));
      SaveRecord();
      persist.size := 0;
      coapState := persist.nextCoapId;
      device := device.(nextId := device.memory.nextId);
      if !derived {
        device := device.(memory := device.memory.(valid := false));
        return RestoreError;
      }
      persist.size := RECORD_SIZE;
      status := Complete;
    }

    // SessionPersist::prepare_save: a record of the new session when the handshake is over, and none otherwise.
    // The use counter stays as it is.
    method PrepareSave()
      requires Matches()
      modifies this`device, persist
      ensures Matches()
      ensures device == if old(device).open then Shaken(old(device), keys)
                        else old(device).(memory := old(device).memory.(valid := false))
      ensures persist.useCounter == old(persist.useCounter) && persist.IsValid() == handshakeOver
      ensures handshakeOver ==> persist.keysChecksum == keys && persist.nextCoapId == 0
    {
      if handshakeOver {
        persist.keysChecksum := keys;
        persist.nextCoapId := 0;
        persist.size := RECORD_SIZE;
        device := Shaken(device, keys);
      } else {
        persist.size := 0;
        device := device.(memory := device.memory.(valid := false));
      }
    }

    // establish, without the record of the event
    method Connect(a: Attempt) returns (result: ChannelResult)
      requires Matches()
      modifies this`moveSession, this`handshakeOver, this`coapState, this`device, persist, storage
      ensures Matches() && device == Step(old(device), SessionSpec.Establish(keys, a))
      ensures result == if !a.ready then SetupFailed
                        else if Resumes(old(device), SessionSpec.Establish(keys, a)) then SessionResumed
                        else if !a.again then SetupFailed else if a.shaken then Ok else EstablishFailed
      ensures handshakeOver <==> result == Ok || result == SessionResumed
    {
      hide SessionReset, UseCounted, SessionSpec.Discarded;
      handshakeOver := false;
      device := device.(open := false);
      if !a.ready {
        return SetupFailed;
      }
      var status := Restore(a.derived);
      if status == Complete {
        handshakeOver := true;
        persist.persistent := true;
        device := Established(old(device), keys, a);
        return SessionResumed;
      }
      ResetSession();
      if !a.again {
        return SetupFailed;
      }
      if !a.shaken {
        ResetSession();
        return EstablishFailed;
      }
      handshakeOver := true;
      device := device.(open := true);
      PrepareSave();
      result := Ok;
    }

    method Establish(a: Attempt) returns (result: ChannelResult)
      requires Valid()
      modifies this`moveSession, this`handshakeOver, this`coapState, this`device, this`events, persist, storage
      ensures Valid() && events == old(events) + [SessionSpec.Establish(keys, a)]
      ensures device == Step(old(device), SessionSpec.Establish(keys, a))
      ensures result == if !a.ready then SetupFailed
                        else if Resumes(old(device), SessionSpec.Establish(keys, a)) then SessionResumed
                        else if !a.again then SetupFailed else if a.shaken then Ok else EstablishFailed
      ensures handshakeOver <==> result == Ok || result == SessionResumed
    {
      hide Step, Run;
      result := Connect(a);
      Log(SessionSpec.Establish(keys, a), old(device));
    }

    // Protocol::begin: a resumed session is moved at once.
    method Begin(a: Attempt) returns (result: ChannelResult)
      requires Valid()
      modifies this`moveSession, this`handshakeOver, this`coapState, this`device, this`events, persist, storage
      ensures Valid() && events == old(events) + [SessionSpec.Begin(false, 0, keys, a)]
      ensures device == Step(old(device), SessionSpec.Begin(false, 0, keys, a))
      ensures result == SessionResumed ==> moveSession && handshakeOver
    {
      hide Run, Established;
      result := Connect(a);
      if result == SessionResumed {
        moveSession := true;
        device := device.(moving := true);
      }
      Log(SessionSpec.Begin(false, 0, keys, a), old(device));
    }

    method NotifyEstablished()
      requires Valid()
      modifies this`device, this`events, persist`persistent, storage
      ensures Valid() && device == Step(old(device), SessionSpec.NotifyEstablished)
      ensures persist.persistent && storage.image == Some(persist.View())
      ensures events == old(events) + [SessionSpec.NotifyEstablished]
    {
      hide Run;
      persist.persistent := true;
      device := device.(memory := device.memory.(persistent := true));
      SaveSession();
      Log(SessionSpec.NotifyEstablished, old(device));
    }

    method Receive(r: ReadResult) returns (result: ChannelResult)
      requires Valid()
      modifies this`moveSession, this`handshakeOver, this`device, this`events, persist, storage
      ensures Valid() && device == Step(old(device), SessionSpec.Receive(ReceptionOf(r)))
      ensures events == old(events) + [SessionSpec.Receive(ReceptionOf(r))]
      ensures result == if !old(handshakeOver) then InvalidState else if r.ReadError? then ReceiveFailed else Ok
      ensures old(handshakeOver) && (r.ReadError? || r.PeerCloseNotify?) ==>
                !handshakeOver && storage.image.Some? && storage.image.value.size == 0
      ensures r.WantRead? || r.UnexpectedMessage? || r == Bytes(0) || !old(handshakeOver) ==>
                && handshakeOver == old(handshakeOver) && moveSession == old(moveSession)
                && persist.View() == old(persist.View()) && storage.image == old(storage.image)
      ensures old(handshakeOver) && r.Bytes? && r.count > 0 && old(moveSession) ==>
                !moveSession && persist.useCounter == 0 && (persist.persistent ==> storage.image == Some(persist.View()))
    {
      hide SessionReset, MoveCancelled, Run;
      result := InvalidState;
      if handshakeOver {
        result := if r.ReadError? then ReceiveFailed else Ok;
        match r
        case ReadError =>
          ResetSession();
        case PeerCloseNotify =>
          ResetSession();
        case Bytes(n) =>
          if n > 0 {
            device := device.(streak := 0);
            CancelMoveSession();
          }
        case _ =>
      }
      Log(SessionSpec.Receive(ReceptionOf(r)), old(device));
    }

    // The part of send that follows mbedtls_ssl_write.
    method Written(hasId: bool, written: bool)
      requires Matches() && device.open
      modifies this`moveSession, this`handshakeOver, this`device, persist, storage
      ensures Matches()
      ensures device == if !written then SessionReset(old(device)) else
                var sent := if hasId then old(device)
                            else old(device).(sentIds := old(device).sentIds + [old(device).nextId]);
                Saved(sent.(memory := sent.memory.(nextId := sent.nextId)))
    {
      hide SessionReset;
      if !written {
        ResetSession();
      } else {
        if !hasId {
          device := device.(sentIds := device.sentIds + [device.nextId]);
        }
        persist.nextCoapId := coapState;
        device := device.(memory := device.memory.(nextId := device.nextId));
        SaveSession();
      }
    }

    // A message gets a new ID from the CoAP channel, unless it has one or is too short to carry one. A message too short
    // for CoAP is sent as it is.
    method Send(direct: bool, hasId: bool, written: bool) returns (result: ChannelResult)
      requires Valid()
      modifies this`moveSession, this`handshakeOver, this`coapState, this`device, this`events, persist, storage
      ensures Valid() && device == Step(old(device), SessionSpec.Send(direct, !hasId, written))
      ensures events == old(events) + [SessionSpec.Send(direct, !hasId, written)]
      ensures result == if !old(handshakeOver) then InvalidState else if written then Ok else SendFailed
      ensures !direct && !hasId ==> coapState == Low16(old(coapState) + 1)
      ensures result == Ok && !direct ==>
                && persist.nextCoapId == coapState && (persist.persistent ==> storage.image == Some(persist.View()))
                && device.sentIds == old(device.sentIds) + if hasId then [] else [device.nextId]
    {
      hide SessionReset, Run;
      if !direct && !hasId {
        coapState := Low16(coapState + 1);
        device := device.(nextId := device.nextId + 1);
      }
      result := InvalidState;
      if handshakeOver {
        result := if written then Ok else SendFailed;
        if !direct {
          Written(hasId, written);
        }
      }
      Log(SessionSpec.Send(direct, !hasId, written), old(device));
    }

    // command(CLOSE), and DISCARD_SESSION, which differs in what it returns
    method Close()
      requires Valid()
      modifies this`moveSession, this`handshakeOver, this`device, this`events, persist, storage
      ensures Valid() && device == Step(old(device), SessionSpec.Close)
      ensures !handshakeOver && !moveSession && !persist.IsValid()
      ensures storage.image.Some? && storage.image.value.size == 0
      ensures events == old(events) + [SessionSpec.Close]
    {
      hide Run;
      ResetSession();
      Log(SessionSpec.Close, old(device));
    }

    method MoveSession()
      requires Valid()
      modifies this`moveSession, this`device, this`events
      ensures Valid() && device == Step(old(device), SessionSpec.Move) && moveSession
      ensures events == old(events) + [SessionSpec.Move]
    {
      hide Run;
      moveSession := true;
      device := device.(moving := true);
      Log(SessionSpec.Move, old(device));
    }

    method LoadSession()
      requires Valid()
      modifies this`device, this`events, persist
      ensures Valid() && device == Step(old(device), SessionSpec.Load)
      ensures persist.View() == if storage.image.Some? then storage.image.value else old(persist.View())
      ensures events == old(events) + [SessionSpec.Load]
    {
      hide Run;
      var found := persist.RestoreFrom(storage);
      device := Restored(device);
      Log(SessionSpec.Load, old(device));
    }

    // command(SAVE_SESSION)
    method Save()
      requires Valid()
      modifies this`device, this`events, storage
      ensures Valid() && device == Step(old(device), SessionSpec.Save)
      ensures storage.image == if persist.persistent then Some(persist.View()) else old(storage.image)
      ensures events == old(events) + [SessionSpec.Save]
    {
      hide Run;
      SaveSession();
      Log(SessionSpec.Save, old(device));
    }
  }
}
