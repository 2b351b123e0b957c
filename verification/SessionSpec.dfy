// The life of a persisted DTLS session as a state machine: what is in memory, what is in storage, and how every call of
// the channel changes them. DtlsChannel is proved against it. Every call is atomic and every save succeeds.
module SessionSpec {
  import opened Words

  const MAXIMUM_SESSION_USES := 3

  // The persisted record. Message IDs are counted without bound here; the device keeps the low 16 bits.
  datatype Record = Record(
    valid: bool,       // the size field is right
    persistent: bool,
    uses: nat,
    keysChecksum: uint32,
    session: nat,      // the keys: the number of the handshake that made them
    nextId: nat)

  datatype Device = Device(
    memory: Record,
    stored: Option<Record>,
    open: bool,              // the handshake is over
    moving: bool,
    nextId: nat,             // the last message ID that was assigned
    handshakes: nat,
    // history
    streak: nat,             // resumptions since the last handshake or received message
    cleared: nat,            // the number of handshakes when the session was last cleared
    sentIds: seq<nat>)         // the new message IDs that were sent since the last handshake

  const NO_RECORD := Record(false, false, 0, 0, 0, 0)

  datatype Reception = Got | Nothing | ClosedByPeer | Failed

  // How the library calls of one connection attempt end.
  datatype Attempt = Attempt(
    ready: bool,    // the context is set up
    derived: bool,  // the keys of a restored session are derived
    again: bool,    // the context is set up once more for a handshake
    shaken: bool)   // the handshake succeeds

  datatype Event =
    | Reboot(seed: nat)
    | Establish(keys: uint32, attempt: Attempt)
    | Begin(restart: bool, seed: nat, keys: uint32, attempt: Attempt)  // Protocol::begin
    | Receive(reception: Reception)
    | Send(direct: bool, assign: bool, written: bool)
    | NotifyEstablished
    | Close
    | Move
    | Load
    | Save

  // ---- The steps

  function Saved(d: Device): Device {
    if d.memory.persistent then d.(stored := Some(d.memory)) else d
  }

  function Cleared(d: Device): Device {
    var saved := Saved(d.(memory := d.memory.(persistent := true, valid := false)));
    saved.(memory := saved.memory.(persistent := false), cleared := d.handshakes)
  }

  function MoveCancelled(d: Device): Device {
    if d.moving then Saved(d.(moving := false, memory := d.memory.(uses := 0))) else d
  }

  function SessionReset(d: Device): Device {
    Cleared(MoveCancelled(d).(open := false))
  }

  function Rebooted(d: Device, seed: nat): Device {
    d.(memory := NO_RECORD, open := false, moving := false, nextId := seed)
  }

  // The stored record can be used: it is there, it belongs to these keys, and it is not used up.
  predicate Resumable(d: Device, keys: uint32) {
    d.stored.Some? && d.stored.value.valid && d.stored.value.keysChecksum == keys
    && d.stored.value.uses < MAXIMUM_SESSION_USES
  }

  function Restored(d: Device): Device {
    match d.stored
    case None => d
    case Some(r) => d.(memory := r)
  }

  // SessionPersist::restore after the record has been found usable.
  function UseCounted(d: Device): Device {
    var r := Restored(d);
    Saved(r.(memory := r.memory.(uses := r.memory.uses + 1)))
  }

  // SessionPersist::restore when the record cannot be used: one that is used up is invalidated.
  function Discarded(d: Device, keys: uint32): Device {
    var r := Restored(d);
    if d.stored.Some? && r.memory.valid && r.memory.keysChecksum == keys
    then Saved(r.(memory := r.memory.(valid := false)))
    else r
  }

  function Shaken(d: Device, keys: uint32): Device {
    d.(memory := d.memory.(valid := true, keysChecksum := keys, session := d.handshakes + 1, nextId := 0),
       open := true, handshakes := d.handshakes + 1, streak := 0, sentIds := [])
  }

  predicate Resumes(d: Device, e: Event) {
    (e.Establish? || e.Begin?) && e.attempt.ready && e.attempt.derived && Resumable(d, e.keys)
  }

  // The context is set up anew, so nothing is open at first.
  function Established(before: Device, keys: uint32, a: Attempt): Device {
    var d := before.(open := false);
    if !a.ready then d
    else if Resumable(d, keys) && a.derived then
      var r := UseCounted(d);
      r.(memory := r.memory.(persistent := true), open := true, nextId := r.memory.nextId, streak := d.streak + 1)
    else
      var found := if Resumable(d, keys) then
                     var r := UseCounted(d);
                     r.(memory := r.memory.(valid := false), nextId := r.memory.nextId)
                   else Discarded(d, keys);
      var closed := SessionReset(found);
      if !a.again then closed else if a.shaken then Shaken(closed, keys) else SessionReset(closed)
  }

  function Step(d: Device, e: Event): Device {
    match e
    case Reboot(seed) => Rebooted(d, seed)
    case Establish(keys, attempt) => Established(d, keys, attempt)
    case Begin(restart, seed, keys, attempt) =>
      var d' := Established(if restart then Rebooted(d, seed) else d, keys, attempt);
      if Resumes(d, e) then d'.(moving := true) else d'
    case Receive(reception) =>
      if !d.open then d
      else if reception.Got? then MoveCancelled(d.(streak := 0))
      else if reception.Nothing? then d
      else SessionReset(d)
    case Send(direct, assign, written) =>
      var a := if assign && !direct then d.(nextId := d.nextId + 1) else d;
      if !d.open || direct then a
      else if !written then SessionReset(a)
      else
        var sent := if assign then a.(sentIds := a.sentIds + [a.nextId]) else a;
        Saved(sent.(memory := sent.memory.(nextId := a.nextId)))
    case NotifyEstablished => Saved(d.(memory := d.memory.(persistent := true)))
    case Close => SessionReset(d)
    case Move => d.(moving := true)
    case Load => Restored(d)
    case Save => Saved(d)
  }

  function Run(d: Device, events: seq<Event>): Device {
    if events == [] then d else Step(Run(d, events[..|events| - 1]), events[|events| - 1])
  }

  lemma {:induction false} RunConcat(d: Device, a: seq<Event>, b: seq<Event>)
    ensures Run(d, a + b) == Run(Run(d, a), b)
  {
    if b == [] {
      assert a + b == a;
    } else {
      assert (a + b)[..|a + b| - 1] == a + b[..|b| - 1];
      RunConcat(d, a, b[..|b| - 1]);
    }
  }

  // ---- What every run keeps

  ghost predicate Increasing(ids: seq<nat>) {
    forall i, j :: 0 <= i < j < |ids| ==> ids[i] < ids[j]
  }

  ghost predicate UpTo(ids: seq<nat>, last: nat) {
    forall i :: 0 <= i < |ids| ==> ids[i] <= last
  }

  // A valid record belongs to the latest handshake, which came after the last clearing; its use counter has counted
  // every resumption in a row; and it knows of every new message ID that was sent.
  ghost predicate GoodRecord(d: Device, r: Record) {
    r.valid ==> d.cleared < d.handshakes == r.session && d.streak <= r.uses && UpTo(d.sentIds, r.nextId)
  }

  ghost predicate GoodHistory(d: Device) {
    d.cleared <= d.handshakes && d.streak <= MAXIMUM_SESSION_USES && Increasing(d.sentIds)
  }

  ghost predicate Inv(d: Device) {
    && GoodHistory(d)
    && GoodRecord(d, d.memory)
    && (d.stored.Some? ==> GoodRecord(d, d.stored.value) && d.stored.value.persistent)
    && (d.open ==> UpTo(d.sentIds, d.nextId))
    && (d.open && !d.memory.persistent && d.stored.Some? ==> !d.stored.value.valid)
  }

  // After a reset no record is left, neither in memory nor in storage.
  lemma ResetClears(d: Device)
    requires GoodHistory(d)
    ensures var d' := SessionReset(d);
            && Inv(d') && !d'.open && !d'.memory.valid && d'.stored.Some? && !d'.stored.value.valid
            && d'.cleared == d'.handshakes == d.handshakes && d'.sentIds == d.sentIds && d'.streak == d.streak
            && !d'.moving && !d'.memory.persistent
  {
  }

  lemma ResumingKeepsInv(d: Device, keys: uint32, a: Attempt)
    requires Inv(d) && Resumable(d, keys) && a.derived
    ensures Inv(Established(d, keys, a))
  {
  }

  lemma HandshakeKeepsInv(d: Device, keys: uint32, a: Attempt)
    requires Inv(d) && !(Resumable(d, keys) && a.derived)
    ensures Inv(Established(d, keys, a))
  {
    hide SessionReset;
    var closed := d.(open := false);
    var found := if Resumable(closed, keys) then
                   var r := UseCounted(closed);
                   r.(memory := r.memory.(valid := false), nextId := r.memory.nextId)
                 else Discarded(closed, keys);
    assert GoodHistory(found) && found.handshakes == d.handshakes;
    ResetClears(found);
    ResetClears(SessionReset(found));
  }

  lemma EstablishKeepsInv(d: Device, keys: uint32, a: Attempt)
    requires Inv(d)
    ensures Inv(Established(d, keys, a))
  {
    hide Inv, SessionReset;
    if Resumable(d, keys) && a.derived {
      ResumingKeepsInv(d, keys, a);
    } else {
      HandshakeKeepsInv(d, keys, a);
    }
  }

  lemma SendKeepsInv(d: Device, direct: bool, assign: bool, written: bool)
    requires Inv(d)
    ensures Inv(Step(d, Send(direct, assign, written)))
  {
    hide SessionReset;
    var a := if assign && !direct then d.(nextId := d.nextId + 1) else d;
    ResetClears(a);
  }

  lemma {:induction false} StepKeepsInv(d: Device, e: Event)
    requires Inv(d)
    ensures Inv(Step(d, e))
  {
    hide SessionReset, Established;
    match e
    case Establish(keys, attempt) => EstablishKeepsInv(d, keys, attempt);
    case Begin(restart, seed, keys, attempt) =>
      EstablishKeepsInv(if restart then Rebooted(d, seed) else d, keys, attempt);
    case Send(direct, assign, written) => SendKeepsInv(d, direct, assign, written);
    case Receive(_) => ResetClears(d);
    case Close => ResetClears(d);
    case _ =>
  }

  // A device that was never used.
  function Factory(seed: nat): Device {
    Device(NO_RECORD, None, false, false, seed, 0, 0, 0, [])
  }

  lemma {:induction false} RunKeepsInv(d: Device, events: seq<Event>)
    requires Inv(d)
    ensures Inv(Run(d, events))
  {
    if events != [] {
      RunKeepsInv(d, events[..|events| - 1]);
      StepKeepsInv(Run(d, events[..|events| - 1]), events[|events| - 1]);
    }
  }

  // ---- Guarantees

  // Over every run of reboots, resumptions, transmissions and resets: a session is resumed at most three times in a row
  // without a received message or a new handshake.
  lemma {:induction false} ResumedAtMostThreeTimes(seed: nat, events: seq<Event>)
    ensures Run(Factory(seed), events).streak <= MAXIMUM_SESSION_USES
  {
    RunKeepsInv(Factory(seed), events);
  }

  // The handshake of this attempt succeeds, unless a session is resumed instead.
  predicate Shakes(e: Event) {
    (e.Establish? || e.Begin?) && e.attempt.ready && e.attempt.again && e.attempt.shaken
  }

  // The session is given up: the channel is closed, or an open one fails to read or write or is closed by the peer.
  predicate GivesUp(d: Device, e: Event) {
    match e
    case Close => true
    case Receive(reception) => d.open && (reception.Failed? || reception.ClosedByPeer?)
    case Send(direct, _, written) => d.open && !direct && !written
    case _ => false
  }

  ghost predicate NothingKept(d: Device) {
    !d.memory.valid && (d.stored.Some? ==> !d.stored.value.valid)
  }

  lemma NothingComesBack(d: Device, e: Event)
    requires NothingKept(d) && !Shakes(e)
    ensures NothingKept(Step(d, e)) && !Resumes(d, e)
  {
  }

  // A session that has been given up is never resumed, across any number of reboots: every connection needs a handshake,
  // and until one has succeeded none is resumed.
  lemma {:induction false} NothingIsResumedBeforeAHandshake(d: Device, e: Event, events: seq<Event>, next: Event)
    requires GivesUp(d, e) && forall k :: 0 <= k < |events| ==> !Shakes(events[k])
    ensures NothingKept(Run(Step(d, e), events))
    ensures next.Establish? || next.Begin? ==> !Resumes(Run(Step(d, e), events), next)
  {
    if events != [] {
      var front, last := events[..|events| - 1], events[|events| - 1];
      NothingIsResumedBeforeAHandshake(d, e, front, last);
      NothingComesBack(Run(Step(d, e), front), last);
    }
  }

  // A session that is resumed is the one of the latest handshake, and a handshake has succeeded since a session was last
  // given up.
  lemma GivenUpIsNeverResumed(seed: nat, events: seq<Event>, k: nat, e: Event)
    requires k < |events| && GivesUp(Run(Factory(seed), events[..k]), events[k])
    requires Resumes(Run(Factory(seed), events), e)
    ensures var d := Run(Factory(seed), events); d.stored.Some? && d.stored.value.session == d.handshakes
    ensures exists m :: k < m < |events| && Shakes(events[m])
  {
    hide Step, Run;
    RunKeepsInv(Factory(seed), events);
    var before, later := events[..k], events[k + 1..];
    RunStep(Factory(seed), before, events[k]);
    RunConcat(Factory(seed), before + [events[k]], later);
    assert before + [events[k]] + later == events;
    if forall m :: 0 <= m < |later| ==> !Shakes(later[m]) {
      NothingIsResumedBeforeAHandshake(Run(Factory(seed), before), events[k], later, e);
    } else {
      var m :| 0 <= m < |later| && Shakes(later[m]);
      assert later[m] == events[k + 1 + m];
    }
  }

  // The sessions resumed since the last handshake or received message, counted in the events.
  function Resumptions(d: Device, events: seq<Event>): nat {
    if events == [] then 0
    else
      var front, e := events[..|events| - 1], events[|events| - 1];
      var before := Run(d, front);
      if Resumes(before, e) then Resumptions(d, front) + 1
      else if Shakes(e) || (e.Receive? && e.reception.Got? && before.open) then 0
      else Resumptions(d, front)
  }

  lemma {:induction false} StreakIsResumptions(seed: nat, events: seq<Event>)
    ensures Run(Factory(seed), events).streak == Resumptions(Factory(seed), events)
  {
    hide Step;
    if events != [] {
      StreakIsResumptions(seed, events[..|events| - 1]);
      StreakStep(Run(Factory(seed), events[..|events| - 1]), events[|events| - 1]);
    }
  }

  lemma StreakStep(d: Device, e: Event)
    ensures Step(d, e).streak
         == if Resumes(d, e) then d.streak + 1
            else if Shakes(e) || (e.Receive? && e.reception.Got? && d.open) then 0
            else d.streak
  {
    hide SessionReset, UseCounted, Discarded;
    ResetKeepsStreak(d);
    if e.Establish? || e.Begin? {
      var before := if e.Begin? && e.restart then Rebooted(d, e.seed) else d;
      EstablishedStreak(before, e.keys, e.attempt);
    } else if e.Send? {
      ResetKeepsStreak(if e.assign && !e.direct then d.(nextId := d.nextId + 1) else d);
    }
  }

  lemma ResetKeepsStreak(d: Device)
    ensures SessionReset(d).streak == d.streak
  {
  }

  lemma EstablishedStreak(d: Device, keys: uint32, a: Attempt)
    ensures Established(d, keys, a).streak
         == if a.ready && a.derived && Resumable(d, keys) then d.streak + 1
            else if a.ready && a.again && a.shaken then 0
            else d.streak
  {
    hide SessionReset;
    var closed := d.(open := false);
    assert Resumable(closed, keys) == Resumable(d, keys);
    var found := if Resumable(closed, keys) then
                   var r := UseCounted(closed);
                   r.(memory := r.memory.(valid := false), nextId := r.memory.nextId)
                 else Discarded(closed, keys);
    assert found.streak == d.streak;
    ResetKeepsStreak(found);
    ResetKeepsStreak(SessionReset(found));
  }

  // ---- What a received message is worth

  // The session is open, and its record, in memory and in storage, is for these keys and has been used so many times at
  // most.
  ghost predicate InUse(d: Device, keys: uint32, uses: nat) {
    && d.open && d.stored.Some? && d.memory.persistent
    && d.memory.valid && d.memory.keysChecksum == keys && d.memory.uses <= uses
    && d.stored.value.valid && d.stored.value.keysChecksum == keys && d.stored.value.uses <= uses
    && d.stored.value.persistent
  }

  // Nothing goes wrong with the session.
  predicate Harmless(e: Event) {
    match e
    case Receive(reception) => reception.Got? || reception.Nothing?
    case Send(direct, _, written) => direct || written
    case NotifyEstablished => true
    case Move => true
    case Load => true
    case Save => true
    case _ => false
  }

  // A connection attempt with these keys, after a restart or not, that can restore a session.
  predicate CanResume(e: Event, keys: uint32) {
    e.Begin? && e.keys == keys && e.attempt.ready && e.attempt.derived
  }

  lemma HarmlessKeepsUse(d: Device, e: Event, keys: uint32, uses: nat)
    requires InUse(d, keys, uses) && Harmless(e)
    ensures InUse(Step(d, e), keys, uses)
    ensures d.moving && !(e.Receive? && e.reception.Got?) ==> Step(d, e).moving
    ensures d.moving && e.Receive? && e.reception.Got? ==> InUse(Step(d, e), keys, 0)
  {
  }

  lemma BeginResumes(d: Device, e: Event, keys: uint32, uses: nat)
    requires CanResume(e, keys) && InUse(d, keys, uses) && uses < MAXIMUM_SESSION_USES
    ensures Resumes(d, e) && InUse(Step(d, e), keys, uses + 1)
  {
  }

  function Begins(events: seq<Event>): nat {
    if events == [] then 0
    else Begins(events[..|events| - 1]) + if events[|events| - 1].Begin? then 1 else 0
  }

  lemma {:induction false} UsesAreBegins(d: Device, keys: uint32, events: seq<Event>)
    requires InUse(d, keys, 0) && Begins(events) <= MAXIMUM_SESSION_USES
    requires forall k :: 0 <= k < |events| ==> Harmless(events[k]) || CanResume(events[k], keys)
    ensures InUse(Run(d, events), keys, Begins(events))
  {
    hide InUse, Step;
    if events != [] {
      var front, e := events[..|events| - 1], events[|events| - 1];
      UsesAreBegins(d, keys, front);
      if Harmless(e) {
        HarmlessKeepsUse(Run(d, front), e, keys, Begins(front));
      } else {
        BeginResumes(Run(d, front), e, keys, Begins(front));
      }
    }
  }

  lemma {:induction false} StillMoving(d: Device, keys: uint32, events: seq<Event>)
    requires InUse(d, keys, MAXIMUM_SESSION_USES) && d.moving
    requires forall k :: 0 <= k < |events| ==> Harmless(events[k])
    ensures var d' := Run(d, events);
            (InUse(d', keys, MAXIMUM_SESSION_USES) && d'.moving) || InUse(d', keys, 0)
  {
    hide InUse, Step;
    if events != [] {
      var front, e := events[..|events| - 1], events[|events| - 1];
      StillMoving(d, keys, front);
      var d' := Run(d, front);
      if InUse(d', keys, 0) {
        HarmlessKeepsUse(d', e, keys, 0);
      } else {
        HarmlessKeepsUse(d', e, keys, MAXIMUM_SESSION_USES);
      }
    }
  }

  lemma ResumedIsMoved(d: Device, e: Event)
    requires Inv(d) && e.Begin? && Resumes(d, e)
    ensures InUse(Step(d, e), e.keys, MAXIMUM_SESSION_USES) && Step(d, e).moving
  {
  }

  // Once a message has been received in a session that was resumed, the next three connections with the same keys resume
  // it, whatever else happens, as long as nothing goes wrong.
  lemma ReceivedMessageRenews(seed: nat, before: seq<Event>, resumed: Event, quiet: seq<Event>, later: seq<Event>,
                              next: Event)
    requires resumed.Begin? && Resumes(Run(Factory(seed), before), resumed)
    requires forall k :: 0 <= k < |quiet| ==> Harmless(quiet[k])
    requires forall k :: 0 <= k < |later| ==> Harmless(later[k]) || CanResume(later[k], resumed.keys)
    requires Begins(later) < MAXIMUM_SESSION_USES && CanResume(next, resumed.keys)
    ensures Resumes(Run(Step(Run(Step(Run(Factory(seed), before), resumed), quiet), Receive(Got)), later), next)
  {
    hide InUse, Step, Run, Inv, Resumes;
    RunKeepsInv(Factory(seed), before);
    var d0 := Run(Factory(seed), before);
    ResumedIsMoved(d0, resumed);
    StillMoving(Step(d0, resumed), resumed.keys, quiet);
    var d1 := Run(Step(d0, resumed), quiet);
    if InUse(d1, resumed.keys, 0) {
      HarmlessKeepsUse(d1, Receive(Got), resumed.keys, 0);
    } else {
      HarmlessKeepsUse(d1, Receive(Got), resumed.keys, MAXIMUM_SESSION_USES);
    }
    UsesAreBegins(Step(d1, Receive(Got)), resumed.keys, later);
    BeginResumes(Run(Step(d1, Receive(Got)), later), next, resumed.keys, Begins(later));
  }

  // The new message IDs that are sent in one session, across any number of reboots and resumptions, do not repeat
  // within 65536 assignments.
  lemma {:induction false} MessageIdsDoNotRepeat(seed: nat, events: seq<Event>, i: nat, j: nat)
    requires i < j < |Run(Factory(seed), events).sentIds|
    ensures var ids := Run(Factory(seed), events).sentIds;
            && ids[i] < ids[j]
            && (ids[j] - ids[i] < 0x1_0000 ==> Low16(ids[i]) != Low16(ids[j]))
  {
    hide Run, Step;
    RunKeepsInv(Factory(seed), events);
    var ids := Run(Factory(seed), events).sentIds;
    if ids[j] - ids[i] < 0x1_0000 {
      LowBitsDiffer(ids[i], ids[j]);
    }
  }

  lemma LowBitsDiffer(a: nat, b: nat)
    requires a < b < a + 0x1_0000
    ensures Low16(a) != Low16(b)
  {
  }

  // ---- Where the promise ends

  // The use counter is not set back by a new handshake. After a handshake at a restart, the new session can be resumed
  // at the next restart exactly when the record found before had not been used up.
  lemma NewSessionIsResumable(d: Device, seed: nat, keys: uint32, a: Attempt, next: Event)
    requires a.ready && a.again && a.shaken && !(a.derived && Resumable(d, keys))
    requires next.Begin? && next.restart && next.keys == keys && next.attempt.ready && next.attempt.derived
    ensures var used := if d.stored.None? then 0
                        else d.stored.value.uses + if Resumable(d, keys) then 1 else 0;
            var established := Step(Step(d, Begin(true, seed, keys, a)), NotifyEstablished);
            Resumes(established, next) <==> used < MAXIMUM_SESSION_USES
  {
  }

  // Protocol starts every connection with begin, which moves the session exactly when it was resumed. The context can
  // be set up.
  predicate FromProtocol(e: Event) {
    !e.Reboot? && !e.Establish? && !e.Move? && (e.Begin? ==> e.attempt.ready)
  }

  ghost predicate WornOut(d: Device) {
    && !d.moving && d.memory.uses >= MAXIMUM_SESSION_USES
    && d.stored.Some? && d.stored.value.uses >= MAXIMUM_SESSION_USES
  }

  lemma WornOutStep(d: Device, e: Event)
    requires WornOut(d) && FromProtocol(e)
    ensures WornOut(Step(d, e)) && !Resumes(d, e)
  {
  }

  // The stored record is the one for these keys, and it is used up.
  predicate UsedUp(d: Device, keys: uint32) {
    d.stored.Some? && d.stored.value.valid && d.stored.value.keysChecksum == keys
    && d.stored.value.uses >= MAXIMUM_SESSION_USES
  }

  // Once a session has been given up because it was used up, no later session is ever resumed: every connection needs
  // a handshake from then on.
  lemma {:induction false} ExpiryIsForever(d: Device, seed: nat, keys: uint32, a: Attempt, events: seq<Event>, e: Event)
    requires UsedUp(d, keys) && a.ready
    requires (forall k :: 0 <= k < |events| ==> FromProtocol(events[k])) && FromProtocol(e)
    ensures var d' := Run(Step(d, Begin(true, seed, keys, a)), events);
            WornOut(d') && !Resumes(d', e)
    decreases |events|
  {
    var d1 := Step(d, Begin(true, seed, keys, a));
    if events == [] {
      assert WornOut(d1);
      WornOutStep(d1, e);
    } else {
      var front, last := events[..|events| - 1], events[|events| - 1];
      ExpiryIsForever(d, seed, keys, a, front, last);
      WornOutStep(Run(d1, front), last);
      WornOutStep(Run(d1, events), e);
    }
  }

  const GOOD := Attempt(true, true, true, true)

  // A new device gets there: a handshake, and three restarts at which nothing is received.
  function FourBegins(keys: uint32): seq<Event> {
    var begin := Begin(true, 0, keys, GOOD);
    [begin, NotifyEstablished, begin, begin, begin]
  }

  lemma RunNothing(d: Device)
    ensures Run(d, []) == d
  {
  }

  lemma RunStep(d: Device, events: seq<Event>, e: Event)
    ensures Run(d, events + [e]) == Step(Run(d, events), e)
  {
    assert (events + [e])[..|events|] == events;
  }

  lemma ExpiryIsReached(keys: uint32)
    ensures UsedUp(Run(Factory(0), FourBegins(keys)), keys)
    ensures forall k :: 0 <= k < |FourBegins(keys)| ==> FromProtocol(FourBegins(keys)[k])
  {
    hide Step, Run;
    var begin := Begin(true, 0, keys, GOOD);
    RunNothing(Factory(0));
    RunStep(Factory(0), [], begin);
    RunStep(Factory(0), [begin], NotifyEstablished);
    RunStep(Factory(0), [begin, NotifyEstablished], begin);
    RunStep(Factory(0), [begin, NotifyEstablished, begin], begin);
    RunStep(Factory(0), [begin, NotifyEstablished, begin, begin], begin);
    assert [begin] == [] + [begin] && [begin, NotifyEstablished] == [begin] + [NotifyEstablished];
    assert [begin, NotifyEstablished, begin] == [begin, NotifyEstablished] + [begin];
    assert [begin, NotifyEstablished, begin, begin] == [begin, NotifyEstablished, begin] + [begin];
    assert FourBegins(keys) == [begin, NotifyEstablished, begin, begin] + [begin];
    FirstBegin(keys);
    var d1 := Step(Step(Factory(0), begin), NotifyEstablished);
    OneMoreUse(d1, keys);
    OneMoreUse(Step(d1, begin), keys);
    OneMoreUse(Step(Step(d1, begin), begin), keys);
  }

  // The stored record is valid for these keys and has been used a number of times.
  predicate Used(d: Device, keys: uint32, uses: nat) {
    d.stored.Some? && d.stored.value.valid && d.stored.value.keysChecksum == keys && d.stored.value.uses == uses
  }

  lemma FirstBegin(keys: uint32)
    ensures var d := Step(Step(Factory(0), Begin(true, 0, keys, GOOD)), NotifyEstablished);
            Used(d, keys, 0) && d.stored.value.persistent
  {
  }

  lemma OneMoreUse(d: Device, keys: uint32)
    requires Resumable(d, keys) && d.stored.value.persistent
    ensures var d' := Step(d, Begin(true, 0, keys, GOOD));
            Used(d', keys, d.stored.value.uses + 1) && d'.stored.value.persistent
  {
  }
}
