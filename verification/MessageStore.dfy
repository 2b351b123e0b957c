// CoAPMessage and CoAPMessageStore: a singly linked list of heap-allocated messages, proved against StoreSpec.
module MessageStore {
  import opened Words
  import opened CoapMessage
  import opened StoreSpec
  import opened Link

  // The longest message that CoAPMessage::set_data keeps; every channel buffer is shorter.
  const MAX_DATA_LENGTH := 1500

  class CoAPMessage {
    const id: uint16
    const data: seq<byte>
    var next: CoAPMessage?
    var timeout: uint32
    var transmitCount: nat
    var delivered: DeliveryFlag?

    // CoAPMessage::create: keeps the first dataLen bytes of the message, or all of it when dataLen is 0.
    constructor (bytes: seq<byte>, dataLen: nat, counter: MessageCounter)
      requires MINIMUM_COAP_MESSAGE_LENGTH <= |bytes| <= MAX_DATA_LENGTH
      modifies counter
      ensures id == IdOf(bytes)
      ensures data == if dataLen != 0 && dataLen < |bytes| then bytes[..dataLen] else bytes
      ensures next == null && timeout == 0 && transmitCount == 0 && delivered == null
      ensures counter.count == old(counter.count) + 1
    {
      id := IdOf(bytes);
      data := if dataLen != 0 && dataLen < |bytes| then bytes[..dataLen] else bytes;
      next, timeout, transmitCount, delivered := null, 0, 0, null;
      new;
      counter.count := counter.count + 1;
    }

    ghost function ToEntry(): Entry
      reads this
    {
      Entry(id, data, timeout, transmitCount, delivered != null)
    }

    // CoAPMessage::prepare_retransmit
    method PrepareRetransmit(now: uint32, draw: byte) returns (again: bool)
      requires |data| > 0
      modifies this`timeout, this`transmitCount
      ensures TypeOf(data) == CON ==> ToEntry() == BackedOff(old(ToEntry()), now, draw)
      ensures TypeOf(data) != CON ==> ToEntry() == old(ToEntry())
      ensures again <==> TypeOf(data) == CON && transmitCount <= MAX_RETRANSMIT + 1
    {
      if TypeOf(data) == CON {
        timeout := Low32(now + TransmitTimeout(transmitCount, draw));
        transmitCount := transmitCount + 1;
        return transmitCount <= MAX_RETRANSMIT + 1;
      }
      return false;
    }

    // CoAPMessage::set_expiration
    method SetExpiration(time: uint32)
      modifies this`timeout, this`transmitCount
      ensures timeout == time && transmitCount == DO_NOT_SEND
    {
      timeout := time;
      transmitCount := MAX_RETRANSMIT + 2;
    }
  }

  // The destructor ~CoAPMessage
  method Delete(msg: CoAPMessage?, counter: MessageCounter)
    modifies counter
    ensures counter.count == if msg == null then old(counter.count) else old(counter.count) - 1
  {
    if msg != null {
      counter.count := counter.count - 1;
    }
  }

  // The node at a position, or null past the end.
  ghost function At(ns: seq<CoAPMessage>, k: nat): CoAPMessage? {
    if k < |ns| then ns[k] else null
  }

  ghost predicate AllWellFormed(s: seq<Entry>) {
    forall e :: e in s ==> WellFormed(e)
  }

  class CoAPMessageStore {
    const counter: MessageCounter
    const flag: DeliveryFlag
    var head: CoAPMessage?
    ghost var nodes: seq<CoAPMessage>
    ghost var entries: seq<Entry>
    // A set of messages to which the nodes belong.
    ghost var Repr: set<CoAPMessage>

    // The node at position i carries entry i and is linked to its successor.
    ghost predicate Represents(ns: seq<CoAPMessage>, es: seq<Entry>, i: nat)
      requires |ns| == |es|
      reads ns
    {
      i < |ns| &&
      var n, e := ns[i], es[i];
      && n.next == At(ns, i + 1)
      && n.id == e.id && n.data == e.data && n.timeout == e.timeout && n.transmitCount == e.transmitCount
      && n.delivered == if e.watched then flag else null
    }

    // The chain from head is exactly the nodes, so it is acyclic, and it represents the entries.
    ghost predicate Valid()
      reads this, Repr
    {
      && (forall i :: 0 <= i < |nodes| ==> nodes[i] in Repr)
      && head == At(nodes, 0)
      && StoreSpec.Valid(entries)
      && |entries| == |nodes|
      && (forall i: nat :: i < |nodes| ==> Represents(nodes, entries, i))
    }

    constructor (counter: MessageCounter, flag: DeliveryFlag)
      ensures Valid() && entries == [] && nodes == [] && Repr == {}
      ensures this.counter == counter && this.flag == flag
    {
      this.counter := counter;
      this.flag := flag;
      head := null;
      nodes, entries, Repr := [], [], {};
    }

    // CoAPMessageStore::for_id, with the position of the result.
    method ForId(id: uint16) returns (found: CoAPMessage?, prev: CoAPMessage?, ghost k: nat)
      requires Valid()
      ensures found == null ==> k == |nodes| && forall i :: 0 <= i < |entries| ==> entries[i].id != id
      ensures found != null ==> k < |nodes| && found == nodes[k] && entries[k].id == id
      ensures found != null ==> prev == if k == 0 then null else nodes[k - 1]
    {
      prev := null;
      found := head;
      k := 0;
      while found != null
        invariant k <= |nodes|
        invariant found == At(nodes, k)
        invariant prev == if k == 0 then null else nodes[k - 1]
        invariant forall j :: 0 <= j < k ==> entries[j].id != id
        decreases |nodes| - k
      {
        assert Represents(nodes, entries, k);
        if found.id == id {
          return;
        }
        prev := found;
        found := found.next;
        k := k + 1;
      }
    }

    // CoAPMessageStore::remove(message, previous): unlinks the node at position k.
    method Unlink(message: CoAPMessage, previous: CoAPMessage?, ghost k: nat)
      requires Valid()
      requires k < |nodes| && message == nodes[k] && previous == if k == 0 then null else nodes[k - 1]
      modifies this`head, this`nodes, this`entries, nodes`next
      ensures Valid() && message.next == null && message !in nodes
      ensures nodes == old(nodes[..k] + nodes[k + 1..])
      ensures entries == old(entries[..k] + entries[k + 1..])
    {
      ghost var ns, es := nodes, entries;
      DistinctNodes();
      assert Represents(ns, es, k);
      if previous != null {
        assert Represents(ns, es, k - 1);
        previous.next := message.next;
      } else {
        head := message.next;
      }
      message.next := null;
      nodes := ns[..k] + ns[k + 1..];
      entries := es[..k] + es[k + 1..];
      forall i: nat | i < |nodes|
        ensures Represents(nodes, entries, i)
      {
        var j := if i < k then i else i + 1;
        assert old(Represents(ns, es, j));
      }
    }

    lemma DistinctNodes()
      requires Valid()
      ensures forall i, j :: 0 <= i < j < |nodes| ==> nodes[i] != nodes[j]
    {
      forall i: nat, j: nat | i < j < |nodes|
        ensures nodes[i] != nodes[j]
      {
        assert Represents(nodes, entries, i) && Represents(nodes, entries, j);
      }
    }

    // CoAPMessageStore::remove(msg_id)
    method Remove(id: uint16) returns (msg: CoAPMessage?)
      requires Valid()
      modifies this`head, this`nodes, this`entries, nodes`next
      ensures Valid() && entries == Without(old(entries), id)
      ensures msg == null <==> Find(old(entries), id) == Absent
      ensures msg == null ==> nodes == old(nodes)
      ensures msg != null ==> msg in old(nodes) && msg !in nodes && msg.next == null && msg.id == id
      ensures forall n :: n in nodes ==> n in old(nodes)
      ensures |entries| == |old(entries)| - if msg == null then 0 else 1
    {
      var found, prev, k := ForId(id);
      msg := found;
      if msg != null {
        AtPosition(entries, k);
        assert Represents(nodes, entries, k);
        Unlink(msg, prev, k);
      } else {
        NotFound(entries, id);
      }
    }

    // CoAPMessageStore::clear_message
    method ClearMessage(id: uint16) returns (existed: bool)
      requires Valid()
      modifies this`head, this`nodes, this`entries, nodes`next, counter
      ensures Valid() && entries == Without(old(entries), id)
      ensures forall n :: n in nodes ==> n in old(nodes)
      ensures existed <==> Find(old(entries), id) != Absent
      ensures counter.count == old(counter.count) + |entries| - |old(entries)|
    {
      var msg := Remove(id);
      Delete(msg, counter);
      existed := msg != null;
    }

    // CoAPMessageStore::clear
    method Clear()
      requires Valid()
      modifies this`head, this`nodes, this`entries, Repr`next, counter
      ensures Valid() && entries == [] && nodes == []
      ensures counter.count == old(counter.count) - |old(entries)|
    {
      while head != null
        invariant Valid()
        invariant counter.count == old(counter.count) + |entries| - |old(entries)|
        decreases |entries|
      {
        assert Represents(nodes, entries, 0);
        AtPosition(entries, 0);
        var msg := Remove(head.id);
        Delete(msg, counter);
      }
    }

    // CoAPMessageStore::from_id
    method FromId(id: uint16) returns (msg: CoAPMessage?)
      requires Valid()
      ensures msg == null <==> Find(entries, id) == Absent
      ensures msg != null ==> msg in nodes && Find(entries, id) == Present(msg.ToEntry())
      ensures forall n :: n in nodes && n.id == id ==> n == msg
    {
      var found, prev, k := ForId(id);
      msg := found;
      if msg != null {
        AtPosition(entries, k);
        assert Represents(nodes, entries, k);
      } else {
        NotFound(entries, id);
      }
      forall i: nat | i < |nodes| && nodes[i].id == id
        ensures nodes[i] == msg
      {
        assert Represents(nodes, entries, i);
      }
    }

    // The last step of add: a new message becomes the head.
    method Prepend(message: CoAPMessage)
      requires Valid()
      requires message !in nodes && StoreSpec.Valid([message.ToEntry()] + entries)
      requires message.delivered == null || message.delivered == flag
      modifies this`head, this`nodes, this`entries, this`Repr, message`next
      ensures Valid()
      ensures Repr == old(Repr) + {message}
      ensures nodes == [message] + old(nodes) && entries == [old(message.ToEntry())] + old(entries)
    {
      ghost var ns, es := nodes, entries;
      message.next := head;
      head := message;
      nodes := [message] + ns;
      entries := [message.ToEntry()] + es;
      Repr := Repr + {message};
      forall i: nat | i < |nodes|
        ensures Represents(nodes, entries, i)
      {
        if i > 0 {
          assert old(Represents(ns, es, i - 1));
        }
      }
    }

    // CoAPMessageStore::add
    method Add(message: CoAPMessage) returns (error: ProtocolError)
      requires Valid()
      requires message !in nodes ==>
                 WellFormed(message.ToEntry()) && (message.delivered == null || message.delivered == flag)
      modifies this`head, this`nodes, this`entries, this`Repr, nodes`next, message`next, counter
      ensures Valid()
      ensures message in old(nodes) ==> error == NoError && entries == old(entries) && nodes == old(nodes)
      ensures message !in old(nodes) && old(message.next) != null ==>
                error == InvalidState && entries == Without(old(entries), message.id)
      ensures message !in old(nodes) && old(message.next) == null ==>
                error == NoError && entries == Put(old(entries), message.ToEntry())
      ensures old(Repr) <= Repr <= old(Repr) + {message}
      ensures counter.count == old(counter.count)
                - if message in old(nodes) || Find(old(entries), message.id) == Absent then 0 else 1
    {
      var existing := FromId(message.id);
      if existing == message {
        return NoError;
      }
      WithoutKeepsValid(entries, message.id);
      var _ := ClearMessage(message.id);
      if message.next != null {
        return InvalidState;
      }
      Prepend(message);
      return NoError;
    }

    // CoAPMessageStore::send_message
    method SendMessage(msg: CoAPMessage, link: Link) returns (error: ProtocolError)
      modifies link`sent
      ensures link.sent == old(link.sent) + [msg.data]
      ensures error == link.sendResults(|old(link.sent)|).ToError()
    {
      error := link.Send(msg.data);
    }

    // CoAPMessageStore::retransmit, for the node at position k
    method Retransmit(msg: CoAPMessage, ghost k: nat, link: Link, now: uint32, draw: byte) returns (again: bool)
      requires Valid() && k < |nodes| && msg == nodes[k]
      modifies msg`timeout, msg`transmitCount, this`entries, link`sent
      ensures Valid() && |entries| == |old(entries)|
      ensures again <==> TypeOf(old(entries)[k].data) == CON && old(entries)[k].transmitCount <= MAX_RETRANSMIT
      ensures again ==> entries == old(entries)[k := BackedOff(old(entries)[k], now, draw)]
      ensures !again ==> entries[..k] == old(entries)[..k] && entries[k + 1..] == old(entries)[k + 1..]
      ensures !again ==> entries[k].watched == old(entries)[k].watched
      ensures link.sent == old(link.sent) + if again then [msg.data] else []
    {
      assert Represents(nodes, entries, k);
      DistinctNodes();
      ghost var ns, es := nodes, entries;
      again := msg.PrepareRetransmit(now, draw);
      if again {
        var _ := SendMessage(msg, link);
      }
      entries := es[k := msg.ToEntry()];
      forall i: nat | i < |nodes|
        ensures Represents(nodes, entries, i)
      {
        assert old(Represents(ns, es, i)) && (i != k ==> nodes[i] != msg);
      }
    }

    // CoAPMessageStore::message_timeout, after the message has been unlinked
    method ReportTimeout(msg: CoAPMessage, link: Link)
      requires msg.delivered == null || msg.delivered == flag
      modifies flag, link`commands
      ensures flag.error == if msg.delivered != null then MessageTimeout else old(flag.error)
      ensures link.commands == old(link.commands) + if IsRequest(msg.data) then [Close] else []
    {
      if msg.delivered != null {
        msg.delivered.error := MessageTimeout;
      }
      if IsRequest(msg.data) {
        link.Command(Close);
      }
    }

    // The body of the loop in CoAPMessageStore::process
    method ProcessNode(msg: CoAPMessage, prev: CoAPMessage?, ghost i: nat, now: uint32, draw: byte, link: Link)
      returns (kept: bool)
      requires Valid()
      requires i < |nodes| && msg == nodes[i] && prev == if i == 0 then null else nodes[i - 1]
      modifies this`head, this`nodes, this`entries, Repr, link`sent, link`commands, flag, counter
      ensures Valid()
      ensures kept <==> FateOf(old(entries)[i], now) != Dropped
      ensures nodes == if kept then old(nodes) else old(nodes[..i] + nodes[i + 1..])
      ensures FateOf(old(entries)[i], now) == Waits ==> entries == old(entries)
      ensures FateOf(old(entries)[i], now) == Resent ==>
                entries == old(entries)[i := BackedOff(old(entries)[i], now, draw)]
      ensures FateOf(old(entries)[i], now) == Dropped ==> entries == old(entries)[..i] + old(entries)[i + 1..]
      ensures link.sent == old(link.sent) +
                if FateOf(old(entries)[i], now) == Resent then [old(entries)[i].data] else []
      ensures link.commands == old(link.commands) +
                if !kept && IsRequest(old(entries)[i].data) then [Close] else []
      ensures flag.error == if !kept && old(entries)[i].watched then MessageTimeout else old(flag.error)
      ensures counter.count == if kept then old(counter.count) else old(counter.count) - 1
    {
      assert Represents(nodes, entries, i);
      kept := true;
      if TimeHasPassed(now, msg.timeout) {
        kept := Retransmit(msg, i, link, now, draw);
        if !kept {
          assert Represents(nodes, entries, i);
          Unlink(msg, prev, i);
          ReportTimeout(msg, link);
          Delete(msg, counter);
        }
      }
    }

    // ProcessNode, with the entries split into those already treated and the rest
    method Advance(msg: CoAPMessage, prev: CoAPMessage?, now: uint32, draw: byte, link: Link,
                   ghost done: seq<Entry>, ghost rest: seq<Entry>)
      returns (prev': CoAPMessage?, msg': CoAPMessage?, ghost done': seq<Entry>)
      requires Valid() && entries == done + rest && rest != [] && WellFormed(rest[0])
      requires msg == At(nodes, |done|) && prev == if done == [] then null else nodes[|done| - 1]
      modifies this`head, this`nodes, this`entries, Repr, link`sent, link`commands, flag, counter
      ensures Valid() && done' == done + AfterPass(rest[0], now, draw) && entries == done' + rest[1..]
      ensures msg' == At(nodes, |done'|) && prev' == if done' == [] then null else nodes[|done'| - 1]
      ensures link.sent == old(link.sent) + if FateOf(rest[0], now) == Resent then [rest[0].data] else []
      ensures link.commands == old(link.commands) +
                if FateOf(rest[0], now) == Dropped && IsRequest(rest[0].data) then [Close] else []
      ensures flag.error ==
              if FateOf(rest[0], now) == Dropped && rest[0].watched then MessageTimeout else old(flag.error)
      ensures counter.count == old(counter.count) + |entries| - |old(entries)|
    {
      ghost var i := |done|;
      ghost var es := entries;
      assert es[i] == rest[0];
      var kept := ProcessNode(msg, prev, i, now, draw, link);
      done' := done + AfterPass(rest[0], now, draw);
      PassedOn(done, rest, now, draw, entries);
      if kept {
        assert Represents(nodes, entries, i);
        prev' := msg;
        msg' := msg.next;
      } else {
        assert i == 0 || Represents(nodes, entries, i - 1);
        prev' := prev;
        msg' := if prev == null then head else prev.next;
      }
    }

    // CoAPMessageStore::process
    method Process(now: uint32, draws: Draws, link: Link)
      requires Valid()
      modifies this`head, this`nodes, this`entries, Repr, link`sent, link`commands, flag, counter
      ensures Valid() && entries == Processed(old(entries), now, draws)
      ensures link.sent == old(link.sent) + Resends(old(entries), now)
      ensures link.commands == old(link.commands) + Closes(old(entries), now)
      ensures flag.error == if ReportsTimeout(old(entries), now) then MessageTimeout else old(flag.error)
      ensures counter.count == old(counter.count) + |entries| - |old(entries)|
    {
      ghost var done: seq<Entry>, rest := [], entries;
      ghost var reported := false;
      var msg, prev: CoAPMessage? := head, null;
      while msg != null
        invariant Valid() && entries == done + rest
        invariant msg == At(nodes, |done|) && prev == if done == [] then null else nodes[|done| - 1]
        invariant AllWellFormed(rest)
        invariant done + Processed(rest, now, draws) == Processed(old(entries), now, draws)
        invariant link.sent + Resends(rest, now) == old(link.sent) + Resends(old(entries), now)
        invariant link.commands + Closes(rest, now) == old(link.commands) + Closes(old(entries), now)
        invariant reported || ReportsTimeout(rest, now) <==> ReportsTimeout(old(entries), now)
        invariant flag.error == if reported then MessageTimeout else old(flag.error)
        invariant counter.count == old(counter.count) + |entries| - |old(entries)|
        decreases |rest|
      {
        ghost var e := rest[0];
        assert Represents(nodes, entries, |done|) && entries[|done|] == e;
        Reassociate(done, AfterPass(e, now, draws(e.id)), Processed(rest[1..], now, draws));
        Reassociate(link.sent, if FateOf(e, now) == Resent then [e.data] else [], Resends(rest[1..], now));
        Reassociate(link.commands, if FateOf(e, now) == Dropped && IsRequest(e.data) then [Close] else [],
                    Closes(rest[1..], now));
        prev, msg, done := Advance(msg, prev, now, draws(msg.id), link, done, rest);
        rest := rest[1..];
        reported := reported || (FateOf(e, now) == Dropped && e.watched);
      }
      assert rest == [];
    }

    method KeepForRetransmission(bytes: seq<byte>, now: uint32, draw: byte)
      requires Valid() && MINIMUM_COAP_MESSAGE_LENGTH <= |bytes| <= MAX_DATA_LENGTH && TypeOf(bytes) == CON
      modifies this`head, this`nodes, this`entries, this`Repr, Repr`next, counter
      ensures Valid() && fresh(Repr - old(Repr))
      ensures entries == Put(old(entries),
                             Entry(IdOf(bytes), bytes, Low32(now + TransmitTimeout(0, draw)), 1, false))
      ensures counter.count == old(counter.count) + |entries| - |old(entries)|
    {
      WithoutKeepsValid(entries, IdOf(bytes));
      var coapMessage := new CoAPMessage(bytes, 0, counter);
      var _ := coapMessage.PrepareRetransmit(now, draw);
      var _ := Add(coapMessage);
    }

    method KeepUntilExpired(bytes: seq<byte>, dataLen: nat, now: uint32)
      requires Valid() && MINIMUM_COAP_MESSAGE_LENGTH <= |bytes| <= MAX_DATA_LENGTH && dataLen in {0, 5}
      modifies this`head, this`nodes, this`entries, this`Repr, Repr`next, counter
      ensures Valid() && fresh(Repr - old(Repr))
      ensures entries == Put(old(entries), Entry(IdOf(bytes), if dataLen == 0 then bytes else bytes[..Min(5, |bytes|)],
                                                 Low32(now + MAX_TRANSMIT_SPAN), DO_NOT_SEND, false))
      ensures counter.count == old(counter.count) + |entries| - |old(entries)|
    {
      WithoutKeepsValid(entries, IdOf(bytes));
      var coapMessage := new CoAPMessage(bytes, dataLen, counter);
      coapMessage.SetExpiration(Low32(now + MAX_TRANSMIT_SPAN));
      assert coapMessage.data == if dataLen == 0 then bytes else bytes[..Min(5, |bytes|)];
      var _ := Add(coapMessage);
    }

    // CoAPMessageStore::send
    method Send(msg: Message, now: uint32, draw: byte) returns (error: ProtocolError)
      requires Valid() && msg.Stamped()
      requires MINIMUM_COAP_MESSAGE_LENGTH <= |msg.bytes| <= MAX_DATA_LENGTH
      modifies this`head, this`nodes, this`entries, this`Repr, Repr`next, counter
      ensures Valid() && fresh(Repr - old(Repr))
      ensures error == if msg.id < 0 then MissingMessageId else NoError
      ensures msg.id < 0 ==> Repr == old(Repr)
      ensures entries == if msg.id < 0 then old(entries) else Sent(old(entries), msg.bytes, now, draw)
      ensures counter.count == old(counter.count) + |entries| - |old(entries)|
    {
      if msg.id < 0 {
        return MissingMessageId;
      }
      var coapType := TypeOf(msg.bytes);
      if coapType == CON {
        KeepForRetransmission(msg.bytes, now, draw);
      } else if coapType in {ACK, RESET} {
        KeepUntilExpired(msg.bytes, 0, now);
      }
      return NoError;
    }

    // The part of receive for a confirmable request: a duplicate is swallowed and gets the stored answer, if there is one.
    method RequestArrived(msg: Message, link: Link, now: uint32) returns (error: ProtocolError)
      requires Valid() && |msg.bytes| <= MAX_DATA_LENGTH && MessageType(msg.bytes) == CON
      modifies this`head, this`nodes, this`entries, this`Repr, Repr`next, counter, msg`bytes, link`sent
      ensures Valid() && fresh(Repr - old(Repr))
      ensures var r := React(old(entries), old(msg.bytes), now);
              && entries == r.entries && msg.bytes == (if r.passed then old(msg.bytes) else [])
              && link.sent == old(link.sent) + r.replies
              && error == if r.replies == [] then NoError else link.sendResults(|old(link.sent)|).ToError()
      ensures counter.count == old(counter.count) + |entries| - |old(entries)|
    {
      var bytes := msg.bytes;
      var response := FromId(IdOf(bytes));
      if response != null {
        msg.bytes := [];
        if IsReply(response.data) {
          error := SendMessage(response, link);
          return;
        }
      } else {
        // first time this request is seen: keep its first 5 bytes to recognise duplicates
        KeepUntilExpired(bytes, 5, now);
      }
      return NoError;
    }

    // The part of receive that tells a delivery handler about a RESET and discards the session.
    method AcknowledgementArrived(bytes: seq<byte>, link: Link)
      requires Valid() && MessageType(bytes) in {ACK, RESET}
      modifies flag, link`commands
      ensures link.commands == old(link.commands) + if MessageType(bytes) == RESET then [DiscardSession] else []
      ensures flag.error == if React(entries, bytes, 0).nacked then MessageReset else old(flag.error)
    {
      var coapMessage := FromId(IdOf(bytes));
      if MessageType(bytes) == RESET {
        if coapMessage != null && coapMessage.delivered != null {
          flag.error := MessageReset;
        }
        link.Command(DiscardSession);
      }
    }

    // CoAPMessageStore::receive
    method Receive(msg: Message, link: Link, now: uint32) returns (error: ProtocolError)
      requires Valid() && |msg.bytes| <= MAX_DATA_LENGTH
      modifies this`head, this`nodes, this`entries, this`Repr, Repr`next, counter, flag, msg, link`sent, link`commands
      ensures Valid() && fresh(Repr - old(Repr))
      ensures entries == React(old(entries), old(msg.bytes), now).entries
      ensures msg.bytes == if React(old(entries), old(msg.bytes), now).passed then old(msg.bytes) else []
      ensures link.sent == old(link.sent) + React(old(entries), old(msg.bytes), now).replies
      ensures link.commands == old(link.commands) +
                if React(old(entries), old(msg.bytes), now).discard then [DiscardSession] else []
      ensures flag.error ==
              if React(old(entries), old(msg.bytes), now).nacked then MessageReset else old(flag.error)
      ensures error == if React(old(entries), old(msg.bytes), now).replies == [] then NoError
                       else link.sendResults(|old(link.sent)|).ToError()
      ensures counter.count == old(counter.count) + |entries| - |old(entries)|
    {
      var bytes := msg.bytes;
      var msgtype := MessageType(bytes);
      var _ := msg.DecodeId();
      if msgtype == ACK || msgtype == RESET {
        AcknowledgementArrived(bytes, link);
        var existed := ClearMessage(IdOf(bytes));
        if !existed {
          msg.bytes := [];
        }
      } else if msgtype == CON {
        error := RequestArrived(msg, link, now);
        return;
      }
      return NoError;
    }

    // Installs the delivery handler on the message with the given ID.
    method SetDeliveredHandler(id: uint16)
      requires Valid()
      modifies Repr`delivered, this`entries
      ensures Valid() && entries == WatchedAt(old(entries), id) && |entries| == |old(entries)|
    {
      var found, prev, k := ForId(id);
      if found != null {
        ghost var ns, es := nodes, entries;
        WatchedAtPosition(entries, k);
        DistinctNodes();
        found.delivered := flag;
        entries := es[k := es[k].(watched := true)];
        forall i: nat | i < |nodes|
          ensures Represents(nodes, entries, i)
        {
          assert old(Represents(ns, es, i)) && (i != k ==> nodes[i] != found);
        }
      } else {
        NotFound(entries, id);
      }
    }

    // CoAPMessageStore::has_messages
    predicate HasMessages()
      requires Valid()
      reads this, Repr
      ensures HasMessages() <==> entries != []
    {
      head != null
    }

    // CoAPMessageStore::has_unacknowledged_requests
    method HasUnacknowledgedRequests() returns (found: bool)
      requires Valid()
      ensures found <==> exists e :: e in entries && TypeOf(e.data) == CON
    {
      var msg := head;
      ghost var k := 0;
      while msg != null
        invariant k <= |nodes| && msg == At(nodes, k)
        invariant forall j :: 0 <= j < k ==> TypeOf(entries[j].data) != CON
        decreases |nodes| - k
      {
        assert Represents(nodes, entries, k);
        if TypeOf(msg.data) == CON {
          assert entries[k] in entries;
          return true;
        }
        msg := msg.next;
        k := k + 1;
      }
      return false;
    }
  }

  // The entry between those treated and the rest is kept, replaced or left out.
  lemma PassedOn(done: seq<Entry>, rest: seq<Entry>, now: uint32, draw: byte, after: seq<Entry>)
    requires rest != [] && WellFormed(rest[0])
    requires after == var es := done + rest; var i := |done|;
                      match FateOf(rest[0], now)
                      case Waits => es
                      case Resent => es[i := BackedOff(rest[0], now, draw)]
                      case Dropped => es[..i] + es[i + 1..]
    ensures after == done + AfterPass(rest[0], now, draw) + rest[1..]
  {
    assert done + rest == done + [rest[0]] + rest[1..];
  }
}
