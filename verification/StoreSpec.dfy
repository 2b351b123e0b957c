// The message store of the reliability layer as a value: the entries in list order, most recent first, and what
// each operation does to them. The linked list in MessageStore is proved against these functions.
module StoreSpec {
  import opened Words
  import opened CoapMessage

  const ACK_TIMEOUT := 4000
  const MAX_RETRANSMIT := 3
  const MAX_TRANSMIT_SPAN := 45000
  const DO_NOT_SEND := MAX_RETRANSMIT + 2

  // A stored message. Watched says that a delivery handler is installed.
  datatype Entry = Entry(id: uint16, data: seq<byte>, timeout: uint32, transmitCount: nat, watched: bool)

  // The outcome of rand() % 256 for each message that one processing pass retransmits.
  type Draws = uint16 -> byte

  predicate WellFormed(e: Entry) {
    |e.data| >= MINIMUM_COAP_MESSAGE_LENGTH && IdOf(e.data) == e.id
  }

  ghost predicate Valid(s: seq<Entry>) {
    && (forall i :: 0 <= i < |s| ==> WellFormed(s[i]))
    && (forall i, j :: 0 <= i < j < |s| ==> s[i].id != s[j].id)
  }

  // Exponential back-off with a random part of up to half of the base.
  function TransmitTimeout(count: nat, draw: byte): nat {
    var base := ACK_TIMEOUT * Pow2(count);
    base + base * draw / 512
  }

  // What a processing pass does with one entry.
  datatype Fate = Waits | Resent | Dropped

  function FateOf(e: Entry, now: uint32): Fate
    requires WellFormed(e)
  {
    if !TimeHasPassed(now, e.timeout) then Waits
    else if TypeOf(e.data) == CON && e.transmitCount <= MAX_RETRANSMIT then Resent
    else Dropped
  }

  function BackedOff(e: Entry, now: uint32, draw: byte): Entry {
    e.(timeout := Low32(now + TransmitTimeout(e.transmitCount, draw)), transmitCount := e.transmitCount + 1)
  }

  function AfterPass(e: Entry, now: uint32, draw: byte): seq<Entry>
    requires WellFormed(e)
  {
    match FateOf(e, now)
    case Waits => [e]
    case Resent => [BackedOff(e, now, draw)]
    case Dropped => []
  }

  // The entries left by a processing pass, in their old order.
  function Processed(s: seq<Entry>, now: uint32, draws: Draws): seq<Entry>
    requires forall e :: e in s ==> WellFormed(e)
  {
    if s == [] then []
    else AfterPass(s[0], now, draws(s[0].id)) + Processed(s[1..], now, draws)
  }

  // The messages that a processing pass transmits, in order.
  function Resends(s: seq<Entry>, now: uint32): seq<seq<byte>>
    requires forall e :: e in s ==> WellFormed(e)
  {
    if s == [] then []
    else (if FateOf(s[0], now) == Resent then [s[0].data] else []) + Resends(s[1..], now)
  }

  // The commands that a processing pass gives to the channel: it is closed once for each dropped request.
  function Closes(s: seq<Entry>, now: uint32): seq<Command>
    requires forall e :: e in s ==> WellFormed(e)
  {
    if s == [] then []
    else (if FateOf(s[0], now) == Dropped && IsRequest(s[0].data) then [Close] else []) + Closes(s[1..], now)
  }

  // Does a processing pass report a timeout to a delivery handler?
  predicate ReportsTimeout(s: seq<Entry>, now: uint32)
    requires forall e :: e in s ==> WellFormed(e)
  {
    s != [] && ((FateOf(s[0], now) == Dropped && s[0].watched) || ReportsTimeout(s[1..], now))
  }

  // The entry with an ID, if there is one.
  datatype Lookup = Absent | Present(entry: Entry)

  function Find(s: seq<Entry>, id: uint16): Lookup {
    if s == [] then Absent
    else if s[0].id == id then Present(s[0])
    else Find(s[1..], id)
  }

  function Without(s: seq<Entry>, id: uint16): seq<Entry> {
    if s == [] then []
    else if s[0].id == id then Without(s[1..], id)
    else [s[0]] + Without(s[1..], id)
  }

  // A new entry goes to the front and replaces an entry with the same ID.
  function Put(s: seq<Entry>, e: Entry): seq<Entry> {
    [e] + Without(s, e.id)
  }

  function WatchedAt(s: seq<Entry>, id: uint16): seq<Entry> {
    if s == [] then []
    else if s[0].id == id then [s[0].(watched := true)] + s[1..]
    else [s[0]] + WatchedAt(s[1..], id)
  }

  // The store after the application sends a message: requests that need confirmation are kept for retransmission,
  // replies are kept to answer duplicates.
  function Sent(s: seq<Entry>, msg: seq<byte>, now: uint32, draw: byte): seq<Entry>
    requires |msg| >= MINIMUM_COAP_MESSAGE_LENGTH
  {
    match TypeOf(msg)
    case CON => Put(s, Entry(IdOf(msg), msg, Low32(now + TransmitTimeout(0, draw)), 1, false))
    case ACK | RESET => Put(s, Entry(IdOf(msg), msg, Low32(now + MAX_TRANSMIT_SPAN), DO_NOT_SEND, false))
    case _ => s
  }

  // What the store does with a message that arrives from the network.
  datatype Reaction = Reaction(
    entries: seq<Entry>,
    passed: bool,             // does the message go on to the application?
    replies: seq<seq<byte>>,  // what is transmitted in answer
    discard: bool,            // is the session discarded?
    nacked: bool)             // is a delivery handler told that its request was rejected?

  function React(s: seq<Entry>, msg: seq<byte>, now: uint32): Reaction {
    match MessageType(msg)
    case ACK | RESET =>
      var found := Find(s, IdOf(msg));
      var reset := MessageType(msg) == RESET;
      Reaction(Without(s, IdOf(msg)), found.Present?, [], reset, reset && found.Present? && found.entry.watched)
    case CON =>
      (match Find(s, IdOf(msg))
       case Present(e) => Reaction(s, false, if IsReply(e.data) then [e.data] else [], false, false)
       case Absent =>
         var seen := Entry(IdOf(msg), msg[..Min(5, |msg|)], Low32(now + MAX_TRANSMIT_SPAN), DO_NOT_SEND, false);
         Reaction(Put(s, seen), true, [], false, false))
    case _ => Reaction(s, true, [], false, false)
  }

  // One operation on a store, with the unbounded time at which it happens.
  datatype Op =
    | Send(msg: seq<byte>, at: nat, draw: byte)
    | Receive(msg: seq<byte>, at: nat)
    | Process(at: nat, draws: Draws)
    | Watch(id: uint16, at: nat)
    | Forget(id: uint16, at: nat)
    | Clear(at: nat)

  predicate Legal(op: Op) {
    op.Send? ==> |op.msg| >= MINIMUM_COAP_MESSAGE_LENGTH
  }

  function Step(s: seq<Entry>, op: Op): seq<Entry>
    requires Legal(op)
    requires forall e :: e in s ==> WellFormed(e)
  {
    match op
    case Send(msg, at, draw) => Sent(s, msg, Low32(at), draw)
    case Receive(msg, at) => React(s, msg, Low32(at)).entries
    case Process(at, draws) => Processed(s, Low32(at), draws)
    case Watch(id, _) => WatchedAt(s, id)
    case Forget(id, _) => Without(s, id)
    case Clear(_) => []
  }

  // What the store itself transmits during an operation.
  function Transmits(s: seq<Entry>, op: Op): seq<seq<byte>>
    requires forall e :: e in s ==> WellFormed(e)
  {
    match op
    case Receive(msg, at) => React(s, msg, Low32(at)).replies
    case Process(at, _) => Resends(s, Low32(at))
    case _ => []
  }

  // Does a received message reach the application?
  predicate Delivers(s: seq<Entry>, op: Op) {
    op.Receive? && React(s, op.msg, Low32(op.at)).passed
  }

  // The store after a sequence of operations.
  ghost function Run(ops: seq<Op>): (s: seq<Entry>)
    requires forall op :: op in ops ==> Legal(op)
    ensures Valid(s)
  {
    if ops == [] then []
    else
      var s := Run(ops[..|ops| - 1]);
      StepKeepsValid(s, ops[|ops| - 1]);
      Step(s, ops[|ops| - 1])
  }

  // Every operation keeps the message IDs pairwise distinct.
  lemma StepKeepsValid(s: seq<Entry>, op: Op)
    requires Valid(s) && Legal(op)
    ensures Valid(Step(s, op))
  {
    hide Find, Processed, Without, WatchedAt;
    match op
    case Send(msg, at, draw) =>
      SentKeepsValid(s, msg, Low32(at), draw);
    case Receive(msg, at) =>
      ReactKeepsValid(s, msg, Low32(at));
    case Process(at, draws) =>
      ProcessedKeepsValid(s, Low32(at), draws);
    case Watch(id, _) =>
      WatchedAtKeepsValid(s, id);
    case Forget(id, _) =>
      WithoutKeepsValid(s, id);
    case Clear(_) =>
  }

  lemma PutKeepsValid(s: seq<Entry>, e: Entry)
    requires Valid(s) && WellFormed(e)
    ensures Valid(Put(s, e))
  {
    hide Find, Without;
    WithoutKeepsValid(s, e.id);
    var rest := Without(s, e.id);
    assert forall i :: 0 <= i < |rest| ==> rest[i] in rest;
  }

  lemma SentKeepsValid(s: seq<Entry>, msg: seq<byte>, now: uint32, draw: byte)
    requires Valid(s) && |msg| >= MINIMUM_COAP_MESSAGE_LENGTH
    ensures Valid(Sent(s, msg, now, draw))
  {
    hide Put, Valid;
    if TypeOf(msg) == CON {
      PutKeepsValid(s, Entry(IdOf(msg), msg, Low32(now + TransmitTimeout(0, draw)), 1, false));
    } else if TypeOf(msg) != NON {
      PutKeepsValid(s, Entry(IdOf(msg), msg, Low32(now + MAX_TRANSMIT_SPAN), DO_NOT_SEND, false));
    }
  }

  lemma ReactKeepsValid(s: seq<Entry>, msg: seq<byte>, now: uint32)
    requires Valid(s)
    ensures Valid(React(s, msg, now).entries)
  {
    hide Put, Valid, Find, Without;
    if MessageType(msg) in {ACK, RESET} {
      WithoutKeepsValid(s, IdOf(msg));
    } else if MessageType(msg) == CON {
      PutKeepsValid(s, Entry(IdOf(msg), msg[..Min(5, |msg|)], Low32(now + MAX_TRANSMIT_SPAN), DO_NOT_SEND, false));
    }
  }

  lemma {:induction false} WithoutKeepsValid(s: seq<Entry>, id: uint16)
    requires Valid(s)
    ensures Valid(Without(s, id))
    ensures forall e :: e in Without(s, id) <==> e in s && e.id != id
    ensures |Without(s, id)| == |s| - if Find(s, id) == Absent then 0 else 1
  {
    if s != [] {
      WithoutKeepsValid(s[1..], id);
      assert s == [s[0]] + s[1..];
      assert s[0].id == id || Without(s, id) == [s[0]] + Without(s[1..], id);
      if s[0].id == id {
        NotFound(s[1..], id);
      }
    }
  }

  lemma WatchedAtKeepsValid(s: seq<Entry>, id: uint16)
    requires Valid(s)
    ensures Valid(WatchedAt(s, id)) && |WatchedAt(s, id)| == |s|
  {
    if k: nat :| k < |s| && s[k].id == id {
      WatchedAtPosition(s, k);
    } else {
      NotFound(s, id);
    }
  }

  lemma {:induction false} ProcessedKeepsValid(s: seq<Entry>, now: uint32, draws: Draws)
    requires Valid(s)
    ensures Valid(Processed(s, now, draws))
    ensures forall e :: e in Processed(s, now, draws) ==> exists f :: f in s && f.id == e.id
  {
    if s != [] {
      ProcessedKeepsValid(s[1..], now, draws);
      assert s == [s[0]] + s[1..];
      assert forall f :: f in s[1..] ==> f.id != s[0].id;
    }
  }

  // Find and Without by position.
  lemma {:induction false} AtPosition(s: seq<Entry>, k: nat)
    requires Valid(s) && k < |s|
    ensures Find(s, s[k].id) == Present(s[k])
    ensures Without(s, s[k].id) == s[..k] + s[k + 1..]
  {
    if k == 0 {
      NotFound(s[1..], s[0].id);
    } else {
      AtPosition(s[1..], k - 1);
      assert s[..k] + s[k + 1..] == [s[0]] + (s[1..][..k - 1] + s[1..][k..]);
    }
  }

  lemma {:induction false} WatchedAtPosition(s: seq<Entry>, k: nat)
    requires Valid(s) && k < |s|
    ensures WatchedAt(s, s[k].id) == s[k := s[k].(watched := true)]
  {
    var e := s[k].(watched := true);
    if k == 0 {
      assert s[0 := e] == [e] + s[1..];
    } else {
      WatchedAtPosition(s[1..], k - 1);
      assert s[k := e] == [s[0]] + s[1..][k - 1 := e];
    }
  }

  lemma {:induction false} NotFound(s: seq<Entry>, id: uint16)
    requires forall i :: 0 <= i < |s| ==> s[i].id != id
    ensures Find(s, id) == Absent && Without(s, id) == s && WatchedAt(s, id) == s
  {
    if s != [] {
      NotFound(s[1..], id);
      assert s == [s[0]] + s[1..];
    }
  }

  // Appending one operation to a run.
  lemma RunAppend(ops: seq<Op>, op: Op)
    requires (forall o :: o in ops ==> Legal(o)) && Legal(op)
    ensures forall o :: o in ops + [op] ==> Legal(o)
    ensures Run(ops + [op]) == Step(Run(ops), op)
  {
    assert (ops + [op])[..|ops|] == ops;
  }

  // What an operation does to the entry with a given ID depends on nothing but that entry.
  function FindAfter(l: Lookup, op: Op, id: uint16): Lookup
    requires Legal(op) && (l.Present? ==> WellFormed(l.entry))
  {
    match op
    case Send(msg, at, draw) =>
      if IdOf(msg) != id || TypeOf(msg) == NON then l
      else if TypeOf(msg) == CON then Present(Entry(id, msg, Low32(Low32(at) + TransmitTimeout(0, draw)), 1, false))
      else Present(Entry(id, msg, Low32(Low32(at) + MAX_TRANSMIT_SPAN), DO_NOT_SEND, false))
    case Receive(msg, at) =>
      if MessageType(msg) in {NON, ERROR} || IdOf(msg) != id then l
      else if MessageType(msg) in {ACK, RESET} then Absent
      else if l.Present? then l
      else Present(Entry(id, msg[..Min(5, |msg|)], Low32(Low32(at) + MAX_TRANSMIT_SPAN), DO_NOT_SEND, false))
    case Process(at, draws) =>
      if l.Absent? then l
      else
        (match FateOf(l.entry, Low32(at))
         case Waits => l
         case Resent => Present(BackedOff(l.entry, Low32(at), draws(id)))
         case Dropped => Absent)
    case Watch(watched, _) => if l.Present? && watched == id then Present(l.entry.(watched := true)) else l
    case Forget(forgotten, _) => if forgotten == id then Absent else l
    case Clear(_) => Absent
  }

  lemma {:induction false} FindStep(s: seq<Entry>, op: Op, id: uint16)
    requires Valid(s) && Legal(op)
    ensures Find(s, id).Present? ==> WellFormed(Find(s, id).entry) && Find(s, id).entry.id == id
    ensures Find(Step(s, op), id) == FindAfter(Find(s, id), op, id)
  {
    FindIsMember(s, id);
    match op
    case Send(msg, at, draw) => FindSent(s, msg, Low32(at), draw, id);
    case Receive(msg, at) => FindReact(s, msg, Low32(at), id);
    case Process(at, draws) => FindProcessed(s, Low32(at), draws, id);
    case Watch(watched, _) => FindWatched(s, watched, id);
    case Forget(forgotten, _) => FindWithout(s, forgotten, id);
    case Clear(_) =>
  }

  lemma FindSent(s: seq<Entry>, msg: seq<byte>, now: uint32, draw: byte, id: uint16)
    requires |msg| >= MINIMUM_COAP_MESSAGE_LENGTH
    ensures Find(Sent(s, msg, now, draw), id) ==
            if IdOf(msg) != id || TypeOf(msg) == NON then Find(s, id)
            else if TypeOf(msg) == CON then Present(Entry(id, msg, Low32(now + TransmitTimeout(0, draw)), 1, false))
            else Present(Entry(id, msg, Low32(now + MAX_TRANSMIT_SPAN), DO_NOT_SEND, false))
  {
    FindWithout(s, IdOf(msg), id);
  }

  lemma FindReact(s: seq<Entry>, msg: seq<byte>, now: uint32, id: uint16)
    ensures Find(React(s, msg, now).entries, id) ==
            if MessageType(msg) in {NON, ERROR} || IdOf(msg) != id then Find(s, id)
            else if MessageType(msg) in {ACK, RESET} then Absent
            else if Find(s, id).Present? then Find(s, id)
            else Present(Entry(id, msg[..Min(5, |msg|)], Low32(now + MAX_TRANSMIT_SPAN), DO_NOT_SEND, false))
  {
    if MessageType(msg) != ERROR {
      FindWithout(s, IdOf(msg), id);
    }
  }

  lemma {:induction false} FindIsMember(s: seq<Entry>, id: uint16)
    ensures Find(s, id).Present? ==> Find(s, id).entry in s && Find(s, id).entry.id == id
    ensures Find(s, id).Absent? ==> forall e :: e in s ==> e.id != id
  {
    if s != [] {
      FindIsMember(s[1..], id);
      assert s == [s[0]] + s[1..];
    }
  }

  lemma {:induction false} FindWithout(s: seq<Entry>, gone: uint16, id: uint16)
    ensures Find(Without(s, gone), id) == if id == gone then Absent else Find(s, id)
  {
    if s != [] {
      FindWithout(s[1..], gone, id);
      if s[0].id != gone {
        assert ([s[0]] + Without(s[1..], gone))[1..] == Without(s[1..], gone);
      }
    }
  }

  lemma {:induction false} FindWatched(s: seq<Entry>, watched: uint16, id: uint16)
    ensures Find(WatchedAt(s, watched), id)
         == if id == watched && Find(s, id).Present? then Present(Find(s, id).entry.(watched := true)) else Find(s, id)
  {
    if s != [] {
      FindWatched(s[1..], watched, id);
      if s[0].id != watched {
        assert ([s[0]] + WatchedAt(s[1..], watched))[1..] == WatchedAt(s[1..], watched);
      }
    }
  }

  lemma {:induction false} FindProcessed(s: seq<Entry>, now: uint32, draws: Draws, id: uint16)
    requires Valid(s)
    ensures Find(s, id).Absent? ==> Find(Processed(s, now, draws), id).Absent?
    ensures Find(s, id).Present? ==>
              Find(s, id).entry in s &&
              Find(Processed(s, now, draws), id) ==
              (match FateOf(Find(s, id).entry, now)
               case Waits => Find(s, id)
               case Resent => Present(BackedOff(Find(s, id).entry, now, draws(id)))
               case Dropped => Absent)
  {
    if s != [] {
      FindProcessed(s[1..], now, draws, id);
      FindIsMember(s[1..], id);
      FindIsMember(s, id);
      FindAppend(AfterPass(s[0], now, draws(s[0].id)), Processed(s[1..], now, draws), id);
      assert s == [s[0]] + s[1..];
    }
  }

  lemma FindAppend(a: seq<Entry>, b: seq<Entry>, id: uint16)
    requires |a| <= 1
    ensures Find(a + b, id) == if Find(a, id).Present? then Find(a, id) else Find(b, id)
  {
    if a == [] {
      assert a + b == b;
    } else {
      assert (a + b)[1..] == b;
    }
  }

  // ---- A processing pass is a stable filter

  function Ids(s: seq<Entry>): seq<uint16> {
    if s == [] then [] else [s[0].id] + Ids(s[1..])
  }

  function Survivors(s: seq<Entry>, now: uint32): seq<Entry>
    requires forall e :: e in s ==> WellFormed(e)
  {
    if s == [] then []
    else (if FateOf(s[0], now) == Dropped then [] else [s[0]]) + Survivors(s[1..], now)
  }

  // A pass removes exactly the entries that are due and may not be sent again, and keeps the order of the others.
  lemma {:induction false} ProcessedKeepsOrder(s: seq<Entry>, now: uint32, draws: Draws)
    requires forall e :: e in s ==> WellFormed(e)
    ensures Ids(Processed(s, now, draws)) == Ids(Survivors(s, now))
  {
    if s != [] {
      ProcessedKeepsOrder(s[1..], now, draws);
      IdsAppend(AfterPass(s[0], now, draws(s[0].id)), Processed(s[1..], now, draws));
      IdsAppend(if FateOf(s[0], now) == Dropped then [] else [s[0]], Survivors(s[1..], now));
    }
  }

  lemma IdsAppend(a: seq<Entry>, b: seq<Entry>)
    requires |a| <= 1
    ensures Ids(a + b) == (if a == [] then [] else [a[0].id]) + Ids(b)
  {
    if a == [] {
      assert a + b == b;
    } else {
      assert (a + b)[1..] == b;
    }
  }
}
