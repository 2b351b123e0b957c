// Whole runs of a message store: the linked store refines one cell per message ID, the cell with 32-bit times refines
// a cell with unbounded times, and on that cell the promises of sections 4.2 and 4.5 of RFC 7252 are proved.
module StoreRuns {
  import opened Words
  import opened CoapMessage
  import opened StoreSpec

  ghost predicate AllLegal(ops: seq<Op>) {
    forall op :: op in ops ==> Legal(op)
  }

  // What reaches the client store: requests sent, everything but requests received.
  predicate ClientOp(op: Op) {
    match op
    case Send(msg, _, _) => Legal(op) && TypeOf(msg) in {CON, NON}
    case Receive(msg, _) => MessageType(msg) !in {CON, NON}
    case _ => true
  }

  // What reaches the server store: replies sent, requests received.
  predicate ServerOp(op: Op) {
    match op
    case Send(msg, _, _) => Legal(op) && TypeOf(msg) in {ACK, RESET}
    case Receive(msg, _) => MessageType(msg) in {CON, NON}
    case Process(_, _) => true
    case Clear(_) => true
    case _ => false
  }

  // ---- The store as a map from IDs to entries

  ghost predicate Sane(l: Lookup, id: uint16) {
    l.Present? ==> WellFormed(l.entry) && l.entry.id == id
  }

  ghost function CellRun(ops: seq<Op>, id: uint16): (l: Lookup)
    requires AllLegal(ops)
    ensures Sane(l, id)
  {
    if ops == [] then Absent else FindAfter(CellRun(ops[..|ops| - 1], id), ops[|ops| - 1], id)
  }

  // The list of entries, with its insertions, removals and traversals, represents a map from IDs to entries in which
  // every ID evolves on its own.
  lemma {:induction false} StoreRefinesMap(ops: seq<Op>, id: uint16)
    requires AllLegal(ops)
    ensures Find(Run(ops), id) == CellRun(ops, id)
  {
    if ops != [] {
      StoreRefinesMap(ops[..|ops| - 1], id);
      FindStep(Run(ops[..|ops| - 1]), ops[|ops| - 1], id);
    }
  }

  // ---- Unbounded time

  // The time of the last operation and of the last processing pass of a run that starts at the given time.
  function EndTime(start: nat, ops: seq<Op>): nat {
    if ops == [] then start else ops[|ops| - 1].at
  }

  function LastPass(start: nat, ops: seq<Op>): nat {
    if ops == [] then start
    else if ops[|ops| - 1].Process? then ops[|ops| - 1].at
    else LastPass(start, ops[..|ops| - 1])
  }

  // Time does not run backwards and processing passes are at most 2^31 ms (24 days) apart.
  ghost predicate WellTimed(start: nat, ops: seq<Op>) {
    ops != [] ==>
      var front, op := ops[..|ops| - 1], ops[|ops| - 1];
      && WellTimed(start, front)
      && EndTime(start, front) <= op.at
      && (op.Process? ==> op.at - LastPass(start, front) <= HALF_TICKS)
  }

  // Times do not decrease, from the given time on.
  ghost predicate Monotone(from: nat, ops: seq<Op>) {
    ops != [] ==>
      var front, op := ops[..|ops| - 1], ops[|ops| - 1];
      Monotone(from, front) && EndTime(from, front) <= op.at
  }

  // Processing passes are at most gap milliseconds apart.
  ghost predicate PolledEvery(gap: nat, from: nat, ops: seq<Op>) {
    ops != [] ==>
      var front, op := ops[..|ops| - 1], ops[|ops| - 1];
      PolledEvery(gap, from, front) && (op.Process? ==> op.at - LastPass(from, front) <= gap)
  }

  // The runs that the guarantees are about: the clock is monotone and the store is polled at least every 24 days.
  lemma {:induction false} WellTimedRuns(start: nat, ops: seq<Op>)
    requires Monotone(start, ops) && PolledEvery(HALF_TICKS, start, ops)
    ensures WellTimed(start, ops)
  {
    if ops != [] {
      WellTimedRuns(start, ops[..|ops| - 1]);
    }
  }

  // An entry together with the unbounded time at which it is due.
  datatype TimedCell = Gone | Held(entry: Entry, deadline: nat)

  predicate Retries(e: Entry)
    requires WellFormed(e)
  {
    TypeOf(e.data) == CON && e.transmitCount <= MAX_RETRANSMIT
  }

  function Fresh(data: seq<byte>, count: nat, deadline: nat): TimedCell
    requires |data| >= MINIMUM_COAP_MESSAGE_LENGTH
  {
    Held(Entry(IdOf(data), data, Low32(deadline), count, false), deadline)
  }

  function BackedOffAt(e: Entry, deadline: nat): TimedCell {
    Held(e.(timeout := Low32(deadline), transmitCount := e.transmitCount + 1), deadline)
  }

  // The same machine as FindAfter, but comparing unbounded times.
  function TimedAfter(c: TimedCell, op: Op, id: uint16): TimedCell
    requires Legal(op) && (c.Held? ==> WellFormed(c.entry))
  {
    match op
    case Send(msg, at, draw) =>
      if IdOf(msg) != id || TypeOf(msg) == NON then c
      else if TypeOf(msg) == CON then Fresh(msg, 1, at + TransmitTimeout(0, draw))
      else Fresh(msg, DO_NOT_SEND, at + MAX_TRANSMIT_SPAN)
    case Receive(msg, at) =>
      if MessageType(msg) in {NON, ERROR} || IdOf(msg) != id then c
      else if MessageType(msg) in {ACK, RESET} then Gone
      else if c.Held? then c
      else Fresh(msg[..Min(5, |msg|)], DO_NOT_SEND, at + MAX_TRANSMIT_SPAN)
    case Process(at, draws) =>
      if c.Gone? || at < c.deadline then c
      else if Retries(c.entry) then BackedOffAt(c.entry, at + TransmitTimeout(c.entry.transmitCount, draws(id)))
      else Gone
    case Watch(watched, _) => if c.Held? && watched == id then c.(entry := c.entry.(watched := true)) else c
    case Forget(forgotten, _) => if forgotten == id then Gone else c
    case Clear(_) => Gone
  }

  function TimedRun(c: TimedCell, ops: seq<Op>, id: uint16): (c': TimedCell)
    requires forall op :: op in ops ==> Legal(op)
    requires c.Held? ==> WellFormed(c.entry) && c.entry.id == id
    ensures c'.Held? ==> WellFormed(c'.entry) && c'.entry.id == id
  {
    if ops == [] then c else TimedAfter(TimedRun(c, ops[..|ops| - 1], id), ops[|ops| - 1], id)
  }

  function Erase(c: TimedCell): Lookup {
    match c
    case Gone => Absent
    case Held(e, _) => Present(e)
  }

  // The largest time for which a message waits.
  const LONGEST_WAIT := 47937

  // The deadline lies after the last processing pass and not far ahead of the clock.
  ghost predicate OnTime(c: TimedCell, lastPass: nat, now: nat) {
    c.Held? ==> c.entry.timeout == Low32(c.deadline) && lastPass < c.deadline <= now + LONGEST_WAIT
  }

  // The shortest and the longest wait after a message has been transmitted count + 1 times.
  function ShortestWait(count: nat): nat {
    match count
    case 0 => 4000
    case 1 => 8000
    case 2 => 16000
    case _ => 32000
  }

  function LongestWait(count: nat): nat {
    match count
    case 0 => 5992
    case 1 => 11984
    case 2 => 23968
    case _ => 47937
  }

  lemma TransmitTimeoutBounds(count: nat, draw: byte)
    requires count <= MAX_RETRANSMIT
    ensures ShortestWait(count) <= TransmitTimeout(count, draw) <= LongestWait(count)
  {
    var base := ShortestWait(count);
    assert ACK_TIMEOUT * Pow2(count) == base by {
      assert Pow2(0) == 1 && Pow2(1) == 2 && Pow2(2) == 4 && Pow2(3) == 8;
    }
    assert base * draw <= base * 255;
    assert 0 <= base * draw / 512 <= base * 255 / 512;
  }

  // The back-off doubles with every transmission, and the random byte adds its share of half of that, rounded down: from
  // nothing to 255 / 512, and more for every larger byte.
  lemma TransmitTimeoutIsRandom(count: nat, draw: byte)
    requires count <= MAX_RETRANSMIT
    ensures TransmitTimeout(count, 0) == ShortestWait(count) && TransmitTimeout(count, 255) == LongestWait(count)
    ensures 512 * TransmitTimeout(count, draw) <= ShortestWait(count) * (512 + draw)
          < 512 * (TransmitTimeout(count, draw) + 1)
    ensures draw < 255 ==> TransmitTimeout(count, draw) < TransmitTimeout(count, draw + 1)
  {
    assert ACK_TIMEOUT * Pow2(count) == ShortestWait(count) by {
      assert Pow2(0) == 1 && Pow2(1) == 2 && Pow2(2) == 4 && Pow2(3) == 8;
    }
  }

  lemma Low32Sum(a: int, b: int)
    ensures Low32(Low32(a) + b) == Low32(a + b)
  {
    Low32Shift(Low32(a) + b, a / TICKS);
  }

  // One operation on the 32-bit cell is the same operation on the unbounded cell, as long as passes are not too rare.
  lemma {:induction false} SimulationStep(c: TimedCell, op: Op, id: uint16, lastPass: nat, now: nat)
    requires Legal(op) && (c.Held? ==> WellFormed(c.entry) && c.entry.id == id)
    requires OnTime(c, lastPass, now) && lastPass <= now <= op.at
    requires op.Process? ==> op.at - lastPass <= HALF_TICKS
    ensures Erase(TimedAfter(c, op, id)) == FindAfter(Erase(c), op, id)
    ensures OnTime(TimedAfter(c, op, id), if op.Process? then op.at else lastPass, op.at)
  {
    match op
    case Send(msg, at, draw) =>
      TransmitTimeoutBounds(0, draw);
      Low32Sum(at, TransmitTimeout(0, draw));
      Low32Sum(at, MAX_TRANSMIT_SPAN);
    case Receive(msg, at) =>
      Low32Sum(at, MAX_TRANSMIT_SPAN);
    case Process(at, draws) =>
      if c.Held? {
        TimeHasPassedIsOrder(at, c.deadline);
        if Retries(c.entry) {
          TransmitTimeoutBounds(c.entry.transmitCount, draws(id));
          Low32Sum(at, TransmitTimeout(c.entry.transmitCount, draws(id)));
        }
      }
    case _ =>
  }

  // Over every well-timed run the store with wrapping 32-bit timeouts behaves as if time were unbounded.
  lemma {:induction false} WrappingClockIsInvisible(start: nat, ops: seq<Op>, id: uint16)
    requires AllLegal(ops) && WellTimed(start, ops)
    ensures Find(Run(ops), id) == Erase(TimedRun(Gone, ops, id))
    ensures OnTime(TimedRun(Gone, ops, id), LastPass(start, ops), EndTime(start, ops))
    ensures start <= LastPass(start, ops) <= EndTime(start, ops)
  {
    if ops != [] {
      var front, op := ops[..|ops| - 1], ops[|ops| - 1];
      WrappingClockIsInvisible(start, front, id);
      FindStep(Run(front), op, id);
      SimulationStep(TimedRun(Gone, front, id), op, id, LastPass(start, front), EndTime(start, front));
    }
  }

  // ---- Splitting runs

  lemma {:induction false} TimedRunConcat(c: TimedCell, a: seq<Op>, b: seq<Op>, id: uint16)
    requires AllLegal(a) && AllLegal(b) && (c.Held? ==> WellFormed(c.entry) && c.entry.id == id)
    ensures AllLegal(a + b)
    ensures TimedRun(c, a + b, id) == TimedRun(TimedRun(c, a, id), b, id)
  {
    if b == [] {
      assert a + b == a;
    } else {
      TimedRunConcat(c, a, b[..|b| - 1], id);
      assert (a + b)[..|a + b| - 1] == a + b[..|b| - 1];
    }
  }

  // ---- Histories of the two stores, up to the present

  ghost predicate ClientHistory(ops: seq<Op>, now: nat) {
    AllLegal(ops) && Monotone(0, ops) && EndTime(0, ops) <= now && forall op :: op in ops ==> ClientOp(op)
  }

  ghost predicate ServerHistory(ops: seq<Op>, now: nat) {
    AllLegal(ops) && Monotone(0, ops) && EndTime(0, ops) <= now && forall op :: op in ops ==> ServerOp(op)
  }

  lemma ClientHistoryExtends(ops: seq<Op>, op: Op, now: nat, later: nat)
    requires ClientHistory(ops, now) && ClientOp(op) && now <= op.at <= later
    ensures ClientHistory(ops + [op], later)
    ensures AllLegal(ops + [op]) && Run(ops + [op]) == Step(Run(ops), op)
  {
    RunAppend(ops, op);
    assert (ops + [op])[..|ops|] == ops;
  }

  lemma ServerHistoryExtends(ops: seq<Op>, op: Op, now: nat, later: nat)
    requires ServerHistory(ops, now) && ServerOp(op) && now <= op.at <= later
    ensures ServerHistory(ops + [op], later)
    ensures AllLegal(ops + [op]) && Run(ops + [op]) == Step(Run(ops), op)
  {
    RunAppend(ops, op);
    assert (ops + [op])[..|ops|] == ops;
  }

  lemma HistoriesLast(client: seq<Op>, server: seq<Op>, now: nat, later: nat)
    requires now <= later
    ensures ClientHistory(client, now) ==> ClientHistory(client, later)
    ensures ServerHistory(server, now) ==> ServerHistory(server, later)
  {
  }

  lemma ReactionToRequest(s: seq<Entry>, msg: seq<byte>, now: uint32)
    ensures IsRequest(msg) ==> !React(s, msg, now).discard && !React(s, msg, now).nacked
    ensures !IsRequest(msg) ==> React(s, msg, now).replies == []
  {
  }

  // ---- The commands that a store gives to the channel

  // CLOSE for every request that a pass drops, and DISCARD_SESSION for every reset that arrives.
  function CommandsOf(s: seq<Entry>, op: Op): seq<Command>
    requires StoreSpec.Valid(s)
  {
    match op
    case Process(at, _) => Closes(s, Low32(at))
    case Receive(msg, at) => if React(s, msg, Low32(at)).discard then [DiscardSession] else []
    case _ => []
  }

  ghost function Commanded(ops: seq<Op>): seq<Command>
    requires AllLegal(ops)
  {
    if ops == [] then []
    else
      var front, last := ops[..|ops| - 1], ops[|ops| - 1];
      Commanded(front) + CommandsOf(Run(front), last)
  }

  // While the log of a store has grown from one to the other, the channel has been given exactly the commands that the
  // new operations give, in their order.
  ghost predicate Commanding(log: seq<Op>, log': seq<Op>, commands: seq<Command>, commands': seq<Command>) {
    && AllLegal(log) && AllLegal(log') && log <= log' && commands <= commands'
    && Commanded(log') == Commanded(log) + commands'[|commands|..]
  }

  function RequestsIn(s: seq<Entry>): nat {
    if s == [] then 0 else (if IsRequest(s[0].data) then 1 else 0) + RequestsIn(s[1..])
  }

  lemma {:induction false} RequestsInBoth(a: seq<Entry>, b: seq<Entry>)
    ensures RequestsIn(a + b) == RequestsIn(a) + RequestsIn(b)
  {
    if a == [] {
      assert a + b == b;
    } else {
      assert (a + b)[1..] == a[1..] + b;
      RequestsInBoth(a[1..], b);
    }
  }

  // A pass closes the channel once for every request that it drops, and for nothing else.
  lemma {:induction false} ClosesForDroppedRequests(s: seq<Entry>, now: uint32, draws: Draws)
    requires forall e :: e in s ==> WellFormed(e)
    ensures |Closes(s, now)| == RequestsIn(s) - RequestsIn(Processed(s, now, draws))
    ensures forall c :: c in Closes(s, now) ==> c == Close
  {
    if s != [] {
      ClosesForDroppedRequests(s[1..], now, draws);
      RequestsInBoth(AfterPass(s[0], now, draws(s[0].id)), Processed(s[1..], now, draws));
      assert RequestsIn(AfterPass(s[0], now, draws(s[0].id)))
          == if FateOf(s[0], now) == Dropped || !IsRequest(s[0].data) then 0 else 1;
    }
  }

  lemma NothingCommanded(log: seq<Op>, commands: seq<Command>)
    requires AllLegal(log)
    ensures Commanding(log, log, commands, commands)
  {
    assert commands[|commands|..] == [];
  }

  lemma CommandingExtends(log: seq<Op>, log': seq<Op>, commands: seq<Command>, commands': seq<Command>)
    requires Commanding(log, log', commands, commands')
    ensures log <= log'
  {
  }

  lemma OperationCommands(log: seq<Op>, op: Op, commands: seq<Command>)
    requires AllLegal(log) && AllLegal(log + [op])
    ensures Commanding(log, log + [op], commands, commands + CommandsOf(Run(log), op))
  {
    assert (log + [op])[..|log|] == log;
    assert (commands + CommandsOf(Run(log), op))[|commands|..] == CommandsOf(Run(log), op);
  }

  lemma QuietOperation(log: seq<Op>, op: Op, commands: seq<Command>)
    requires AllLegal(log) && AllLegal(log + [op]) && !op.Process? && !op.Receive?
    ensures Commanding(log, log + [op], commands, commands)
  {
    OperationCommands(log, op, commands);
    assert commands + [] == commands;
  }

  lemma {:induction false} CommandingThen(log: seq<Op>, log': seq<Op>, log'': seq<Op>,
                                          commands: seq<Command>, commands': seq<Command>, commands'': seq<Command>)
    requires Commanding(log, log', commands, commands') && Commanding(log', log'', commands', commands'')
    ensures Commanding(log, log'', commands, commands'')
  {
    hide AllLegal, Commanded;
    Segments(commands, commands', commands'');
    Reassociate(Commanded(log), commands'[|commands|..], commands''[|commands'|..]);
  }

  lemma Segments<T>(a: seq<T>, b: seq<T>, c: seq<T>)
    requires a <= b <= c
    ensures a <= c && c[|a|..] == b[|a|..] + c[|b|..]
  {
  }
}
