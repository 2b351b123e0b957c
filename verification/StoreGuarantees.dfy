// What every run of the message stores guarantees: deduplication of requests (section 4.5 of RFC 7252), replies that
// match requests, and the transmission schedule of confirmable messages (sections 4.2 and 4.8.2 of RFC 7252).
module StoreGuarantees {
  import opened Words
  import opened CoapMessage
  import opened StoreSpec
  import opened StoreRuns

  lemma {:induction false} SuffixMonotone(start: nat, a: seq<Op>, b: seq<Op>)
    requires WellTimed(start, a + b)
    ensures WellTimed(start, a)
    ensures Monotone(EndTime(start, a), b)
    ensures EndTime(EndTime(start, a), b) == EndTime(start, a + b)
  {
    if b == [] {
      assert a + b == a;
    } else {
      assert (a + b)[..|a + b| - 1] == a + b[..|b| - 1];
      SuffixMonotone(start, a, b[..|b| - 1]);
    }
  }

  // The cell for an ID after a run and a further segment.
  lemma CellAfter(start: nat, pre: seq<Op>, seg: seq<Op>, id: uint16)
    requires AllLegal(pre) && AllLegal(seg) && WellTimed(start, pre + seg)
    ensures AllLegal(pre + seg) && WellTimed(start, pre)
    ensures Find(Run(pre), id) == Erase(TimedRun(Gone, pre, id))
    ensures Find(Run(pre + seg), id) == Erase(TimedRun(TimedRun(Gone, pre, id), seg, id))
    ensures Monotone(EndTime(start, pre), seg) && EndTime(EndTime(start, pre), seg) == EndTime(start, pre + seg)
  {
    SuffixMonotone(start, pre, seg);
    TimedRunConcat(Gone, pre, seg, id);
    WrappingClockIsInvisible(start, pre, id);
    WrappingClockIsInvisible(start, pre + seg, id);
  }

  lemma TimedRunOne(c: TimedCell, op: Op, rest: seq<Op>, id: uint16)
    requires Legal(op) && AllLegal(rest) && (c.Held? ==> WellFormed(c.entry) && c.entry.id == id)
    ensures AllLegal([op] + rest)
    ensures TimedRun(c, [op] + rest, id) == TimedRun(TimedAfter(c, op, id), rest, id)
  {
    TimedRunConcat(c, [op], rest, id);
    assert [op][..0] == [];
  }

  // ---- Deduplication

  ghost predicate ServerSegment(ops: seq<Op>) {
    forall op :: op in ops ==> ServerOp(op) && !op.Clear?
  }

  predicate IsConRequest(op: Op, id: uint16) {
    op.Receive? && MessageType(op.msg) == CON && IdOf(op.msg) == id
  }

  ghost predicate SurvivesTo(c: TimedCell, until: nat, id: uint16) {
    c.Held? && WellFormed(c.entry) && c.entry.id == id && c.entry.transmitCount == DO_NOT_SEND && until <= c.deadline
  }

  lemma EntrySurvivesStep(c: TimedCell, op: Op, id: uint16, until: nat)
    requires SurvivesTo(c, until, id) && ServerOp(op) && !op.Clear?
    requires op.at < until <= op.at + MAX_TRANSMIT_SPAN
    ensures SurvivesTo(TimedAfter(c, op, id), until, id)
    ensures (op.Send? ==> IdOf(op.msg) != id) ==> TimedAfter(c, op, id) == c
  {
  }

  // An entry of the server store survives until a given time; the operations all happen less than one span before it.
  // Only an answer changes it.
  lemma {:induction false} EntrySurvives(c: TimedCell, from: nat, ops: seq<Op>, id: uint16, until: nat)
    requires ServerSegment(ops) && Monotone(from, ops) && until <= from + MAX_TRANSMIT_SPAN
    requires SurvivesTo(c, until, id)
    ensures from <= EndTime(from, ops)
    ensures EndTime(from, ops) < until ==> SurvivesTo(TimedRun(c, ops, id), until, id)
    ensures EndTime(from, ops) < until && (forall op :: op in ops && op.Send? ==> IdOf(op.msg) != id) ==>
              TimedRun(c, ops, id) == c
  {
    if ops != [] {
      var front, op := ops[..|ops| - 1], ops[|ops| - 1];
      EntrySurvives(c, from, front, id, until);
      assert op in ops;
      if op.at < until {
        EntrySurvivesStep(TimedRun(c, front, id), op, id, until);
      }
    }
  }

  // What the server store holds when an operation arrives less than one span after the one that made the entry.
  lemma HeldOneSpanLater(start: nat, pre: seq<Op>, first: Op, mid: seq<Op>, last: Op, id: uint16)
    requires AllLegal(pre) && Legal(first) && ServerSegment(mid) && AllLegal(pre + ([first] + mid))
    requires WellTimed(start, pre + ([first] + mid + [last]))
    requires SurvivesTo(TimedAfter(TimedRun(Gone, pre, id), first, id), first.at + MAX_TRANSMIT_SPAN, id)
    ensures WellTimed(start, pre) && Find(Run(pre), id) == Erase(TimedRun(Gone, pre, id))
    ensures last.at < first.at + MAX_TRANSMIT_SPAN ==> Find(Run(pre + ([first] + mid)), id).Present?
    ensures last.at < first.at + MAX_TRANSMIT_SPAN && (forall op :: op in mid && op.Send? ==> IdOf(op.msg) != id) ==>
              Find(Run(pre + ([first] + mid)), id)
              == Erase(TimedAfter(TimedRun(Gone, pre, id), first, id))
  {
    var seg := [first] + mid;
    assert pre + (seg + [last]) == pre + seg + [last];
    SuffixMonotone(start, pre + seg, [last]);
    assert [last][..0] == [];
    CellAfter(start, pre, seg, id);
    TimedRunOne(TimedRun(Gone, pre, id), first, mid, id);
    assert pre + seg == pre + [first] + mid;
    SuffixMonotone(start, pre + [first], mid);
    EntrySurvives(TimedAfter(TimedRun(Gone, pre, id), first, id), first.at, mid, id, first.at + MAX_TRANSMIT_SPAN);
  }

  // A confirmable request ID is handed to the application at most once in any 45 s, for every order, loss and
  // duplication of messages: two deliveries in one session are a whole MAX_TRANSMIT_SPAN apart.
  lemma DeliveriesAreOneSpanApart(start: nat, pre: seq<Op>, first: Op, mid: seq<Op>, second: Op, id: uint16)
    requires IsConRequest(first, id) && IsConRequest(second, id) && ServerSegment(mid)
    requires AllLegal(pre) && AllLegal(pre + ([first] + mid))
    requires WellTimed(start, pre + ([first] + mid + [second]))
    requires Delivers(Run(pre), first) && Delivers(Run(pre + ([first] + mid)), second)
    ensures second.at >= first.at + MAX_TRANSMIT_SPAN
  {
    SuffixMonotone(start, pre, [first] + mid + [second]);
    WrappingClockIsInvisible(start, pre, id);
    HeldOneSpanLater(start, pre, first, mid, second, id);
  }

  // Once the application has answered a request, every duplicate that arrives in the next 45 s is swallowed and
  // answered with exactly the bytes of that answer.
  lemma DuplicatesGetTheStoredAnswer(start: nat, pre: seq<Op>, answer: Op, mid: seq<Op>, duplicate: Op, id: uint16)
    requires answer.Send? && ServerOp(answer) && IdOf(answer.msg) == id
    requires ServerSegment(mid) && forall op :: op in mid && op.Send? ==> IdOf(op.msg) != id
    requires IsConRequest(duplicate, id) && duplicate.at < answer.at + MAX_TRANSMIT_SPAN
    requires WellTimed(start, pre + ([answer] + mid + [duplicate]))
    requires AllLegal(pre) && AllLegal(pre + ([answer] + mid))
    ensures !Delivers(Run(pre + ([answer] + mid)), duplicate)
    ensures Transmits(Run(pre + ([answer] + mid)), duplicate) == [answer.msg]
  {
    HeldOneSpanLater(start, pre, answer, mid, duplicate, id);
  }

  // ---- Which requests are handed over, and how the others are answered

  predicate IsAnswer(op: Op, id: uint16) {
    op.Send? && Legal(op) && TypeOf(op.msg) in {ACK, RESET} && IdOf(op.msg) == id
  }

  // Operation k answers a request with the ID, or hands one over.
  ghost predicate Remembers(ops: seq<Op>, k: nat, id: uint16)
    requires AllLegal(ops) && k < |ops|
  {
    IsAnswer(ops[k], id) || (IsConRequest(ops[k], id) && Delivers(Run(ops[..k]), ops[k]))
  }

  // No session has begun since operation k, and no pass has come 45 s after it.
  ghost predicate Lasts(ops: seq<Op>, k: nat) {
    forall m :: k < m < |ops| ==>
      !ops[m].Clear? && (ops[m].Process? ==> k < |ops| && ops[m].at < ops[k].at + MAX_TRANSMIT_SPAN)
  }

  ghost predicate Remembered(ops: seq<Op>, k: nat, id: uint16)
    requires AllLegal(ops)
  {
    k < |ops| && Remembers(ops, k, id) && Lasts(ops, k)
  }

  ghost predicate LastRemembered(ops: seq<Op>, k: nat, id: uint16)
    requires AllLegal(ops)
  {
    Remembered(ops, k, id) && forall m :: k < m < |ops| ==> !Remembers(ops, m, id)
  }

  // What the store holds is what was remembered last.
  ghost predicate Recalls(c: TimedCell, ops: seq<Op>, k: nat, id: uint16)
    requires AllLegal(ops)
  {
    && c.Held? && WellFormed(c.entry) && c.entry.transmitCount == DO_NOT_SEND && LastRemembered(ops, k, id)
    && c.deadline == ops[k].at + MAX_TRANSMIT_SPAN
    && (if IsAnswer(ops[k], id) then c.entry.data == ops[k].msg else !IsReply(c.entry.data))
    && forall j: nat :: Remembered(ops, j, id) ==> ops[j].at <= ops[k].at
  }

  lemma RememberedGrows(ops: seq<Op>, op: Op, j: nat, id: uint16)
    requires AllLegal(ops) && AllLegal(ops + [op])
    ensures j < |ops| ==>
              && (Remembers(ops + [op], j, id) <==> Remembers(ops, j, id))
              && (Remembered(ops + [op], j, id) <==>
                    Remembered(ops, j, id) && !op.Clear? && (op.Process? ==> op.at < ops[j].at + MAX_TRANSMIT_SPAN))
    ensures Remembers(ops + [op], |ops|, id) <==> IsAnswer(op, id) || (IsConRequest(op, id) && Delivers(Run(ops), op))
    ensures Remembered(ops + [op], |ops|, id) <==> Remembers(ops + [op], |ops|, id)
  {
    hide Run, Delivers, IsAnswer, IsConRequest;
    var longer := ops + [op];
    assert longer[..|ops|] == ops && longer[|ops|] == op;
    if j < |ops| {
      assert longer[..j] == ops[..j] && longer[j] == ops[j];
      if Lasts(ops, j) && !op.Clear? && (op.Process? ==> op.at < ops[j].at + MAX_TRANSMIT_SPAN) {
        assert Lasts(longer, j);
      }
      if Lasts(longer, j) {
        forall m | j < m < |ops|
          ensures !ops[m].Clear? && (ops[m].Process? ==> ops[m].at < ops[j].at + MAX_TRANSMIT_SPAN)
        {
          assert longer[m] == ops[m];
        }
      }
    }
  }

  // One more operation on a cell that recalls something, or nothing.
  lemma RecallStep(c: TimedCell, ops: seq<Op>, op: Op, k: nat, id: uint16) returns (k': nat)
    requires AllLegal(ops) && AllLegal(ops + [op]) && ServerOp(op)
    requires forall j :: 0 <= j < |ops| ==> ops[j].at <= op.at
    requires if c.Held? then Recalls(c, ops, k, id) && c.entry.id == id else forall j: nat :: !Remembered(ops, j, id)
    requires IsConRequest(op, id) ==> (Delivers(Run(ops), op) <==> c.Gone?)
    ensures var c' := TimedAfter(c, op, id);
            if c'.Held? then Recalls(c', ops + [op], k', id) else forall j: nat :: !Remembered(ops + [op], j, id)
  {
    hide Run, Delivers, Lasts, Remembers, Remembered;
    var longer := ops + [op];
    forall j: nat
      ensures j < |ops| ==>
                && (Remembers(longer, j, id) <==> Remembers(ops, j, id))
                && (Remembered(longer, j, id) <==>
                      Remembered(ops, j, id) && !op.Clear? && (op.Process? ==> op.at < ops[j].at + MAX_TRANSMIT_SPAN))
      ensures j > |ops| ==> !Remembered(longer, j, id)
    {
      RememberedGrows(ops, op, j, id);
      RememberedInside(longer, j, id);
    }
    RememberedGrows(ops, op, 0, id);
    RememberedInside(ops, k, id);
    assert longer[|ops|] == op && forall j :: 0 <= j < |ops| ==> longer[j] == ops[j];
    k' := if IsAnswer(op, id) || (IsConRequest(op, id) && c.Gone?) then |ops| else k;
  }

  lemma RememberedInside(ops: seq<Op>, j: nat, id: uint16)
    requires AllLegal(ops)
    ensures Remembered(ops, j, id) ==> j < |ops|
  {
  }

  // Over every well-timed run, the server store holds an entry for an ID exactly when the ID is remembered.
  lemma {:induction false} Memory(start: nat, ops: seq<Op>, id: uint16) returns (k: nat)
    requires (forall op :: op in ops ==> ServerOp(op)) && WellTimed(start, ops)
    ensures AllLegal(ops) && Find(Run(ops), id) == Erase(TimedRun(Gone, ops, id))
    ensures var c := TimedRun(Gone, ops, id);
            if c.Held? then Recalls(c, ops, k, id) else forall j: nat :: !Remembered(ops, j, id)
  {
    k := 0;
    WrappingClockIsInvisible(start, ops, id);
    if ops != [] {
      var front, op := ops[..|ops| - 1], ops[|ops| - 1];
      k := Memory(start, front, id);
      assert ops == front + [op] && op in ops;
      TimesAreOrdered(start, front);
      k := RecallStep(TimedRun(Gone, front, id), front, op, k, id);
    }
  }

  lemma {:induction false} TimesAreOrdered(start: nat, ops: seq<Op>)
    requires WellTimed(start, ops)
    ensures forall j :: 0 <= j < |ops| ==> ops[j].at <= EndTime(start, ops)
  {
    if ops != [] {
      TimesAreOrdered(start, ops[..|ops| - 1]);
    }
  }

  // A confirmable request is handed over exactly when its ID is not remembered: no request with it was handed over and no
  // answer to it was sent in this session, or a pass has come 45 s after the last time.
  lemma HandedOverExactly(start: nat, ops: seq<Op>, request: Op, id: uint16)
    requires (forall op :: op in ops ==> ServerOp(op)) && WellTimed(start, ops) && IsConRequest(request, id)
    ensures AllLegal(ops)
    ensures Delivers(Run(ops), request) <==> forall k: nat :: !Remembered(ops, k, id)
  {
    var k := Memory(start, ops, id);
  }

  ghost predicate LatestAnswer(ops: seq<Op>, k: nat, id: uint16) {
    k < |ops| && IsAnswer(ops[k], id) && Lasts(ops, k) && forall m :: k < m < |ops| ==> !IsAnswer(ops[m], id)
  }

  // Nothing is handed over behind an answer that is remembered.
  lemma AnswerStays(start: nat, ops: seq<Op>, k: nat, id: uint16)
    requires (forall op :: op in ops ==> ServerOp(op)) && WellTimed(start, ops)
    ensures AllLegal(ops)
    ensures LatestAnswer(ops, k, id) ==> LastRemembered(ops, k, id)
  {
    hide Run, WellTimed, Delivers;
    if LatestAnswer(ops, k, id) {
      forall m | k < m < |ops|
        ensures !Remembers(ops, m, id)
      {
        var front := ops[..m];
        assert ops == front + ops[m..] && front[k] == ops[k];
        SuffixMonotone(start, front, ops[m..]);
        assert forall n :: 0 <= n < m ==> front[n] == ops[n];
        assert Lasts(front, k) && Remembered(front, k, id);
        if IsConRequest(ops[m], id) {
          HandedOverExactly(start, front, ops[m], id);
        }
      }
    }
  }

  lemma LastIsLatest(ops: seq<Op>, k: nat, id: uint16)
    requires AllLegal(ops) && LastRemembered(ops, k, id) && IsAnswer(ops[k], id)
    ensures LatestAnswer(ops, k, id)
  {
    forall m | k < m < |ops|
      ensures !IsAnswer(ops[m], id)
    {
      assert !Remembers(ops, m, id);
    }
  }

  lemma ReplyOfRecall(s: seq<Entry>, c: TimedCell, ops: seq<Op>, k: nat, request: Op, id: uint16)
    requires Valid(s) && IsConRequest(request, id) && Find(s, id) == Erase(c) && AllLegal(ops)
    requires c.Held? ==> Recalls(c, ops, k, id)
    ensures Transmits(s, request) == if c.Held? && IsAnswer(ops[k], id) then [ops[k].msg] else []
  {
    hide Lasts, LastRemembered, Valid;
  }

  // And it is answered exactly when an answer is remembered, with the latest one.
  lemma AnsweredExactly(start: nat, ops: seq<Op>, request: Op, id: uint16)
    requires (forall op :: op in ops ==> ServerOp(op)) && WellTimed(start, ops) && IsConRequest(request, id)
    ensures AllLegal(ops)
    ensures (forall k: nat :: !LatestAnswer(ops, k, id)) ==> Transmits(Run(ops), request) == []
    ensures forall k: nat :: LatestAnswer(ops, k, id) ==>
              k < |ops| && ops[k].Send? && Transmits(Run(ops), request) == [ops[k].msg]
  {
    hide WellTimed, Transmits, Run, TimedRun, Find, Lasts, Remembers, ServerOp;
    var last := Memory(start, ops, id);
    ReplyOfRecall(Run(ops), TimedRun(Gone, ops, id), ops, last, request, id);
    if k: nat :| LatestAnswer(ops, k, id) {
      AnswerStays(start, ops, k, id);
      forall k: nat | LatestAnswer(ops, k, id)
        ensures k == last && IsAnswer(ops[k], id)
      {
        AnswerStays(start, ops, k, id);
        assert Remembered(ops, last, id);
      }
    } else if TimedRun(Gone, ops, id).Held? && IsAnswer(ops[last], id) {
      LastIsLatest(ops, last, id);
    }
  }

  // The age of what is remembered is only looked at in a pass: without one, a request is swallowed 100 s later.
  lemma OldRequestIsSwallowed(request: seq<byte>)
    requires MessageType(request) == CON
    ensures !Delivers(Run([Receive(request, 0)]), Receive(request, 100_000))
    ensures WellTimed(0, [Receive(request, 0), Receive(request, 100_000)])
  {
    var first := Receive(request, 0);
    assert [first][..0] == [] && [first, Receive(request, 100_000)][..1] == [first];
    assert Run([]) == [];
  }

  // Requests that need no confirmation, and what is too short for a message, are passed on and change nothing.
  lemma OthersPass(s: seq<Entry>, op: Op)
    requires Valid(s) && op.Receive? && MessageType(op.msg) in {NON, ERROR}
    ensures Delivers(s, op) && Transmits(s, op) == [] && Step(s, op) == s
  {
  }

  // ---- The server store never retransmits

  ghost predicate Expiring(s: seq<Entry>)
    requires Valid(s)
  {
    forall e :: e in s ==> e.transmitCount == DO_NOT_SEND && !e.watched && TypeOf(e.data) != NON
  }

  lemma {:induction false} NothingRetried(s: seq<Entry>, now: uint32, draws: Draws)
    requires Valid(s) && forall e :: e in s ==> e.transmitCount == DO_NOT_SEND
    ensures Resends(s, now) == []
    ensures forall e :: e in Processed(s, now, draws) ==> e in s
  {
    if s != [] {
      assert s == [s[0]] + s[1..];
      NothingRetried(s[1..], now, draws);
    }
  }

  lemma StepKeepsExpiring(s: seq<Entry>, op: Op)
    requires Valid(s) && Expiring(s) && ServerOp(op) && Legal(op)
    ensures Valid(Step(s, op)) && Expiring(Step(s, op))
  {
    StepKeepsValid(s, op);
    match op
    case Send(msg, _, _) => WithoutKeepsValid(s, IdOf(msg));
    case Receive(msg, _) => WithoutKeepsValid(s, IdOf(msg)); assert TypeOf(msg[..Min(5, |msg|)]) == TypeOf(msg);
    case Process(at, draws) => NothingRetried(s, Low32(at), draws);
    case _ =>
  }

  lemma {:induction false} ServerEntriesExpire(ops: seq<Op>)
    requires forall op :: op in ops ==> ServerOp(op)
    ensures AllLegal(ops) && Expiring(Run(ops))
  {
    if ops != [] {
      var front, op := ops[..|ops| - 1], ops[|ops| - 1];
      ServerEntriesExpire(front);
      assert op in ops;
      StepKeepsExpiring(Run(front), op);
    }
  }

  // No operation on the server store transmits anything but the stored answer to a duplicate.
  lemma ServerStoreNeverRetransmits(ops: seq<Op>, op: Op)
    requires (forall o :: o in ops ==> ServerOp(o)) && op.Process?
    ensures AllLegal(ops) && Transmits(Run(ops), op) == [] && !ReportsTimeout(Run(ops), Low32(op.at))
  {
    ServerEntriesExpire(ops);
    NothingRetried(Run(ops), Low32(op.at), op.draws);
    NothingReported(Run(ops), Low32(op.at));
  }

  lemma {:induction false} NothingReported(s: seq<Entry>, now: uint32)
    requires Valid(s) && forall e :: e in s ==> !e.watched
    ensures !ReportsTimeout(s, now)
  {
    if s != [] {
      NothingReported(s[1..], now);
    }
  }

  // ---- Replies match requests

  predicate IsReplyTo(op: Op, id: uint16) {
    op.Receive? && MessageType(op.msg) in {ACK, RESET} && IdOf(op.msg) == id
  }

  predicate Requests(op: Op, id: uint16) {
    op.Send? && Legal(op) && TypeOf(op.msg) == CON && IdOf(op.msg) == id
  }

  ghost function RepliesDelivered(ops: seq<Op>, id: uint16): nat
    requires AllLegal(ops)
  {
    if ops == [] then 0
    else
      var front, op := ops[..|ops| - 1], ops[|ops| - 1];
      RepliesDelivered(front, id) + if IsReplyTo(op, id) && Delivers(Run(front), op) then 1 else 0
  }

  ghost function RequestsSent(ops: seq<Op>, id: uint16): nat {
    if ops == [] then 0
    else RequestsSent(ops[..|ops| - 1], id) + if Requests(ops[|ops| - 1], id) then 1 else 0
  }

  // The request pending under the ID is given up without a reply: another one replaces it, a pass drops it, or it is
  // forgotten.
  ghost predicate Loses(s: seq<Entry>, op: Op, id: uint16)
    requires Valid(s) && Legal(op)
  {
    && Find(s, id).Present?
    && match op
       case Send(_, _, _) => Requests(op, id)
       case Receive(_, _) => false
       case Process(_, _) => Find(Step(s, op), id).Absent?
       case Watch(_, _) => false
       case Forget(forgotten, _) => forgotten == id
       case Clear(_) => true
  }

  ghost function RequestsLost(ops: seq<Op>, id: uint16): nat
    requires AllLegal(ops)
  {
    if ops == [] then 0
    else
      var front, op := ops[..|ops| - 1], ops[|ops| - 1];
      RequestsLost(front, id) + if Loses(Run(front), op, id) then 1 else 0
  }

  // Every reply handed to the application uses up one request, and every request that is not lost is pending or gets one:
  // over any run of the client store, requests sent with an ID = replies delivered for it + requests lost + the one that
  // is pending.
  lemma {:induction false} RepliesMatchRequests(ops: seq<Op>, id: uint16)
    requires forall op :: op in ops ==> ClientOp(op)
    ensures AllLegal(ops)
    ensures RequestsSent(ops, id)
         == RepliesDelivered(ops, id) + RequestsLost(ops, id) + if Find(Run(ops), id).Present? then 1 else 0
  {
    if ops != [] {
      var front, op := ops[..|ops| - 1], ops[|ops| - 1];
      RepliesMatchRequests(front, id);
      assert op in ops;
      FindStep(Run(front), op, id);
    }
  }

  // ---- The transmission schedule of a confirmable message

  // Nothing in the operations concerns the message except the passing of time.
  predicate LeavesAlone(op: Op, id: uint16) {
    match op
    case Send(msg, _, _) => Legal(op) && TypeOf(msg) in {CON, NON} && IdOf(msg) != id
    case Receive(msg, _) => MessageType(msg) !in {CON, NON} && (MessageType(msg) != ERROR ==> IdOf(msg) != id)
    case Process(_, _) => true
    case Watch(_, _) => true
    case Forget(forgotten, _) => forgotten != id
    case Clear(_) => false
  }

  ghost predicate Unanswered(ops: seq<Op>, id: uint16) {
    forall op :: op in ops ==> LeavesAlone(op, id)
  }

  // The earliest and the latest age of a message at which its n-th wait ends, if it is polled every millisecond.
  function Earliest(n: nat): nat {
    match n
    case 0 => 0
    case 1 => 4000
    case 2 => 12000
    case 3 => 28000
    case _ => 60000
  }

  function Latest(n: nat): nat {
    match n
    case 0 => 0
    case 1 => 5992
    case 2 => 17976
    case 3 => 41944
    case _ => 89881
  }

  predicate Expires(c: TimedCell, op: Op) {
    c.Held? && op.Process? && c.deadline <= op.at
  }

  // The times at which a pass retransmits the message, and the times at which a pass gives it up.
  ghost function ResendTimes(c: TimedCell, ops: seq<Op>, id: uint16): seq<nat>
    requires AllLegal(ops) && (c.Held? ==> WellFormed(c.entry) && c.entry.id == id)
  {
    if ops == [] then []
    else
      var front, op := ops[..|ops| - 1], ops[|ops| - 1];
      var c' := TimedRun(c, front, id);
      ResendTimes(c, front, id) + if Expires(c', op) && Retries(c'.entry) then [op.at] else []
  }

  ghost function GiveUpTimes(c: TimedCell, ops: seq<Op>, id: uint16): seq<nat>
    requires AllLegal(ops) && (c.Held? ==> WellFormed(c.entry) && c.entry.id == id)
  {
    if ops == [] then []
    else
      var front, op := ops[..|ops| - 1], ops[|ops| - 1];
      var c' := TimedRun(c, front, id);
      GiveUpTimes(c, front, id) + if Expires(c', op) && !Retries(c'.entry) then [op.at] else []
  }

  // The state of a message that was first sent at time t0 and has been retransmitted at the given times.
  ghost predicate OnSchedule(c: TimedCell, m: seq<byte>, t0: nat, resent: seq<nat>, gaveUp: seq<nat>, now: nat) {
    && |resent| <= MAX_RETRANSMIT
    && (forall k :: 0 <= k < |resent| ==> t0 + Earliest(k + 1) <= resent[k] <= now)
    && (c.Held? ==> gaveUp == [] && c.entry.data == m && c.entry.transmitCount == |resent| + 1
                    && t0 + Earliest(|resent| + 1) <= c.deadline)
    && (c.Gone? ==> |resent| == MAX_RETRANSMIT && |gaveUp| == 1 && t0 + Earliest(4) <= gaveUp[0] <= now)
  }

  // With passes at most gap apart each wait ends at most gap - 1 late.
  function Lag(n: nat, gap: nat): int {
    match n
    case 0 => 0
    case 1 => gap - 1
    case 2 => 2 * (gap - 1)
    case 3 => 3 * (gap - 1)
    case _ => 4 * (gap - 1)
  }

  ghost predicate Punctual(c: TimedCell, t0: nat, resent: seq<nat>, gaveUp: seq<nat>, gap: nat, lastPass: nat) {
    && (forall k :: 0 <= k < |resent| ==> resent[k] <= t0 + Latest(k + 1) + Lag(k + 1, gap))
    && (c.Held? ==> lastPass < c.deadline <= t0 + Latest(|resent| + 1) + Lag(|resent|, gap))
    && (forall k :: 0 <= k < |gaveUp| ==> gaveUp[k] <= t0 + Latest(4) + Lag(4, gap))
  }

  lemma ScheduleStep(c: TimedCell, m: seq<byte>, t0: nat, resent: seq<nat>, gaveUp: seq<nat>, now: nat, op: Op,
                     id: uint16)
    requires |m| >= MINIMUM_COAP_MESSAGE_LENGTH && TypeOf(m) == CON && IdOf(m) == id
    requires c.Held? ==> c.entry.id == id
    requires OnSchedule(c, m, t0, resent, gaveUp, now) && t0 <= now <= op.at && LeavesAlone(op, id)
    ensures OnSchedule(TimedAfter(c, op, id), m, t0,
                       resent + if Expires(c, op) && Retries(c.entry) then [op.at] else [],
                       gaveUp + if Expires(c, op) && !Retries(c.entry) then [op.at] else [], op.at)
  {
    if Expires(c, op) && Retries(c.entry) {
      TransmitTimeoutBounds(c.entry.transmitCount, op.draws(id));
    }
  }

  lemma PunctualStep(c: TimedCell, m: seq<byte>, t0: nat, resent: seq<nat>, gaveUp: seq<nat>, now: nat, op: Op,
                     id: uint16, gap: nat, lastPass: nat)
    requires |m| >= MINIMUM_COAP_MESSAGE_LENGTH && TypeOf(m) == CON && IdOf(m) == id
    requires c.Held? ==> c.entry.id == id
    requires OnSchedule(c, m, t0, resent, gaveUp, now) && Punctual(c, t0, resent, gaveUp, gap, lastPass)
    requires t0 <= now <= op.at && LeavesAlone(op, id) && gap >= 1 && (op.Process? ==> op.at - lastPass <= gap)
    ensures Punctual(TimedAfter(c, op, id), t0,
                     resent + if Expires(c, op) && Retries(c.entry) then [op.at] else [],
                     gaveUp + if Expires(c, op) && !Retries(c.entry) then [op.at] else [],
                     gap, if op.Process? then op.at else lastPass)
  {
    if Expires(c, op) && Retries(c.entry) {
      TransmitTimeoutBounds(c.entry.transmitCount, op.draws(id));
    }
  }

  lemma {:induction false} ScheduleOfCell(c: TimedCell, m: seq<byte>, t0: nat, ops: seq<Op>, id: uint16)
    requires |m| >= MINIMUM_COAP_MESSAGE_LENGTH && TypeOf(m) == CON && IdOf(m) == id
    requires c.Held? && c.entry.data == m && c.entry.id == id && c.entry.transmitCount == 1
    requires t0 + 4000 <= c.deadline
    requires Unanswered(ops, id) && Monotone(t0, ops)
    ensures AllLegal(ops) && t0 <= EndTime(t0, ops)
    ensures OnSchedule(TimedRun(c, ops, id), m, t0, ResendTimes(c, ops, id), GiveUpTimes(c, ops, id), EndTime(t0, ops))
  {
    if ops != [] {
      var front, op := ops[..|ops| - 1], ops[|ops| - 1];
      assert op in ops;
      ScheduleOfCell(c, m, t0, front, id);
      ScheduleStep(TimedRun(c, front, id), m, t0, ResendTimes(c, front, id), GiveUpTimes(c, front, id),
                   EndTime(t0, front), op, id);
    }
  }

  lemma {:induction false} PunctualCell(c: TimedCell, m: seq<byte>, t0: nat, ops: seq<Op>, id: uint16, gap: nat)
    requires |m| >= MINIMUM_COAP_MESSAGE_LENGTH && TypeOf(m) == CON && IdOf(m) == id
    requires c.Held? && c.entry.data == m && c.entry.id == id && c.entry.transmitCount == 1
    requires t0 + 4000 <= c.deadline <= t0 + 5992
    requires Unanswered(ops, id) && Monotone(t0, ops) && gap >= 1 && PolledEvery(gap, t0, ops)
    ensures AllLegal(ops)
    ensures Punctual(TimedRun(c, ops, id), t0, ResendTimes(c, ops, id), GiveUpTimes(c, ops, id), gap, LastPass(t0, ops))
  {
    if ops != [] {
      var front, op := ops[..|ops| - 1], ops[|ops| - 1];
      assert op in ops;
      PunctualCell(c, m, t0, front, id, gap);
      ScheduleOfCell(c, m, t0, front, id);
      PunctualStep(TimedRun(c, front, id), m, t0, ResendTimes(c, front, id), GiveUpTimes(c, front, id),
                   EndTime(t0, front), op, id, gap, LastPass(t0, front));
    }
  }

  // The number of times that processing passes transmit a message during a segment of a run.
  ghost function Retransmissions(pre: seq<Op>, seg: seq<Op>, m: seq<byte>): nat
    requires AllLegal(pre + seg)
  {
    if seg == [] then 0
    else
      var front, op := seg[..|seg| - 1], seg[|seg| - 1];
      assert pre + seg == pre + front + [op];
      Retransmissions(pre, front, m) + multiset(Transmits(Run(pre + front), op))[m]
  }

  lemma {:induction false} ResendsOnce(s: seq<Entry>, now: uint32, m: seq<byte>)
    requires Valid(s) && |m| >= MINIMUM_COAP_MESSAGE_LENGTH
    ensures Find(s, IdOf(m)).Present? ==> WellFormed(Find(s, IdOf(m)).entry)
    ensures multiset(Resends(s, now))[m] ==
            if Find(s, IdOf(m)).Present? && Find(s, IdOf(m)).entry.data == m
               && FateOf(Find(s, IdOf(m)).entry, now) == Resent then 1 else 0
  {
    FindIsMember(s, IdOf(m));
    if s != [] {
      ResendsOnce(s[1..], now, m);
      FindIsMember(s[1..], IdOf(m));
      var first := if FateOf(s[0], now) == Resent then [s[0].data] else [];
      assert multiset(Resends(s, now)) == multiset(first) + multiset(Resends(s[1..], now));
      assert WellFormed(s[0]);
    }
  }

  // The message as the store holds it when it is first sent.
  ghost function FirstHeld(send: Op): (c: TimedCell)
    requires send.Send? && Legal(send)
    ensures c.Held?
  {
    Fresh(send.msg, 1, send.at + TransmitTimeout(0, send.draw))
  }

  lemma {:induction false} CellOfMessage(start: nat, pre: seq<Op>, send: Op, mid: seq<Op>, id: uint16)
    requires Requests(send, id) && AllLegal(pre) && Unanswered(mid, id)
    requires WellTimed(start, pre + [send] + mid)
    ensures AllLegal(mid) && AllLegal(pre + [send] + mid)
    ensures Find(Run(pre + [send] + mid), id) == Erase(TimedRun(FirstHeld(send), mid, id))
    ensures OnTime(TimedRun(FirstHeld(send), mid, id), LastPass(start, pre + [send] + mid),
                   EndTime(start, pre + [send] + mid))
    ensures LastPass(start, pre + [send] + mid) <= EndTime(start, pre + [send] + mid)
  {
    CellAfter(start, pre + [send], mid, id);
    TimedRunConcat(Gone, pre, [send], id);
    assert [send][..0] == [];
    TimedRunConcat(Gone, pre + [send], mid, id);
    WrappingClockIsInvisible(start, pre + [send] + mid, id);
  }

  // One more operation transmits the message exactly when its wait is over and it may be retried.
  lemma OneMoreOperation(start: nat, pre: seq<Op>, send: Op, front: seq<Op>, op: Op, id: uint16)
    requires Requests(send, id) && AllLegal(pre) && Unanswered(front, id) && LeavesAlone(op, id)
    requires WellTimed(start, pre + [send] + front) && EndTime(start, pre + [send] + front) <= op.at
    requires op.Process? ==> op.at - LastPass(start, pre + [send] + front) <= HALF_TICKS
    ensures AllLegal(front) && AllLegal(pre + [send] + front)
    ensures var c := TimedRun(FirstHeld(send), front, id);
            multiset(Transmits(Run(pre + [send] + front), op))[send.msg] ==
            if Expires(c, op) && Retries(c.entry) then 1 else 0
  {
    CellOfMessage(start, pre, send, front, id);
    SuffixMonotone(start, pre + [send], front);
    TransmitTimeoutBounds(0, send.draw);
    ScheduleOfCell(FirstHeld(send), send.msg, send.at, front, id);
    if op.Process? {
      ResendsOnce(Run(pre + [send] + front), Low32(op.at), send.msg);
      PassIsOnTime(TimedRun(FirstHeld(send), front, id), op, LastPass(start, pre + [send] + front),
                   EndTime(start, pre + [send] + front));
    }
  }

  lemma {:induction false} RetransmissionsOfCell(start: nat, pre: seq<Op>, send: Op, mid: seq<Op>, id: uint16)
    requires Requests(send, id) && AllLegal(pre) && Unanswered(mid, id)
    requires WellTimed(start, pre + [send] + mid)
    ensures AllLegal(mid) && AllLegal(pre + [send] + mid)
    ensures Retransmissions(pre + [send], mid, send.msg) == |ResendTimes(FirstHeld(send), mid, id)|
  {
    if mid != [] {
      var front, op := mid[..|mid| - 1], mid[|mid| - 1];
      var ops := pre + [send] + mid;
      assert op in mid && ops[|ops| - 1] == op && ops[..|ops| - 1] == pre + [send] + front;
      RetransmissionsOfCell(start, pre, send, front, id);
      OneMoreOperation(start, pre, send, front, op, id);
      assert multiset(Transmits(Run(ops[..|ops| - 1]), op)) == multiset(Transmits(Run(pre + [send] + front), op));
    }
  }

  // A pass sees an entry as due exactly when its unbounded deadline has come.
  lemma PassIsOnTime(c: TimedCell, op: Op, lastPass: nat, now: nat)
    requires op.Process? && OnTime(c, lastPass, now) && lastPass <= now <= op.at && op.at - lastPass <= HALF_TICKS
    requires c.Held? ==> WellFormed(c.entry)
    ensures c.Held? ==> (FateOf(c.entry, Low32(op.at)) == Resent <==> Expires(c, op) && Retries(c.entry))
    ensures c.Held? ==> (FateOf(c.entry, Low32(op.at)) == Dropped <==> Expires(c, op) && !Retries(c.entry))
  {
    if c.Held? {
      TimeHasPassedIsOrder(op.at, c.deadline);
    }
  }

  // Sections 4.2 and 4.8.2 of RFC 7252, for all random draws and across clock wrap: a confirmable message that is not
  // answered is retransmitted at most MAX_RETRANSMIT times, never before its exponentially growing waits are over, and
  // it is given up only after all retransmissions, at least 60 s after it was first sent.
  lemma ConfirmableIsRetransmitted(start: nat, pre: seq<Op>, send: Op, mid: seq<Op>, id: uint16)
    requires Requests(send, id) && AllLegal(pre) && Unanswered(mid, id)
    requires WellTimed(start, pre + [send] + mid)
    ensures AllLegal(pre + [send] + mid)
    ensures Retransmissions(pre + [send], mid, send.msg) <= MAX_RETRANSMIT
    ensures var times := ResendTimes(FirstHeld(send), mid, id);
            && |times| == Retransmissions(pre + [send], mid, send.msg)
            && forall k :: 0 <= k < |times| ==> times[k] >= send.at + Earliest(k + 1)
    ensures Find(Run(pre + [send] + mid), id).Absent? ==>
              && Retransmissions(pre + [send], mid, send.msg) == MAX_RETRANSMIT
              && |GiveUpTimes(FirstHeld(send), mid, id)| == 1
              && GiveUpTimes(FirstHeld(send), mid, id)[0] >= send.at + 60000
    ensures Find(Run(pre + [send] + mid), id).Present? ==> GiveUpTimes(FirstHeld(send), mid, id) == []
  {
    CellOfMessage(start, pre, send, mid, id);
    RetransmissionsOfCell(start, pre, send, mid, id);
    SuffixMonotone(start, pre + [send], mid);
    TransmitTimeoutBounds(0, send.draw);
    ScheduleOfCell(FirstHeld(send), send.msg, send.at, mid, id);
  }

  // A reply to the message is handed to the application exactly when the message has not been given up, so always in the
  // first 60 s.
  lemma ReplyIsDelivered(start: nat, pre: seq<Op>, send: Op, mid: seq<Op>, reply: Op, id: uint16)
    requires Requests(send, id) && AllLegal(pre) && Unanswered(mid, id) && IsReplyTo(reply, id)
    requires WellTimed(start, pre + [send] + mid)
    ensures AllLegal(mid) && AllLegal(pre + [send] + mid)
    ensures Delivers(Run(pre + [send] + mid), reply) <==> GiveUpTimes(FirstHeld(send), mid, id) == []
    ensures EndTime(send.at, mid) < send.at + 60000 ==> Delivers(Run(pre + [send] + mid), reply)
  {
    CellOfMessage(start, pre, send, mid, id);
    SuffixMonotone(start, pre + [send], mid);
    TransmitTimeoutBounds(0, send.draw);
    ScheduleOfCell(FirstHeld(send), send.msg, send.at, mid, id);
  }

  // If the store is polled at least every gap milliseconds, the last retransmission comes at most 41944 ms and the end
  // at most 89881 ms after the first transmission, plus gap - 1 for each wait.
  lemma ConfirmableEndsInTime(start: nat, pre: seq<Op>, send: Op, mid: seq<Op>, id: uint16, gap: nat)
    requires Requests(send, id) && AllLegal(pre) && Unanswered(mid, id)
    requires WellTimed(start, pre + [send] + mid) && gap >= 1 && PolledEvery(gap, send.at, mid)
    ensures AllLegal(pre + [send] + mid)
    ensures var times := ResendTimes(FirstHeld(send), mid, id);
            forall k :: 0 <= k < |times| ==> times[k] <= send.at + Latest(k + 1) + Lag(k + 1, gap)
    ensures var times := GiveUpTimes(FirstHeld(send), mid, id);
            forall k :: 0 <= k < |times| ==> times[k] <= send.at + 89881 + Lag(4, gap)
    ensures LastPass(send.at, mid) >= send.at + 89881 + Lag(3, gap) ==> Find(Run(pre + [send] + mid), id).Absent?
  {
    hide WellTimed, Run, TimedRun, ResendTimes, GiveUpTimes, Find, OnTime, Monotone;
    CellOfMessage(start, pre, send, mid, id);
    SuffixMonotone(start, pre + [send], mid);
    TransmitTimeoutBounds(0, send.draw);
    ScheduleOfCell(FirstHeld(send), send.msg, send.at, mid, id);
    PunctualCell(FirstHeld(send), send.msg, send.at, mid, id, gap);
  }

  // Polled every millisecond, a message is last transmitted within MAX_TRANSMIT_SPAN and given up within 90 s.
  lemma ConfirmablePolledEveryTick(start: nat, pre: seq<Op>, send: Op, mid: seq<Op>, id: uint16)
    requires Requests(send, id) && AllLegal(pre) && Unanswered(mid, id)
    requires WellTimed(start, pre + [send] + mid) && PolledEvery(1, send.at, mid)
    ensures AllLegal(mid)
    ensures var times := ResendTimes(FirstHeld(send), mid, id);
            forall k :: 0 <= k < |times| ==> times[k] < send.at + 42000 < send.at + MAX_TRANSMIT_SPAN
    ensures var times := GiveUpTimes(FirstHeld(send), mid, id);
            forall k :: 0 <= k < |times| ==> send.at + 60000 <= times[k] < send.at + 90000
  {
    SuffixMonotone(start, pre + [send], mid);
    TransmitTimeoutBounds(0, send.draw);
    ScheduleOfCell(FirstHeld(send), send.msg, send.at, mid, id);
    PunctualCell(FirstHeld(send), send.msg, send.at, mid, id, 1);
  }
}
