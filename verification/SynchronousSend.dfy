// The progress of a blocking send, as a value: what the loop of send_synchronous knows about its message.
module SynchronousSend {
  import opened Words
  import opened CoapMessage
  import opened StoreSpec
  import opened StoreRuns
  import opened StoreGuarantees
  import opened Link

  // At most one message has a delivery handler.
  ghost predicate OnlyWatched(s: seq<Entry>, id: uint16) {
    forall e :: e in s && e.watched ==> e.id == id
  }

  ghost predicate NoneWatched(s: seq<Entry>) {
    forall e :: e in s ==> !e.watched
  }

  lemma StepKeepsOnlyWatched(s: seq<Entry>, op: Op, id: uint16)
    requires Valid(s) && Legal(op) && OnlyWatched(s, id) && (op.Watch? ==> op.id == id)
    ensures OnlyWatched(Step(s, op), id)
    ensures op.Forget? && op.id == id ==> NoneWatched(Step(s, op))
  {
    StepKeepsValid(s, op);
    forall e | e in Step(s, op) && e.watched
      ensures e.id == id && !(op.Forget? && op.id == id)
    {
      FindMember(Step(s, op), e);
      FindStep(s, op, e.id);
      FindIsMember(s, e.id);
    }
  }

  lemma FindMember(s: seq<Entry>, e: Entry)
    requires Valid(s) && e in s
    ensures Find(s, e.id) == Present(e)
  {
    var k :| 0 <= k < |s| && s[k] == e;
    AtPosition(s, k);
  }

  lemma StepKeepsNoneWatched(s: seq<Entry>, op: Op)
    requires Valid(s) && Legal(op) && NoneWatched(s) && !op.Watch?
    ensures NoneWatched(Step(s, op))
  {
    hide Step, Find, FindAfter;
    StepKeepsValid(s, op);
    forall e | e in Step(s, op)
      ensures !e.watched
    {
      FindMember(Step(s, op), e);
      FindStep(s, op, e.id);
      FindIsMember(s, e.id);
      StaysUnwatched(Find(s, e.id), op, e.id);
    }
  }

  lemma StaysUnwatched(l: Lookup, op: Op, id: uint16)
    requires Legal(op) && !op.Watch? && (l.Present? ==> WellFormed(l.entry) && !l.entry.watched)
    ensures FindAfter(l, op, id).Present? ==> !FindAfter(l, op, id).entry.watched
  {
  }

  // With one handler, a pass reports a timeout exactly when it drops the watched message.
  lemma {:induction false} ReportsTimeoutOnlyFor(s: seq<Entry>, now: uint32, id: uint16)
    requires Valid(s) && OnlyWatched(s, id)
    ensures ReportsTimeout(s, now) <==>
              Find(s, id).Present? && Find(s, id).entry.watched && Find(s, id).entry in s
              && FateOf(Find(s, id).entry, now) == Dropped
  {
    FindIsMember(s, id);
    if s != [] {
      assert s == [s[0]] + s[1..];
      ReportsTimeoutOnlyFor(s[1..], now, id);
      FindIsMember(s[1..], id);
    }
  }

  predicate Answers(arrival: Arrival, kind: CoapType, id: uint16) {
    arrival.Arrived? && MessageType(arrival.bytes) == kind && kind in {ACK, RESET} && IdOf(arrival.bytes) == id
  }

  // The three ways in which the message leaves the store.
  ghost predicate Finished(id: uint16, t0: nat, resent: seq<nat>, arrivals: nat -> Arrival, first: nat, polls: nat,
                           error: ProtocolError, now: nat) {
    match error
    case NoError => exists k :: first <= k < polls && Answers(arrivals(k), ACK, id)
    case MessageReset => exists k :: first <= k < polls && Answers(arrivals(k), RESET, id)
    case MessageTimeout =>
      && |resent| == MAX_RETRANSMIT && now >= t0 + 60000
      && (forall k | first <= k < polls :: !Answers(arrivals(k), ACK, id) && !Answers(arrivals(k), RESET, id))
    case _ => false
  }

  // What the loop knows after the polls numbered from first up to, but not including, polls.
  ghost predicate Progress(c: TimedCell, m: seq<byte>, id: uint16, t0: nat, resent: seq<nat>,
                           arrivals: nat -> Arrival, first: nat, polls: nat, error: ProtocolError, now: nat) {
    && |resent| <= MAX_RETRANSMIT
    && match c
       case Held(e, _) =>
         && WellFormed(e) && e.id == id && e.watched
         && OnSchedule(c, m, t0, resent, [], now)
         && (forall k | first <= k < polls :: !Answers(arrivals(k), ACK, id) && !Answers(arrivals(k), RESET, id))
         && (error == NoError || (first < polls && arrivals(polls - 1).Failed?
                                  && error == ChannelError(arrivals(polls - 1).code)))
       case Gone => Finished(id, t0, resent, arrivals, first, polls, error, now)
  }

  // The cell after the message that arrived has been shown to the store.
  function Answered(c: TimedCell, arrival: Arrival, id: uint16): TimedCell {
    if Answers(arrival, ACK, id) || Answers(arrival, RESET, id) then Gone else c
  }

  // The error variable after one iteration of the loop.
  function NextError(c: TimedCell, arrival: Arrival, id: uint16, pass: Op): ProtocolError
    requires c.Held? ==> WellFormed(c.entry)
  {
    if Answers(arrival, RESET, id) then MessageReset
    else if Answers(arrival, ACK, id) then NoError
    else if Expires(c, pass) && !Retries(c.entry) then MessageTimeout
    else match arrival
         case Failed(code) => ChannelError(code)
         case Arrived(_) => NoError
  }

  // One iteration keeps what the loop knows.
  lemma ProgressStep(c: TimedCell, m: seq<byte>, id: uint16, t0: nat, resent: seq<nat>,
                     arrivals: nat -> Arrival, first: nat, polls: nat, now: nat, pass: Op)
    requires |m| >= MINIMUM_COAP_MESSAGE_LENGTH && TypeOf(m) == CON && IdOf(m) == id && first <= polls
    requires c.Held? && Progress(c, m, id, t0, resent, arrivals, first, polls, NoError, now)
    requires pass.Process? && t0 <= now <= pass.at
    ensures var c' := Answered(c, arrivals(polls), id);
            Progress(TimedAfter(c', pass, id), m, id, t0,
                     resent + if Expires(c', pass) && Retries(c'.entry) then [pass.at] else [],
                     arrivals, first, polls + 1, NextError(c, arrivals(polls), id, pass), pass.at)
  {
    if !Answers(arrivals(polls), ACK, id) && !Answers(arrivals(polls), RESET, id) {
      ScheduleStep(c, m, t0, resent, [], now, pass, id);
    }
  }

  // What a pass does to the one watched message, in unbounded time.
  lemma {:induction false} PassOverWatched(s: seq<Entry>, id: uint16, m: seq<byte>, c: TimedCell, lastPass: nat,
                                           pass: Op)
    requires Valid(s) && OnlyWatched(s, id) && Find(s, id) == Erase(c) && OnTime(c, lastPass, lastPass)
    requires c.Held? ==> WellFormed(c.entry) && c.entry.watched && c.entry.data == m && c.entry.id == id
    requires |m| >= MINIMUM_COAP_MESSAGE_LENGTH && IdOf(m) == id
    requires pass.Process? && lastPass <= pass.at <= lastPass + HALF_TICKS
    ensures Find(Step(s, pass), id) == Erase(TimedAfter(c, pass, id))
    ensures OnTime(TimedAfter(c, pass, id), pass.at, pass.at)
    ensures ReportsTimeout(s, Low32(pass.at)) <==> Expires(c, pass) && !Retries(c.entry)
    ensures multiset(Resends(s, Low32(pass.at)))[m] == if Expires(c, pass) && Retries(c.entry) then 1 else 0
    ensures OnlyWatched(Step(s, pass), id)
  {
    FindStep(s, pass, id);
    SimulationStep(c, pass, id, lastPass, lastPass);
    PassIsOnTime(c, pass, lastPass, lastPass);
    ReportsTimeoutOnlyFor(s, Low32(pass.at), id);
    FindIsMember(s, id);
    ResendsOnce(s, Low32(pass.at), m);
    StepKeepsOnlyWatched(s, pass, id);
  }

  // What an acknowledgement or a reset does to the one watched message.
  lemma ReplyToWatched(s: seq<Entry>, id: uint16, c: TimedCell, op: Op)
    requires Valid(s) && OnlyWatched(s, id) && Find(s, id) == Erase(c) && c.Held? && c.entry.watched
    requires op.Receive? && MessageType(op.msg) in {ACK, RESET}
    ensures Find(Step(s, op), id) == Erase(Answered(c, Arrived(op.msg), id)) && OnlyWatched(Step(s, op), id)
    ensures React(s, op.msg, Low32(op.at)).nacked <==> Answers(Arrived(op.msg), RESET, id)
  {
    FindStep(s, op, id);
    FindIsMember(s, IdOf(op.msg));
    StepKeepsOnlyWatched(s, op, id);
  }

  // The two halves of an iteration make one step, and either the message leaves the store, or it is retransmitted, or
  // its deadline has not come.
  lemma IterationStep(c: TimedCell, m: seq<byte>, id: uint16, t0: nat, resent: seq<nat>,
                      arrivals: nat -> Arrival, first: nat, polls: nat, now: nat, pass: Op)
    requires |m| >= MINIMUM_COAP_MESSAGE_LENGTH && TypeOf(m) == CON && IdOf(m) == id && first <= polls
    requires c.Held? && Progress(c, m, id, t0, resent, arrivals, first, polls, NoError, now)
    requires pass.Process? && t0 <= now <= pass.at
    ensures var c' := Answered(c, arrivals(polls), id);
            var after := TimedAfter(c', pass, id);
            var again := Expires(c', pass) && Retries(c'.entry);
            && Progress(after, m, id, t0, resent + if again then [pass.at] else [], arrivals, first, polls + 1,
                        NextError(c, arrivals(polls), id, pass), pass.at)
            && (after.Held? && !again ==> after == c && pass.at < c.deadline)
            && NextError(c, arrivals(polls), id, pass) ==
               if Expires(c', pass) && !Retries(c'.entry) then MessageTimeout
               else if Answers(arrivals(polls), RESET, id) then MessageReset
               else if arrivals(polls).Failed? then ChannelError(arrivals(polls).code) else NoError
  {
    ProgressStep(c, m, id, t0, resent, arrivals, first, polls, now, pass);
  }

  lemma ProgressFacts(c: TimedCell, m: seq<byte>, id: uint16, t0: nat, resent: seq<nat>,
                      arrivals: nat -> Arrival, first: nat, polls: nat, error: ProtocolError, now: nat)
    requires Progress(c, m, id, t0, resent, arrivals, first, polls, error, now) && c.Held?
    ensures WellFormed(c.entry) && c.entry.watched && c.entry.data == m && c.entry.id == id
    ensures c.entry.transmitCount == |resent| + 1 <= MAX_RETRANSMIT + 1
  {
  }

  // How the loop ends.
  ghost predicate Outcome(id: uint16, t0: nat, resent: seq<nat>, arrivals: nat -> Arrival, first: nat, polls: nat,
                          error: ProtocolError, now: nat) {
    if error.ChannelError? then first < polls && arrivals(polls - 1) == Failed(error.code)
    else Finished(id, t0, resent, arrivals, first, polls, error, now)
  }

  lemma ProgressEnds(c: TimedCell, m: seq<byte>, id: uint16, t0: nat, resent: seq<nat>,
                     arrivals: nat -> Arrival, first: nat, polls: nat, error: ProtocolError, now: nat)
    requires Progress(c, m, id, t0, resent, arrivals, first, polls, error, now)
    ensures |resent| <= MAX_RETRANSMIT
    ensures c.Gone? || error != NoError ==> Outcome(id, t0, resent, arrivals, first, polls, error, now)
  {
  }

  // The message as it is held when the loop starts.
  ghost function FirstWatched(send: Op): (c: TimedCell)
    requires send.Send? && Legal(send)
    ensures c.Held?
  {
    var c := FirstHeld(send);
    Held(c.entry.(watched := true), c.deadline)
  }

  lemma WaitingStarts(s: seq<Entry>, send: Op, watch: Op, id: uint16, arrivals: nat -> Arrival, first: nat)
    requires Valid(s) && NoneWatched(s) && Requests(send, id) && watch.Watch? && watch.id == id
    ensures Valid(Step(s, send)) && OnlyWatched(Step(Step(s, send), watch), id)
    ensures Find(Step(Step(s, send), watch), id) == Erase(FirstWatched(send))
    ensures OnTime(FirstWatched(send), send.at, send.at)
    ensures Progress(FirstWatched(send), send.msg, id, send.at, [], arrivals, first, first, NoError, send.at)
  {
    StepKeepsValid(s, send);
    FindStep(s, send, id);
    FindStep(Step(s, send), watch, id);
    StepKeepsNoneWatched(s, send);
    StepKeepsOnlyWatched(Step(s, send), watch, id);
    TransmitTimeoutBounds(0, send.draw);
    Low32Sum(send.at, TransmitTimeout(0, send.draw));
  }

  // The same for the store after a run.
  lemma WaitingStartsAfter(log: seq<Op>, send: Op, watch: Op, id: uint16, arrivals: nat -> Arrival, first: nat)
    requires AllLegal(log) && NoneWatched(Run(log)) && Requests(send, id) && watch.Watch? && watch.id == id
    ensures AllLegal(log + [send] + [watch]) && EndTime(0, log + [send]) == send.at
    ensures OnlyWatched(Run(log + [send] + [watch]), id)
    ensures Find(Run(log + [send] + [watch]), id) == Erase(FirstWatched(send))
    ensures OnTime(FirstWatched(send), send.at, send.at) && FirstWatched(send).deadline > send.at
    ensures Progress(FirstWatched(send), send.msg, id, send.at, [], arrivals, first, first, NoError, send.at)
  {
    WaitingStarts(Run(log), send, watch, id, arrivals, first);
    RunAppend(log, send);
    RunAppend(log + [send], watch);
  }

  lemma OperationKeepsNoneWatched(log: seq<Op>, op: Op, id: uint16)
    requires AllLegal(log) && NoneWatched(Run(log)) && Legal(op) && !op.Watch?
    ensures AllLegal(log + [op]) && NoneWatched(Run(log + [op])) && OnlyWatched(Run(log + [op]), id)
  {
    RunAppend(log, op);
    StepKeepsNoneWatched(Run(log), op);
  }

  lemma OutcomeKinds(id: uint16, t0: nat, resent: seq<nat>, arrivals: nat -> Arrival, first: nat, polls: nat,
                     error: ProtocolError, now: nat)
    requires Outcome(id, t0, resent, arrivals, first, polls, error, now)
    ensures error in {NoError, MessageReset, MessageTimeout} || error.ChannelError?
  {
  }
}
