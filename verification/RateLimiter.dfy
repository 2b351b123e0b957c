// Publisher::is_rate_limited: at most four application events in a second, at most 255 system events in 65.5 seconds.
// A history lists the unbounded times of the calls so far, rejected ones included; the device sees their low 32 bits.
module RateLimiter {
  import opened Words

  const RING := 5
  const SECOND := 1000
  const NO_EVENT: uint32 := TICKS - SECOND  // the initial ring entries
  const MAX_PER_MINUTE := 255
  const MINUTE := 0x1_0000                  // milliseconds in what the code calls a minute

  ghost predicate Monotone(history: seq<nat>) {
    forall i, j :: 0 <= i <= j < |history| ==> history[i] <= history[j]
  }

  // ---- Application events

  // Call number i is rejected when the last second holds the four calls before it.
  predicate Limited(history: seq<nat>, i: nat)
    requires i < |history|
  {
    Low32(history[i] - if i < RING - 1 then -SECOND else history[i - (RING - 1)]) < SECOND
  }

  // Five events that are accepted, wherever they are in the history, span at least a second.
  lemma FiveAcceptedSpanASecond(history: seq<nat>, picks: seq<nat>)
    requires Monotone(history) && |picks| == 5
    requires forall j, k :: 0 <= j < k < 5 ==> picks[j] < picks[k]
    requires forall k :: 0 <= k < 5 ==> picks[k] < |history| && !Limited(history, picks[k])
    ensures history[picks[4]] - history[picks[0]] >= SECOND
  {
    var last := picks[4];
    assert picks[0] < picks[1] < picks[2] < picks[3] < last;
    var gap := history[last] - history[last - 4];
    assert !Limited(history, last) && history[picks[0]] <= history[last - 4] <= history[last];
    assert gap >= Low32(gap);
  }

  // The time takes the clock around a number of times, and less than a second further.
  ghost predicate Around(time: int, n: nat) {
    n * TICKS <= time < n * TICKS + SECOND
  }

  // Call number i is accepted exactly when the four calls before it took a second or more, and not a time that the clock
  // shows as less than a second.
  lemma AcceptedIffSpaced(history: seq<nat>, i: nat)
    requires Monotone(history) && RING - 1 <= i < |history|
    ensures var span := history[i] - history[i - 4];
            !Limited(history, i) <==> span >= SECOND && forall n: nat :: n >= 1 ==> !Around(span, n)
  {
    var span := history[i] - history[i - 4];
    assert span >= 0;
    if span >= SECOND && Limited(history, i) {
      assert Around(span, span / TICKS);
    }
    forall n: nat | Around(span, n)
      ensures Limited(history, i)
    {
      Low32Shift(span - n * TICKS, n);
    }
  }

  // So calls that are at least 250 ms apart are rejected only for that reason, once the initial ring entries are
  // overwritten, and never when the four calls before took less than the 49 days in which the clock wraps.
  lemma SpacedCallsAreAccepted(history: seq<nat>, i: nat)
    requires Monotone(history) && RING - 1 <= i < |history|
    requires forall k :: 0 < k < |history| ==> history[k] - history[k - 1] >= 250
    ensures var span := history[i] - history[i - 4];
            && (!Limited(history, i) <==> forall n: nat :: n >= 1 ==> !Around(span, n))
            && (span < TICKS ==> !Limited(history, i))
  {
    assert history[i - 3] - history[i - 4] >= 250 && history[i - 2] - history[i - 3] >= 250;
    assert history[i - 1] - history[i - 2] >= 250 && history[i] - history[i - 1] >= 250;
    AcceptedIffSpaced(history, i);
  }

  // Before that, a call is rejected exactly in the last second before the clock wraps.
  lemma FirstCalls(history: seq<nat>, i: nat)
    requires i < |history| && i < RING - 1
    ensures Limited(history, i) <==> Low32(history[i]) >= TICKS - SECOND
  {
    Low32Difference(history[i], -SECOND);
  }

  // There are such calls: after any number of times around the clock without a call, the next one is rejected.
  lemma LongSilenceIsRejected(history: seq<nat>, i: nat, n: nat)
    requires RING - 1 <= i < |history| && n >= 1 && history[i] == history[i - 4] + n * TICKS
    ensures history[i] - history[i - 4] >= SECOND && Limited(history, i)
  {
    Low32Shift(0, n);
    assert n * TICKS >= TICKS;
  }

  // ---- System events

  function Minute(time: nat): uint16 {
    Low32(time) / MINUTE
  }

  // The bucket that a time falls into; its low 16 bits are the minute.
  function Bucket(time: nat): nat {
    time / MINUTE
  }

  lemma MinuteOfBucket(time: nat)
    ensures Minute(time) == Bucket(time) % 0x1_0000
  {
    var q, r := time / TICKS, time % TICKS;
    assert time == q * TICKS + r;
    assert Bucket(time) == q * 0x1_0000 + r / MINUTE;
  }

  datatype System = System(minute: uint16, count: nat, accepted: seq<nat>)

  function SystemStep(s: System, time: nat): System {
    var count := if Minute(time) == s.minute then s.count else 0;
    if Minute(time) == s.minute && count == MAX_PER_MINUTE then s
    else System(Minute(time), count + 1, s.accepted + [time])
  }

  function SystemRun(history: seq<nat>): System {
    if history == [] then System(0, 0, [])
    else SystemStep(SystemRun(history[..|history| - 1]), history[|history| - 1])
  }

  function InBucket(times: seq<nat>, bucket: nat): nat {
    if times == [] then 0
    else InBucket(times[..|times| - 1], bucket) + if Bucket(times[|times| - 1]) == bucket then 1 else 0
  }

  // After a call at some time, the counter counts at least the accepted events of the bucket of that time.
  ghost predicate Counted(s: System, time: nat) {
    && s.count <= MAX_PER_MINUTE
    && (forall k :: 0 <= k < |s.accepted| ==> s.accepted[k] <= time)
    && (s.accepted != [] ==> s.minute == Minute(time))
    && InBucket(s.accepted, Bucket(time)) <= s.count
  }

  // When time goes on, the counter still counts enough, or the minute has changed and there is nothing to count.
  lemma CountedLater(s: System, before: nat, time: nat)
    requires Counted(s, before) && before <= time
    ensures InBucket(s.accepted, Bucket(time)) <= if Minute(time) == s.minute then s.count else 0
  {
    hide Minute, Bucket;
    DivMonotone(before, time);
    MinuteOfBucket(before);
    MinuteOfBucket(time);
    if Bucket(before) < Bucket(time) {
      NothingLater(s.accepted, before, Bucket(time));
    }
  }

  lemma OneMoreInBucket(times: seq<nat>, time: nat, bucket: nat)
    ensures InBucket(times + [time], bucket) == InBucket(times, bucket) + if Bucket(time) == bucket then 1 else 0
  {
    assert (times + [time])[..|times|] == times;
  }

  lemma CountedStep(s: System, before: nat, time: nat)
    requires Counted(s, before) && before <= time
    ensures Counted(SystemStep(s, time), time)
    ensures forall bucket: nat :: bucket != Bucket(time) ==>
              InBucket(SystemStep(s, time).accepted, bucket) == InBucket(s.accepted, bucket)
  {
    hide Minute, Bucket, InBucket;
    CountedLater(s, before, time);
    forall bucket: nat
      ensures InBucket(s.accepted + [time], bucket) == InBucket(s.accepted, bucket) + if Bucket(time) == bucket then 1 else 0
    {
      OneMoreInBucket(s.accepted, time, bucket);
    }
  }

  function Last(history: seq<nat>): nat {
    if history == [] then 0 else history[|history| - 1]
  }

  lemma {:induction false} NothingLater(times: seq<nat>, time: nat, bucket: nat)
    requires (forall k :: 0 <= k < |times| ==> times[k] <= time) && Bucket(time) < bucket
    ensures InBucket(times, bucket) == 0
  {
    if times != [] {
      NothingLater(times[..|times| - 1], time, bucket);
      DivMonotone(times[|times| - 1], time);
    }
  }

  lemma DivMonotone(a: nat, b: nat)
    requires a <= b
    ensures Bucket(a) <= Bucket(b)
  {
  }

  // In every bucket of 65536 ms, at most 255 system events are accepted, over any history.
  lemma {:induction false} SystemEventsAreBounded(history: seq<nat>, bucket: nat)
    requires Monotone(history)
    ensures Counted(SystemRun(history), Last(history))
    ensures InBucket(SystemRun(history).accepted, bucket) <= MAX_PER_MINUTE
  {
    hide SystemStep, Minute, Bucket, InBucket;
    if history == [] {
      NothingCounted(bucket);
    } else {
      var front := history[..|history| - 1];
      SystemEventsAreBounded(front, bucket);
      CountedStep(SystemRun(front), Last(front), Last(history));
    }
  }

  lemma NothingCounted(bucket: nat)
    ensures Counted(System(0, 0, []), 0) && InBucket([], bucket) == 0
  {
  }

  // The latest events that the counter stands for were accepted in the current minute.
  ghost predicate Recent(s: System) {
    s.count <= |s.accepted| && forall k :: |s.accepted| - s.count <= k < |s.accepted| ==> Minute(s.accepted[k]) == s.minute
  }

  lemma {:induction false} RunIsRecent(history: seq<nat>)
    requires Monotone(history)
    ensures Recent(SystemRun(history))
  {
    if history != [] {
      RunIsRecent(history[..|history| - 1]);
    }
  }

  // A system event is rejected only when 255 were accepted in its bucket, as long as the first of them is less than
  // 2^32 - 2^16 ms ago. (After 2^32 ms the minutes repeat.)
  lemma {:induction false} RejectedOnlyWhenFull(history: seq<nat>, time: nat)
    requires Monotone(history + [time]) && SystemRun(history + [time]) == SystemRun(history)
    ensures var accepted := SystemRun(history).accepted;
            && |accepted| >= MAX_PER_MINUTE
            && (time < accepted[|accepted| - MAX_PER_MINUTE] + TICKS - MINUTE ==>
                  forall k :: |accepted| - MAX_PER_MINUTE <= k < |accepted| ==> Bucket(accepted[k]) == Bucket(time))
  {
    var s := SystemRun(history);
    assert (history + [time])[..|history|] == history;
    assert forall i, j :: 0 <= i <= j < |history| ==>
             history[i] == (history + [time])[i] && history[j] == (history + [time])[j];
    RunIsRecent(history);
    SystemEventsAreBounded(history, 0);
    assert SystemStep(s, time) == s;
    assert s.count == MAX_PER_MINUTE && s.minute == Minute(time);
    AcceptedInOrder(history);
    forall k | |s.accepted| - MAX_PER_MINUTE <= k < |s.accepted|
                && time < s.accepted[|s.accepted| - MAX_PER_MINUTE] + TICKS - MINUTE
      ensures Bucket(s.accepted[k]) == Bucket(time)
    {
      assert s.accepted[|s.accepted| - MAX_PER_MINUTE] <= s.accepted[k] <= Last(history) <= time;
      SameMinute(s.accepted[k], time);
    }
  }

  lemma SameMinute(a: nat, b: nat)
    requires a <= b < a + TICKS - MINUTE && Minute(a) == Minute(b)
    ensures Bucket(a) == Bucket(b)
  {
    MinuteOfBucket(a);
    MinuteOfBucket(b);
  }

  lemma {:induction false} AcceptedInOrder(history: seq<nat>)
    requires Monotone(history)
    ensures Monotone(SystemRun(history).accepted)
    ensures forall k :: 0 <= k < |SystemRun(history).accepted| ==> SystemRun(history).accepted[k] <= Last(history)
  {
    if history != [] {
      AcceptedInOrder(history[..|history| - 1]);
    }
  }

  // ---- The limiter

  // The tick of the call number i that slot k of the ring holds after n calls; negative if the slot was never written.
  function SlotCall(n: nat, k: nat): int {
    if k < n % RING then n - n % RING + k else n - n % RING + k - RING
  }

  // The ring holds the ticks of the last five calls.
  ghost predicate Holds(ring: seq<uint32>, history: seq<nat>) {
    |ring| == RING
    && forall k :: 0 <= k < RING ==>
         var i := SlotCall(|history|, k);
         ring[k] == if 0 <= i < |history| then Low32(history[i]) else NO_EVENT
  }

  lemma RingStep(ring: seq<uint32>, history: seq<nat>, time: nat)
    requires Holds(ring, history)
    ensures Holds(ring[|history| % RING := Low32(time)], history + [time])
  {
    hide SlotCall;
    var n, ring' := |history|, ring[|history| % RING := Low32(time)];
    forall k | 0 <= k < RING
      ensures var i := SlotCall(n + 1, k); ring'[k] == if 0 <= i <= n then Low32((history + [time])[i]) else NO_EVENT
    {
      SlotShift(n, k);
    }
  }

  lemma SlotShift(n: nat, k: nat)
    requires k < RING
    ensures SlotCall(n, k) < n
    ensures SlotCall(n + 1, k) == if k == n % RING then n else SlotCall(n, k)
  {
    var q, r := n / RING, n % RING;
    if r == RING - 1 {
      assert n + 1 == (q + 1) * RING;
      assert (n + 1) % RING == 0;
    } else {
      assert n + 1 == q * RING + (r + 1);
      assert (n + 1) % RING == r + 1;
    }
  }

  lemma GapOfLows(a: int, b: int)
    ensures Low32(Low32(a) - Low32(b)) == Low32(a - b)
  {
    Low32Shift(Low32(a) - Low32(b), a / TICKS - b / TICKS);
    assert a - b == Low32(a) - Low32(b) + (a / TICKS - b / TICKS) * TICKS;
  }

  // The slot behind the one just written decides.
  lemma OldestDecides(ring: seq<uint32>, history: seq<nat>)
    requires history != [] && Holds(ring, history)
    ensures var n := |history|;
            Limited(history, n - 1) <==> Low32(Low32(history[n - 1]) - ring[n % RING]) < SECOND
  {
    var n := |history|;
    var i := SlotCall(n, n % RING);
    assert i == n - RING;
    if i >= 0 {
      GapOfLows(history[n - 1], history[i]);
    } else {
      GapOfLows(history[n - 1], -SECOND);
    }
  }

  class RateLimiter {
    const recentEventTicks: array<uint32>
    var eventIndex: nat
    var lastMinute: uint16
    var eventsThisMinute: nat
    ghost var history: seq<nat>        // the calls for application events
    ghost var systemHistory: seq<nat>  // the calls for system events

    ghost predicate Valid()
      reads this, recentEventTicks
    {
      && recentEventTicks.Length == RING && eventIndex == |history| % RING && Holds(recentEventTicks[..], history)
      && eventsThisMinute <= MAX_PER_MINUTE
      && lastMinute == SystemRun(systemHistory).minute && eventsThisMinute == SystemRun(systemHistory).count
    }

    constructor ()
      ensures Valid() && fresh(recentEventTicks) && history == [] && systemHistory == []
    {
      recentEventTicks := new uint32[RING](_ => NO_EVENT);
      eventIndex, lastMinute, eventsThisMinute := 0, 0, 0;
      history, systemHistory := [], [];
      new;
      assert forall k :: 0 <= k < RING ==> SlotCall(0, k) < 0 && recentEventTicks[..][k] == NO_EVENT;
    }

    method IsSystemLimited(millis: uint32, ghost time: nat) returns (limited: bool)
      requires Valid() && millis == Low32(time)
      modifies this`lastMinute, this`eventsThisMinute, this`systemHistory
      ensures Valid() && systemHistory == old(systemHistory) + [time]
      ensures limited <==> SystemRun(systemHistory) == SystemRun(old(systemHistory))
    {
      assert (systemHistory + [time])[..|systemHistory|] == systemHistory;
      systemHistory := systemHistory + [time];
      var currentMinute := millis / MINUTE;
      if currentMinute == lastMinute {
        if eventsThisMinute == MAX_PER_MINUTE {
          return true;
        }
      } else {
        lastMinute := currentMinute;
        eventsThisMinute := 0;
      }
      eventsThisMinute := eventsThisMinute + 1;
      limited := false;
    }

    method IsBurst(millis: uint32, ghost time: nat) returns (limited: bool)
      requires Valid() && millis == Low32(time)
      modifies this`eventIndex, this`history, recentEventTicks
      ensures Valid() && history == old(history) + [time] && (limited <==> Limited(history, |history| - 1))
    {
      hide Holds, Limited;
      RingStep(recentEventTicks[..], history, time);
      ghost var ring := recentEventTicks[..][eventIndex := millis];
      recentEventTicks[eventIndex] := millis;
      assert recentEventTicks[..] == ring;
      eventIndex := (eventIndex + 1) % RING;
      history := history + [time];
      OldestDecides(ring, history);
      limited := Low32(millis - recentEventTicks[eventIndex]) < SECOND;
    }

    method IsRateLimited(isSystemEvent: bool, millis: uint32, ghost time: nat) returns (limited: bool)
      requires Valid() && millis == Low32(time)
      modifies this, recentEventTicks
      ensures Valid()
      ensures if isSystemEvent then
                && history == old(history) && systemHistory == old(systemHistory) + [time]
                && (limited <==> SystemRun(systemHistory) == SystemRun(old(systemHistory)))
              else
                && history == old(history) + [time] && systemHistory == old(systemHistory)
                && (limited <==> Limited(history, |history| - 1))
    {
      if isSystemEvent {
        limited := IsSystemLimited(millis, time);
      } else {
        limited := IsBurst(millis, time);
      }
    }
  }
}
