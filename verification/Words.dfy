// Fixed-width words of the device and the comparison of wrapping clock ticks.
module Words {
  type byte = n: int | 0 <= n < 0x100
  type uint16 = n: int | 0 <= n < 0x1_0000
  type uint32 = n: int | 0 <= n < TICKS

  const TICKS: int := 0x1_0000_0000
  const HALF_TICKS: int := 0x8000_0000

  datatype Option<T> = None | Some(value: T)

  function Pow2(n: nat): nat {
    if n == 0 then 1 else 2 * Pow2(n - 1)
  }

  // The conversion to a 32-bit word.
  function Low32(n: int): uint32 {
    n % TICKS
  }

  function Low16(n: int): uint16 {
    n % 0x1_0000
  }

  function Min(a: int, b: int): int {
    if a <= b then a else b
  }

  function Max(a: int, b: int): int {
    if a <= b then b else a
  }

  lemma Reassociate<T>(a: seq<T>, b: seq<T>, c: seq<T>)
    ensures (a + b) + c == a + (b + c)
  {
  }

  // Has the tick been reached? Both arguments come from a clock that wraps at 2^32.
  predicate TimeHasPassed(now: uint32, tick: uint32) {
    if now >= tick then now - tick <= 0x7FFF_FFFF
    else tick - now >= 0x8000_0000
  }

  // What the comparison computes, in terms of two unbounded times: it depends only on the distance modulo 2^32,
  // except at the antipode, where the two wrapped values break the tie.
  lemma TimeHasPassedExactly(now: int, tick: int)
    ensures TimeHasPassed(Low32(now), Low32(tick))
       <==> (Low32(now - tick) < HALF_TICKS || (Low32(now - tick) == HALF_TICKS && Low32(now) < Low32(tick)))
  {
    Low32Difference(now, tick);
  }

  // At a distance below 2^31 the comparison of the wrapped times is the comparison of the times.
  lemma TimeHasPassedIsOrder(now: int, tick: int)
    requires -HALF_TICKS < now - tick < HALF_TICKS
    ensures TimeHasPassed(Low32(now), Low32(tick)) <==> now >= tick
  {
    TimeHasPassedExactly(now, tick);
    if now < tick {
      Low32Shift(now - tick, 1);
    }
  }

  // Outside that range the comparison is wrong for some pair of times at every distance below 2^32:
  // the bound in TimeHasPassedIsOrder cannot be relaxed.
  lemma TimeHasPassedFailsBeyond(d: int)
    requires HALF_TICKS <= d < TICKS
    ensures !TimeHasPassed(Low32(d), Low32(0))
    ensures TimeHasPassed(Low32(0), Low32(d))
  {
  }

  lemma Low32Shift(n: int, k: int)
    ensures Low32(n + k * TICKS) == Low32(n)
  {
    var q := n / TICKS;
    assert n + k * TICKS == (q + k) * TICKS + n % TICKS;
  }

  lemma Low32Difference(a: int, b: int)
    ensures Low32(a - b) == if Low32(a) >= Low32(b) then Low32(a) - Low32(b) else Low32(a) - Low32(b) + TICKS
  {
    var qa, qb := a / TICKS, b / TICKS;
    Low32Shift(Low32(a) - Low32(b), qa - qb);
    assert a - b == Low32(a) - Low32(b) + (qa - qb) * TICKS;
    if Low32(a) < Low32(b) {
      Low32Shift(Low32(a) - Low32(b), 1);
    }
  }
}
