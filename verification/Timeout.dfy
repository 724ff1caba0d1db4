/** Entry deadlines in 32-bit jiffies (HZ = 1000), and their meaning on an unbounded clock. */
module Timeout {

  const WORD: int := 0x1_0000_0000
  const HALF: int := 0x8000_0000
  const MSEC_PER_SEC: int := 1000
  const MAX_TIMEOUT: int := 2_147_483          // (UINT_MAX >> 1) / MSEC_PER_SEC
  const MAX_JIFFY_OFFSET: int := 0x3FFF_FFFE   // (LONG_MAX >> 1) - 1
  const ELEM_PERMANENT: int := 0

  type U32 = x: int | 0 <= x < WORD
  type Tick = U32

  function Wrap(t: int): Tick { t % WORD }

  /** The value of a 32-bit word read as a signed long. */
  function Signed(t: int): int {
    if t % WORD < HALF then t % WORD else t % WORD - WORD
  }

  function MsecsToJiffies(m: U32): Tick {
    if Signed(m) < 0 then MAX_JIFFY_OFFSET else m
  }

  /** A timeout attribute from userspace, normalised to fit into jiffies. */
  function Uget(raw: U32): U32 {
    if raw > MAX_TIMEOUT then MAX_TIMEOUT else raw
  }

  /** Deadline 0 is permanent; otherwise the deadline has passed when (long)(t - jiffies) < 0. */
  predicate Expired(t: Tick, now: Tick) {
    t != ELEM_PERMANENT && Signed(t - now) < 0
  }

  function TimeoutSet(value: U32, now: Tick): Tick {
    if value == 0 then ELEM_PERMANENT
    else
      var t := Wrap(MsecsToJiffies(Wrap(value * MSEC_PER_SEC)) + now);
      if t == ELEM_PERMANENT then Wrap(t - 1) else t
  }

  /** Remaining seconds reported to userspace; 0 is reserved for "no timeout". */
  function TimeoutGet(t: Tick, now: Tick): U32 {
    if t == ELEM_PERMANENT then 0
    else
      var s := Wrap(t - now) / MSEC_PER_SEC;
      if s == 0 then 1 else s
  }

  /** The deadline on a clock that never wraps: one tick early when the word would read as permanent. */
  function TrueDeadline(value: U32, start: int): int {
    start + value * MSEC_PER_SEC - (if Wrap(start + value * MSEC_PER_SEC) == 0 then 1 else 0)
  }

  /** Within half a range of the deadline, the wrapped comparison is the true one. */
  lemma WrapAgrees(deadline: int, now: int)
    requires Wrap(deadline) != ELEM_PERMANENT
    requires -HALF <= deadline - now < HALF
    ensures Expired(Wrap(deadline), Wrap(now)) <==> deadline < now
  {
    WrapDiff(deadline, now);
    assert Signed(Wrap(deadline) - Wrap(now)) == deadline - now;
  }

  lemma WrapDiff(a: int, b: int)
    ensures (Wrap(a) - Wrap(b)) % WORD == (a - b) % WORD
  {
    var q := a / WORD - b / WORD;
    assert a - b == (Wrap(a) - Wrap(b)) + q * WORD;
    ModShift(Wrap(a) - Wrap(b), q);
  }

  lemma ModShift(x: int, q: int)
    ensures (x + q * WORD) % WORD == x % WORD
  {
    assert x + q * WORD == WORD * (x / WORD + q) + x % WORD;
  }

  /** The stored word is the wrapped true deadline, and it never reads as permanent. */
  lemma TimeoutSetIsTrueDeadline(value: U32, start: int)
    requires 0 < value <= MAX_TIMEOUT
    ensures TimeoutSet(value, Wrap(start)) == Wrap(TrueDeadline(value, start))
    ensures TimeoutSet(value, Wrap(start)) != ELEM_PERMANENT
    ensures 0 < TrueDeadline(value, start) - start < HALF
  {
    var ms := value * MSEC_PER_SEC;
    assert Wrap(start) + ms == start + ms + (-(start / WORD)) * WORD;
    ModShift(start + ms, -(start / WORD));
    assert Wrap(Wrap(start) + ms) == Wrap(start + ms);
    if Wrap(start + ms) == 0 {
      var k := (start + ms) / WORD;
      assert start + ms - 1 == -1 + k * WORD;
      ModShift(-1, k);
    }
  }

  /** For every start tick and clamped timeout, over a whole turn of the counter: the entry lives for its
      full duration less at most one tick, is expired for exactly the following half range, and while it
      lives the reported remaining time is that in whole seconds, at least 1 and at most the timeout. */
  lemma LifetimeExact(raw: U32, start: int, elapsed: nat)
    requires raw != 0 && elapsed < WORD
    ensures var v := Uget(raw);
            var t := TimeoutSet(v, Wrap(start));
            var d := TrueDeadline(v, start) - start;
            && v * MSEC_PER_SEC - 1 <= d <= v * MSEC_PER_SEC
            && (Expired(t, Wrap(start + elapsed)) <==> d < elapsed <= d + HALF)
            && (elapsed <= d ==>
                  var left := (d - elapsed) / MSEC_PER_SEC;
                  TimeoutGet(t, Wrap(start + elapsed)) == (if left == 0 then 1 else left) <= v)
  {
    var v := Uget(raw);
    var g := TrueDeadline(v, start);
    TimeoutSetIsTrueDeadline(v, start);
    WrapDiff(g, start + elapsed);
    if elapsed <= g - start {
      assert Wrap(Wrap(g) - Wrap(start + elapsed)) == g - start - elapsed;
    } else {
      ModShift(g - start - elapsed, 1);
      assert Wrap(Wrap(g) - Wrap(start + elapsed)) == g - start - elapsed + WORD;
    }
  }

  /** An entry without timeout never expires and is the only kind that is reported without one. */
  lemma PermanentIs(t: Tick, now: Tick)
    ensures TimeoutSet(0, now) == ELEM_PERMANENT && !Expired(ELEM_PERMANENT, now)
    ensures TimeoutGet(t, now) == 0 <==> t == ELEM_PERMANENT
  {
  }

  /** A timeout asked for is cut down to the largest that can be converted, and no further. */
  lemma LargestConvertible(raw: U32)
    ensures var v := Uget(raw);
            && v <= raw && MsecsToJiffies(Wrap(v * MSEC_PER_SEC)) == v * MSEC_PER_SEC
            && forall u :: v < u <= raw ==> MsecsToJiffies(Wrap(u * MSEC_PER_SEC)) != u * MSEC_PER_SEC
  {
    var v := Uget(raw);
    ClampIsExact(v);
    forall u | v < u <= raw ensures MsecsToJiffies(Wrap(u * MSEC_PER_SEC)) != u * MSEC_PER_SEC {
      ClampIsExact(u);
    }
  }

  /** The clamp is exactly what the conversion to jiffies needs. */
  lemma ClampIsExact(value: U32)
    ensures MsecsToJiffies(Wrap(value * MSEC_PER_SEC)) == value * MSEC_PER_SEC <==> value <= MAX_TIMEOUT
  {
  }
}
