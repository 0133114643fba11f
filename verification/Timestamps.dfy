/** RTP timestamp unwrapping and 90 kHz conversions (internal/rtsp/timestamp.go). */
module Timestamps {

  const WRAP := 0x1_0000_0000
  const HALF := 0x8000_0000
  const MAX_INT64 := 0x7FFF_FFFF_FFFF_FFFF
  const SECOND := 1_000_000_000
  const MAX_SEC := 9_223_372_036     // MaxInt64 / Second

  // ---------------------------------------------------------------------------------------------
  // Unwrapping

  datatype Unwrapper = Unwrapper(lastTS: nat, epoch: nat, initialized: bool)

  const FRESH := Unwrapper(0, 0, false)

  function Advance(u: Unwrapper, ts: nat): Unwrapper {
    if !u.initialized then Unwrapper(ts, 0, true)
    else if ts < u.lastTS && u.lastTS - ts > HALF then Unwrapper(ts, u.epoch + WRAP, true)
    else if ts > u.lastTS && ts - u.lastTS > HALF && u.epoch >= WRAP then Unwrapper(ts, u.epoch - WRAP, true)
    else Unwrapper(ts, u.epoch, true)
  }

  function Output(u: Unwrapper): nat {
    u.epoch + u.lastTS
  }

  class TimestampUnwrapper {
    var lastTS: nat
    var epoch: nat
    var initialized: bool

    function View(): Unwrapper
      reads this
    {
      Unwrapper(lastTS, epoch, initialized)
    }

    constructor ()
      ensures View() == FRESH
    {
      lastTS, epoch, initialized := 0, 0, false;
    }

    method Unwrap(ts: nat) returns (out: nat)
      requires ts < WRAP
      modifies this
      ensures View() == Advance(old(View()), ts) && out == Output(View())
    {
      if !initialized {
        lastTS := ts;
        epoch := 0;
        initialized := true;
        return ts;
      }
      if ts < lastTS && lastTS - ts > HALF {
        epoch := epoch + WRAP;
      } else if ts > lastTS && ts - lastTS > HALF {
        if epoch >= WRAP {
          epoch := epoch - WRAP;
        }
      }
      lastTS := ts;
      return epoch + ts;
    }
  }

  /** The state follows the true time `t`, counted from the start `base` of the first 2^32 block. */
  ghost predicate Tracks(u: Unwrapper, t: nat, base: nat) {
    && u.initialized && base % WRAP == 0 && base <= t
    && u.lastTS == t % WRAP && u.epoch == t - t % WRAP - base
  }

  /** The next true time is at most half a range away, where the half-range test can tell the direction. */
  ghost predicate Resolvable(t: nat, t': nat, base: nat) {
    var a, b, k := t % WRAP, t' % WRAP, t' / WRAP - t / WRAP;
    || (k == 0 && a - b <= HALF && (b - a > HALF ==> t / WRAP == base / WRAP))
    || (k == 1 && a - b > HALF)
    || (k == -1 && b - a > HALF)
  }

  lemma BlockOf(t: nat)
    ensures t == WRAP * (t / WRAP) + t % WRAP && 0 <= t % WRAP < WRAP
  {
  }

  /**
   One step, for every pair of true times in or after the first block: the unwrapper outputs the true time,
   and keeps tracking it, exactly when the step is resolvable.
   */
  lemma StepExact(u: Unwrapper, t: nat, t': nat, base: nat)
    requires Tracks(u, t, base) && base <= t'
    ensures Output(Advance(u, t' % WRAP)) == t' - base <==> Resolvable(t, t', base)
    ensures Tracks(Advance(u, t' % WRAP), t', base) <==> Resolvable(t, t', base)
  {
    BlockOf(t);
    BlockOf(t');
    BlockOf(base);
    var kt, kt', kb := t / WRAP, t' / WRAP, base / WRAP;
    assert u.epoch == WRAP * (kt - kb);
    assert kb <= kt && kb <= kt';
    assert u.epoch >= WRAP <==> kt > kb;
    assert t' - base == WRAP * (kt' - kb) + t' % WRAP;
  }

  lemma SmallStepsResolvable(t: nat, t': nat, base: nat)
    requires -HALF < t' - t < HALF
    ensures Resolvable(t, t', base)
  {
    BlockOf(t);
    BlockOf(t');
  }

  /** Feeding a whole timeline, modulo 2^32, through the unwrapper. */
  function Feed(ts: seq<nat>): Unwrapper {
    if ts == [] then FRESH else Advance(Feed(ts[..|ts| - 1]), ts[|ts| - 1] % WRAP)
  }

  /** Consecutive times less than half a range apart, none before the 2^32 block the timeline starts in. */
  ghost predicate SlowTimeline(ts: seq<nat>) {
    && (forall i :: 0 < i < |ts| ==> -HALF < ts[i] - ts[i - 1] < HALF)
    && (forall i :: 0 <= i < |ts| ==> ts[0] - ts[0] % WRAP <= ts[i])
  }

  /**
   Along every such timeline the outputs are the true times minus the start of the first block, at every step:
   no wrap, forward or backward, is ever missed or counted twice.
   */
  lemma {:induction false} UnwrapsTimeline(ts: seq<nat>)
    requires SlowTimeline(ts) && ts != []
    ensures var base := ts[0] - ts[0] % WRAP;
            Tracks(Feed(ts), ts[|ts| - 1], base) && Output(Feed(ts)) == ts[|ts| - 1] - base
  {
    var n := |ts| - 1;
    if n == 0 {
      BlockOf(ts[0]);
      assert ts[..0] == [];
      MultipleOfWrap(ts[0]);
    } else {
      UnwrapsTimeline(ts[..n]);
      SmallStepsResolvable(ts[n - 1], ts[n], ts[0] - ts[0] % WRAP);
      StepExact(Feed(ts[..n]), ts[n - 1], ts[n], ts[0] - ts[0] % WRAP);
    }
  }

  lemma MultipleOfWrap(t: nat)
    ensures (t - t % WRAP) % WRAP == 0
  {
    BlockOf(t);
  }

  // ---------------------------------------------------------------------------------------------
  // 90 kHz ticks and nanoseconds

  /** Two's complement: what 64-bit signed arithmetic makes of a result. */
  function Wrap64(x: int): int {
    (x + MAX_INT64 + 1) % (2 * (MAX_INT64 + 1)) - (MAX_INT64 + 1)
  }

  /** Go's integer division truncates toward zero. */
  function TruncDiv(a: int, b: int): int
    requires b > 0
  {
    if a >= 0 then a / b else -((-a) / b)
  }

  function RTP90kToDuration(ts: nat): int {
    var sec, rem := ts / 90000, ts % 90000;
    if sec > MAX_SEC then MAX_INT64 else Wrap64(sec * SECOND + rem * SECOND / 90000)
  }

  function DurationTo90k(d: int): int {
    var sec := TruncDiv(d, SECOND);
    var rem := d - sec * SECOND;
    sec * 90000 + TruncDiv(rem * 90000, SECOND)
  }

  /** The exact number of whole nanoseconds in `ts` ticks. */
  function Nanos(ts: nat): nat {
    ts * 100000 / 9
  }

  lemma NanosSplit(ts: nat)
    ensures Nanos(ts) == ts / 90000 * SECOND + ts % 90000 * SECOND / 90000
  {
    var sec, rem := ts / 90000, ts % 90000;
    assert ts == 90000 * sec + rem;
    assert ts * 100000 == 9 * (sec * SECOND) + rem * 100000;
    assert ts * 100000 / 9 == sec * SECOND + rem * 100000 / 9;
    assert rem * SECOND / 90000 == rem * 100000 / 9;
  }

  /** In the last representable second the sum can pass the largest 64-bit value. */
  predicate Overflows(ts: nat) {
    ts / 90000 == MAX_SEC && ts % 90000 >= 76930
  }

  /**
   The conversion is exact, clamping at the largest duration, exactly outside the last 13070 ticks of the last
   representable second; there it wraps around to a negative duration instead of clamping.
   */
  lemma ClampsExactly(ts: nat)
    ensures RTP90kToDuration(ts) == (if Nanos(ts) <= MAX_INT64 then Nanos(ts) else MAX_INT64) <==> !Overflows(ts)
    ensures Overflows(ts) ==> RTP90kToDuration(ts) < 0
  {
    NanosSplit(ts);
    var sec, rem := ts / 90000, ts % 90000;
    RemNanos(rem);
    assert sec > MAX_SEC ==> Nanos(ts) > MAX_INT64;
  }

  lemma ExactInRange(ts: nat)
    requires ts / 90000 <= MAX_SEC && !Overflows(ts)
    ensures RTP90kToDuration(ts) == Nanos(ts)
  {
    NanosSplit(ts);
    RemNanos(ts % 90000);
    hide Nanos;
  }

  lemma RemNanos(rem: nat)
    requires rem < 90000
    ensures rem * SECOND / 90000 < SECOND
    ensures rem * SECOND / 90000 > 854_775_807 <==> rem >= 76930
  {
    assert rem * SECOND / 90000 == rem * 100000 / 9;
  }

  /** A concrete tick count that is not clamped: it comes out negative. */
  lemma OverflowExample()
    ensures RTP90kToDuration(9_223_372_036 * 90000 + 76930) == -9_223_372_036_854_773_839
  {
  }

  /** Back in ticks, a duration is nine hundred-thousandths of its nanoseconds, truncated toward zero. */
  lemma TicksOf(d: int)
    ensures DurationTo90k(d) == TruncDiv(9 * d, 100000)
  {
    if d >= 0 {
      TicksOfNat(d);
    } else {
      TicksOfNat(-d);
      assert TruncDiv(d, SECOND) == -TruncDiv(-d, SECOND);
    }
  }

  lemma TicksOfNat(d: nat)
    ensures d / SECOND * 90000 + (d - d / SECOND * SECOND) * 90000 / SECOND == 9 * d / 100000
  {
    var sec := d / SECOND;
    var rem := d - sec * SECOND;
    assert 9 * d == 100000 * (90000 * sec) + 9 * rem;
    assert rem * 90000 / SECOND == 9 * rem / 100000;
  }

  /** Durations in order give ticks in order. */
  lemma TicksMonotone(d: int, d': int)
    requires d <= d'
    ensures DurationTo90k(d) <= DurationTo90k(d')
  {
    TicksOf(d);
    TicksOf(d');
  }

  /** Ticks in order give durations in order, where nothing overflows. */
  lemma NanosMonotone(ts: nat, ts': nat)
    requires ts <= ts' && !Overflows(ts) && !Overflows(ts')
    ensures RTP90kToDuration(ts) <= RTP90kToDuration(ts')
  {
    ClampsExactly(ts);
    ClampsExactly(ts');
  }

  /** Through nanoseconds and back, a tick count survives when nine divides it and loses one tick otherwise. */
  lemma TickRoundTrip(ts: nat)
    requires ts / 90000 <= MAX_SEC && !Overflows(ts)
    ensures DurationTo90k(RTP90kToDuration(ts)) == if ts % 9 == 0 then ts else ts - 1
  {
    hide Nanos, DurationTo90k, RTP90kToDuration;
    ExactInRange(ts);
    TicksOf(Nanos(ts));
    NanosRoundTrip(ts);
  }

  lemma NanosRoundTrip(ts: nat)
    ensures 9 * Nanos(ts) / 100000 == if ts % 9 == 0 then ts else ts - 1
  {
    var q, r := ts / 9, ts % 9;
    assert ts == 9 * q + r;
    assert ts * 100000 == 9 * (100000 * q) + 100000 * r;
    assert Nanos(ts) == 100000 * q + 100000 * r / 9;
    assert 9 * (100000 * r / 9) / 100000 == if r == 0 then 0 else r - 1;
  }

  /** So the error of any tick difference through the pipeline is at most one tick, however long the run. */
  lemma DifferenceOffByOne(ts: nat, ts': nat)
    requires ts / 90000 <= MAX_SEC && !Overflows(ts) && ts' / 90000 <= MAX_SEC && !Overflows(ts')
    ensures var d := DurationTo90k(RTP90kToDuration(ts')) - DurationTo90k(RTP90kToDuration(ts));
            -1 <= d - (ts' - ts) <= 1
  {
    TickRoundTrip(ts);
    TickRoundTrip(ts');
  }
}
