/**
 * The integer part of `TimeResolver` in `resolver.rs`: chunk ticks turned
 * into nanoseconds. Arithmetic is on `i64` with the overflow and
 * division-by-zero checks of a debug build, each check a panic.
 */
module Time {
  import opened Ints
  import opened Errors
  import Chunk

  /** Nanoseconds per second. */
  const NANOS_PER_SECOND: int := 1_000_000_000

  /** The chunk's start, as wall time and as ticks, and its tick rate. */
  datatype TimeResolver = TimeResolver(startEpochNanoseconds: I64, startTicks: U64, ticksPerSecond: U64)

  /** `TimeResolver::new` without the start date: the header's fields, the epoch nanoseconds read as `i64`. */
  function NewTimeResolver(h: Chunk.ChunkHeader): (t: TimeResolver)
    ensures t.startTicks == h.startTicks && t.ticksPerSecond == h.ticksPerSecond
    ensures h.nanosecondsSinceEpoch < TWO_63 ==> t.startEpochNanoseconds == h.nanosecondsSinceEpoch
    ensures h.nanosecondsSinceEpoch >= TWO_63 ==> t.startEpochNanoseconds == h.nanosecondsSinceEpoch - TWO_64
  {
    TimeResolver(ToI64(h.nanosecondsSinceEpoch), h.startTicks, h.ticksPerSecond)
  }

  /** `a - b` on `i64`. */
  function CheckedSub(a: I64, b: I64): (r: Result<I64>)
    ensures r.Ok? <==> -TWO_63 <= a - b < TWO_63
    ensures r.Ok? ==> r.value + b == a
    ensures r.Err? ==> r.error == Panic("attempt to subtract with overflow")
  {
    if -TWO_63 <= a - b < TWO_63 then Ok(a - b) else Err(Panic("attempt to subtract with overflow"))
  }

  /** `a + b` on `i64`. */
  function CheckedAdd(a: I64, b: I64): (r: Result<I64>)
    ensures r.Ok? <==> -TWO_63 <= a + b < TWO_63
    ensures r.Ok? ==> r.value - b == a
    ensures r.Err? ==> r.error == Panic("attempt to add with overflow")
  {
    if -TWO_63 <= a + b < TWO_63 then Ok(a + b) else Err(Panic("attempt to add with overflow"))
  }

  /** `(ticks_per_second / 1_000_000_000) as i64`: whole ticks per nanosecond, the fraction dropped. */
  function TicksPerNanosecond(t: TimeResolver): (d: I64)
    ensures 0 <= d && d * NANOS_PER_SECOND <= t.ticksPerSecond < d * NANOS_PER_SECOND + NANOS_PER_SECOND
  {
    t.ticksPerSecond / NANOS_PER_SECOND
  }

  /** A tick difference divided, truncating toward zero, by the ticks per nanosecond. */
  function TicksToNanoseconds(t: TimeResolver, delta: I64): (r: Result<I64>)
    ensures r.Err? <==> TicksPerNanosecond(t) == 0
    ensures r.Err? ==> r.error == Panic("attempt to divide by zero")
    ensures r.Ok? && delta >= 0 ==> 0 <= r.value * TicksPerNanosecond(t) <= delta < r.value * TicksPerNanosecond(t) + TicksPerNanosecond(t)
    ensures r.Ok? && delta < 0 ==> r.value * TicksPerNanosecond(t) - TicksPerNanosecond(t) < delta <= r.value * TicksPerNanosecond(t) <= 0
  {
    var d := TicksPerNanosecond(t);
    if d == 0 then Err(Panic("attempt to divide by zero"))
    else
      TruncDivBounds(delta, d);
      Ok(TruncDiv(delta, d))
  }

  /** The quotient of a truncating division by a positive divisor is no larger in magnitude than the dividend. */
  lemma TruncDivBounds(a: int, b: int)
    requires b > 0
    ensures a >= 0 ==> 0 <= TruncDiv(a, b) <= a
    ensures a < 0 ==> a <= TruncDiv(a, b) <= 0
  {
    if a >= 0 {
      DivAtMost(a, b);
    } else {
      DivAtMost(-a, b);
    }
  }

  /** `a / b <= a` for a natural `a` and a positive `b`. */
  lemma DivAtMost(a: int, b: int)
    requires a >= 0 && b > 0
    ensures 0 <= a / b <= a
  {
    var q := a / b;
    MulMonotone(1, b, q);
    assert q * 1 == q;
  }

  /** Multiplying by a natural keeps the order. */
  lemma MulMonotone(x: int, y: int, d: int)
    requires x <= y && d >= 0
    ensures x * d <= y * d
  {
    assert y * d - x * d == (y - x) * d;
  }

  /** `delta_nanoseconds`: nanoseconds from `startTicks` to `endTicks`. */
  function DeltaNanoseconds(t: TimeResolver, startTicks: I64, endTicks: I64): (r: Result<I64>)
    ensures !(-TWO_63 <= endTicks - startTicks < TWO_63) ==> r == Err(Panic("attempt to subtract with overflow"))
    ensures -TWO_63 <= endTicks - startTicks < TWO_63 ==> r == TicksToNanoseconds(t, endTicks - startTicks)
  {
    var delta :- CheckedSub(endTicks, startTicks);
    TicksToNanoseconds(t, delta)
  }

  /** `chunk_start_delta_nanoseconds`: nanoseconds from the chunk's start ticks, read as `i64`, to `ticks`. */
  function ChunkStartDeltaNanoseconds(t: TimeResolver, ticks: I64): (r: Result<I64>)
    ensures var delta := ticks - ToI64(t.startTicks);
            (!(-TWO_63 <= delta < TWO_63) ==> r == Err(Panic("attempt to subtract with overflow")))
            && (-TWO_63 <= delta < TWO_63 ==> r == TicksToNanoseconds(t, delta))
  {
    var delta :- CheckedSub(ticks, ToI64(t.startTicks));
    TicksToNanoseconds(t, delta)
  }

  /** `epoch_nanoseconds`: the chunk's start time plus the nanoseconds since its start ticks. */
  function EpochNanoseconds(t: TimeResolver, ticks: I64): (r: Result<I64>)
    ensures ChunkStartDeltaNanoseconds(t, ticks).Err? ==> r == ChunkStartDeltaNanoseconds(t, ticks)
    ensures r.Ok? ==> ChunkStartDeltaNanoseconds(t, ticks).Ok? && r.value == t.startEpochNanoseconds + ChunkStartDeltaNanoseconds(t, ticks).value
  {
    var delta :- ChunkStartDeltaNanoseconds(t, ticks);
    CheckedAdd(t.startEpochNanoseconds, delta)
  }

  /** The offset from the chunk start is the delta between the start ticks and the given ticks. */
  lemma ChunkStartIsDelta(t: TimeResolver, ticks: I64)
    ensures ChunkStartDeltaNanoseconds(t, ticks) == DeltaNanoseconds(t, ToI64(t.startTicks), ticks)
  {
  }

  /** No ticks, no time; with fewer than 10^9 ticks per second every conversion panics instead. */
  lemma DeltaOfSameTicks(t: TimeResolver, ticks: I64)
    ensures t.ticksPerSecond >= NANOS_PER_SECOND ==> DeltaNanoseconds(t, ticks, ticks) == Ok(0)
    ensures t.ticksPerSecond < NANOS_PER_SECOND ==> DeltaNanoseconds(t, ticks, ticks) == Err(Panic("attempt to divide by zero"))
  {
  }

  /** The chunk's start ticks map to the chunk's start time. */
  lemma EpochAtStartTicks(t: TimeResolver)
    requires t.ticksPerSecond >= NANOS_PER_SECOND
    ensures EpochNanoseconds(t, ToI64(t.startTicks)) == Ok(t.startEpochNanoseconds)
  {
    DeltaOfSameTicks(t, ToI64(t.startTicks));
  }

  /** Truncation is symmetric about zero: swapping the ticks negates the delta. */
  lemma DeltaAntisymmetric(t: TimeResolver, a: I64, b: I64)
    requires DeltaNanoseconds(t, a, b).Ok? && DeltaNanoseconds(t, b, a).Ok?
    ensures DeltaNanoseconds(t, b, a).value == -DeltaNanoseconds(t, a, b).value
  {
    var d := TicksPerNanosecond(t);
    TruncDivOdd(b - a, d);
  }

  /** `TruncDiv(-a, b) == -TruncDiv(a, b)`, unlike Euclidean division. */
  lemma TruncDivOdd(a: int, b: int)
    requires b > 0
    ensures TruncDiv(-a, b) == -TruncDiv(a, b)
  {
  }

  /** Truncating division by a positive divisor is monotone. */
  lemma TruncDivMonotone(a: int, c: int, b: int)
    requires b > 0 && a <= c
    ensures TruncDiv(a, b) <= TruncDiv(c, b)
  {
    if a >= 0 {
      DivMonotone(a, c, b);
    } else if c < 0 {
      DivMonotone(-c, -a, b);
    } else {
      TruncDivBounds(a, b);
      TruncDivBounds(c, b);
    }
  }

  /** Euclidean division of naturals by a positive divisor is monotone. */
  lemma DivMonotone(a: int, c: int, b: int)
    requires 0 <= a <= c && b > 0
    ensures a / b <= c / b
  {
    if c / b < a / b {
      MulMonotone(c / b + 1, a / b, b);
    }
  }

  /** Later ticks are never earlier in time: the conversion is monotone. */
  lemma DeltaMonotone(t: TimeResolver, start: I64, a: I64, b: I64)
    requires a <= b
    requires DeltaNanoseconds(t, start, a).Ok? && DeltaNanoseconds(t, start, b).Ok?
    ensures DeltaNanoseconds(t, start, a).value <= DeltaNanoseconds(t, start, b).value
  {
    TruncDivMonotone(a - start, b - start, TicksPerNanosecond(t));
  }

  // The tick rate truncated before dividing

  /**
   * The intended conversion: `delta` ticks at `ticksPerSecond` are
   * `delta * 10^9 / ticksPerSecond` nanoseconds, truncated toward zero.
   */
  function ExactDeltaNanoseconds(t: TimeResolver, startTicks: I64, endTicks: I64): (r: Result<int>)
    ensures r.Ok? <==> -TWO_63 <= endTicks - startTicks < TWO_63 && t.ticksPerSecond > 0
    ensures r.Ok? && endTicks >= startTicks ==>
      0 <= r.value * t.ticksPerSecond <= (endTicks - startTicks) * NANOS_PER_SECOND < r.value * t.ticksPerSecond + t.ticksPerSecond
    ensures r.Ok? && endTicks < startTicks ==>
      r.value * t.ticksPerSecond - t.ticksPerSecond < (endTicks - startTicks) * NANOS_PER_SECOND <= r.value * t.ticksPerSecond <= 0
  {
    var delta :- CheckedSub(endTicks, startTicks);
    if t.ticksPerSecond == 0 then Err(Panic("attempt to divide by zero"))
    else
      var nanos := delta * NANOS_PER_SECOND;
      assert delta >= 0 <==> nanos >= 0;
      TruncDivBounds(nanos, t.ticksPerSecond);
      Ok(TruncDiv(nanos, t.ticksPerSecond))
  }

  /** When the rate is a whole number of ticks per nanosecond, the two conversions agree. */
  lemma ExactAgreesOnWholeRates(t: TimeResolver, startTicks: I64, endTicks: I64)
    requires t.ticksPerSecond >= NANOS_PER_SECOND && t.ticksPerSecond % NANOS_PER_SECOND == 0
    requires -TWO_63 <= endTicks - startTicks < TWO_63
    ensures DeltaNanoseconds(t, startTicks, endTicks).Ok? && ExactDeltaNanoseconds(t, startTicks, endTicks).Ok?
    ensures DeltaNanoseconds(t, startTicks, endTicks).value == ExactDeltaNanoseconds(t, startTicks, endTicks).value
  {
    var d := TicksPerNanosecond(t);
    var delta := endTicks - startTicks;
    assert t.ticksPerSecond == d * NANOS_PER_SECOND;
    ScaledTruncDiv(delta, d, NANOS_PER_SECOND);
  }

  /** Scaling dividend and divisor by the same positive factor leaves a truncating quotient unchanged. */
  lemma ScaledTruncDiv(a: int, b: int, k: int)
    requires b > 0 && k > 0
    ensures TruncDiv(a * k, b * k) == TruncDiv(a, b)
  {
    if a >= 0 {
      ScaledDiv(a, b, k);
    } else {
      assert (-a) * k == -(a * k);
      ScaledDiv(-a, b, k);
    }
  }

  /** `(a * k) / (b * k) == a / b` for naturals. */
  lemma ScaledDiv(a: int, b: int, k: int)
    requires a >= 0 && b > 0 && k > 0
    ensures (a * k) / (b * k) == a / b
  {
    var q := a / b;
    var m := a % b;
    assert a * k == q * (b * k) + m * k by {
      assert a == q * b + m;
      assert (q * b + m) * k == q * b * k + m * k;
    }
    MulMonotone(0, m, k);
    MulMonotone(m + 1, b, k);
    assert (m + 1) * k == m * k + k;
    DivUnique(a * k, b * k, q, m * k);
  }

  /** A quotient and remainder in range are the quotient and remainder. */
  lemma DivUnique(x: int, d: int, q: int, m: int)
    requires d > 0 && x == q * d + m && 0 <= m < d
    ensures x / d == q
  {
    var q2 := x / d;
    if q2 < q {
      MulMonotone(q2 + 1, q, d);
    } else if q < q2 {
      MulMonotone(q + 1, q2, d);
    }
  }

  /**
   * At one and a half ticks per nanosecond, one second of ticks comes out as
   * one and a half seconds: the rate is cut to one tick per nanosecond first.
   */
  lemma FractionalRateSkews()
    ensures var t := TimeResolver(0, 0, 1_500_000_000);
            DeltaNanoseconds(t, 0, 1_500_000_000) == Ok(1_500_000_000)
            && ExactDeltaNanoseconds(t, 0, 1_500_000_000) == Ok(1_000_000_000)
  {
    var t := TimeResolver(0, 0, 1_500_000_000);
    assert TicksPerNanosecond(t) == 1;
    assert 1_500_000_000 * NANOS_PER_SECOND == 1_000_000_000 * 1_500_000_000;
  }
}
