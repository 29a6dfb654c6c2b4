/**
 * `boson::experimental::chrono::ceil`: rounds a duration up to a coarser
 * unit, for integer representations.
 *
 * A duration is a tick count.  Converting it to the target unit multiplies
 * by the ratio of the two periods, `num / den` in lowest terms, and
 * `duration_cast` truncates the result toward zero, as C++ integer division
 * does.  `ceil` then adds one target tick when the cast fell below the
 * original duration.  Comparing the two durations is exact, which here is
 * a comparison of `ticks * den` with `count * num`.
 */
module Chrono {

  /** The ratio between the source and the target period, in lowest terms. */
  datatype Ratio = Ratio(num: nat, den: nat)

  predicate ValidRatio(r: Ratio) {
    r.num > 0 && r.den > 0
  }

  /** Integer division truncated toward zero (C++ `/`), for a positive divisor. */
  function TruncDiv(a: int, b: int): (q: int)
    requires b > 0
    ensures a >= 0 ==> q * b <= a < q * b + b
    ensures a < 0 ==> q * b - b < a <= q * b
  {
    if a >= 0 then a / b else -((-a) / b)
  }

  /** `duration_cast<To>(d)` for a duration of `count` ticks. */
  function DurationCast(r: Ratio, count: int): int
    requires ValidRatio(r)
  {
    TruncDiv(count * r.num, r.den)
  }

  /** `t < d`: the target-unit value `ticks` is below the `count`-tick duration. */
  predicate Below(r: Ratio, ticks: int, count: int) {
    ticks * r.den < count * r.num
  }

  /** `ceil<To>(d)`. */
  function Ceil(r: Ratio, count: int): int
    requires ValidRatio(r)
  {
    var t := DurationCast(r, count);
    if Below(r, t, count) then t + 1 else t
  }

  /** `ceil` is never below the duration it rounds. */
  lemma CeilIsAbove(r: Ratio, count: int)
    requires ValidRatio(r)
    ensures !Below(r, Ceil(r, count), count)
  {
  }

  /**
   * `ceil` is the least such value: one target tick less is below the
   * duration.  This holds for negative durations too, because truncation
   * toward zero rounds those up already.
   */
  lemma CeilIsLeast(r: Ratio, count: int)
    requires ValidRatio(r)
    ensures Below(r, Ceil(r, count) - 1, count)
  {
    var a := count * r.num;
    var t := TruncDiv(a, r.den);
    if a >= 0 {
      assert t * r.den <= a;
    } else {
      assert t * r.den - r.den < a;
      assert (t - 1) * r.den == t * r.den - r.den;
    }
  }

  /** Scaling by a positive factor keeps the order. */
  lemma ScaleMonotone(a: int, b: int, k: int)
    requires k > 0 && a < b
    ensures a * k < b * k
  {
    assert b * k - a * k == (b - a) * k;
  }

  /** A duration the target unit represents exactly is returned unchanged. */
  lemma CeilOfExact(r: Ratio, count: int, ticks: int)
    requires ValidRatio(r) && ticks * r.den == count * r.num
    ensures Ceil(r, count) == ticks
  {
    CeilIsAbove(r, count);
    CeilIsMinimal(r, count, ticks);
  }

  /** Any value that is not below the duration is at least `ceil`. */
  lemma CeilIsMinimal(r: Ratio, count: int, ticks: int)
    requires ValidRatio(r) && !Below(r, ticks, count)
    ensures Ceil(r, count) <= ticks
  {
    CeilIsLeast(r, count);
    var c := Ceil(r, count);
    if ticks < c - 1 {
      ScaleMonotone(ticks, c - 1, r.den);
    }
  }

  /** A time point: a duration since its clock's epoch. */
  datatype TimePoint = TimePoint(sinceEpoch: int)

  /** `ceil<To>(tp)`: the duration `ceil` applied to the time since the epoch. */
  function CeilPoint(r: Ratio, tp: TimePoint): (p: TimePoint)
    requires ValidRatio(r)
  {
    TimePoint(Ceil(r, tp.sinceEpoch))
  }

  /** The rounded time point is the earliest one, in the target unit, not before `tp`. */
  lemma CeilPointIsLeast(r: Ratio, tp: TimePoint, other: int)
    requires ValidRatio(r)
    ensures !Below(r, CeilPoint(r, tp).sinceEpoch, tp.sinceEpoch)
    ensures !Below(r, other, tp.sinceEpoch) ==> CeilPoint(r, tp).sinceEpoch <= other
  {
    CeilIsAbove(r, tp.sinceEpoch);
    if !Below(r, other, tp.sinceEpoch) {
      CeilIsMinimal(r, tp.sinceEpoch, other);
    }
  }

  /** Rounding 1500 milliseconds up to seconds gives 2 s; -1500 ms gives -1 s. */
  lemma MillisecondsToSeconds()
    ensures Ceil(Ratio(1, 1000), 1500) == 2
    ensures Ceil(Ratio(1, 1000), -1500) == -1
    ensures Ceil(Ratio(1, 1000), 3000) == 3
  {
    CeilOfExact(Ratio(1, 1000), 3000, 3);
  }
}
