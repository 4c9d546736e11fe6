/**
 * `Int(rangeSize...)`: a random integer in an inclusive range given by zero,
 * one or two bounds, the two in either order.
 */
module Ranges {
  import opened GoInt
  import opened Entropy

  datatype Bounds = Bounds(min: int, max: int)

  /** The `switch len(rangeSize)` that turns the arguments into bounds. */
  function RangeOf(rangeSize: seq<int>): (b: Bounds)
    ensures |rangeSize| == 0 ==> b == Bounds(0, 100)
    ensures |rangeSize| == 1 ==> b == Bounds(0, rangeSize[0])
    ensures |rangeSize| >= 2 ==>
      b.min <= b.max && ((b.min == rangeSize[0] && b.max == rangeSize[1]) || (b.min == rangeSize[1] && b.max == rangeSize[0]))
  {
    if |rangeSize| == 0 then Bounds(0, 100)
    else if |rangeSize| == 1 then Bounds(0, rangeSize[0])
    else if rangeSize[0] > rangeSize[1] then Bounds(rangeSize[1], rangeSize[0])
    else Bounds(rangeSize[0], rangeSize[1])
  }

  /** `max-min+1`, the bound handed to `rand.Int`. */
  function Span(b: Bounds): (n: int)
    ensures n > 0 <==> b.min <= b.max
  {
    b.max - b.min + 1
  }

  /**
   * The calls that return: every argument is a Go `int` (64 bits) and
   * `max-min+1` is a positive int64. Every other call makes `rand.Int`
   * panic (see `SpanOverflowIsNotPositive`).
   */
  predicate Returns(rangeSize: seq<int>)
    ensures Returns(rangeSize) ==> RangeOf(rangeSize).min <= RangeOf(rangeSize).max
    ensures Returns(rangeSize) ==> IsInt64(RangeOf(rangeSize).min) && IsInt64(RangeOf(rangeSize).max)
  {
    (forall i :: 0 <= i < |rangeSize| ==> IsInt64(rangeSize[i]))
    && 0 < Span(RangeOf(rangeSize)) <= Int64Max
  }

  /**
   * `Int(rangeSize...)` with `draw` the outcome of `rand.Int` over the span
   * (or of its fallback `defaultRand.Int63() % span`).
   */
  function Int(rangeSize: seq<int>, draw: IntDraw): (r: int)
    requires Returns(rangeSize)
    requires ValidIntDraw(draw, Span(RangeOf(rangeSize)))
    ensures IsInt64(r)
    ensures NonNegativeIntDraw(draw) ==> RangeOf(rangeSize).min <= r <= RangeOf(rangeSize).max
    ensures draw.IntOk? ==> r == RangeOf(rangeSize).min + draw.n
    ensures draw.IntErr? && NonNegativeIntDraw(draw) ==>
      r == RangeOf(rangeSize).min + Int63(draw.fallback) % Span(RangeOf(rangeSize))
  {
    var b := RangeOf(rangeSize);
    Wrap64(b.min + Pick(draw, Span(b)))
  }

  /** The defaults: no argument means [0, 100], one argument a means [0, a]. */
  lemma DefaultBounds(a: int, d: IntDraw)
    requires ValidIntDraw(d, 101) && NonNegativeIntDraw(d)
    ensures RangeOf([]) == Bounds(0, 100) && RangeOf([a]) == Bounds(0, a)
    ensures Returns([]) && 0 <= Int([], d) <= 100
  {
  }

  /** The two bounds may come in either order: both give [min(a,b), max(a,b)] and the same value. */
  lemma OrderIndependent(a: int, b: int, d: IntDraw)
    requires Returns([a, b]) && ValidIntDraw(d, Span(RangeOf([a, b])))
    ensures RangeOf([a, b]) == RangeOf([b, a])
    ensures RangeOf([a, b]) == Bounds(if a <= b then a else b, if a <= b then b else a)
    ensures Returns([b, a]) && Int([a, b], d) == Int([b, a], d)
  {
  }

  /** `Int(a)` with a negative a asks `rand.Int` for a non-positive bound, so it never returns. */
  lemma NegativeSingleBoundPanics(a: int)
    requires a < 0
    ensures Span(RangeOf([a])) <= 0 && !Returns([a])
  {
  }

  /**
   * When the true `max-min+1` exceeds int64, Go's wrapped computation of it is
   * not positive, so `rand.Int` panics: `Returns` is exactly the set of calls
   * that get past it.
   */
  lemma SpanOverflowIsNotPositive(b: Bounds)
    requires IsInt64(b.min) && IsInt64(b.max) && b.min <= b.max
    ensures Span(b) <= Int64Max ==> Wrap64(Wrap64(b.max - b.min) + 1) == Span(b)
    ensures Span(b) > Int64Max ==> Wrap64(Wrap64(b.max - b.min) + 1) <= 0
  {
    var diff := b.max - b.min;
    if diff == Int64Max {
      assert Wrap64(diff + 1) == Int64Min by {
        DivModOfSplit(diff + 1 + TwoTo63, 1, 0, TwoTo64);
      }
    } else if Span(b) > Int64Max {
      assert Wrap64(diff) == diff - TwoTo64 by {
        DivModOfSplit(diff + TwoTo63, 1, diff + TwoTo63 - TwoTo64, TwoTo64);
      }
      assert Wrap64(diff - TwoTo64 + 1) == diff - TwoTo64 + 1;
    }
  }

  /** The hypothesis on the fallback is needed: a clock before 1970 gives a value below `min`. */
  lemma PreEpochClockUndershoots()
    ensures Int([10, 20], IntErr(Int63Clock(-5))) == 5
  {
  }
}
