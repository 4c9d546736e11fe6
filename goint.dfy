/**
 * Go's fixed-width signed integers and its truncating division, which the
 * library relies on wherever it combines a clock reading with a random draw.
 */
module GoInt {

  const TwoTo63: int := 0x8000_0000_0000_0000
  const TwoTo64: int := 0x1_0000_0000_0000_0000
  const Int64Min: int := -TwoTo63
  const Int64Max: int := TwoTo63 - 1

  predicate IsInt64(x: int) {
    Int64Min <= x <= Int64Max
  }

  /** Two's-complement wrap-around of an int64 addition or multiplication. */
  function Wrap64(x: int): (r: int)
    ensures IsInt64(r)
    ensures (x - r) % TwoTo64 == 0
    ensures IsInt64(x) ==> r == x
  {
    (x + TwoTo63) % TwoTo64 - TwoTo63
  }

  /** Go's `%`: the remainder takes the sign of the dividend. */
  function Rem(a: int, m: int): (r: int)
    requires m > 0
    ensures a >= 0 ==> 0 <= r < m && r == a % m
    ensures a < 0 ==> -m < r <= 0
  {
    if a >= 0 then a % m else -((-a) % m)
  }

  /** Go's remainder differs from the dividend by a multiple of the modulus, which with its range fixes its value. */
  lemma RemCongruent(a: int, m: int)
    requires m > 0
    ensures (a - Rem(a, m)) % m == 0
  {
    if a >= 0 {
      DivModOfSplit(a - Rem(a, m), a / m, 0, m);
    } else {
      DivModOfSplit(a - Rem(a, m), -((-a) / m), 0, m);
    }
  }

  /** Euclidean division is unique: a split of x into q * m + r with 0 <= r < m gives x / m and x % m. */
  lemma DivModOfSplit(x: int, q: int, r: int, m: int)
    requires m > 0 && 0 <= r < m && x == q * m + r
    ensures x / m == q && x % m == r
  {
    var d := x / m - q;
    assert m * d == r - x % m by {
      assert x == m * (x / m) + x % m;
      assert m * (x / m) == m * d + m * q;
    }
    MulMonotone(m, d);
  }

  lemma MulMonotone(m: int, d: int)
    requires m > 0
    ensures d >= 1 ==> m * d >= m
    ensures d <= -1 ==> m * d <= -m
  {
    if d >= 1 {
      assert m * d == m + m * (d - 1);
    } else if d <= -1 {
      assert m * d == -m + m * (d + 1);
    }
  }
}
