/**
 * Java's fixed-width integer arithmetic, written out explicitly:
 * `int` fields and parameters are 32-bit two's complement values and
 * wrap on overflow; `long` division truncates toward zero.
 */
module JavaInt {

  const MinInt: int := -0x8000_0000
  const MaxInt: int := 0x7fff_ffff
  const Modulus: int := 0x1_0000_0000

  /** The values of a Java `int`. */
  type Int32 = x: int | -0x8000_0000 <= x <= 0x7fff_ffff

  /** Two's-complement wrap-around of a mathematical integer into the `int` range. */
  function Wrap(x: int): (r: Int32)
    ensures MinInt <= x <= MaxInt ==> r == x
    ensures (x - r) % Modulus == 0
  {
    (x - MinInt) % Modulus + MinInt
  }

  /** Java `a + b` on two `int` operands. */
  function Add(a: Int32, b: Int32): Int32 {
    Wrap(a + b)
  }

  /** Java `a - b` on two `int` operands. */
  function Sub(a: Int32, b: Int32): Int32 {
    Wrap(a - b)
  }

  /** Java `a / b` for a positive divisor: the quotient truncated toward zero. */
  function TruncDiv(a: int, b: int): int
    requires b > 0
  {
    if a >= 0 then a / b else -((-a) / b)
  }

  lemma AddInRange(a: Int32, b: Int32)
    requires MinInt <= a + b <= MaxInt
    ensures Add(a, b) == a + b
  {
  }

  lemma SubInRange(a: Int32, b: Int32)
    requires MinInt <= a - b <= MaxInt
    ensures Sub(a, b) == a - b
  {
  }

  /** A positive factor can be cancelled from a strict inequality. */
  lemma MulCancelStrict(d: int, p: int, q: int)
    requires d > 0 && d * p < d * q
    ensures p < q
  {
    assert d * (q - p) == d * q - d * p;
  }

  /** Division of non-negative values by a positive divisor is monotone. */
  lemma DivMonotone(x: int, y: int, d: int)
    requires 0 <= x <= y && d > 0
    ensures x / d <= y / d
  {
    var qx, qy := x / d, y / d;
    assert d * qx <= x;
    assert y < d * qy + d == d * (qy + 1);
    MulCancelStrict(d, qx, qy + 1);
  }

  /** Truncating division by a positive divisor is monotone in the dividend. */
  lemma TruncDivMonotone(a: int, b: int, d: int)
    requires a <= b && d > 0
    ensures TruncDiv(a, d) <= TruncDiv(b, d)
  {
    if 0 <= a {
      DivMonotone(a, b, d);
      assert TruncDiv(a, d) == a / d && TruncDiv(b, d) == b / d;
    } else if b < 0 {
      DivMonotone(-b, -a, d);
      assert TruncDiv(a, d) == -((-a) / d) && TruncDiv(b, d) == -((-b) / d);
    } else {
      DivMonotone(0, -a, d);
      DivMonotone(0, b, d);
      assert TruncDiv(a, d) == -((-a) / d) <= 0 <= b / d == TruncDiv(b, d);
    }
  }

  /** A non-negative dividend within `[d * q, d * (q + 1))` has quotient `q`. */
  lemma TruncDivExact(a: int, d: int, q: int)
    requires d > 0 && 0 <= d * q <= a < d * (q + 1)
    ensures TruncDiv(a, d) == q
  {
    var r := a / d;
    assert d * r <= a < d * (q + 1);
    MulCancelStrict(d, r, q + 1);
    assert d * q <= a < d * r + d == d * (r + 1);
    MulCancelStrict(d, q, r + 1);
  }
}
