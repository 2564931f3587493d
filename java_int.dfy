/** Java `int` arithmetic: 32-bit two's-complement wrap-around and
    division that truncates toward zero. */
module JavaInt {

  const TWO_32: int := 0x1_0000_0000
  const INT_MIN: int := -0x8000_0000
  const INT_MAX: int := 0x7fff_ffff

  predicate IsInt32(x: int) { INT_MIN <= x <= INT_MAX }

  type int32 = x: int | IsInt32(x)

  /** The 32-bit value Java stores for the mathematical result `x`. */
  function Wrap32(x: int): (r: int32)
    ensures (x - r) % TWO_32 == 0
    ensures IsInt32(x) ==> r == x
  {
    var m := (x - INT_MIN) % TWO_32;
    m + INT_MIN
  }

  /** Wrapping commutes with addition: wrapping an intermediate sum changes nothing. */
  lemma WrapAddLeft(a: int, b: int)
    ensures Wrap32(Wrap32(a) + b) == Wrap32(a + b)
  {
    var k := (a - Wrap32(a)) / TWO_32;
    assert a == Wrap32(a) + k * TWO_32;
    WrapShift(Wrap32(a) + b, k);
  }

  /** Adding a multiple of 2^32 does not change the wrapped value. */
  lemma WrapShift(x: int, k: int)
    ensures Wrap32(x + k * TWO_32) == Wrap32(x)
  {
    assert (x + k * TWO_32 - INT_MIN) % TWO_32 == (x - INT_MIN) % TWO_32;
  }

  /** Java's `/` on `int` by a positive divisor: the quotient truncated toward
      zero (Dafny's `/` is Euclidean and rounds negative quotients down). */
  function JavaDiv(a: int, b: int): (q: int)
    requires b > 0
    ensures 0 <= a ==> 0 <= q * b <= a < q * b + b
    ensures a < 0 ==> q * b - b < a <= q * b <= 0
  {
    if a >= 0 then
      TruncDiv(a, b);
      a / b
    else
      TruncDiv(-a, b);
      -((-a) / b)
  }

  /** Euclidean division of a natural number brackets it between two
      consecutive multiples of the divisor, from either sign. */
  lemma TruncDiv(n: nat, b: int)
    requires b > 0
    ensures 0 <= (n / b) * b <= n < (n / b) * b + b
    ensures (-(n / b)) * b == -((n / b) * b)
  {
    var q := n / b;
    DivBound(n, b);
    MulAtLeast(q, b);
    assert n == q * b + n % b;
  }

  /** Dividing a 32-bit value by a positive divisor stays in 32 bits. */
  lemma JavaDivInRange(a: int, b: int)
    requires IsInt32(a) && b > 0
    ensures IsInt32(JavaDiv(a, b))
  {
    if a >= 0 {
      DivBound(a, b);
    } else {
      DivBound(-a, b);
    }
  }

  /** Euclidean division of a natural number by a positive divisor. */
  lemma DivBound(a: nat, b: int)
    requires b > 0
    ensures 0 <= a / b <= a
  {
    var q := a / b;
    assert q * b + a % b == a;
    if q > a {
      MulAtLeast(q, b);
    }
  }

  lemma {:induction false} MulAtLeast(q: nat, b: int)
    requires b > 0
    ensures q * b >= q
  {
    if q > 0 {
      MulAtLeast(q - 1, b);
      assert q * b == (q - 1) * b + b;
    }
  }
}
