/** The C# `int` type as the scripts use it: 32-bit two's complement, with
    unchecked wrap-around on overflow (Unity's default) and integer division
    that truncates toward zero. */
module CSharpInt {

  const Modulus: int := 0x1_0000_0000
  const MinValue: int := -0x8000_0000
  const MaxValue: int := 0x7FFF_FFFF

  newtype int32 = x: int | -0x8000_0000 <= x < 0x8000_0000

  function Abs(x: int): (r: nat)
    ensures r == x || r == -x
  {
    if x < 0 then -x else x
  }

  /** Unchecked narrowing of a mathematical result to `int`: keeps the low
      32 bits, read as two's complement. */
  function Wrap(x: int): (r: int32)
    ensures MinValue <= x <= MaxValue ==> r as int == x
    ensures (x - r as int) % Modulus == 0
  {
    var low := (x - MinValue) % Modulus;
    assert x - (low + MinValue) == Modulus * ((x - MinValue) / Modulus);
    (low + MinValue) as int32
  }

  /** C# `a / b` on `int`: the quotient rounded toward zero, so the remainder
      takes the sign of the dividend. The two cases C# rejects at run time
      (division by zero, and `int.MinValue / -1`) are excluded. */
  function Div(a: int32, b: int32): (q: int32)
    requires b != 0
    requires !(a as int == MinValue && b == -1)
    ensures Abs(a as int - b as int * q as int) < Abs(b as int)
    ensures a >= 0 ==> a as int - b as int * q as int >= 0
    ensures a <= 0 ==> a as int - b as int * q as int <= 0
  {
    var q := Quot(a as int, b as int);
    QuotFits(a as int, b as int);
    q as int32
  }

  /** Division truncating toward zero on unbounded integers. */
  function Quot(x: int, y: int): (q: int)
    requires y != 0
    ensures Abs(x - y * q) < Abs(y)
    ensures x >= 0 ==> x - y * q >= 0
    ensures x <= 0 ==> x - y * q <= 0
  {
    var n: int := MagDiv(Abs(x), Abs(y));
    var q := if (x < 0) == (y < 0) then n else -n;
    SignedRemainder(x, y, n, q);
    q
  }

  /** Euclidean quotient of magnitudes. */
  function MagDiv(x: nat, y: nat): (n: nat)
    requires y > 0
    ensures 0 <= x - y * n < y
    ensures n <= x
    ensures y > 1 ==> 2 * n <= x
  {
    MagnitudeQuotient(x, y);
    x / y
  }

  /** The truncated quotient of two `int`s fits in an `int`, except for
      `int.MinValue / -1`. */
  lemma QuotFits(x: int, y: int)
    requires MinValue <= x <= MaxValue && y != 0 && !(x == MinValue && y == -1)
    ensures MinValue <= Quot(x, y) <= MaxValue
  {
    var n := MagDiv(Abs(x), Abs(y));
    QuotientFits(x, y, n, Quot(x, y));
  }

  /** Giving the quotient of magnitudes the sign rule of C# leaves the
      magnitudes' remainder, with the dividend's sign. */
  lemma SignedRemainder(a: int, b: int, n: int, q: int)
    requires n >= 0 && 0 <= Abs(a) - Abs(b) * n < Abs(b)
    requires q == if (a < 0) == (b < 0) then n else -n
    ensures Abs(a - b * q) < Abs(b)
    ensures a >= 0 ==> a - b * q >= 0
    ensures a <= 0 ==> a - b * q <= 0
  {
    var r := Abs(a) - Abs(b) * n;
    assert a - b * q == (if a >= 0 then r else -r) by {
      ProductSign(b, n);
    }
  }

  lemma ProductSign(b: int, n: int)
    ensures b * n == (if b < 0 then -(Abs(b) * n) else Abs(b) * n)
    ensures b * -n == -(b * n)
  {
  }

  /** The truncated quotient fits in an `int` once `int.MinValue / -1` is
      excluded. */
  lemma QuotientFits(a: int, b: int, n: int, q: int)
    requires MinValue <= a <= MaxValue && b != 0 && !(a == MinValue && b == -1)
    requires 0 <= n <= Abs(a) && (Abs(b) > 1 ==> 2 * n <= Abs(a))
    requires q == if (a < 0) == (b < 0) then n else -n
    ensures MinValue <= q <= MaxValue
  {
  }

  /** Euclidean quotient of magnitudes: the remainder is below the divisor,
      the quotient is at most the dividend, and at most half of it when the
      divisor exceeds one. */
  lemma MagnitudeQuotient(x: nat, y: nat)
    requires y > 0
    ensures 0 <= x - y * (x / y) < y
    ensures x / y <= x
    ensures y > 1 ==> 2 * (x / y) <= x
  {
    var n := x / y;
    assert x == y * n + x % y;
    if y > 1 {
      MulAtLeast(y - 1, n);
      assert y * n == (y - 1) * n + n;
    } else {
      assert n == x;
    }
  }

  lemma MulAtLeast(y: nat, n: nat)
    requires y > 0
    ensures y * n >= n
  {
    assert y * n == (y - 1) * n + n;
  }

  /** For a non-negative dividend, C#'s truncating quotient equals Dafny's
      Euclidean one, whatever the divisor's sign: both leave a remainder in
      `[0, |b|)`, and only one multiple of `b` does that. */
  lemma DivOfNonNegative(a: int32, b: int32)
    requires a >= 0 && b != 0
    ensures Div(a, b) as int == a as int / b as int
  {
    var x, y := a as int, b as int;
    assert 0 <= x - y * (x / y) < Abs(y);
    QuotientUnique(x, y, Div(a, b) as int, x / y);
  }

  /** Only one multiple of `b` leaves a remainder in `[0, |b|)`. */
  lemma QuotientUnique(a: int, b: int, q: int, e: int)
    requires b != 0
    requires 0 <= a - b * q < Abs(b) && 0 <= a - b * e < Abs(b)
    ensures q == e
  {
    var c := Abs(b);
    if b > 0 {
      assert c * (q - e) == b * q - b * e;
      assert c * (e - q) == b * e - b * q;
    } else {
      assert c * (q - e) == b * e - b * q;
      assert c * (e - q) == b * q - b * e;
    }
    MulBelowDivisor(c, q - e);
    MulBelowDivisor(c, e - q);
  }

  /** Dafny's Euclidean quotient of a non-negative dividend by a negative
      divisor is the negated quotient by the divisor's magnitude. */
  lemma QuotientByNegative(a: int, b: int)
    requires a >= 0 && b < 0
    ensures a / b == -(a / -b)
  {
    var e := a / b;
    var f := a / -b;
    var c := -b;
    assert 0 <= a - b * e < c;
    assert 0 <= a - c * f < c;
    assert c * (-e - f) == (a - c * f) - (a - b * e);
    assert c * (e + f) == (a - b * e) - (a - c * f);
    MulBelowDivisor(c, -e - f);
    MulBelowDivisor(c, e + f);
  }

  lemma MulBelowDivisor(b: int, x: int)
    requires b > 0 && b * x < b
    ensures x < 1
  {
  }
}
