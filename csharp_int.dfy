/**
 * The two pieces of C# integer semantics the model depends on: division and
 * remainder that truncate toward zero (Dafny's own `/` and `%` are Euclidean),
 * and the wrap-around of 32-bit `int` arithmetic in an unchecked context.
 */
module CSharpInt {

  /** C#'s `a / b` for a positive divisor: the quotient rounded toward zero. */
  function Div(a: int, b: int): (q: int)
    requires b > 0
    ensures a >= 0 ==> 0 <= q && q * b <= a < q * b + b
    ensures a < 0 ==> q <= 0 && q * b - b < a <= q * b
  {
    if a >= 0 then DivBounds(a, b); a / b else DivBounds(-a, b); -((-a) / b)
  }

  /** Dafny's quotient of a non-negative number by a positive one is the
      floor: non-negative and within one divisor of the dividend. */
  lemma DivBounds(a: int, b: int)
    requires a >= 0 && b > 0
    ensures 0 <= a / b && (a / b) * b <= a < (a / b) * b + b
  {
  }

  /** C#'s `a % b` for a positive divisor: the remainder takes the sign of `a`. */
  function Mod(a: int, b: int): (r: int)
    requires b > 0
    ensures a >= 0 ==> 0 <= r < b
    ensures a < 0 ==> -b < r <= 0
    ensures a == Div(a, b) * b + r
  {
    if a >= 0 then a % b else -((-a) % b)
  }

  /** On non-negative operands the C# operators agree with Dafny's. */
  lemma NonNegativeAgrees(a: int, b: int)
    requires a >= 0 && b > 0
    ensures Div(a, b) == a / b && Mod(a, b) == a % b
  {
  }

  /** Multiplication distributes over a successor. */
  lemma MulStep(x: int, c: int)
    ensures (x + 1) * c == x * c + c
  {
  }

  /** Products regroup and distribute over sums. */
  lemma MulAssociates(x: int, y: int, z: int)
    ensures x * y * z == x * (y * z)
  {
  }

  lemma MulDistributes(a: int, b: int, c: int)
    ensures (a + b) * c == a * c + b * c
  {
  }

  /** Multiplying by a positive number keeps the order. */
  lemma MulMonotone(x: int, y: int, b: int)
    requires x <= y && b > 0
    ensures x * b <= y * b
  {
    var d := y - x;
    assert y * b == x * b + d * b;
  }

  /** A quotient and remainder pinned down by their defining equation. */
  lemma DivUnique(a: int, b: int, q: int, r: int)
    requires b > 0 && 0 <= r < b && a == q * b + r
    ensures a / b == q && a % b == r
  {
    var q2, r2 := a / b, a % b;
    assert a == q2 * b + r2 && 0 <= r2 < b;
    if q2 > q {
      MulMonotone(q + 1, q2, b);
      MulStep(q, b);
    } else if q2 < q {
      MulMonotone(q2 + 1, q, b);
      MulStep(q2, b);
    }
  }

  /** Adding a multiple of the divisor keeps the remainder. */
  lemma ModAfterMultiple(a: int, b: int, n: int, k: int)
    requires n > 0 && a == b + n * k
    ensures a % n == b % n
  {
    var q, r := b / n, b % n;
    assert a == (q + k) * n + r;
    DivUnique(a, n, q + k, r);
  }

  const Int32Min: int := -0x8000_0000
  const Int32Max: int := 0x7fff_ffff

  /** The values of a C# `int`. */
  newtype int32 = x: int | -0x8000_0000 <= x < 0x8000_0000

  /** The result of 32-bit two's-complement addition or subtraction: `x` reduced modulo 2^32 into range. */
  function Wrap(x: int): (r: int32)
    ensures (r as int - x) % 0x1_0000_0000 == 0
    ensures Int32Min <= x <= Int32Max ==> r as int == x
  {
    ((x - Int32Min) % 0x1_0000_0000 + Int32Min) as int32
  }

  /** Adding an offset and then subtracting it in 32-bit arithmetic gives back the original value,
      even when the addition overflowed. */
  lemma {:induction false} WrapAddSub(v: int32, o: int32)
    ensures Wrap(Wrap(v as int + o as int) as int - o as int) == v
  {
    var s := Wrap(v as int + o as int);
    var k := (s as int - (v as int + o as int)) / 0x1_0000_0000;
    assert s as int == v as int + o as int + k * 0x1_0000_0000;
    assert s as int - o as int == v as int + k * 0x1_0000_0000;
    WrapShift(v as int, k);
  }

  lemma WrapShift(x: int, k: int)
    requires Int32Min <= x <= Int32Max
    ensures Wrap(x + k * 0x1_0000_0000) as int == x
  {
    var y := x - Int32Min;
    assert 0 <= y < 0x1_0000_0000;
    assert (y + k * 0x1_0000_0000) % 0x1_0000_0000 == y;
  }
}
