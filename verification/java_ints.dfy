/** The parts of Java `int` arithmetic that differ from Dafny's unbounded,
    Euclidean integers: truncating division and 32-bit wrap-around. */
module JavaInts {

  const IntMax: int := 0x7fff_ffff
  const IntMin: int := -0x8000_0000
  const Modulus: int := 0x1_0000_0000

  /** Java's `a / b` for a positive divisor: the quotient is truncated toward
      zero. Written by repeated subtraction; `DivRemTruncate` relates it to
      Dafny's Euclidean division. */
  function Div(a: int, b: int): int
    requires b > 0
    decreases if a >= 0 then a else 1 - a
  {
    if a < 0 then -Div(-a, b)
    else if a < b then 0
    else 1 + Div(a - b, b)
  }

  /** Java's `a % b` for a positive divisor: the remainder has the sign of `a`. */
  function Rem(a: int, b: int): int
    requires b > 0
    decreases if a >= 0 then a else 1 - a
  {
    if a < 0 then -Rem(-a, b)
    else if a < b then a
    else Rem(a - b, b)
  }

  /** For a non-negative dividend the subtraction loop leaves a remainder
      below the divisor that makes up the difference. */
  lemma {:induction false} DivRemNat(a: int, b: int)
    requires a >= 0 && b > 0
    ensures a == Div(a, b) * b + Rem(a, b)
    ensures 0 <= Rem(a, b) < b
    decreases a
  {
    if a >= b {
      DivRemNat(a - b, b);
      var q := Div(a - b, b);
      assert Div(a, b) == q + 1 && Rem(a, b) == Rem(a - b, b);
      assert (q + 1) * b == q * b + b;
    }
  }

  /** Java's quotient and remainder: truncation toward zero, the remainder
      making up the difference and carrying the sign of the dividend. For a
      non-negative dividend they agree with Dafny's Euclidean operators. */
  lemma DivRemTruncate(a: int, b: int)
    requires b > 0
    ensures a == Div(a, b) * b + Rem(a, b)
    ensures a >= 0 ==> Div(a, b) == a / b && Rem(a, b) == a % b
    ensures a >= 0 ==> 0 <= Rem(a, b) < b
    ensures a < 0 ==> -b < Rem(a, b) <= 0
  {
    if a < 0 {
      DivRemNat(-a, b);
      var q, m := Div(-a, b), Rem(-a, b);
      assert Div(a, b) == -q && Rem(a, b) == -m;
      assert (-q) * b == -(q * b);
    } else {
      DivRemNat(a, b);
      DivModUniqueNat(a, b, Div(a, b), Rem(a, b));
    }
  }

  /** Quotient and remainder are determined by any decomposition with a remainder in range. */
  lemma DivModUniqueNat(n: int, N: int, q: int, m: int)
    requires N > 0 && 0 <= m < N && n == q * N + m
    ensures n / N == q && n % N == m
  {
    var q', m' := n / N, n % N;
    assert n == q' * N + m';
    if q > q' {
      MulMono(q' + 1, q, N);
      assert false;
    } else if q < q' {
      MulMono(q + 1, q', N);
      assert false;
    }
  }

  /** Multiplication by a natural number is monotone. */
  lemma {:induction false} MulMono(a: int, b: int, N: nat)
    requires a <= b
    ensures a * N <= b * N
    decreases b - a
  {
    if a < b {
      MulMono(a + 1, b, N);
      assert (a + 1) * N == a * N + N;
    }
  }

  /** The Java `int` that the mathematical integer `x` wraps to. */
  function Wrap(x: int): (r: int)
    ensures IntMin <= r <= IntMax
    ensures IntMin <= x <= IntMax ==> r == x
  {
    (x - IntMin) % Modulus + IntMin
  }

  /** Wrapping changes a value by a multiple of 2^32. */
  lemma WrapCongruent(x: int)
    ensures (x - Wrap(x)) % Modulus == 0
  {
  }

  /** Two wrapped values congruent modulo 2^32 are equal. */
  lemma WrapUnique(x: int, r: int)
    requires IntMin <= r <= IntMax
    requires (x - r) % Modulus == 0
    ensures Wrap(x) == r
  {
    var w := Wrap(x);
    WrapCongruent(x);
    assert (w - r) % Modulus == 0 by {
      assert w - r == (x - r) - (x - w);
    }
  }

  /** Wrapping after every addition gives the same `int` as wrapping once at the end. */
  lemma WrapAdd(x: int, y: int)
    ensures Wrap(Wrap(x) + y) == Wrap(x + y)
  {
    var w := Wrap(Wrap(x) + y);
    WrapCongruent(x);
    WrapCongruent(Wrap(x) + y);
    assert (x + y - w) == (x - Wrap(x)) + (Wrap(x) + y - w);
    WrapUnique(x + y, w);
  }
}
