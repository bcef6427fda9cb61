/** Greatest common divisor as computed by Python's `fractions._gcd`, which
    `Spiro.setparams` uses to reduce the ratio of the two radii. The library
    routine is Euclid's algorithm on the remainder: while `b` is non-zero,
    `(a, b)` becomes `(b, a % b)`; the answer is the final `a`. For the
    non-negative arguments modelled here Python's `%` and Dafny's `%` agree. */
module Fractions {

  /** `d` is a positive divisor of `n`. */
  predicate Divides(d: int, n: int) {
    d > 0 && n % d == 0
  }

  /** Euclid's algorithm, step for step as the library runs it. */
  function Gcd(a: nat, b: nat): (g: nat)
    ensures a > 0 || b > 0 ==> g > 0
    decreases b
  {
    if b == 0 then a else Gcd(b, FloorMod(a, b))
  }

  /** The remainder `x % y` of naturals, as repeated subtraction. This is
      the same number as Dafny's `x % y` (see `FloorModIsMod`); it is spelled
      out recursively so that the solver unfolds it only on demand. */
  function FloorMod(x: nat, y: nat): (m: nat)
    requires y > 0
    ensures m < y
    decreases x
  {
    if x < y then x else FloorMod(x - y, y)
  }

  /** Floor division `x // y` of naturals, as repeated subtraction, likewise
      the same number as `x / y` (see `FloorDivIsDiv`). */
  function FloorDiv(x: nat, y: nat): nat
    requires y > 0
    decreases x
  {
    if x < y then 0 else 1 + FloorDiv(x - y, y)
  }

  lemma {:induction false} FloorDivIsDiv(x: nat, y: nat)
    requires y > 0
    ensures FloorDiv(x, y) == x / y
    decreases x
  {
    if x < y {
      DivModUnique(x, y, 0, x);
    } else {
      FloorDivIsDiv(x - y, y);
      DivModUnique(x, y, (x - y) / y + 1, (x - y) % y);
    }
  }

  lemma {:induction false} FloorModIsMod(x: nat, y: nat)
    requires y > 0
    ensures FloorMod(x, y) == x % y
    decreases x
  {
    if x < y {
      DivModUnique(x, y, 0, x);
    } else {
      FloorModIsMod(x - y, y);
      DivModUnique(x, y, (x - y) / y + 1, (x - y) % y);
    }
  }

  /** A positive `d` divides every multiple of itself. */
  lemma MultipleDivisible(d: int, k: int)
    requires d > 0
    ensures Divides(d, d * k)
  {
    var n := d * k;
    var q, m := n / d, n % d;
    assert n == q * d + m && 0 <= m < d;
    assert (k - q) * d == m;
    SmallMultipleIsZero(k - q, d);
  }

  /** The quotient and remainder of a division are the only ones with the
      remainder in range. */
  lemma DivModUnique(x: int, m: int, q: int, rem: int)
    requires m > 0 && x == q * m + rem && 0 <= rem < m
    ensures x / m == q && x % m == rem
  {
    var q', rem' := x / m, x % m;
    assert x == q' * m + rem' && 0 <= rem' < m;
    assert (q - q') * m == rem' - rem;
    SmallMultipleIsZero(q - q', m);
  }

  /** A multiple of `d` strictly between `-d` and `d` is zero. */
  lemma SmallMultipleIsZero(k: int, d: int)
    requires d > 0 && -d < k * d < d
    ensures k == 0
  {
    if k >= 1 {
      MulNonNegative(k - 1, d);
    } else if k <= -1 {
      MulNonNegative(-k - 1, d);
    }
  }

  lemma MulNonNegative(x: int, y: int)
    requires x >= 0 && y >= 0
    ensures x * y >= 0
  {
  }

  /** A common divisor of `x` and `y` divides `x + k * y`. */
  lemma DividesCombination(d: int, x: int, y: int, k: int)
    requires Divides(d, x) && Divides(d, y)
    ensures Divides(d, x + k * y)
  {
    var u, v := x / d, y / d;
    assert x == d * u && y == d * v;
    assert x + k * y == d * (u + k * v);
    MultipleDivisible(d, u + k * v);
  }

  /** One step of Euclid's algorithm keeps the set of common divisors. */
  lemma EuclidStep(a: nat, b: nat, d: int)
    requires b > 0 && d > 0
    ensures Divides(d, a) && Divides(d, b) <==> Divides(d, b) && Divides(d, a % b)
  {
    var q := a / b;
    assert a % b == a + (-q) * b;
    assert a == a % b + q * b;
    if Divides(d, a) && Divides(d, b) {
      DividesCombination(d, a, b, -q);
    }
    if Divides(d, b) && Divides(d, a % b) {
      DividesCombination(d, a % b, b, q);
    }
  }

  /** The result of `Gcd` is positive, and its divisors are exactly the common
      divisors of the two arguments: it is a common divisor, and every common
      divisor divides it. */
  lemma {:induction false} GcdDivisors(a: nat, b: nat)
    requires a > 0 || b > 0
    ensures Gcd(a, b) > 0
    ensures forall d :: d > 0 ==> (Divides(d, a) && Divides(d, b) <==> Divides(d, Gcd(a, b)))
    decreases b
  {
    if b != 0 {
      GcdDivisors(b, a % b);
      FloorModIsMod(a, b);
      forall d | d > 0
        ensures Divides(d, a) && Divides(d, b) <==> Divides(d, Gcd(a, b))
      {
        EuclidStep(a, b, d);
      }
    }
  }

  /** `Gcd` is a common divisor and no common divisor exceeds it. */
  lemma GcdIsGreatest(a: nat, b: nat)
    requires a > 0 || b > 0
    ensures Divides(Gcd(a, b), a) && Divides(Gcd(a, b), b)
    ensures forall d :: Divides(d, a) && Divides(d, b) ==> d <= Gcd(a, b)
  {
    var g := Gcd(a, b);
    GcdDivisors(a, b);
    MultipleDivisible(g, 1);
    assert Divides(g, g);
    forall d | Divides(d, a) && Divides(d, b)
      ensures d <= g
    {
      assert Divides(d, g);
      DivisorBound(d, g);
    }
  }

  /** A divisor of a positive number is no larger than it. */
  lemma DivisorBound(d: int, n: int)
    requires Divides(d, n) && n > 0
    ensures d <= n
  {
    var k := n / d;
    assert n == d * k;
    assert k >= 1;
  }

  /** Scaling both arguments scales the result: Euclid's algorithm on
      `n * a` and `n * b` runs through the same steps, each scaled by `n`. */
  lemma {:induction false} GcdScale(a: nat, b: nat, n: nat)
    requires n > 0
    ensures Gcd(n * a, n * b) == n * Gcd(a, b)
    decreases b
  {
    if b != 0 {
      var q, rem := a / b, a % b;
      assert n * a == q * (n * b) + n * rem;
      assert 0 <= n * rem < n * b;
      DivModUnique(n * a, n * b, q, n * rem);
      FloorModIsMod(a, b);
      FloorModIsMod(n * a, n * b);
      GcdScale(b, rem, n);
    }
  }
}
