/**
 * The integer facts the textbook RSA engine rests on: divisibility, Euclid's gcd,
 * Bezout coefficients, trial-division primality, Euclid's lemma, powers and
 * congruences.  Everything here is about mathematical integers; the engine's own
 * loops live in module Rsa.
 */
module NumberTheory {

  /** d is a positive divisor of x. */
  predicate Divides(d: int, x: int) {
    d > 0 && x % d == 0
  }

  function Abs(x: int): nat {
    if x < 0 then -x else x
  }

  /** Euclid's recursion: the reference definition of the greatest common divisor. */
  function GcdF(a: nat, b: nat): nat
    decreases b
  {
    if b == 0 then a else GcdF(b, a % b)
  }

  /**
   * Primality as trial division states it: num is at least 2 and no i with
   * 2 <= i and i*i <= num divides it.
   */
  ghost predicate IsPrimeSpec(num: int) {
    num >= 2 && forall i :: 2 <= i && i * i <= num ==> !Divides(i, num)
  }

  /** b raised to the k-th power. */
  function Pow(b: int, k: nat): int {
    if k == 0 then 1 else b * Pow(b, k - 1)
  }

  // ---------------------------------------------------------------------------
  // Products and Euclidean division

  lemma MulAtLeast(m: int, t: int)
    requires m > 0 && t >= 1
    ensures m * t >= m
  {
    assert m * t == m * (t - 1) + m;
  }

  lemma MulMonotone(a: int, b: int)
    requires 0 <= a <= b
    ensures a * a <= b * b
  {
    assert b * b - a * a == (b - a) * (b + a);
  }

  /** Division and remainder are unique: x == m*q + r with 0 <= r < m fixes both. */
  lemma ModUnique(x: int, m: int, q: int, r: int)
    requires m > 0 && x == m * q + r && 0 <= r < m
    ensures x / m == q && x % m == r
  {
    var q', r' := x / m, x % m;
    assert m * (q - q') == r' - r;
    if q - q' >= 1 {
      MulAtLeast(m, q - q');
    } else if q' - q >= 1 {
      MulAtLeast(m, q' - q);
    }
  }

  lemma ModAddMultiple(x: int, m: int, k: int)
    requires m > 0
    ensures (x + m * k) % m == x % m
  {
    assert x + m * k == m * (x / m + k) + x % m;
    ModUnique(x + m * k, m, x / m + k, x % m);
  }

  lemma ModOfMultiple(m: int, k: int)
    requires m > 0
    ensures Divides(m, m * k)
  {
    ModAddMultiple(0, m, k);
  }

  /** Two numbers are congruent modulo m exactly when m divides their difference. */
  lemma CongruentIffDividesDiff(a: int, b: int, m: int)
    requires m > 0
    ensures a % m == b % m <==> Divides(m, a - b)
  {
    if a % m == b % m {
      assert a - b == m * (a / m - b / m);
      ModOfMultiple(m, a / m - b / m);
    } else {
      if Divides(m, a - b) {
        var k := (a - b) / m;
        assert a == b + m * k;
        ModAddMultiple(b, m, k);
        assert false;
      }
    }
  }

  lemma DividesLinear(d: int, a: int, b: int, s: int, t: int)
    requires Divides(d, a) && Divides(d, b)
    ensures Divides(d, a * s + b * t)
  {
    var ka, kb := a / d, b / d;
    assert a == d * ka && b == d * kb;
    assert a * s + b * t == d * (ka * s + kb * t);
    ModOfMultiple(d, ka * s + kb * t);
  }

  lemma DividesProduct(d: int, a: int, b: int)
    requires Divides(d, a)
    ensures Divides(d, a * b)
  {
    ModOfMultiple(d, 0);
    DividesLinear(d, a, 0, b, 0);
  }

  lemma ModMul(a: int, b: int, m: int)
    requires m > 0
    ensures (a * b) % m == ((a % m) * (b % m)) % m
  {
    var qa, ra, qb, rb := a / m, a % m, b / m, b % m;
    assert a * b == (m * qa + ra) * (m * qb + rb);
    assert a * b == ra * rb + m * (qa * b + ra * qb);
    ModAddMultiple(ra * rb, m, qa * b + ra * qb);
  }

  lemma ModAdd(a: int, b: int, m: int)
    requires m > 0
    ensures (a + b) % m == ((a % m) + (b % m)) % m
  {
    assert a + b == (a % m + b % m) + m * (a / m + b / m);
    ModAddMultiple(a % m + b % m, m, a / m + b / m);
  }

  // ---------------------------------------------------------------------------
  // Greatest common divisor

  lemma {:induction false} GcdZero(a: nat, b: nat)
    ensures GcdF(a, b) == 0 <==> a == 0 && b == 0
    decreases b
  {
    if b != 0 {
      GcdZero(b, a % b);
    }
  }

  lemma GcdWithZero(a: nat)
    ensures GcdF(a, 0) == a && GcdF(0, a) == a
  {
  }

  lemma GcdWithOne(a: nat)
    ensures GcdF(1, a) == 1 && GcdF(a, 1) == 1
  {
    assert GcdF(a, 1) == GcdF(1, 0);
    if a > 1 {
      assert GcdF(1, a) == GcdF(a, 1);
    }
  }

  /** The gcd divides both arguments (when it is not the degenerate gcd(0, 0) = 0). */
  lemma {:induction false} GcdDivides(a: nat, b: nat)
    requires a > 0 || b > 0
    ensures Divides(GcdF(a, b), a) && Divides(GcdF(a, b), b)
    decreases b
  {
    if b == 0 {
      ModOfMultiple(a, 1);
      ModOfMultiple(a, 0);
    } else {
      GcdDivides(b, a % b);
      var g := GcdF(b, a % b);
      assert a == b * (a / b) + (a % b);
      DividesLinear(g, b, a % b, a / b, 1);
    }
  }

  /** Every common divisor of a and b divides their gcd. */
  lemma {:induction false} GcdGreatest(a: nat, b: nat, d: int)
    requires Divides(d, a) && Divides(d, b)
    ensures Divides(d, GcdF(a, b))
    decreases b
  {
    if b != 0 {
      assert a % b == a + b * (-(a / b));
      DividesLinear(d, a, b, 1, -(a / b));
      GcdGreatest(b, a % b, d);
    }
  }

  /** Bezout's identity: the gcd is an integer combination of the arguments. */
  lemma {:induction false} Bezout(a: nat, b: nat) returns (x: int, y: int)
    ensures a * x + b * y == GcdF(a, b)
    decreases b
  {
    if b == 0 {
      x, y := 1, 0;
    } else {
      var x', y' := Bezout(b, a % b);
      assert a % b == a - b * (a / b);
      x, y := y', x' - (a / b) * y';
      assert b * x' + (a - b * (a / b)) * y' == GcdF(a, b);
      assert a * x + b * y == b * x' + (a - b * (a / b)) * y';
    }
  }

  // ---------------------------------------------------------------------------
  // Primes

  /** A divisor strictly between 1 and p yields a divisor s with s*s <= p. */
  lemma SmallFactor(p: int, g: int) returns (s: int)
    requires p >= 2 && Divides(g, p) && g != 1 && g != p
    ensures 2 <= s && s * s <= p && Divides(s, p)
  {
    var h := p / g;
    assert p == g * h;
    assert h >= 2;
    if g <= h {
      assert g * h - g * g == g * (h - g);
      s := g;
    } else {
      assert g * h - h * h == h * (g - h);
      ModOfMultiple(h, g);
      s := h;
    }
  }

  /** A prime's only positive divisors are 1 and itself. */
  lemma PrimeDivisor(p: int, g: int)
    requires IsPrimeSpec(p) && Divides(g, p)
    ensures g == 1 || g == p
  {
    if g != 1 && g != p {
      var s := SmallFactor(p, g);
    }
  }

  /**
   * The divisor bound of trial division: testing i with i*i <= num finds a divisor
   * exactly when there is one strictly between 1 and num.
   */
  lemma PrimeIffNoProperDivisor(n: int)
    ensures IsPrimeSpec(n) <==> n >= 2 && forall d :: 2 <= d < n ==> !Divides(d, n)
  {
    if IsPrimeSpec(n) {
      forall d | 2 <= d < n
        ensures !Divides(d, n)
      {
        if Divides(d, n) {
          PrimeDivisor(n, d);
        }
      }
    }
    if n >= 2 && forall d :: 2 <= d < n ==> !Divides(d, n) {
      forall i | 2 <= i && i * i <= n
        ensures !Divides(i, n)
      {
        MulAtLeast(i, i);
        assert i * i >= 2 * i by { assert i * i - 2 * i == i * (i - 2); }
      }
    }
  }

  /** A prime has no divisor in [2, p); in particular it is not divisible by a smaller positive number. */
  lemma NotDividesSmaller(p: int, k: int)
    requires p > 0 && 0 < k < p
    ensures !Divides(p, k)
  {
    ModUnique(k, p, 0, k);
  }

  /** Euclid's lemma: a prime dividing a product divides one of the factors. */
  lemma EuclidLemma(p: int, a: int, b: int)
    requires IsPrimeSpec(p) && Divides(p, a * b)
    ensures Divides(p, a) || Divides(p, b)
  {
    if !Divides(p, a) {
      var r := a % p;
      CoprimeResidue(p, a);
      var x, y := Bezout(r, p);
      ResidueProduct(a, b, p);
      CoprimeCancel(p, r, b, x, y);
    }
  }

  /** The residue of a number a prime does not divide is coprime to that prime. */
  lemma CoprimeResidue(p: int, a: int)
    requires IsPrimeSpec(p) && !Divides(p, a)
    ensures GcdF(a % p, p) == 1
  {
    var r := a % p;
    GcdDivides(r, p);
    var g := GcdF(r, p);
    PrimeDivisor(p, g);
    if g == p {
      NotDividesSmaller(p, r);
    }
  }

  /** Reducing one factor modulo p does not change the product's residue. */
  lemma ResidueProduct(a: int, b: int, p: int)
    requires p > 0
    ensures (a * b) % p == ((a % p) * b) % p
  {
    ModMul(a, b, p);
    ModMul(a % p, b, p);
    ModUnique(a % p, p, 0, a % p);
  }

  /** With r*x + p*y == 1, p dividing r*b means p divides b. */
  lemma CoprimeCancel(p: int, r: int, b: int, x: int, y: int)
    requires p > 0 && r * x + p * y == 1 && (r * b) % p == 0
    ensures Divides(p, b)
  {
    var rb := r * b;
    ModOfMultiple(p, 1);
    assert b == rb * x + p * (b * y) by {
      assert b * (r * x + p * y) == b;
      assert b * (r * x + p * y) == rb * x + p * (b * y);
    }
    DividesLinear(p, rb, p, x, b * y);
  }

  /** Chinese remainder for two distinct primes: divisible by both means divisible by their product. */
  lemma DistinctPrimesDivide(p: int, q: int, y: int)
    requires IsPrimeSpec(p) && IsPrimeSpec(q) && p != q
    requires Divides(p, y) && Divides(q, y)
    ensures Divides(p * q, y)
  {
    var s := y / p;
    assert y == p * s;
    EuclidLemma(q, p, s);
    if Divides(q, p) {
      PrimeDivisor(p, q);
      assert false;
    }
    var u := s / q;
    assert y == (p * q) * u;
    ModOfMultiple(p * q, u);
  }

  // ---------------------------------------------------------------------------
  // Powers

  lemma {:induction false} PowAdd(b: int, i: nat, j: nat)
    ensures Pow(b, i + j) == Pow(b, i) * Pow(b, j)
  {
    if i > 0 {
      PowAdd(b, i - 1, j);
      assert Pow(b, i + j) == b * Pow(b, i - 1 + j);
    }
  }

  lemma {:induction false} PowMul(b: int, i: nat, j: nat)
    ensures Pow(b, i * j) == Pow(Pow(b, i), j)
  {
    if j > 0 {
      PowMul(b, i, j - 1);
      assert i * j == i * (j - 1) + i;
      PowAdd(b, i * (j - 1), i);
    }
  }

  lemma {:induction false} PowOfOne(k: nat)
    ensures Pow(1, k) == 1
  {
    if k > 0 {
      PowOfOne(k - 1);
    }
  }

  /** Powers respect congruence: reducing the base first does not change the residue. */
  lemma {:induction false} PowMod(b: int, k: nat, m: int)
    requires m > 0
    ensures Pow(b % m, k) % m == Pow(b, k) % m
  {
    if k > 0 {
      PowMod(b, k - 1, m);
      ModMul(b, Pow(b, k - 1), m);
      ModMul(b % m, Pow(b % m, k - 1), m);
      ModUnique(b % m, m, 0, b % m);
    }
  }

  // ---------------------------------------------------------------------------
  // Binomial coefficients and Fermat's little theorem

  /** Pascal's triangle. */
  function Binom(n: nat, k: nat): nat {
    if k == 0 then 1 else if n == 0 then 0 else Binom(n - 1, k - 1) + Binom(n - 1, k)
  }

  lemma {:induction false} BinomAbove(n: nat, k: nat)
    requires k > n
    ensures Binom(n, k) == 0
  {
    if n > 0 {
      BinomAbove(n - 1, k - 1);
      BinomAbove(n - 1, k);
    }
  }

  lemma {:induction false} BinomDiagonal(n: nat)
    ensures Binom(n, n) == 1
  {
    if n > 0 {
      BinomDiagonal(n - 1);
      BinomAbove(n - 1, n);
    }
  }

  lemma Distrib(a: int, b: int, c: int)
    ensures a * (b + c) == a * b + a * c
  {
  }

  lemma SuccMul(x: int, y: int)
    ensures (x + 1) * y == x * y + y
  {
  }

  /** The absorption identity k * C(n, k) == n * C(n - 1, k - 1). */
  lemma {:induction false} BinomAbsorb(n: nat, k: nat)
    requires n >= 1 && k >= 1
    ensures k * Binom(n, k) == n * Binom(n - 1, k - 1)
  {
    if n == 1 {
      if k >= 2 {
        BinomAbove(0, k - 1);
      }
    } else if k == 1 {
      BinomAbsorb(n - 1, 1);
    } else {
      var a, b := Binom(n - 1, k - 1), Binom(n - 1, k);
      var c, d := Binom(n - 2, k - 2), Binom(n - 2, k - 1);
      assert Binom(n, k) == a + b;
      assert a == c + d;
      BinomAbsorb(n - 1, k);
      BinomAbsorb(n - 1, k - 1);
      var kb, ka1, nc, nd := k * b, (k - 1) * a, (n - 1) * c, (n - 1) * d;
      assert kb == nd && ka1 == nc;
      Distrib(k, a, b);
      SuccMul(k - 1, a);
      SuccMul(n - 1, a);
      Distrib(n - 1, c, d);
      assert k * (a + b) == n * a;
    }
  }

  /** A prime p divides every inner coefficient C(p, k), 0 < k < p. */
  lemma PrimeDividesBinom(p: int, k: nat)
    requires IsPrimeSpec(p) && 0 < k < p
    ensures Divides(p, Binom(p, k))
  {
    BinomAbsorb(p, k);
    ModOfMultiple(p, Binom(p - 1, k - 1));
    EuclidLemma(p, k, Binom(p, k));
    if Divides(p, k) {
      NotDividesSmaller(p, k);
    }
  }

  /** The first j terms of the binomial expansion of (a + 1)^n. */
  function BinomSum(n: nat, a: int, j: nat): int {
    if j == 0 then 0 else BinomSum(n, a, j - 1) + Binom(n, j - 1) * Pow(a, j - 1)
  }

  lemma PascalStep(a: int, s0: int, c0: int, c1: int, w0: int)
    ensures (s0 + c0 * w0 + a * s0) + (c0 + c1) * (a * w0)
         == (s0 + c0 * w0 + c1 * (a * w0)) + a * (s0 + c0 * w0)
  {
    Distrib(a * w0, c0, c1);
    Distrib(a, s0, c0 * w0);
    assert c0 * (a * w0) == a * (c0 * w0);
  }

  lemma {:induction false} BinomSumPascal(n: nat, a: int, j: nat)
    ensures BinomSum(n + 1, a, j + 1) == BinomSum(n, a, j + 1) + a * BinomSum(n, a, j)
  {
    if j > 0 {
      BinomSumPascal(n, a, j - 1);
      var s0 := BinomSum(n, a, j - 1);
      var c1, c0 := Binom(n, j), Binom(n, j - 1);
      var w0 := Pow(a, j - 1);
      assert Binom(n + 1, j) == c0 + c1;
      assert Pow(a, j) == a * w0;
      assert BinomSum(n, a, j) == s0 + c0 * w0;
      PascalStep(a, s0, c0, c1, w0);
    }
  }

  /** The binomial theorem for (a + 1)^n. */
  lemma {:induction false} BinomialTheorem(n: nat, a: int)
    ensures Pow(a + 1, n) == BinomSum(n, a, n + 1)
  {
    if n > 0 {
      BinomialTheorem(n - 1, a);
      BinomSumPascal(n - 1, a, n);
      BinomAbove(n - 1, n);
      assert BinomSum(n - 1, a, n + 1) == BinomSum(n - 1, a, n);
    }
  }

  lemma {:induction false} InnerTermsDivisible(p: int, a: int, j: nat)
    requires IsPrimeSpec(p) && 1 <= j <= p
    ensures Divides(p, BinomSum(p, a, j) - 1)
  {
    if j == 1 {
      ModOfMultiple(p, 0);
    } else {
      InnerTermsDivisible(p, a, j - 1);
      var sum, c, w := BinomSum(p, a, j - 1), Binom(p, j - 1), Pow(a, j - 1);
      var cw := c * w;
      assert BinomSum(p, a, j) == sum + cw;
      PrimeDividesBinom(p, j - 1);
      DividesProduct(p, c, w);
      DividesLinear(p, sum - 1, cw, 1, 1);
      assert (sum - 1) * 1 + cw * 1 == BinomSum(p, a, j) - 1;
    }
  }

  /** Fermat's little theorem: a^p and a leave the same remainder modulo a prime p. */
  lemma {:induction false} Fermat(p: int, a: nat)
    requires IsPrimeSpec(p)
    ensures Pow(a, p) % p == a % p
  {
    if a == 0 {
      assert Pow(0, p) == 0 * Pow(0, p - 1);
    } else {
      var b := a - 1;
      Fermat(p, b);
      BinomialTheorem(p, b);
      BinomDiagonal(p);
      InnerTermsDivisible(p, b, p);
      assert Pow(a, p) == (BinomSum(p, b, p) - 1) + (Pow(b, p) + 1);
      CongruentIffDividesDiff(Pow(a, p), Pow(b, p) + 1, p);
      ModAdd(Pow(b, p), 1, p);
      ModAdd(b, 1, p);
    }
  }

  /** For m not divisible by the prime p, m^(p-1) is 1 modulo p. */
  lemma FermatUnit(p: int, m: nat)
    requires IsPrimeSpec(p) && !Divides(p, m)
    ensures Pow(m, p - 1) % p == 1
  {
    Fermat(p, m);
    assert Pow(m, p) == m * Pow(m, p - 1);
    CongruentIffDividesDiff(Pow(m, p), m, p);
    assert Pow(m, p) - m == m * (Pow(m, p - 1) - 1);
    EuclidLemma(p, m, Pow(m, p - 1) - 1);
    CongruentIffDividesDiff(Pow(m, p - 1), 1, p);
    ModUnique(1, p, 0, 1);
  }

  /** For m not divisible by p, m^(t(p-1)) is 1 modulo p. */
  lemma FermatPower(p: int, m: nat, t: nat)
    requires IsPrimeSpec(p) && !Divides(p, m)
    ensures Pow(m, t * (p - 1)) % p == 1
  {
    var u := Pow(m, p - 1);
    FermatUnit(p, m);
    PowMul(m, p - 1, t);
    assert (p - 1) * t == t * (p - 1);
    PowMod(u, t, p);
    PowOfOne(t);
    ModUnique(1, p, 0, 1);
  }

  /** The prime-by-prime half of RSA correctness: m^(1 + t(p-1)) is m modulo p. */
  lemma ExponentModPrime(p: int, m: nat, t: nat)
    requires IsPrimeSpec(p)
    ensures Pow(m, 1 + t * (p - 1)) % p == m % p
  {
    var k: nat := t * (p - 1);
    var w := Pow(m, k);
    PowAdd(m, 1, k);
    assert Pow(m, 1) == m;
    assert Pow(m, 1 + k) == m * w;
    if Divides(p, m) {
      DividesProduct(p, m, w);
    } else {
      FermatPower(p, m, t);
      ModMul(m, w, p);
      ModUnique(m % p, p, 0, m % p);
    }
  }

  /** e*d == 1 modulo phi, with e, d >= 0 and phi > 0, means e*d == 1 + t*phi for some t >= 0. */
  lemma QuotientOfUnit(ed: nat, phi: int) returns (t: nat)
    requires phi > 0 && ed % phi == 1
    ensures ed == 1 + t * phi
  {
    var t' := ed / phi;
    assert ed == phi * t' + 1;
    if t' < 0 {
      MulAtLeast(phi, -t');
      assert false;
    }
    t := t';
  }

  /** e*d == 1 modulo (p-1)(q-1) gives e*d == 1 + tp*(p-1) and e*d == 1 + tq*(q-1). */
  lemma UnitExponent(p: int, q: int, ed: nat) returns (tp: nat, tq: nat)
    requires p >= 2 && q >= 2 && ed % ((p - 1) * (q - 1)) == 1
    ensures ed == 1 + tp * (p - 1) && ed == 1 + tq * (q - 1)
  {
    var a, b := p - 1, q - 1;
    MulAtLeast(a, b);
    var t := QuotientOfUnit(ed, a * b);
    Regroup(t, a, b);
    tp, tq := t * b, t * a;
  }

  /** t*(a*b) regrouped around either factor, for nonnegative t, a, b. */
  lemma Regroup(t: int, a: int, b: int)
    requires t >= 0 && a >= 0 && b >= 0
    ensures t * (a * b) == (t * b) * a == (t * a) * b
    ensures t * a >= 0 && t * b >= 0
  {
  }

  /** A number congruent to m < pq modulo both distinct primes p and q leaves remainder m modulo pq. */
  lemma CrtResidue(p: int, q: int, x: int, m: nat)
    requires IsPrimeSpec(p) && IsPrimeSpec(q) && p != q
    requires x % p == m % p && x % q == m % q && m < p * q
    ensures x % (p * q) == m
  {
    var n := p * q;
    MulAtLeast(p, q);
    CongruentIffDividesDiff(x, m, p);
    CongruentIffDividesDiff(x, m, q);
    DistinctPrimesDivide(p, q, x - m);
    CongruentIffDividesDiff(x, m, n);
    ModUnique(m, n, 0, m);
  }

  /**
   * Textbook RSA correctness: for distinct primes p, q and exponents with
   * e*d == 1 modulo (p-1)(q-1), raising m < p*q to e*d gives m back modulo p*q.
   */
  lemma RsaExponentIdentity(p: int, q: int, e: nat, d: nat, m: nat)
    requires IsPrimeSpec(p) && IsPrimeSpec(q) && p != q
    requires (e * d) % ((p - 1) * (q - 1)) == 1
    requires m < p * q
    ensures Pow(m, e * d) % (p * q) == m
  {
    var ed: nat := e * d;
    var tp, tq := UnitExponent(p, q, ed);
    ExponentModPrime(p, m, tp);
    ExponentModPrime(q, m, tq);
    CrtResidue(p, q, Pow(m, ed), m);
  }
}
