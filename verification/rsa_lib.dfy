/**
 * The textbook RSA engine of rsa_lib.py: trial-division primality, Euclid's gcd,
 * the extended-Euclid modular inverse, key-pair generation with its cyclic search
 * for a public exponent, and the character-by-character codec.
 *
 * Characters are Unicode code points (what Python's ord returns and chr accepts);
 * Python's three-argument pow is the mathematical power reduced by Python's
 * floor modulo.
 */
module Rsa {
  import opened Wrappers
  import opened NumberTheory

  /** A value chr accepts: 0 <= c < 0x110000. */
  type CodePoint = c: int | 0 <= c < 0x110000

  /** A Python str, as its sequence of code points. */
  type Text = seq<CodePoint>

  /** A key (exponent, modulus): (e, n) is public, (d, n) is private. */
  datatype Key = Key(exp: int, modulus: int)

  datatype KeyPair = KeyPair(public: Key, private: Key)

  /** The two ValueErrors of generate_keypair. */
  datatype KeyError = NotPrime | EqualPrimes

  /** The exceptions pow and chr raise inside encrypt and decrypt. */
  datatype CodecError = ZeroModulus | NegativeExponent | NotACodePoint

  /** The exponent the public-exponent search starts from. */
  const DefaultExponent: nat := 65537

  // ---------------------------------------------------------------------------
  // is_prime, gcd, mod_inverse

  /** is_prime: false below 2, otherwise trial division by every i with i*i <= num. */
  method IsPrime(num: int) returns (r: bool)
    ensures r == IsPrimeSpec(num)
  {
    if num < 2 {
      return false;
    }
    var i := 2;
    while i * i <= num
      invariant 2 <= i
      invariant forall j :: 2 <= j < i ==> !Divides(j, num)
      decreases num - i
    {
      MulAtLeast(i, i);
      if num % i == 0 {
        assert Divides(i, num);
        return false;
      }
      i := i + 1;
    }
    forall j | 2 <= j && j * j <= num
      ensures !Divides(j, num)
    {
      if j >= i {
        MulMonotone(i, j);
      }
    }
    return true;
  }

  /**
   * gcd: Euclid's loop.  The result is a common divisor of a and b that every
   * common divisor divides, and gcd(a, 0) == a.
   */
  method Gcd(a: nat, b: nat) returns (g: nat)
    ensures g == GcdF(a, b)
    ensures b == 0 ==> g == a
    ensures g == 0 <==> a == 0 && b == 0
    ensures a > 0 || b > 0 ==> Divides(g, a) && Divides(g, b)
    ensures forall d :: Divides(d, a) && Divides(d, b) ==> Divides(d, g)
  {
    var x, y := a, b;
    while y != 0
      invariant GcdF(x, y) == GcdF(a, b)
      decreases y
    {
      x, y := y, x % y;
    }
    g := x;
    GcdZero(a, b);
    if a > 0 || b > 0 {
      GcdDivides(a, b);
    }
    forall d | Divides(d, a) && Divides(d, b)
      ensures Divides(d, g)
    {
      GcdGreatest(a, b, d);
    }
  }

  /** One step of the extended Euclidean loop keeps both coefficients' congruences. */
  lemma CongruenceStep(u: int, v: int, a: int, b: int, q: int, m: int)
    requires m > 0 && u % m == a % m && v % m == b % m
    ensures (u - q * v) % m == (a - q * b) % m
  {
    CongruentIffDividesDiff(u, a, m);
    CongruentIffDividesDiff(v, b, m);
    DividesLinear(m, u - a, v - b, 1, -q);
    assert (u - a) * 1 + (v - b) * -q == (u - q * v) - (a - q * b);
    CongruentIffDividesDiff(u - q * v, a - q * b, m);
  }

  /**
   * One step of the extended Euclidean loop keeps the coefficients of opposite
   * sign and keeps |x1|*b + |x0|*a equal to the modulus; this is what bounds
   * the final coefficient by the modulus.
   */
  lemma CoefficientStep(a: int, b: int, x0: int, x1: int, m: int)
    requires b > 0 && a >= 0
    requires (x0 <= 0 <= x1) || (x1 <= 0 <= x0)
    requires Abs(x1) * b + Abs(x0) * a == m
    ensures var q := a / b;
      ((x1 - q * x0 <= 0 <= x0) || (x0 <= 0 <= x1 - q * x0)) &&
      Abs(x0) * (a % b) + Abs(x1 - q * x0) * b == m
  {
    var q := a / b;
    assert q >= 0;
    assert a == b * q + a % b;
    if x0 <= 0 <= x1 {
      assert q * x0 <= 0;
      assert Abs(x1 - q * x0) == Abs(x1) + q * Abs(x0);
    } else {
      assert q * x0 >= 0;
      assert Abs(x1 - q * x0) == Abs(x1) + q * Abs(x0);
    }
    assert (Abs(x1) + q * Abs(x0)) * b == Abs(x1) * b + Abs(x0) * (b * q);
    assert Abs(x0) * (a % b) + Abs(x0) * (b * q) == Abs(x0) * a;
  }

  /**
   * What the extended Euclidean loop of mod_inverse keeps, for the original
   * arguments e and m0 and the current a, b (the source's reassigned e and phi)
   * and coefficients x0, x1: the gcd is unchanged, x1*e == a and x0*e == b
   * modulo m0, and the coefficients have opposite signs with
   * |x1|*b + |x0|*a == m0, which bounds them by m0.
   */
  ghost predicate ExtendedEuclidState(e: nat, m0: nat, a: nat, b: nat, x0: int, x1: int)
  {
    && GcdF(a, b) == GcdF(e, m0)
    && (e <= 1 ==> a == e && x1 == 1)
    && (e >= 1 ==> a >= 1)
    && (m0 > 0 ==> (x1 * e) % m0 == a % m0 && (x0 * e) % m0 == b % m0)
    && ((x0 <= 0 <= x1) || (x1 <= 0 <= x0))
    && Abs(x1) * b + Abs(x0) * a == m0
    && (m0 > 0 ==> Abs(x1) <= m0)
  }

  /** One iteration of the loop of mod_inverse keeps ExtendedEuclidState. */
  lemma ExtendedEuclidStep(e: nat, m0: nat, a: nat, b: nat, x0: int, x1: int)
    requires ExtendedEuclidState(e, m0, a, b, x0, x1) && a > 1 && b > 0
    ensures ExtendedEuclidState(e, m0, b, a % b, x1 - (a / b) * x0, x0)
  {
    CoefficientStep(a, b, x0, x1, m0);
    if m0 > 0 {
      StepCongruence(e, m0, a, b, x0, x1);
    }
    StepBound(m0, a, b, x0, x1);
  }

  /** The congruences x1*e == a and x0*e == b modulo m0 survive one step. */
  lemma StepCongruence(e: nat, m0: nat, a: nat, b: nat, x0: int, x1: int)
    requires m0 > 0 && b > 0
    requires (x1 * e) % m0 == a % m0 && (x0 * e) % m0 == b % m0
    ensures ((x1 - (a / b) * x0) * e) % m0 == (a % b) % m0
  {
    var q := a / b;
    var u, v := x1 * e, x0 * e;
    CongruenceStep(u, v, a, b, q, m0);
    CoefficientTimes(x1, x0, q, e);
    assert a % b == a - q * b;
  }

  /** With a > 1, |x1|*b + |x0|*a == m0 bounds |x0| by m0. */
  lemma StepBound(m0: nat, a: nat, b: nat, x0: int, x1: int)
    requires a > 1 && Abs(x1) * b + Abs(x0) * a == m0
    ensures Abs(x0) <= m0
  {
    var p1 := Abs(x1) * b;
    assert p1 >= 0;
    if Abs(x0) > 0 {
      MulAtLeast(Abs(x0), a);
    }
  }

  /** The new coefficient times e, written through the old coefficients times e. */
  lemma CoefficientTimes(x1: int, x0: int, q: int, e: int)
    ensures (x1 - q * x0) * e == x1 * e - q * (x0 * e)
  {
    Distrib(e, x1, -q * x0);
    assert (q * x0) * e == q * (x0 * e);
  }

  /**
   * mod_inverse: the extended Euclidean algorithm.  With phi == 1 it returns 0;
   * with e <= 1 it returns 1 without looping; otherwise it fails (Python's
   * ZeroDivisionError, here None) exactly when e and phi are not coprime, and for
   * coprime e and phi > 1 it returns the inverse of e modulo phi, in [0, phi).
   */
  method ModInverse(e: nat, phi: nat) returns (r: Option<int>)
    ensures phi == 1 ==> r == Some(0)
    ensures phi != 1 && e <= 1 ==> r == Some(1)
    ensures phi != 1 && e >= 2 ==> (r == None <==> GcdF(e, phi) != 1)
    ensures phi > 1 && GcdF(e, phi) == 1 ==>
              r.Some? && 0 <= r.value < phi && (e * r.value) % phi == 1
  {
    var m0, x0, x1 := phi, 0, 1;
    if phi == 1 {
      return Some(0);
    }
    // a and b are the source's e and phi, which the loop reassigns.
    var a: nat, b: nat := e, phi;
    assert ExtendedEuclidState(e, m0, a, b, x0, x1) by {
      if m0 > 0 {
        ModUnique(m0, m0, 1, 0);
        ModUnique(0, m0, 0, 0);
      }
    }
    while a > 1
      invariant ExtendedEuclidState(e, m0, a, b, x0, x1)
      decreases b
    {
      if b == 0 {
        // e // phi with phi == 0: ZeroDivisionError; gcd(a, 0) == a > 1.
        GcdWithZero(a);
        return None;
      }
      ExtendedEuclidStep(e, m0, a, b, x0, x1);
      var q := a / b;
      a, b := b, a % b;
      x0, x1 := x1 - q * x0, x0;
    }
    ExtendedEuclidFinish(e, m0, a, b, x0, x1);
    if x1 < 0 {
      x1 := x1 + m0;
    }
    r := Some(x1);
  }

  /**
   * When the loop of mod_inverse stops, the coefficient x1 shifted into range is
   * 1 for e <= 1, the loop has reached a == 1 (so e and m0 are coprime) for
   * e >= 2, and for coprime e and m0 > 1 it is the inverse of e modulo m0.
   */
  lemma ExtendedEuclidFinish(e: nat, m0: nat, a: nat, b: nat, x0: int, x1: int)
    requires m0 != 1 && a <= 1 && ExtendedEuclidState(e, m0, a, b, x0, x1)
    ensures var r := if x1 < 0 then x1 + m0 else x1;
      && (e <= 1 ==> r == 1)
      && (e >= 2 ==> GcdF(e, m0) == 1)
      && (m0 > 1 && GcdF(e, m0) == 1 ==> 0 <= r < m0 && (e * r) % m0 == 1)
  {
    if e >= 2 {
      GcdWithOne(b);
      if m0 > 1 {
        ModUnique(1, m0, 0, 1);
        ShiftedInverse(e, m0, x1);
      }
    } else if m0 > 1 && GcdF(e, m0) == 1 {
      assert e == 1 by {
        if e == 0 {
          GcdWithZero(m0);
        }
      }
      ModUnique(1, m0, 0, 1);
    }
  }

  /** A multiple of m is never 1 modulo m > 1. */
  lemma MultipleIsNotOne(m: int, k: int, y: int)
    requires m > 1 && y == m * k
    ensures y % m != 1
  {
    ModOfMultiple(m, k);
  }

  /** A coefficient x with x*e == 1 modulo m and |x| <= m, shifted into [0, m) as the source does, is the inverse. */
  lemma ShiftedInverse(e: nat, m: int, x: int)
    requires m > 1 && (x * e) % m == 1 && Abs(x) <= m
    ensures var r := if x < 0 then x + m else x;
      0 <= r < m && (e * r) % m == 1
  {
    var xe := x * e;
    if x == m {
      MultipleIsNotOne(m, e, xe);
      assert false;
    }
    if x == -m {
      var k := 0 - e;
      assert xe == m * k;
      MultipleIsNotOne(m, k, xe);
      assert false;
    }
    if x < 0 {
      var me := m * e;
      assert e * (x + m) == xe + me;
      ModAddMultiple(xe, m, e);
    } else {
      assert e * x == xe;
    }
  }

  // ---------------------------------------------------------------------------
  // generate_keypair
  /** The totient (p-1)*(q-1) that generate_keypair computes. */
  function Totient(p: int, q: int): (phi: int)
    ensures p >= 2 && q >= 2 ==> phi >= 1
  {
    var a, b := p - 1, q - 1;
    assert a >= 1 && b >= 1 ==> a * b >= 1 by {
      if a >= 1 && b >= 1 {
        MulAtLeast(a, b);
      }
    }
    a * b
  }

  /** The exponent search's step: advance by 2 modulo phi, and restart at 3 below 2. */
  function NextCandidate(e: int, phi: int): (r: int)
    requires phi > 0
    ensures r >= 2 && (r == 3 || r < phi)
    ensures e + 2 < phi && e + 2 >= 2 ==> r == e + 2
  {
    var c := (e + 2) % phi;
    if c < 2 then 3 else c
  }

  /** The condition of generate_keypair's search loop: e is not yet a coprime exponent below phi. */
  predicate KeepSearching(e: nat, phi: nat)
  {
    GcdF(e, phi) != 1 || e >= phi
  }

  /** phi - 1 and phi are coprime, so the search always stops at phi - 1. */
  lemma ConsecutiveCoprime(phi: nat)
    requires phi >= 2
    ensures GcdF(phi - 1, phi) == 1
  {
    var g := GcdF(phi - 1, phi);
    GcdDivides(phi - 1, phi);
    DividesLinear(g, phi, phi - 1, 1, -1);
    assert phi * 1 + (phi - 1) * -1 == 1;
    assert 1 % g == 0;
    if g > 1 {
      ModUnique(1, g, 0, 1);
    }
  }

  /**
   * The exponent the search of generate_keypair settles on, from candidate e,
   * for an even totient phi >= 4 (the only totients of distinct primes other
   * than 2 and 3): an odd exponent in [3, phi) coprime to phi.
   */
  function ExponentSearch(e: nat, phi: nat): (r: nat)
    requires phi >= 4 && phi % 2 == 0 && e % 2 == 1 && e >= 3
    ensures 3 <= r < phi && r % 2 == 1 && GcdF(r, phi) == 1
    ensures !KeepSearching(e, phi) ==> r == e
    decreases if e < phi then phi - e else phi
  {
    if !KeepSearching(e, phi) then e
    else
      SearchStep(e, phi);
      ExponentSearch(NextCandidate(e, phi), phi)
  }

  /**
   * One step of the search from an odd candidate e >= 3 gives another odd
   * candidate >= 3 that is below phi, and it goes up by 2 when e already was.
   */
  lemma SearchStep(e: nat, phi: nat)
    requires phi >= 4 && phi % 2 == 0 && e % 2 == 1 && e >= 3 && KeepSearching(e, phi)
    ensures var n := NextCandidate(e, phi);
      n % 2 == 1 && 3 <= n < phi && (e < phi ==> n == e + 2)
  {
    var c := (e + 2) % phi;
    var k := (e + 2) / phi;
    assert e + 2 == phi * k + c;
    var h := phi / 2;
    assert phi * k == 2 * (h * k);
    assert c % 2 == 1;
    if e < phi {
      ConsecutiveCoprime(phi);
      assert e != phi - 1;
      ModUnique(e + 2, phi, 0, e + 2);
    }
  }

  /**
   * The totient of two distinct primes other than 2 and 3 is even and at least 4,
   * which is what makes the exponent search terminate.
   */
  lemma TotientOfDistinctPrimes(p: int, q: int)
    requires IsPrimeSpec(p) && IsPrimeSpec(q) && p != q
    requires !(p == 2 && q == 3) && !(p == 3 && q == 2)
    ensures Totient(p, q) >= 4 && Totient(p, q) % 2 == 0
  {
    OddOrTwo(p);
    OddOrTwo(q);
    if p == 2 {
      EvenProduct(1, q - 1);
    } else if q == 2 {
      EvenProduct(1, p - 1);
    } else {
      EvenProduct(p - 1, q - 1);
    }
  }

  /** A product with an even factor b >= 2 is even and at least each factor. */
  lemma EvenProduct(a: int, b: int)
    requires a >= 1 && b >= 2 && b % 2 == 0
    ensures (a * b) % 2 == 0 && a * b >= a && a * b >= b && b * a == a * b
  {
    var h := b / 2;
    assert a * b == 2 * (a * h);
    ModUnique(a * b, 2, a * h, 0);
    MulAtLeast(a, b);
    MulAtLeast(b, a);
  }

  /** A prime is 2 or odd. */
  lemma OddOrTwo(p: int)
    requires IsPrimeSpec(p)
    ensures p == 2 || p % 2 == 1
  {
    if p != 2 && p % 2 == 0 {
      assert Divides(2, p);
    }
  }

  /**
   * generate_keypair(2, 3) never returns: the totient is 2, every step of the
   * search lands on 3 and 3 >= 2 keeps the loop going.
   */
  lemma SearchNeverEndsForTwoAndThree(e: nat)
    ensures Totient(2, 3) == 2
    ensures NextCandidate(e, 2) == 3 && KeepSearching(3, 2)
  {
    var c := (e + 2) % 2;
    assert c < 2;
  }

  /**
   * A well-formed key pair for primes p and q: both keys share n = p*q, e is
   * coprime to phi = (p-1)*(q-1) with 2 <= e < phi, and d in [0, phi) is the
   * inverse of e modulo phi.
   */
  ghost predicate ValidKeyPair(p: int, q: int, kp: KeyPair)
  {
    var phi := Totient(p, q);
    && IsPrimeSpec(p) && IsPrimeSpec(q) && p != q
    && kp.public.modulus == p * q && kp.private.modulus == p * q
    && 2 <= kp.public.exp < phi && kp.public.exp >= 0 && GcdF(kp.public.exp, phi) == 1
    && 0 <= kp.private.exp < phi
    && (kp.public.exp * kp.private.exp) % phi == 1
  }

  /**
   * generate_keypair: NotPrime unless both arguments are prime, EqualPrimes for
   * p == q, and otherwise the key pair with the exponent the search finds from
   * 65537 and its inverse.  The caller must not pass 2 and 3, for which the
   * search loops forever.
   */
  method GenerateKeypair(p: int, q: int) returns (r: Result<KeyPair, KeyError>)
    requires !(p == 2 && q == 3) && !(p == 3 && q == 2)
    ensures r == Failure(NotPrime) <==> !(IsPrimeSpec(p) && IsPrimeSpec(q))
    ensures r == Failure(EqualPrimes) <==> IsPrimeSpec(p) && IsPrimeSpec(q) && p == q
    ensures r.Success? <==> IsPrimeSpec(p) && IsPrimeSpec(q) && p != q
    ensures r.Success? ==> ValidKeyPair(p, q, r.value)
    ensures r.Success? ==>
              Totient(p, q) >= 4 && Totient(p, q) % 2 == 0 &&
              r.value.public.exp == ExponentSearch(DefaultExponent, Totient(p, q))
  {
    var pp := IsPrime(p);
    var qp := false;
    if pp {
      qp := IsPrime(q);
    }
    if !(pp && qp) {
      return Failure(NotPrime);
    } else if p == q {
      return Failure(EqualPrimes);
    }
    var n := p * q;
    var phi: nat := (p - 1) * (q - 1);
    TotientOfDistinctPrimes(p, q);
    var e: nat := DefaultExponent;
    var g := Gcd(e, phi);
    while g != 1 || e >= phi
      invariant e % 2 == 1 && e >= 3 && g == GcdF(e, phi)
      invariant ExponentSearch(e, phi) == ExponentSearch(DefaultExponent, phi)
      decreases if e < phi then phi - e else phi
    {
      SearchStep(e, phi);
      e := (e + 2) % phi;
      if e < 2 {
        e := 3;
      }
      g := Gcd(e, phi);
    }
    var d := ModInverse(e, phi);
    r := Success(KeyPair(Key(e, n), Key(d.value, n)));
  }

  // ---------------------------------------------------------------------------
  // encrypt, decrypt

  /**
   * Python's x % m for m != 0: the remainder takes the sign of m, so it lies in
   * [0, m) for m > 0 and in (m, 0] for m < 0, and m divides x minus it.
   */
  function FloorMod(x: int, m: int): (r: int)
    requires m != 0
    ensures Divides(Abs(m), x - r)
    ensures m > 0 ==> 0 <= r < m && r == x % m
    ensures m < 0 ==> m < r <= 0
  {
    var k := x % m;
    RemainderDivides(x, m);
    if m > 0 || k == 0 then k
    else
      ModOfMultiple(Abs(m), 1);
      DividesLinear(Abs(m), x - k, Abs(m), 1, 1);
      k + m
  }

  /** m divides x minus Dafny's (Euclidean) remainder of x by m. */
  lemma RemainderDivides(x: int, m: int)
    requires m != 0
    ensures Divides(Abs(m), x - x % m)
  {
    var j := x / m;
    assert x - x % m == m * j;
    if m > 0 {
      ModOfMultiple(m, j);
    } else {
      assert m * j == Abs(m) * -j;
      ModOfMultiple(Abs(m), -j);
    }
  }

  /** Python's pow(b, k, m) for k >= 0 and m != 0: b to the k-th power, reduced by m. */
  function ModPow(b: int, k: nat, m: int): (r: int)
    requires m != 0
    ensures m > 0 ==> r == Pow(b, k) % m
    ensures m < 0 ==> m < r <= 0
  {
    FloorMod(Pow(b, k), m)
  }

  /**
   * encrypt: every character's code point raised to e modulo n, in order.  An
   * empty text never reaches pow, so it encrypts to [] under any key; otherwise
   * pow rejects n == 0 and, in this model, a negative exponent.
   */
  function Encrypt(key: Key, text: Text): (r: Result<seq<int>, CodecError>)
    ensures |text| == 0 ==> r == Success([])
    ensures |text| > 0 ==> (r == Failure(ZeroModulus) <==> key.modulus == 0)
    ensures |text| > 0 ==> (r == Failure(NegativeExponent) <==> key.modulus != 0 && key.exp < 0)
    ensures r.Success? ==>
              && |r.value| == |text|
              && forall i :: 0 <= i < |text| ==>
                   key.modulus != 0 && key.exp >= 0 && r.value[i] == ModPow(text[i], key.exp, key.modulus)
    ensures r.Success? && key.modulus > 0 ==> forall i :: 0 <= i < |r.value| ==> 0 <= r.value[i] < key.modulus
  {
    if |text| == 0 then Success([])
    else if key.modulus == 0 then Failure(ZeroModulus)
    else if key.exp < 0 then Failure(NegativeExponent)
    else Success(seq(|text|, i requires 0 <= i < |text| => ModPow(text[i], key.exp, key.modulus)))
  }

  /** The values decrypt produces before chr: each cipher value raised to d modulo n. */
  function DecryptedValues(key: Key, cipher: seq<int>): (v: seq<int>)
    requires key.modulus != 0 && key.exp >= 0
    ensures |v| == |cipher|
    ensures forall i :: 0 <= i < |v| ==> v[i] == ModPow(cipher[i], key.exp, key.modulus)
  {
    seq(|cipher|, i requires 0 <= i < |cipher| => ModPow(cipher[i], key.exp, key.modulus))
  }

  /** A value chr accepts. */
  predicate IsCodePoint(v: int)
  {
    0 <= v < 0x110000
  }

  /**
   * decrypt: every cipher value raised to d modulo n, turned back into a
   * character, in order.  Besides pow's errors it fails when chr rejects a value
   * (a negative one, for a negative n, or one at or above 0x110000).
   */
  function Decrypt(key: Key, cipher: seq<int>): (r: Result<Text, CodecError>)
    ensures |cipher| == 0 ==> r == Success([])
    ensures |cipher| > 0 ==> (r == Failure(ZeroModulus) <==> key.modulus == 0)
    ensures |cipher| > 0 ==> (r == Failure(NegativeExponent) <==> key.modulus != 0 && key.exp < 0)
    ensures |cipher| > 0 && key.modulus != 0 && key.exp >= 0 ==>
              (r == Failure(NotACodePoint) <==>
                 exists i :: 0 <= i < |cipher| && !IsCodePoint(ModPow(cipher[i], key.exp, key.modulus)))
    ensures r.Success? ==>
              && |r.value| == |cipher|
              && forall i :: 0 <= i < |cipher| ==>
                   key.modulus != 0 && key.exp >= 0 && r.value[i] == ModPow(cipher[i], key.exp, key.modulus)
  {
    if |cipher| == 0 then Success([])
    else if key.modulus == 0 then Failure(ZeroModulus)
    else if key.exp < 0 then Failure(NegativeExponent)
    else
      var v := DecryptedValues(key, cipher);
      if forall i :: 0 <= i < |v| ==> IsCodePoint(v[i])
      then Success(seq(|v|, i requires 0 <= i < |v| => v[i] as CodePoint))
      else Failure(NotACodePoint)
  }

  /** With 0 < n <= 0x110000 every value pow produces is a code point, so decrypt cannot fail on chr. */
  lemma SmallModulusAlwaysDecodes(key: Key, cipher: seq<int>)
    requires 0 < key.modulus <= 0x110000 && key.exp >= 0
    ensures Decrypt(key, cipher).Success?
    ensures |Decrypt(key, cipher).value| == |cipher|
  {
    if |cipher| > 0 {
      var v := DecryptedValues(key, cipher);
      assert forall i :: 0 <= i < |v| ==> IsCodePoint(v[i]);
    }
  }

  /** The inverse of e modulo phi is unique in [0, phi). */
  lemma InverseUnique(e: int, phi: int, d1: int, d2: int)
    requires phi > 0 && 0 <= d1 < phi && 0 <= d2 < phi
    requires (e * d1) % phi == 1 && (e * d2) % phi == 1
    ensures d1 == d2
  {
    var ed1, ed2 := e * d1, e * d2;
    ModMul(d1, ed2, phi);
    ModMul(ed1, d2, phi);
    ModUnique(d1, phi, 0, d1);
    ModUnique(d2, phi, 0, d2);
    assert d1 * ed2 == ed1 * d2;
  }

  /**
   * One character through encrypt and decrypt under a valid key pair comes back
   * reduced modulo n: itself exactly when its code point is below n.
   */
  lemma CharRoundTrip(p: int, q: int, kp: KeyPair, m: CodePoint)
    requires ValidKeyPair(p, q, kp)
    ensures var n := p * q;
      n > 0 && ModPow(ModPow(m, kp.public.exp, n), kp.private.exp, n) == m % n
  {
    var n := p * q;
    var e: nat, d: nat := kp.public.exp, kp.private.exp;
    assert n > 0 by {
      MulAtLeast(p, q);
    }
    var c := ModPow(m, e, n);
    assert c == Pow(m, e) % n;
    PowMod(Pow(m, e), d, n);
    PowMul(m, e, d);
    PowMod(m, e * d, n);
    var r := m % n;
    RsaExponentIdentity(p, q, e, d, r);
  }

  /** A residue of a natural number is at most the number itself. */
  lemma ResidueAtMost(x: nat, n: int)
    requires n > 0
    ensures 0 <= x % n <= x
  {
    if x < n {
      ModUnique(x, n, 0, x);
    }
  }

  /** Decrypting the encryption of a text under a valid key pair yields its code points modulo n, before chr. */
  lemma DecryptedResidues(p: int, q: int, kp: KeyPair, text: Text)
    requires ValidKeyPair(p, q, kp)
    ensures p * q > 0 && Encrypt(kp.public, text).Success?
    ensures var v := DecryptedValues(kp.private, Encrypt(kp.public, text).value);
      |v| == |text| && forall i :: 0 <= i < |text| ==> v[i] == text[i] % (p * q) && 0 <= v[i] <= text[i]
  {
    var n := p * q;
    assert n > 0 by {
      MulAtLeast(p, q);
    }
    var c := Encrypt(kp.public, text).value;
    var v := DecryptedValues(kp.private, c);
    forall i | 0 <= i < |text|
      ensures v[i] == text[i] % n && 0 <= v[i] <= text[i]
    {
      CharRoundTrip(p, q, kp, text[i]);
      ResidueAtMost(text[i], n);
    }
  }

  /**
   * decrypt undoes encrypt under a valid key pair up to reduction modulo n:
   * the text comes back with every code point taken modulo n.
   */
  lemma DecryptEncrypt(p: int, q: int, kp: KeyPair, text: Text)
    requires ValidKeyPair(p, q, kp)
    ensures p * q > 0
    ensures Encrypt(kp.public, text).Success?
    ensures Decrypt(kp.private, Encrypt(kp.public, text).value)
              == Success(seq(|text|, i requires 0 <= i < |text| => (text[i] % (p * q)) as CodePoint))
  {
    DecryptedResidues(p, q, kp, text);
    var n := p * q;
    var c := Encrypt(kp.public, text).value;
    var key := kp.private;
    assert key.modulus == n && key.exp >= 0;
    var want := seq(|text|, i requires 0 <= i < |text| => (text[i] % n) as CodePoint);
    if |text| == 0 {
      assert want == [];
    } else {
      var v := DecryptedValues(key, c);
      assert forall i :: 0 <= i < |v| ==> IsCodePoint(v[i]);
      var back := seq(|v|, i requires 0 <= i < |v| => v[i] as CodePoint);
      assert Decrypt(key, c) == Success(back);
      assert back == want;
    }
  }

  /**
   * The RSA round trip: under a key pair generate_keypair can produce, a text
   * whose code points are all below n decrypts back to itself.
   */
  lemma RoundTrip(p: int, q: int, kp: KeyPair, text: Text)
    requires ValidKeyPair(p, q, kp)
    requires forall i :: 0 <= i < |text| ==> text[i] < p * q
    ensures Encrypt(kp.public, text).Success?
    ensures Decrypt(kp.private, Encrypt(kp.public, text).value) == Success(text)
  {
    DecryptEncrypt(p, q, kp, text);
    var n := p * q;
    var want := seq(|text|, i requires 0 <= i < |text| => (text[i] % n) as CodePoint);
    forall i | 0 <= i < |text|
      ensures want[i] == text[i]
    {
      ModUnique(text[i], n, 0, text[i]);
    }
    assert want == text;
  }
}
