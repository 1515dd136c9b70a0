/**
 * rsa_utils.py repeats the six functions of rsa_lib.py statement for
 * statement (only comments and the layout of encrypt/decrypt differ).  Each
 * member here runs the Rsa model of the same function and carries the same
 * contract, so both files are held to one specification; the codec functions
 * are moreover equal to Rsa's on every input, and the key pair is the only
 * one that contract allows.
 */
module RsaUtils {
  import opened Wrappers
  import opened NumberTheory
  import Rsa

  method IsPrime(num: int) returns (r: bool)
    ensures r == IsPrimeSpec(num)
    ensures num < 2 ==> !r
  {
    r := Rsa.IsPrime(num);
  }

  method Gcd(a: nat, b: nat) returns (g: nat)
    ensures g == GcdF(a, b)
    ensures b == 0 ==> g == a
    ensures g == 0 <==> a == 0 && b == 0
    ensures a > 0 || b > 0 ==> Divides(g, a) && Divides(g, b)
    ensures forall d :: Divides(d, a) && Divides(d, b) ==> Divides(d, g)
  {
    g := Rsa.Gcd(a, b);
  }

  method ModInverse(e: nat, phi: nat) returns (r: Option<int>)
    ensures phi == 1 ==> r == Some(0)
    ensures phi != 1 && e <= 1 ==> r == Some(1)
    ensures phi != 1 && e >= 2 ==> (r == None <==> GcdF(e, phi) != 1)
    ensures phi > 1 && GcdF(e, phi) == 1 ==>
              r.Some? && 0 <= r.value < phi && (e * r.value) % phi == 1
  {
    r := Rsa.ModInverse(e, phi);
  }

  method GenerateKeypair(p: int, q: int) returns (r: Result<Rsa.KeyPair, Rsa.KeyError>)
    requires !(p == 2 && q == 3) && !(p == 3 && q == 2)
    ensures r == Failure(Rsa.NotPrime) <==> !(IsPrimeSpec(p) && IsPrimeSpec(q))
    ensures r == Failure(Rsa.EqualPrimes) <==> IsPrimeSpec(p) && IsPrimeSpec(q) && p == q
    ensures r.Success? <==> IsPrimeSpec(p) && IsPrimeSpec(q) && p != q
    ensures r.Success? ==> Rsa.ValidKeyPair(p, q, r.value)
    ensures r.Success? ==>
              Rsa.Totient(p, q) >= 4 && Rsa.Totient(p, q) % 2 == 0 &&
              r.value.public.exp == Rsa.ExponentSearch(Rsa.DefaultExponent, Rsa.Totient(p, q))
  {
    r := Rsa.GenerateKeypair(p, q);
  }

  /**
   * The contract of generate_keypair determines its result: two valid key
   * pairs for the same primes with the same public exponent are equal, so
   * both files' generate_keypair return the same keys.
   */
  lemma KeyPairDetermined(p: int, q: int, kp1: Rsa.KeyPair, kp2: Rsa.KeyPair)
    requires Rsa.ValidKeyPair(p, q, kp1) && Rsa.ValidKeyPair(p, q, kp2)
    requires kp1.public.exp == kp2.public.exp
    ensures kp1 == kp2
  {
    var phi := Rsa.Totient(p, q);
    Rsa.InverseUnique(kp1.public.exp, phi, kp1.private.exp, kp2.private.exp);
  }

  function Encrypt(key: Rsa.Key, text: Rsa.Text): (r: Result<seq<int>, Rsa.CodecError>)
    ensures r == Rsa.Encrypt(key, text)
    ensures r.Success? ==> |r.value| == |text|
  {
    if |text| == 0 then Success([])
    else if key.modulus == 0 then Failure(Rsa.ZeroModulus)
    else if key.exp < 0 then Failure(Rsa.NegativeExponent)
    else Success(seq(|text|, i requires 0 <= i < |text| => Rsa.ModPow(text[i], key.exp, key.modulus)))
  }

  function Decrypt(key: Rsa.Key, cipher: seq<int>): (r: Result<Rsa.Text, Rsa.CodecError>)
    ensures r == Rsa.Decrypt(key, cipher)
    ensures r.Success? ==> |r.value| == |cipher|
  {
    if |cipher| == 0 then Success([])
    else if key.modulus == 0 then Failure(Rsa.ZeroModulus)
    else if key.exp < 0 then Failure(Rsa.NegativeExponent)
    else
      var v := seq(|cipher|, i requires 0 <= i < |cipher| => Rsa.ModPow(cipher[i], key.exp, key.modulus));
      if forall i :: 0 <= i < |v| ==> Rsa.IsCodePoint(v[i])
      then Success(seq(|v|, i requires 0 <= i < |v| => v[i] as Rsa.CodePoint))
      else Failure(Rsa.NotACodePoint)
  }

  /** The round trip holds for this file's codec as well. */
  lemma RoundTrip(p: int, q: int, kp: Rsa.KeyPair, text: Rsa.Text)
    requires Rsa.ValidKeyPair(p, q, kp)
    requires forall i :: 0 <= i < |text| ==> text[i] < p * q
    ensures Encrypt(kp.public, text).Success?
    ensures Decrypt(kp.private, Encrypt(kp.public, text).value) == Success(text)
  {
    Rsa.RoundTrip(p, q, kp, text);
  }
}
