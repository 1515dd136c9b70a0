/**
 * Alice's configuration in app1.py: her primes, the key pair she derives from
 * them when the module loads, and her session state before any key arrives.
 */
module App1 {
  import opened NumberTheory
  import Rsa
  import PeerSession

  /** P_ALICE and Q_ALICE. */
  const P: int := 61
  const Q: int := 53

  /** Both of Alice's numbers are prime. */
  lemma PrimesOfAlice()
    ensures IsPrimeSpec(P) && IsPrimeSpec(Q)
  {
    forall i | 2 <= i && i * i <= P
      ensures !Divides(i, P)
    {
      if i >= 8 {
        MulMonotone(8, i);
      }
    }
    forall i | 2 <= i && i * i <= Q
      ensures !Divides(i, Q)
    {
      if i >= 8 {
        MulMonotone(8, i);
      }
    }
  }

  /** From 65537 the exponent search for phi = 60 * 52 = 3120 takes one step, to 19. */
  lemma ExponentOfAlice()
    ensures Rsa.Totient(P, Q) == 3120
    ensures Rsa.ExponentSearch(Rsa.DefaultExponent, 3120) == 19
  {
    assert Rsa.KeepSearching(65537, 3120);
    assert Rsa.NextCandidate(65537, 3120) == 19;
    assert GcdF(19, 3120) == 1 by {
      assert GcdF(19, 3120) == GcdF(3120, 19) == GcdF(19, 4) == GcdF(4, 3);
      assert GcdF(4, 3) == GcdF(3, 1) == GcdF(1, 0);
    }
    assert !Rsa.KeepSearching(19, 3120);
  }

  /**
   * generate_keypair(61, 53): the public key (19, 3233) and the private key
   * (2299, 3233).
   */
  method StartupKeys() returns (kp: Rsa.KeyPair)
    ensures kp == Rsa.KeyPair(Rsa.Key(19, 3233), Rsa.Key(2299, 3233))
    ensures Rsa.ValidKeyPair(P, Q, kp)
  {
    PrimesOfAlice();
    var r := Rsa.GenerateKeypair(P, Q);
    ExponentOfAlice();
    kp := r.value;
    assert (19 * 2299) % 3120 == 1;
    Rsa.InverseUnique(19, 3120, kp.private.exp, 2299);
  }

  /** Loading app1.py: Alice's key pair, no peer key and the flag clear. */
  method Start() returns (s: PeerSession.Session)
    ensures fresh(s) && s.Valid()
    ensures s.keys == Rsa.KeyPair(Rsa.Key(19, 3233), Rsa.Key(2299, 3233))
    ensures s.peerKey.None? && !s.keyReceived
  {
    var kp := StartupKeys();
    s := new PeerSession.Session(kp);
  }
}
