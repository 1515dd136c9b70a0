/**
 * Bob's configuration in app2.py: his primes, the key pair he derives from
 * them when the module loads, and his session state before any key arrives.
 */
module App2 {
  import opened NumberTheory
  import Rsa
  import PeerSession

  /** P_BOB and Q_BOB. */
  const P: int := 67
  const Q: int := 71

  /** Both of Bob's numbers are prime. */
  lemma PrimesOfBob()
    ensures IsPrimeSpec(P) && IsPrimeSpec(Q)
  {
    forall i | 2 <= i && i * i <= P
      ensures !Divides(i, P)
    {
      if i >= 9 {
        MulMonotone(9, i);
      }
    }
    forall i | 2 <= i && i * i <= Q
      ensures !Divides(i, Q)
    {
      if i >= 9 {
        MulMonotone(9, i);
      }
    }
  }

  /** From 65537 the exponent search for phi = 66 * 70 = 4620 takes one step, to 859. */
  lemma ExponentOfBob()
    ensures Rsa.Totient(P, Q) == 4620
    ensures Rsa.ExponentSearch(Rsa.DefaultExponent, 4620) == 859
  {
    assert Rsa.KeepSearching(65537, 4620);
    assert Rsa.NextCandidate(65537, 4620) == 859;
    assert GcdF(859, 4620) == 1 by {
      assert GcdF(859, 4620) == GcdF(4620, 859) == GcdF(859, 325) == GcdF(325, 209);
      assert GcdF(325, 209) == GcdF(209, 116) == GcdF(116, 93) == GcdF(93, 23);
      assert GcdF(93, 23) == GcdF(23, 1) == GcdF(1, 0);
    }
    assert !Rsa.KeepSearching(859, 4620);
  }

  /**
   * generate_keypair(67, 71): the public key (859, 4757) and the private key
   * (199, 4757).
   */
  method StartupKeys() returns (kp: Rsa.KeyPair)
    ensures kp == Rsa.KeyPair(Rsa.Key(859, 4757), Rsa.Key(199, 4757))
    ensures Rsa.ValidKeyPair(P, Q, kp)
  {
    PrimesOfBob();
    var r := Rsa.GenerateKeypair(P, Q);
    ExponentOfBob();
    kp := r.value;
    assert (859 * 199) % 4620 == 1;
    Rsa.InverseUnique(859, 4620, kp.private.exp, 199);
  }

  /** Loading app2.py: Bob's key pair, no peer key and the flag clear. */
  method Start() returns (s: PeerSession.Session)
    ensures fresh(s) && s.Valid()
    ensures s.keys == Rsa.KeyPair(Rsa.Key(859, 4757), Rsa.Key(199, 4757))
    ensures s.peerKey.None? && !s.keyReceived
  {
    var kp := StartupKeys();
    s := new PeerSession.Session(kp);
  }
}
