/**
 * Alice (app1.py) and Bob (app2.py) running side by side: each one's /key
 * route takes in the other's public key, then a line one of them types goes
 * through send_msg_to_peer on one side and receive_msg_route on the other.
 */
module Conversation {
  import opened Wrappers
  import Rsa
  import PeerSession
  import App1
  import App2

  /** The key payload a peer's send_key_to_peer posts: its public (e, n). */
  function KeyPayloadOf(s: PeerSession.Session): PeerSession.KeyPayload
    reads s
  {
    Some((s.keys.public.exp, s.keys.public.modulus))
  }

  /**
   * After the key exchange, a text Bob sends is posted and Alice's /msg route
   * delivers exactly that text, provided its code points are below Alice's
   * modulus 3233.
   */
  method BobToAlice(text: Rsa.Text) returns (sent: PeerSession.SendOutcome, reply: PeerSession.MsgReply)
    requires forall i :: 0 <= i < |text| ==> text[i] < 3233
    ensures sent.Posted? && |sent.cipher| == |text|
    ensures reply == PeerSession.Delivered(text)
  {
    var alice := App1.Start();
    var bob := App2.Start();
    var _ := alice.ReceiveKey(KeyPayloadOf(bob));
    var _ := bob.ReceiveKey(KeyPayloadOf(alice));
    App1.PrimesOfAlice();
    var aliceKeys := alice.keys;
    assert Rsa.ValidKeyPair(App1.P, App1.Q, aliceKeys) by {
      App1.ExponentOfAlice();
    }
    Rsa.RoundTrip(App1.P, App1.Q, aliceKeys, text);
    sent := bob.SendMessage(text, PeerSession.Response(200));
    reply := alice.ReceiveMessage(Some(sent.cipher));
  }

  /**
   * After the key exchange, a text Alice sends is posted and Bob's /msg route
   * delivers exactly that text, provided its code points are below Bob's
   * modulus 4757.
   */
  method AliceToBob(text: Rsa.Text) returns (sent: PeerSession.SendOutcome, reply: PeerSession.MsgReply)
    requires forall i :: 0 <= i < |text| ==> text[i] < 4757
    ensures sent.Posted? && |sent.cipher| == |text|
    ensures reply == PeerSession.Delivered(text)
  {
    var alice := App1.Start();
    var bob := App2.Start();
    var _ := alice.ReceiveKey(KeyPayloadOf(bob));
    var _ := bob.ReceiveKey(KeyPayloadOf(alice));
    App2.PrimesOfBob();
    var bobKeys := bob.keys;
    assert Rsa.ValidKeyPair(App2.P, App2.Q, bobKeys) by {
      App2.ExponentOfBob();
    }
    Rsa.RoundTrip(App2.P, App2.Q, bobKeys, text);
    sent := alice.SendMessage(text, PeerSession.Response(200));
    reply := bob.ReceiveMessage(Some(sent.cipher));
  }
}
