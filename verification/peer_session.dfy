/**
 * The peer session of app1.py and app2.py with the HTTP plumbing taken away:
 * the stored public key of the peer and the "key received" flag, the handlers
 * for an inbound key and an inbound message, the two outbound sends, and the
 * start-up sequence of the chat (send our key, wait for the peer's, read lines).
 *
 * Each handler is one atomic step.  What the network answers to each outbound
 * request is an input (a Transport value per request), and so are the key
 * payloads that arrive while the chat waits and the lines the user types.
 */
module PeerSession {
  import opened Wrappers
  import Rsa

  /** Attempts send_key_to_peer makes. */
  const MaxRetries: nat := 5

  /** Seconds send_key_to_peer sleeps after a connection error. */
  const RetryDelay: nat := 3

  /** What one outbound HTTP request ends in: a response, a ConnectionError, or another exception. */
  datatype Transport = Response(status: int) | ConnError | OtherError

  /** A key payload as the /key route reads it: Some((e, n)) when both fields are present. */
  type KeyPayload = Option<(int, int)>

  /** The answers of the /key route: 200 "key received" or 400. */
  datatype KeyReply = KeyStored | KeyRejected

  /** The answers of the /msg route: no peer key yet (400), the decrypted text (200), or a decryption error (400). */
  datatype MsgReply = NoPeerKey | Delivered(text: Rsa.Text) | DecryptFailed

  /** What send_msg_to_peer ends in. */
  datatype SendOutcome =
    | NotReady                // the flag is not set: nothing is encrypted or sent
    | Posted(cipher: seq<int>) // the ciphertext was posted (whatever the status)
    | EncryptFailed           // encrypt raised; handled by the generic except branch
    | ConnectionFailed        // the post raised a ConnectionError
    | SendFailed              // the post raised another exception

  /** How start_chat_interface ends. */
  datatype SessionEnd =
    | KeySendFailed    // send_key_to_peer returned False
    | HandshakeTimeout // the wait for the peer's key timed out
    | UserQuit         // the user typed 'sair' in any letter case
    | InputClosed      // input() raised EOFError

  /** The key a well-formed payload carries. */
  function PayloadKey(payload: (int, int)): Rsa.Key
  {
    Rsa.Key(payload.0, payload.1)
  }

  /**
   * The key of the last well-formed payload in a sequence of arrivals, if any:
   * later keys overwrite earlier ones and malformed payloads change nothing.
   */
  function LastKey(arrivals: seq<KeyPayload>): Option<Rsa.Key>
  {
    if |arrivals| == 0 then None
    else if arrivals[|arrivals| - 1].Some? then Some(PayloadKey(arrivals[|arrivals| - 1].value))
    else LastKey(arrivals[..|arrivals| - 1])
  }

  /** When arrival i is well formed and every later one is not, the stored key is arrival i's key. */
  lemma {:induction false} LastKeyIsLastWellFormed(arrivals: seq<KeyPayload>, i: nat)
    requires i < |arrivals| && arrivals[i].Some?
    requires forall j :: i < j < |arrivals| ==> arrivals[j].None?
    ensures LastKey(arrivals) == Some(PayloadKey(arrivals[i].value))
    decreases |arrivals|
  {
    var n := |arrivals| - 1;
    if i < n {
      var init := arrivals[..n];
      assert forall j :: 0 <= j < n ==> init[j] == arrivals[j];
      LastKeyIsLastWellFormed(init, i);
    }
  }

  /** When no arrival is well formed, no key is stored by them. */
  lemma {:induction false} LastKeyOfMalformed(arrivals: seq<KeyPayload>)
    requires forall j :: 0 <= j < |arrivals| ==> arrivals[j].None?
    ensures LastKey(arrivals) == None
    decreases |arrivals|
  {
    if |arrivals| > 0 {
      var init := arrivals[..|arrivals| - 1];
      assert forall j :: 0 <= j < |init| ==> init[j] == arrivals[j];
      LastKeyOfMalformed(init);
    }
  }

  /** The stored key after a sequence of arrivals, starting from current. */
  function KeyAfter(current: Option<Rsa.Key>, arrivals: seq<KeyPayload>): Option<Rsa.Key>
  {
    if LastKey(arrivals).Some? then LastKey(arrivals) else current
  }

  /** A request worth repeating: a connection error or a status other than 200. */
  predicate Retryable(o: Transport)
  {
    o.ConnError? || (o.Response? && o.status != 200)
  }

  /** The number of connection errors in a sequence of outcomes (each one costs a sleep). */
  function ConnErrors(os: seq<Transport>): (c: nat)
    ensures c <= |os|
  {
    if |os| == 0 then 0
    else ConnErrors(os[..|os| - 1]) + (if os[|os| - 1].ConnError? then 1 else 0)
  }

  /** Sending the key succeeds: some attempt within the limit gets status 200 and every earlier one is retryable. */
  predicate KeySendSucceeds(outcomes: seq<Transport>)
  {
    exists i :: 0 <= i < MaxRetries && i < |outcomes| && outcomes[i] == Response(200) &&
      forall j :: 0 <= j < i ==> Retryable(outcomes[j])
  }

  /**
   * send_key_to_peer: posts the public key up to MaxRetries times, stopping with
   * true at the first status 200 and with false at the first exception other
   * than a connection error.  A connection error sleeps RetryDelay seconds (the
   * last one too); a non-200 status goes straight on.  outcomes[i] is what the
   * i-th post ends in; attempts and delay count the posts and the seconds slept.
   */
  method SendKey(outcomes: seq<Transport>) returns (sent: bool, attempts: nat, delay: nat)
    requires |outcomes| >= MaxRetries
    ensures 1 <= attempts <= MaxRetries
    ensures forall j :: 0 <= j < attempts - 1 ==> Retryable(outcomes[j])
    ensures sent <==> outcomes[attempts - 1] == Response(200)
    ensures !sent ==> outcomes[attempts - 1].OtherError? || (attempts == MaxRetries && Retryable(outcomes[attempts - 1]))
    ensures sent == KeySendSucceeds(outcomes)
    ensures delay == RetryDelay * ConnErrors(outcomes[..attempts])
  {
    attempts, delay := 0, 0;
    while attempts < MaxRetries
      invariant attempts <= MaxRetries
      invariant forall j :: 0 <= j < attempts ==> Retryable(outcomes[j])
      invariant delay == RetryDelay * ConnErrors(outcomes[..attempts])
    {
      var o := outcomes[attempts];
      assert outcomes[..attempts + 1][..attempts] == outcomes[..attempts];
      attempts := attempts + 1;
      match o
      case Response(status) =>
        if status == 200 {
          return true, attempts, delay;
        }
      case ConnError =>
        delay := delay + RetryDelay;
      case OtherError =>
        return false, attempts, delay;
    }
    return false, attempts, delay;
  }

  /** 'sair' in any letter case: what message.lower() == 'sair' accepts. */
  predicate IsQuit(line: Rsa.Text)
  {
    |line| == 4 &&
    AsciiLower(line[0]) == 's' as int && AsciiLower(line[1]) == 'a' as int &&
    AsciiLower(line[2]) == 'i' as int && AsciiLower(line[3]) == 'r' as int
  }

  /** Lower-casing of a code point as far as it matters for 'sair': A-Z to a-z. */
  function AsciiLower(c: int): int
  {
    if 'A' as int <= c <= 'Z' as int then c + 32 else c
  }

  /** The quit test accepts 'sair' in every mix of letter cases and nothing else. */
  lemma QuitIsSairInAnyCase(line: Rsa.Text)
    ensures IsQuit(line) <==>
              |line| == 4 &&
              line[0] in {'s' as int, 'S' as int} && line[1] in {'a' as int, 'A' as int} &&
              line[2] in {'i' as int, 'I' as int} && line[3] in {'r' as int, 'R' as int}
  {
  }

  /**
   * The state one running peer (Alice in app1.py, Bob in app2.py) shares between
   * its listener and its chat loop: its own key pair, the peer's public key and
   * the flag that says the peer's key has arrived.
   */
  class Session {
    const keys: Rsa.KeyPair
    var peerKey: Option<Rsa.Key>
    var keyReceived: bool

    /** The key is assigned just before the flag is set, and neither is ever cleared. */
    ghost predicate Valid()
      reads this
    {
      keyReceived <==> peerKey.Some?
    }

    /** A fresh peer: its key pair, no peer key, the flag clear. */
    constructor (keys: Rsa.KeyPair)
      ensures this.keys == keys && peerKey == None && !keyReceived
      ensures Valid()
    {
      this.keys := keys;
      peerKey := None;
      keyReceived := false;
    }

    /**
     * receive_key_route: a payload with e and n replaces the stored peer key
     * (the last key wins) and sets the flag; a malformed one changes nothing
     * and is answered with an error.
     */
    method ReceiveKey(payload: KeyPayload) returns (reply: KeyReply)
      requires Valid()
      modifies this
      ensures Valid()
      ensures payload.Some? ==> reply == KeyStored && peerKey == Some(PayloadKey(payload.value)) && keyReceived
      ensures payload.None? ==> reply == KeyRejected && peerKey == old(peerKey) && keyReceived == old(keyReceived)
      ensures old(keyReceived) ==> keyReceived
    {
      if payload.None? {
        return KeyRejected;
      }
      peerKey := Some(PayloadKey(payload.value));
      keyReceived := true;
      reply := KeyStored;
    }

    /**
     * receive_msg_route: without a stored peer key the message is refused and
     * never decrypted; otherwise it is decrypted with this peer's own private
     * key, and a malformed payload or a decryption error gets its own answer.
     */
    function ReceiveMessage(payload: Option<seq<int>>): (reply: MsgReply)
      reads this
      ensures peerKey.None? <==> reply == NoPeerKey
      ensures reply.Delivered? ==> payload.Some? && Rsa.Decrypt(keys.private, payload.value) == Success(reply.text)
      ensures peerKey.Some? ==>
                (reply == DecryptFailed <==> payload.None? || Rsa.Decrypt(keys.private, payload.value).Failure?)
    {
      if peerKey.None? then NoPeerKey
      else if payload.None? then DecryptFailed
      else
        match Rsa.Decrypt(keys.private, payload.value)
        case Success(text) => Delivered(text)
        case Failure(_) => DecryptFailed
    }

    /**
     * send_msg_to_peer: nothing happens until the flag is set; then the text is
     * encrypted under the peer key stored last and posted, and the outcome
     * tells an encryption error, a connection error and another error apart.
     */
    function SendMessage(text: Rsa.Text, outcome: Transport): (r: SendOutcome)
      reads this
      ensures !keyReceived <==> r == NotReady
      ensures keyReceived && peerKey.Some? ==>
                (r == EncryptFailed <==> Rsa.Encrypt(peerKey.value, text).Failure?)
      ensures r.Posted? ==>
                peerKey.Some? && outcome.Response? && Rsa.Encrypt(peerKey.value, text) == Success(r.cipher)
      ensures r == ConnectionFailed ==> outcome.ConnError?
      ensures r == SendFailed ==> outcome.OtherError?
    {
      if !keyReceived then NotReady
      else if peerKey.None? then EncryptFailed
      else
        match Rsa.Encrypt(peerKey.value, text)
        case Failure(_) => EncryptFailed
        case Success(cipher) =>
          match outcome
          case Response(_) => Posted(cipher)
          case ConnError => ConnectionFailed
          case OtherError => SendFailed
    }

    /**
     * start_chat_interface: send our key (ending the session if that fails),
     * take in the key payloads that arrive while waiting and give up unless the
     * flag is then set, and otherwise send every typed line until one reads
     * 'sair' or the input ends.  lineOutcomes[i] is what posting line i ends in.
     */
    method Run(sendOutcomes: seq<Transport>, arrivals: seq<KeyPayload>, lines: seq<Rsa.Text>,
               lineOutcomes: seq<Transport>)
      returns (end: SessionEnd, results: seq<SendOutcome>)
      requires Valid() && |sendOutcomes| >= MaxRetries && |lineOutcomes| >= |lines|
      modifies this
      ensures Valid()
      ensures end == KeySendFailed <==> !KeySendSucceeds(sendOutcomes)
      ensures end == KeySendFailed ==> peerKey == old(peerKey) && keyReceived == old(keyReceived)
      ensures end != KeySendFailed ==>
                peerKey == KeyAfter(old(peerKey), arrivals) &&
                keyReceived == (old(keyReceived) || LastKey(arrivals).Some?)
      ensures end == HandshakeTimeout <==> KeySendSucceeds(sendOutcomes) && !keyReceived
      ensures end == KeySendFailed || end == HandshakeTimeout ==> results == []
      ensures end == UserQuit ==> |results| < |lines| && IsQuit(lines[|results|])
      ensures end == InputClosed ==> |results| == |lines|
      ensures end == UserQuit || end == InputClosed ==>
                keyReceived &&
                forall j :: 0 <= j < |results| ==>
                  !IsQuit(lines[j]) && results[j] == SendMessage(lines[j], lineOutcomes[j]) && results[j] != NotReady
    {
      results := [];
      var sent, _, _ := SendKey(sendOutcomes);
      if !sent {
        return KeySendFailed, [];
      }
      var i := 0;
      while i < |arrivals|
        invariant i <= |arrivals|
        invariant Valid()
        invariant peerKey == KeyAfter(old(peerKey), arrivals[..i])
        invariant keyReceived == (old(keyReceived) || LastKey(arrivals[..i]).Some?)
      {
        ArrivalStep(arrivals, i);
        var _ := ReceiveKey(arrivals[i]);
        i := i + 1;
      }
      assert arrivals[..i] == arrivals;
      if !keyReceived {
        return HandshakeTimeout, [];
      }
      var k := 0;
      while true
        invariant k <= |lines| && |results| == k
        invariant forall j :: 0 <= j < k ==>
                    !IsQuit(lines[j]) && results[j] == SendMessage(lines[j], lineOutcomes[j]) && results[j] != NotReady
        decreases |lines| - k
      {
        if k == |lines| {
          return InputClosed, results;
        }
        if IsQuit(lines[k]) {
          return UserQuit, results;
        }
        results := results + [SendMessage(lines[k], lineOutcomes[k])];
        k := k + 1;
      }
    }
  }

  /** Taking in one more arrival moves the stored key to that arrival's key, or keeps it for a malformed one. */
  lemma ArrivalStep(arrivals: seq<KeyPayload>, i: nat)
    requires i < |arrivals|
    ensures arrivals[i].Some? ==> LastKey(arrivals[..i + 1]) == Some(PayloadKey(arrivals[i].value))
    ensures arrivals[i].None? ==> LastKey(arrivals[..i + 1]) == LastKey(arrivals[..i])
  {
    assert arrivals[..i + 1][..i] == arrivals[..i];
  }
}
