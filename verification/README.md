# Textbook RSA chat between two peers — a Dafny model

The repository runs two chat peers, Alice (`app1.py`) and Bob (`app2.py`).
Each peer derives a textbook RSA key pair from two small primes, using
`rsa_lib.py` (`rsa_utils.py` is a copy of it). The peers then swap public
keys over HTTP and exchange messages. A message is sent as the list of its
characters' code points, each raised to the receiver's public exponent modulo n.

This project models two things:

- The RSA engine:
  - trial-division primality and Euclid's gcd
  - the extended-Euclid modular inverse
  - the key-pair derivation with its cyclic search for a public exponent
  - the per-character codec
- The session protocol of a peer:
  - the stored peer key and the "key received" flag
  - the `/key` and `/msg` handlers
  - the bounded retry of the key send and the gated message send
  - the start-up sequence of the chat

Modules and files:

- `wrappers.dfy`: `Option` and `Result`. Each exception the Python code raises becomes an error value.
- `number_theory.dfy` (`NumberTheory`): the mathematics behind the codec.
  - divisibility, gcd, Bezout coefficients and primality as a predicate
  - Euclid's lemma, powers and the binomial theorem
  - Fermat's little theorem and the Chinese-remainder argument
  - together these give `RsaExponentIdentity`: m^(e·d) ≡ m (mod pq) for every m < pq.
- `rsa_lib.dfy` (`Rsa`): the six functions of `rsa_lib.py`.
  - The loop-based functions (`is_prime`, `gcd`, `mod_inverse`, `generate_keypair`) are methods with loop invariants.
  - `encrypt` and `decrypt` are functions.
  - The round trip is proved for every key pair `generate_keypair` can return.
- `rsa_utils.dfy` (`RsaUtils`): the same six functions, as found in `rsa_utils.py`.
  - The methods run the `Rsa` code and carry the same contracts.
  - The codec functions are written out again and proved equal to `Rsa`'s.
- `peer_session.dfy` (`PeerSession`): the state and handlers shared by both apps.
  - `class Session` holds the peer key and the flag.
  - Each handler is one atomic step.
  - What the network answers to each request is an input.
  - `app2.py` repeats the handlers of `app1.py` line for line: `receive_key_route` at app2.py:46-59, `receive_msg_route` at 62-76, `send_key_to_peer` at 86-109, `send_msg_to_peer` at 111-127 and `start_chat_interface` at 129-158. The same `PeerSession` members model both files; the table cites the `app1.py` lines.
- `app1.dfy` (`App1`) and `app2.dfy` (`App2`): the two peers' configurations. Their key pairs are worked out exactly:
  - (61, 53) gives public key (19, 3233) and private key (2299, 3233).
  - (67, 71) gives public key (859, 4757) and private key (199, 4757).
- `conversation.dfy` (`Conversation`): both peers side by side. After the key exchange, a line one peer sends is delivered to the other unchanged.

Two behaviours of the code are worth stating up front:

- `decrypt` does not check that a cipher value lies in [0, n): `pow` reduces any integer. `Rsa.Decrypt` therefore fails only for a zero modulus, a negative exponent or a value `chr` rejects. `Rsa.SmallModulusAlwaysDecodes` shows that with 0 < n ≤ 0x110000, which holds for both peers, decryption never fails at all.
- For p = 2, q = 3 the totient is 2 and the exponent search of `generate_keypair` never returns: every step lands on 3, which is not below 2. `Rsa.SearchNeverEndsForTwoAndThree` states this, and `Rsa.GenerateKeypair` requires that pair not to be passed. For every other pair of distinct primes the totient is even and at least 4, and the search stops.

## Model

| member | source | states |
|---|---|---|
| Rsa.IsPrime | rsa_lib.py:4-11 | false below 2; otherwise true exactly when no i with 2 ≤ i and i·i ≤ num divides num |
| Rsa.Gcd | rsa_lib.py:14-17 | terminates with a common divisor of a and b that every common divisor divides; gcd(a, 0) = a; zero only for (0, 0) |
| Rsa.ModInverse | rsa_lib.py:21-31 | 0 when phi = 1; 1 when e ≤ 1; for e ≥ 2 a ZeroDivisionError exactly when gcd(e, phi) ≠ 1; for coprime e and phi > 1, the x in [0, phi) with e·x ≡ 1 (mod phi) |
| Rsa.ExtendedEuclidStep | rsa_lib.py:25-28 | one loop iteration keeps the gcd, the congruences x1·e ≡ a and x0·e ≡ b (mod m0), opposite signs of the coefficients, and \|x1\|·b + \|x0\|·a = m0 |
| Rsa.ExtendedEuclidFinish | rsa_lib.py:29-31 | when the loop stops, the shifted coefficient is 1 for e ≤ 1 and the inverse for coprime arguments; for e ≥ 2 a normal exit means gcd(e, m0) = 1 |
| Rsa.ShiftedInverse | rsa_lib.py:29-30 | a coefficient with x·e ≡ 1 (mod m) and \|x\| ≤ m, moved into [0, m) by adding m when negative, is the inverse in [0, m) |
| Rsa.Totient | rsa_lib.py:41 | (p-1)(q-1) is at least 1 when p, q ≥ 2 |
| Rsa.TotientOfDistinctPrimes | rsa_lib.py:40-41 | for distinct primes other than {2, 3} the totient is even and at least 4 |
| Rsa.NextCandidate | rsa_lib.py:46-48 | the next candidate is at least 2, and it is 3 or below phi; it is e + 2 when that is in [2, phi) |
| Rsa.ConsecutiveCoprime | rsa_lib.py:45 | phi - 1 is coprime to phi, so the search stops at phi - 1 at the latest |
| Rsa.SearchStep | rsa_lib.py:45-48 | from an odd candidate ≥ 3 the step gives an odd candidate in [3, phi), and goes up by exactly 2 once below phi |
| Rsa.ExponentSearch | rsa_lib.py:45-48 | for an even phi ≥ 4 the search from an odd start ends at an odd e in [3, phi) with gcd(e, phi) = 1; a start that already qualifies is kept |
| Rsa.SearchNeverEndsForTwoAndThree | rsa_lib.py:45-48 | for (2, 3) the totient is 2; every step lands on 3, which still satisfies the loop condition |
| Rsa.GenerateKeypair | rsa_lib.py:34-53 | NotPrime exactly when p or q is not prime; EqualPrimes exactly for equal primes; otherwise n = p·q in both keys, 2 ≤ e < phi, gcd(e, phi) = 1, d in [0, phi) with e·d ≡ 1 (mod phi), and e is where the search from 65537 stops |
| Rsa.FloorMod | rsa_lib.py:59 | Python's % for a nonzero modulus: m divides x minus the result, which is in [0, m) for m > 0 and in (m, 0] for m < 0 |
| Rsa.ModPow | rsa_lib.py:59 | pow(b, k, m) is b^k mod m, in [0, m) for m > 0 and in (m, 0] for m < 0 |
| Rsa.Encrypt | rsa_lib.py:57-60 | the empty text encrypts to [] under any key; otherwise fails exactly for n = 0 or a negative exponent; on success the result has the text's length, element i is ord(text[i])^e mod n, and every element is in [0, n) for n > 0 |
| Rsa.DecryptedValues | rsa_lib.py:66 | one value per cipher element, in order: c[i]^d mod n |
| Rsa.Decrypt | rsa_lib.py:64-67 | the empty cipher decrypts to ""; otherwise pow's errors as in encrypt, then failure exactly when some c[i]^d mod n is not a code point; on success, the same length with code point i equal to c[i]^d mod n |
| Rsa.SmallModulusAlwaysDecodes | rsa_lib.py:64-67 | with 0 < n ≤ 0x110000 and d ≥ 0, decrypt succeeds on every cipher and keeps its length |
| Rsa.InverseUnique | rsa_lib.py:50 | the inverse of e modulo phi in [0, phi) is unique, so d is determined by e |
| Rsa.CharRoundTrip | rsa_lib.py:57-67 | under a valid key pair, a code point m encrypted and decrypted comes back as m mod n |
| Rsa.DecryptedResidues | rsa_lib.py:57-67 | under a valid key pair, encryption succeeds, and decrypting the cipher yields each code point mod n, which is at most the code point |
| Rsa.DecryptEncrypt | rsa_lib.py:57-67 | under a valid key pair, decrypt(private, encrypt(public, s)) is s with every code point reduced mod n |
| Rsa.RoundTrip | rsa_lib.py:50-67 | under a key pair generate_keypair can return, a text whose code points are all below n decrypts back to itself |
| NumberTheory.RsaExponentIdentity | rsa_lib.py:64-67 | for distinct primes p, q and e·d ≡ 1 (mod (p-1)(q-1)), m^(e·d) mod pq = m for every m < pq (Fermat plus the Chinese remainder theorem) |
| RsaUtils.IsPrime | rsa_utils.py:3-9 | same contract as Rsa.IsPrime: false below 2, otherwise no divisor i with i·i ≤ num |
| RsaUtils.Gcd | rsa_utils.py:11-14 | same contract as Rsa.Gcd: a common divisor of a and b that every common divisor divides; gcd(a, 0) = a; zero only for (0, 0) |
| RsaUtils.ModInverse | rsa_utils.py:16-26 | same contract as Rsa.ModInverse: 0 for phi = 1; for coprime e and phi > 1, the inverse in [0, phi) |
| RsaUtils.GenerateKeypair | rsa_utils.py:28-43 | same contract as Rsa.GenerateKeypair: non-primes and p = q are rejected; otherwise a valid key pair with the searched exponent |
| RsaUtils.KeyPairDetermined | rsa_utils.py:28-43 | two valid key pairs for the same primes and public exponent are equal, so both files' generate_keypair return the same keys |
| RsaUtils.Encrypt | rsa_utils.py:45-47 | equal to Rsa.Encrypt on every input; success keeps the length |
| RsaUtils.Decrypt | rsa_utils.py:49-51 | equal to Rsa.Decrypt on every input; success keeps the length |
| RsaUtils.RoundTrip | rsa_utils.py:45-51 | the round trip for code points below n holds for this file's codec |
| PeerSession.LastKeyIsLastWellFormed | app1.py:54-61 | last write wins: when payload i is well formed and every later payload is malformed, the stored key is payload i's (e, n) |
| PeerSession.LastKeyOfMalformed | app1.py:62-66 | malformed payloads store nothing: a sequence of malformed payloads leaves no key |
| PeerSession.ArrivalStep | app1.py:57-58 | one more arrival makes the stored key that payload's key, or keeps it for a malformed payload |
| PeerSession.SendKey | app1.py:101-129 | 1 to 5 attempts, all but the last retryable; true exactly when the last attempt got status 200, which happens exactly when some attempt within 5 gets 200 after only retryable ones; false after another exception or 5 retryable attempts; 3 seconds of delay per connection error |
| PeerSession.QuitIsSairInAnyCase | app1.py:185 | a typed line ends the chat exactly when it has four characters that are s/S, a/A, i/I and r/R in that order |
| PeerSession.Session.constructor | app1.py:33-34 | a peer starts with its key pair, no peer key and the flag clear |
| PeerSession.Session.ReceiveKey | app1.py:49-66 | a payload with e and n stores that key (the last key wins) and sets the flag; a malformed payload is rejected with key and flag unchanged; the flag is never cleared, and flag ⇔ key present is kept |
| PeerSession.Session.ReceiveMessage | app1.py:69-87 | no peer key means NoPeerKey and no decryption; otherwise a malformed payload or a failed decrypt under the own private key means DecryptFailed; a delivered text is exactly what decrypt returns |
| PeerSession.Session.SendMessage | app1.py:131-151 | NotReady exactly while the flag is unset; otherwise encrypt under the stored peer key; EncryptFailed exactly when that fails; a posted cipher is that encryption; connection errors and other errors are reported apart |
| PeerSession.Session.Run | app1.py:153-189 | the session ends at a failed key send, with state untouched; otherwise the arrivals are taken in (last key wins), and it times out exactly when the flag is still unset; otherwise each line before the first 'sair' is sent in order with the flag set, ending at 'sair' or at the end of input |
| App1.PrimesOfAlice | app1.py:25-26 | 61 and 53 are prime |
| App1.ExponentOfAlice | app1.py:29 | the totient is 3120, and the search from 65537 stops at 19 |
| App1.StartupKeys | app1.py:25-29 | generate_keypair(61, 53) returns ((19, 3233), (2299, 3233)), a valid key pair |
| App1.Start | app1.py:29-34 | Alice starts with that key pair, no peer key and the flag clear |
| App2.PrimesOfBob | app2.py:25-26 | 67 and 71 are prime |
| App2.ExponentOfBob | app2.py:29 | the totient is 4620, and the search from 65537 stops at 859 |
| App2.StartupKeys | app2.py:25-29 | generate_keypair(67, 71) returns ((859, 4757), (199, 4757)), a valid key pair |
| App2.Start | app2.py:29-34 | Bob starts with that key pair, no peer key and the flag clear |
| Conversation.BobToAlice | app1.py:77-82 | after the key exchange, a text Bob sends is posted with one value per character, and Alice's /msg route delivers exactly that text when all code points are below 3233 |
| Conversation.AliceToBob | app2.py:66-71 | after the key exchange, a text Alice sends is posted, and Bob's /msg route delivers exactly that text when all code points are below 4757 |

## Left out

- HTTP plumbing is not modelled:
  - Flask routing, `jsonify` and the status codes of the replies;
  - `request.json` parsing;
  - `requests.post` and its 5-second timeout.
- A key payload is `Some((e, n))` when both fields are present, and `None` otherwise. Payloads whose fields are not integers are not modelled.
- A `/msg` payload is `Some(list of integers)`, or `None` for any other JSON value; `None` is answered like a decryption error. That is not exact for every JSON value, because `decrypt` iterates whatever `request.json` holds: an empty object `{}` or an empty string `""` decrypts to the empty text and gets a 200 reply, and a list of booleans decodes because `pow(True, d, n)` is defined. These cases are not modelled.
- Each outbound request's result is an input: a status code, a `ConnectionError`, or another exception.
- Threads are not modelled. The listener runs concurrently with the chat loop in the source; here each handler is one atomic step.
  - The moment between assigning `peer_public_key` and setting the event is not observable. That is why `Session.Valid` can state "flag set exactly when a key is stored".
  - Keys that arrive while the message loop runs are modelled by calling `ReceiveKey` between sends, not inside `Run`.
- The 30-second `Event.wait` is modelled by taking in the key payloads that arrive during the wait, then reading the flag. No clock is modelled.
- `time.sleep` is not executed; `SendKey` adds up the seconds it would sleep.
- `log_message`, file writes, `print` and `input` are I/O and are not modelled. The end of input, where `input` raises `EOFError`, is the `InputClosed` end.
- A failing `log_message` is not modelled. In the source it can turn a stored key into a 400 reply, or a sent key into a `False` return.
- `external_webhook` in both apps and `webhook.py` are not part of this model. They only log messages or forward to `encrypt`/`decrypt`.
- `math.sqrt` is a float in the source. The model bounds trial division by i·i ≤ num, which can differ from `int(math.sqrt(num))` only for numbers beyond double precision.
- Characters are Unicode code points (values `chr` accepts). No string encoding is modelled.
- Rsa.Encrypt: a negative exponent is an error here. Python 3.8+ `pow` instead computes a modular inverse power when the base is invertible. Keys from `generate_keypair` never have a negative exponent.
- Rsa.Decrypt: a negative exponent is an error, as for `Rsa.Encrypt`.
- Rsa.GenerateKeypair: requires that (p, q) is not (2, 3) or (3, 2). For that pair the source loops forever; see `Rsa.SearchNeverEndsForTwoAndThree`.
- PeerSession.SendKey: requires one transport outcome per possible attempt (five). Outcomes after the last attempt are ignored.
- PeerSession.Session.Run: requires one transport outcome for each typed line. Lines after the first 'sair' are ignored.
- Encrypt and decrypt failures in `send_msg_to_peer` and `receive_msg_route` are caught by their generic `except` branches. They are reported as `EncryptFailed` and `DecryptFailed`; the text of the exception is not modelled.
