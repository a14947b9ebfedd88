# VAULTTLS: a verified model

VAULTTLS is a password-authenticated channel shaped like TLS 1.3. A client registers a password with
OPAQUE, later logs in with it, and both sides turn the OPAQUE session key and the hash of the handshake
into record keys. This project models that logic in Dafny and proves what the protocol and its data
formats promise. `dafny verify dfyconfig.toml` checks everything.

## How the model is laid out

| part | files |
|---|---|
| Field and curve arithmetic, OPRF | `PrimeField.dfy`, `Curve.dfy`, `TinyCurve.dfy`, `Oprf.dfy` |
| OPAQUE, all interleavings of sessions, agreement | `Terms.dfy`, `Opaque.dfy`, `Handshake.dfy`, `Agreement.dfy`, `Outsider.dfy`, `Lifecycle.dfy`, `Completeness.dfy` |
| Server authentication by signatures | `ServerAuth.dfy` |
| Key schedule, transcript, record layer, echo loop | `Kdf.dfy`, `Session.dfy`, `Record.dfy`, `RecordKeys.dfy`, `EchoLoop.dfy` |
| Byte formats | `Bytes.dfy`, `Wire.dfy`, `Codec.dfy`, `OpaqueWire.dfy`, `CertChain.dfy`, `ServerConfig.dfy`, `Framing.dfy`, `Hex.dfy` |
| Shared server state | `RateLimit.dfy`, `WindowLimit.dfy`, `Storage.dfy`, `Records.dfy` |

Code that changes state in place is modelled by classes and loops (`Reader`, `Transcript`, `Socket`,
`DirectionState`, `RateLimiter`, `JSONStore`, `ServerKey`, the double-and-add loop, the chain loop, the KE2
cursor, the echo loop). Each is proved against a function of its inputs or of its old state, and the
promises are lemmas about those functions. Code that only computes is modelled by functions.

The main results:

* **Curve and OPRF.** Fermat inverses and the square root are proved from primality; affine addition is the
  chord-and-tangent sum and nothing else, is closed and commutative and gives infinity exactly on inverses;
  double-and-add is k-fold addition, with an exception exactly at infinity; decompression undoes compression
  and leaves the curve exactly when Euler's criterion fails; unblinding removes the blind, and a blinded
  message fits every multiple of the password point equally well.
* **Agreement.** After any list of steps of any number of registrations, logins and server threads, with a
  network that derives and delivers whatever it can: a server that accepts matches exactly one finished
  client with the same exchange and keys, a client that finishes matches exactly one server session, every field
  of KE1 and KE2 arrived between them as it was sent, a session decides once and no nonce is used twice,
  sessions for unknown users never accept, and the keys of a finished client, or of a server session over an
  honest record, cannot be derived. The server's half holds over a record exactly when the record's key is not
  the attacker's own. From every such state a registration can still be made and an honest login still
  succeeds.
* **Server authentication.** If the client accepts a ServerHello, the certified key signed exactly the core
  bytes received, in answer to exactly this ClientHello, or SHA-512 has confused two named strings; and the
  client accepts the answer the server builds exactly while its configuration is fresh.
* **Records.** What a receiver accepts is a prefix of what was sealed, under drops, replays, reordering and
  injection; no key and nonce seal two records over all sessions of any run of the handshake; the echo loop
  answers the k-th plaintext with the k-th record, which opens to its echo, serves an honest client's whole
  stream, and sends nothing after a refused frame but a fatal alert.
* **Formats.** Every decoder accepts exactly the strings that start with an encoding and returns that
  encoding's message; transcripts and HKDF labels are unambiguous; framing survives every way the socket
  cuts the stream, and the frame limit cuts off exactly the longer payloads.
* **Shared state.** The exact length of the interval in which the limiter keeps its maximum when the clock may
  step back; linearizability, no lost update and crash safety of the store; stored records read back byte
  for byte.

## What is assumed

These are written as explicit `requires` clauses or are part of the model, and the code does not establish them.

* `Group(c)`: the field size and the group order are prime, the field size is 3 modulo 4, addition is
  associative, every point times the order is infinity, and no point has y = 0 (the doubling branch at
  opaque_adapter.py:103-105 does not handle one). The P-256 constants are checked for everything that is
  plain arithmetic. `TinyCurve` proves that the hypotheses can be met, and that without the last one doubling
  leaves the curve. The group law and the point encoding follow sections 2.2.1, 2.3.3 and 2.3.4 of SEC 1,
  the OPRF the shape of section 3 of RFC 9497.
* Hashes, HKDF, Argon2id, HMAC, AES-GCM and Diffie-Hellman are free constructors in the handshake. The
  attacker can apply all of them, decrypt with keys it has, and use scalars of its own; it cannot guess a
  password or a scalar, and does no point arithmetic beyond its own scalars. In the OPRF the points are real and
  every received point is an arbitrary string.
* ECDSA is ideal in `ServerAuth`: a signature verifies only for a message the key signed. SHA-512 there is any
  function with 64-byte results.
* The record AEAD is ideal: what opens was sealed under the same key, nonce and associated data.
* Nothing in the protocol authenticates the upload of a record, so the attacker can register a key of its own.
  Server-side agreement therefore needs a record whose client key is an honest scalar;
  `Outsider.AgreementExact` proves that the attacker's keys are exactly those for which it fails, and
  `Outsider.OutsiderRun` gives the failing run from the start. Both are for OPRF keys that the order does not
  divide, as the server draws them, and for any point of the curve. Client-side agreement has no such
  condition. Neither uses the certificate checks: an attacker who gets past those is included.

## Where code and documentation differ

* ratelimit.py:17-18 says an attempt is allowed if the count is at most the maximum; the code at
  ratelimit.py:72 denies when the count before the attempt has reached it. The model follows the code.
* The clock is read before the lock is taken (ratelimit.py:64-66). The maximum is therefore kept only
  in shorter intervals: `WindowLimit.ExactLimit` proves that, when the clock steps back by at most a slack, it is
  kept in every interval of a length exactly when the length is at most the window less the slack, or, for a
  maximum of one, at most the window. `WindowLimit.WindowNeedsSteadyClock` is one run that overfills a window.
* `encrypt` consumes its sequence number before the conversions that may raise (record.py:67-71); the
  contract of `Record.DirectionState.Encrypt` says so.
* `Transcript.add` leaves the label behind when the value does not fit (tls13_kdf.py:90-91); the contract of
  `Kdf.Transcript.Add` says so.
* Decoders ignore bytes after the message (codec.py:132-135), `_unpack_ke2` checks no lengths
  (opaque_adapter.py:308-316), `_scalar_mult` does not ask whether an abscissa is on the curve
  (opaque_adapter.py:115-120), and `send_frame` does not enforce `MAX_FRAME` (transcript.py:23-25). The
  contracts are about strings that start with an encoding, about any string, about any abscissa, and about
  every payload that can be sent: `Framing.FramesArrive` says which of them the receiver refuses.

## Model

| member | source | states |
|---|---|---|
| PrimeField.NoZeroDivisors | opaque_adapter.py:105-107 | modulo a prime a product vanishes only if a factor does: what lets slopes be cancelled |
| PrimeField.Fermat | opaque_adapter.py:105-107 | b^(p-1) is 1 modulo a prime p for every b that p does not divide |
| PrimeField.InverseOf | opaque_adapter.py:105-107 | pow(b, p-2, p) is the inverse of b modulo p, for negative b too |
| PrimeField.InverseRemainder | opaque_adapter.py:172 | blind times pow(blind, n-2, n) leaves remainder 1 modulo the order |
| PrimeField.SquareRoot | opaque_adapter.py:117-118 | for p = 3 mod 4, c^((p+1)/4) squares to c whenever c is a square |
| PrimeField.RootsOfSquare | opaque_adapter.py:118-120 | a square has no roots but y and p - y |
| PrimeField.EulerSign | opaque_adapter.py:117-118 | c^((p-1)/2) is 1 or -1 for every unit c |
| PrimeField.RootOrNegated | opaque_adapter.py:117-118 | c^((p+1)/4) squares to c or to -c, and c^((p-1)/2) tells which |
| CurveArithmetic.AddClosed | opaque_adapter.py:97-110 | the sum of two curve points is a curve point, over any such field |
| CurveArithmetic.AddIsSum | opaque_adapter.py:97-110 | infinity is neutral, and any two other points that are not opposite have exactly one sum on their chord or tangent: the point the code computes |
| CurveArithmetic.AddCommutes | opaque_adapter.py:97-110 | addition is commutative |
| CurveArithmetic.AddInverse | opaque_adapter.py:97-104 | a sum is infinity exactly when one summand is the negative of the other |
| CurveArithmetic.SameAbscissa | opaque_adapter.py:103-104 | two curve points with the same x are equal or opposite, so the None branch is right |
| CurveArithmetic.MultSum | opaque_adapter.py:121-125 | (j + k) times P is j times P plus k times P |
| CurveArithmetic.MultCompose | opaque_adapter.py:151-162 | j times (k times P) is jk times P |
| CurveArithmetic.MultModOrder | opaque_adapter.py:172-173 | multiples of a point depend only on the scalar modulo the order |
| CurveArithmetic.MultInjective | opaque_adapter.py:121-125 | two multiples of a finite point are equal exactly for scalars equal modulo the order |
| CurveArithmetic.MultIsInfinity | opaque_adapter.py:126-127 | k times a point is infinity exactly when the point is or the order divides k |
| CurveArithmetic.UnblindPoint | opaque_adapter.py:172-173 | r^(n-2) mod n times (r times P) is P |
| CurveArithmetic.LadderIsMult | opaque_adapter.py:121-125 | the loop started at (R, Q, k) ends at R plus k times Q |
| CurveArithmetic.LiftPoint | opaque_adapter.py:115-120 | the x-coordinate and parity flag of a curve point lift to that point |
| CurveArithmetic.CompressedBytes | opaque_adapter.py:128-129 | a compressed point is the parity flag and the big-endian abscissa |
| CurveArithmetic.DecompressCompress | opaque_adapter.py:115-129 | decompression undoes compression for every affine curve point |
| CurveArithmetic.CompressDecompress | opaque_adapter.py:115-129 | compression undoes decompression for every 33-byte string with flag 2 or 3 |
| CurveArithmetic.DecompressOnCurve | opaque_adapter.py:115-120 | the point read from any string is on the curve exactly when its abscissa is below p and passes Euler's criterion; otherwise the ordinate squares to the negated right side |
| CurveArithmetic.ScalarMult | opaque_adapter.py:113-129 | the loop returns or raises what the recursive ladder says, for every string and scalar |
| CurveArithmetic.TimesReadsPrefix | opaque_adapter.py:115-116 | only the first 33 bytes of a string count, and only the empty one raises as such |
| CurveArithmetic.TimesIsMult | opaque_adapter.py:113-129 | on an encoded point the result encodes k-fold addition; it raises exactly when the order divides k |
| CurveArithmetic.P256Constants | opaque_adapter.py:86-91 | the constants are 3 mod 4, a is p - 3, and the sizes fit 32 bytes |
| CurveArithmetic.P256Base | opaque_adapter.py:86-91 | the published base point of P-256 lies on the curve of these constants |
| TinyCurve.HypothesesSatisfiable | opaque_adapter.py:97-110 | all hypotheses about the group hold on a concrete curve with chords and tangents, where they are proved |
| TinyCurve.DoublingNeedsOrdinate | opaque_adapter.py:103-105 | a concrete point with y = 0 whose double is off the curve |
| Oprf.BlindIndependence | opaque_adapter.py:151-173 | blind, evaluate and unblind give k times H, whatever the blind; they raise exactly when the order divides blind or key |
| Oprf.UnblindProduct | opaque_adapter.py:165-173 | r^-1 times (k times (r times H)) is k times H |
| Oprf.SameOutput | opaque_adapter.py:165-173 | registration and login obtain the same point under different blinds |
| Oprf.BlindsDiffer | opaque_adapter.py:151-157 | two blinds send the same message exactly when they are equal modulo the order |
| Oprf.BlindHides | opaque_adapter.py:151-157 | a blinded message is also the message for every other multiple of the password point, under exactly one blind modulo the order |
| Oprf.KeysDiffer | opaque_adapter.py:160-173 | different OPRF keys give different results |
| Terms.SharedCommutes | opaque_adapter.py:265-266 | both ends of a Diffie-Hellman exchange hold the same secret |
| Terms.DerivableIsPublic | opaque_adapter.py:235-260 | whatever the attacker derives from public terms is public: no password, no honest scalar, and no key derived from a hidden secret |
| Outsider.OpenedDerivable | opaque_adapter.py:235-260 | with the key the attacker seals envelopes and opens them, and it takes packed messages apart |
| Opaque.OpenSealed | opaque_adapter.py:235-260 | an envelope opens under the password key it was sealed with, to the sealed keys |
| Opaque.OpensOnlySealed | opaque_adapter.py:235-260 | an envelope opens exactly when it was sealed under this password key |
| Opaque.EnvKeySeparates | opaque_adapter.py:165-214 | envelope keys are equal exactly when OPRF result, password and salt are |
| Opaque.RegistrationCompletes | opaque_adapter.py:327-347 | an honest registration never raises and leaves a record |
| Opaque.RegisteredEnvelope | opaque_adapter.py:334-347 | the stored envelope depends on key, password and salt, and not on the blind |
| Opaque.UploadSpelled | opaque_adapter.py:334-347 | the uploaded record, term by term, and exactly when making it raises |
| Opaque.EnvelopeOpens | opaque_adapter.py:364-381 | a registered envelope opens exactly for its password and the point its OPRF key gives |
| Opaque.LoginCompletes | opaque_adapter.py:349-417 | with the registered password both MAC checks pass and session and export keys are equal |
| Opaque.BothFinish | opaque_adapter.py:385-417 | once the envelope opens, both views of the three shared secrets coincide and each side accepts the other |
| Opaque.AnswerSpelled | opaque_adapter.py:497-529 | KE2, the keys and the server's state, term by term, and exactly when the server raises |
| Opaque.FinishSpelled | opaque_adapter.py:364-417 | exactly when the client goes on, and its keys and KE3, term by term |
| Opaque.KeysApart | opaque_adapter.py:269-279 | session, MAC and export keys never coincide, and each is equal across sessions exactly when secrets and exchange are |
| Opaque.WrongPassword | opaque_adapter.py:364-381 | with any other password, or an answer under another OPRF key, the client refuses |
| Opaque.WrongKey | opaque_adapter.py:364-381 | an honest login that is answered under an OPRF key other than the registered one is refused |
| Handshake.EventKeeps | opaque_adapter.py:364-559 | one step of any client, server thread or registration keeps the protocol invariant against the attacker |
| Handshake.RunKeeps | opaque_adapter.py:364-559 | the invariant holds after every run of any number of sessions |
| Handshake.RegisterKeeps | register_user.py:122-128 | the upload, made only for the certified static key, keeps the invariant |
| Handshake.RespondKeeps | opaque_adapter.py:459-529 | the server's answer, from a real or a fake record, keeps the invariant |
| Handshake.CompleteKeeps | opaque_adapter.py:364-417 | the client's last step keeps the invariant |
| Handshake.ServerFinishKeeps | opaque_adapter.py:531-559 | the server's last step keeps the invariant |
| Handshake.Learned | opaque_adapter.py:364-559 | after a run the attacker can derive only terms that may become public |
| Handshake.DerivedKeyHidden | opaque_adapter.py:269-279 | keys derived from a secret of two honest scalars stay hidden |
| Agreement.MacsSeparate | opaque_adapter.py:398-410 | the server and client labels keep the two MACs apart, and a MAC determines its key and transcript |
| Agreement.KeysDetermined | opaque_adapter.py:269-279 | equal MAC keys have equal secrets and transcripts, hence equal session keys |
| Agreement.EnvelopeOrigin | opaque_adapter.py:245-260 | an envelope that opens was sealed by an honest registration of the same password |
| Agreement.AcceptedMeansFinished | opaque_adapter.py:531-559 | over all runs: an accepted session with an honest client key is real and matches exactly one finished client, and KE1 and KE2 arrived unaltered between them |
| Agreement.FinishedMeansAnswered | opaque_adapter.py:364-417 | over all runs: a finished client matches exactly one real server session, KE1 and KE2 arrived unaltered, and the record holds the key of an enrollment of its password |
| Agreement.KeysStayHidden | opaque_adapter.py:537-539 | over all runs: fake sessions never accept, and neither the session and export keys of finished clients nor those of server sessions over an honest record can be derived |
| Agreement.MatchedMessages | opaque_adapter.py:391-395 | where two sessions match, every field of KE1 and KE2 is the same on both sides |
| Outsider.AgreementExact | opaque_adapter.py:531-559 | over a stored record every session accepted in any continuation of a run matches a client exactly when the record's key is not the attacker's |
| Outsider.OutsiderAccepted | opaque_adapter.py:446-559 | from any run with a record of the attacker's key, a few more steps reach an accepted session that matches no client |
| Outsider.OutsiderRun | server.py:126-175 | such a record and session, reached from the start: the upload is not authenticated |
| Lifecycle.RunForward | opaque_adapter.py:364-559 | over every continuation of a run, what was sent stays sent and a session that has decided stays decided |
| Lifecycle.RunNonces | opaque_adapter.py:355-357 | over every run, no nonce is used twice by clients and server |
| Lifecycle.ServerDecides | opaque_adapter.py:531-559 | the first KE3 decides: accepted exactly when it is the client's MAC over this exchange and the user exists; nothing else changes |
| Lifecycle.ClientDecides | opaque_adapter.py:364-417 | the first KE2 decides, and only a client that accepts sends anything |
| Lifecycle.OnlyCertified | register_user.py:122-128 | no upload is made unless the static key in the response is the certified one |
| Lifecycle.StoresAnything | opaque_adapter.py:446-457 | an upload is stored unchecked next to the drawn OPRF key, replacing what was there |
| Lifecycle.UnknownAnswered | opaque_adapter.py:459-501 | the server answers unknown and known users alike, with a fresh envelope of the same form for an unknown one |
| Agreement.SameClient | opaque_adapter.py:391-395 | a server session matches at most one client session |
| Agreement.SameServer | opaque_adapter.py:512-516 | a client session matches at most one server session |
| Completeness.RegistrationPossible | server.py:126-141 | after any run an honest registration can be completed and stored |
| Completeness.LoginPossible | server.py:143-175 | after any run an honest login against an honestly made record ends with both sides matching and accepted |
| ServerAuth.MessagesSeparate | pki.py:55-71 | a signed configuration is never a signed handshake |
| ServerAuth.ServerKey.Sign | pki.py:332-369 | the key's log grows by exactly the signed message and its reason |
| ServerAuth.BuildSignedServerHello | server.py:107-124 | the key signs the configuration and then, if everything encodes, the digest of the ClientHello with the core; the result is the encoded answer that ServerAuth.AnswerAccepted is about |
| ServerAuth.AnswerAccepted | server.py:107-124 | the client accepts the answer the server builds, with any bytes after it, exactly while its configuration is fresh |
| ServerAuth.SignedBytes | pki.py:55-71 | the two signed strings, byte by byte |
| ServerAuth.VerifyCertificateChain | pki.py:264-284 | succeeds exactly for a chain of two accepted certificates that passes the trust checks |
| ServerAuth.VerifyServerHello | client.py:91-117 | the client's checks in order succeed exactly when all of them hold |
| ServerAuth.AcceptServerHello | client.py:82-117 | accepts exactly the strings that carry a verified ServerHello, and returns it |
| ServerAuth.CertVerifyDetermines | pki.py:62-71 | without a SHA-512 collision the signed bytes determine the ClientHello and the core |
| ServerAuth.ServerAuthenticated | client.py:100-117 | an accepted ServerHello was signed byte for byte in answer to this ClientHello, or two named strings collide |
| ServerAuth.CoreDetermines | client.py:105-111 | the signed core determines every field the client uses |
| ServerAuth.HonestAnswerVerified | client.py:91-117 | an honest answer is accepted exactly while its configuration is fresh, whatever bytes follow |
| Kdf.Transcript.Add | tls13_kdf.py:88-91 | extends the history by one entry; on a value that does not fit, leaves the label behind |
| Kdf.Transcript.Digest | tls13_kdf.py:93-94 | hashing part by part is hashing the bytes of the history |
| Kdf.HistoryPrefix | tls13_kdf.py:88-91 | the bytes of one history start those of another only if the history does |
| Kdf.HistoryInjective | tls13_kdf.py:88-94 | equal bytes come from equal histories |
| Bytes.AsciiInjective | tls13_kdf.py:89 | ASCII labels are their characters as bytes, so different labels have different bytes |
| Kdf.InfoInjective | tls13_kdf.py:40-56 | the HKDF info string determines length, label and context |
| Kdf.InfoOnWire | tls13_kdf.py:40-56 | the info string byte by byte, and exactly when packing it raises |
| Kdf.SecretsDetermine | tls13_kdf.py:110-135 | a traffic secret determines which of the five it is, its session key and its transcript |
| Kdf.SecretNamed | tls13_kdf.py:110-135 | each secret's place in the schedule: what it is expanded from, and under which label |
| Session.SecretsAgree | tls13_kdf.py:110-135 | two sides share a secret exactly when name, session key and all three messages are the same |
| Session.TranscriptOnWire | client.py:84-122 | the string under the traffic secrets, byte by byte: three messages, each behind its label |
| Session.MatchedSecrets | client.py:79-126 | sessions that accepted each other derive the same five secrets exactly when no message was altered, and otherwise differ in all five |
| Session.SendersDiffer | tls13_kdf.py:110-135 | after any run two different ends, clients or server sessions, are different senders, whatever transcripts they hashed |
| Session.RunNoNonceReuse | record.py:50-73 | over all sessions of any run, equal key and nonce mean the same record of the same end |
| Record.XorCancel | record.py:57 | exclusive-or with a fixed byte is injective |
| Record.XorTwice | record.py:57 | exclusive-or with the same value twice gives back the first |
| Record.XorZero | record.py:57 | zero is neutral, and the order does not matter |
| Record.NonceInjective | record.py:55-57 | different 64-bit sequence numbers give different nonces under one IV |
| Record.NonceBytes | record.py:55-57 | which bytes of the IV the number changes, and the nonce under a zero IV |
| Record.AadBinds | record.py:59-64 | content type, number and length each have their place in the associated data, which determines them |
| Record.OpenInLog | record.py:82 | the ideal AEAD opens exactly what was sealed with the same nonce and associated data |
| Record.DirectionState.Encrypt | record.py:66-73 | seals with the current number, or raises when a length does not fit; the number is consumed either way |
| Record.DirectionState.Decrypt | record.py:75-84 | accepts only the expected number and an authentic record; a refused record changes nothing |
| Record.OpensNext | record.py:75-84 | the record a receiver opens is the first it has not accepted |
| Record.SendKeeps | record.py:66-73 | sealing keeps the channel invariant |
| Record.DeliverKeeps | record.py:75-84 | delivering any record at all keeps the channel invariant |
| Record.ChannelSafe | record.py:66-84 | over all runs: the accepted plaintexts are a prefix of the sealed ones and the receiver's number counts them |
| Record.AcceptedAsSealed | record.py:66-84 | over all runs: an accepted record is the very record the sender made of that plaintext, with that content type and number |
| Record.RecordDelivered | record.py:66-84 | without interference the next record is accepted |
| RecordKeys.DirectionsPair | server.py:178-180 | what one side seals with the other opens with, and the two directions have different keys |
| RecordKeys.SendsUnder | client.py:151-152 | the client seals under the client's application secret, the server under its own |
| RecordKeys.KeyAndIv | record.py:50-53 | key and IV have their own labels and lengths, and no key is an IV |
| RecordKeys.NoNonceReuse | record.py:50-73 | over any number of senders and runs, equal key and nonce mean the same sender and the same record |
| EchoLoop.Reply | server.py:203-206 | one reply is sealed and sent under the current number; EchoLoop.RepliesSeal says what it contains |
| EchoLoop.RepliesSeal | server.py:203-206 | the i-th record seals the echo of the i-th plaintext with number i, and what is sent is one AppData frame per record |
| EchoLoop.ReplyOpens | client.py:158-162 | the client opens the i-th reply to the echo of the i-th plaintext |
| EchoLoop.AlertArrives | server.py:208-212 | an alert whose text fits is one frame that decodes to a fatal alert with that text; otherwise nothing is sent |
| EchoLoop.Handle | server.py:192-206 | for every frame, whether it is answered, stops the loop, is refused with an alert or raises, and what is then sealed and sent |
| EchoLoop.ServePrefix | server.py:197-199 | whatever stream arrives, the accepted plaintexts are a prefix of those the client sealed |
| EchoLoop.OwnRecordOpens | record.py:75-84 | each sealed record opens, with its own number, to its own plaintext |
| EchoLoop.HonestFrameAnswered | server.py:192-206 | the k-th frame of an honest client, arriving after k accepted records, is answered with its plaintext |
| EchoLoop.HonestClientServed | server.py:186-206 | from an honest client's stream every sealed plaintext is accepted in order, and the loop ends at Close or when the client closes |
| EchoLoop.EchoReturns | server.py:186-206 | end to end: an honest client receives one frame per record it sent and opens the i-th to the echo of its i-th plaintext |
| EchoLoop.StopsAtClose | server.py:189-194 | the loop stops at Close and at the end of the stream, and reads no further |
| EchoLoop.StopsInsideFrame | server.py:189-192 | it stops where a frame breaks off, and raises on one longer than the limit |
| EchoLoop.OtherFrames | server.py:193-202 | what empty, foreign, truncated, misnumbered and never sealed frames lead to |
| EchoLoop.AppLoop | server.py:186-206 | the loop accepts and ends as the stream's recursive reading says; both numbers count the accepted plaintexts, log and output are the replies to them, and nothing but an alert follows a refused frame |
| Wire.ParseOfPrint | codec.py:97-117 | for every layout, parsing an encoding with bytes after it returns its fields and those bytes |
| Wire.PrintOfParse | codec.py:97-117 | for every layout, a parsed string starts with the encoding of the parsed fields |
| Wire.PrefixFree | codec.py:97-117 | encodings that start the same string have the same fields |
| Wire.CutShort | codec.py:100-104 | an encoding cut short starts with no encoding |
| Bytes.ValueAppend | codec.py:105-109 | integers are big-endian: the first bytes are the most significant |
| Codec.Reader.Read | codec.py:100-104 | returns exactly the next n bytes and moves the cursor past them, or raises exactly when fewer are left |
| Codec.Reader.Unsigned | codec.py:105-109 | reads the next w bytes as a big-endian integer and moves past them, or raises exactly when fewer are left |
| Codec.Reader.Prefixed | codec.py:110-111 | reads exactly the bytes behind a length and moves past them, or raises exactly when the length or they are cut off |
| Codec.DecodeClientHello | codec.py:132-135 | accepts exactly the strings that start with an encoded ClientHello, and returns it |
| Codec.ClientHelloUnique | codec.py:121-135 | a string starts with at most one ClientHello |
| Codec.ClientHelloOnWire | codec.py:121-130 | the encoder's bytes, field by field, and exactly when it raises |
| Codec.DecodeServerHello | codec.py:161-171 | accepts exactly the strings that start with an encoded ServerHello, and returns it |
| Codec.ServerHelloUnique | codec.py:139-171 | a string starts with at most one ServerHello |
| Codec.ServerHelloLayout | codec.py:139-158 | core encoder and wrapper together are one flat layout |
| Codec.CoreOnWire | codec.py:139-149 | the core encoder's bytes, field by field, and exactly when it raises |
| Codec.WrappedOnWire | codec.py:151-158 | the wrapper's bytes, and exactly when it raises |
| Codec.RebuiltCoreIsSlice | client.py:105-111 | the core the client rebuilds is the received slice, byte for byte |
| Codec.TruncatedServerHello | codec.py:161-171 | a ServerHello cut short is refused |
| Codec.DecodeClientFinish | codec.py:178-181 | accepts exactly the strings that start with an encoded ClientFinish, and returns it |
| Codec.ClientFinishUnique | codec.py:175-181 | a string starts with at most one ClientFinish |
| Codec.ClientFinishOnWire | codec.py:175-176 | the encoder's bytes, and exactly when it raises |
| Codec.DecodeAppData | codec.py:191-196 | accepts exactly the strings that start with encoded AppData, and returns it |
| Codec.AppDataUnique | codec.py:185-196 | a string starts with at most one AppData |
| Codec.AppDataOnWire | codec.py:185-189 | the encoder's bytes, and exactly when it raises |
| Codec.DecodeAlert | codec.py:203-206 | accepts exactly the strings that start with an encoded Alert, and returns its level and text bytes |
| Codec.AlertUnique | codec.py:200-206 | a string starts with at most one Alert |
| Codec.AlertOnWire | codec.py:200-201 | the encoder's bytes, and exactly when it raises |
| Codec.CutMessages | codec.py:100-104 | every message type cut short is refused by its decoder |
| OpaqueWire.Ke1RoundTrips | opaque_adapter.py:292-300 | repacking an unpacked KE1 gives the received bytes, and unpacking recovers packed fields |
| OpaqueWire.UnpackKe2 | opaque_adapter.py:303-316 | undoes packing for every envelope below 2^24 bytes, and a full MAC field is the sign of a packed KE2 |
| OpaqueWire.MacsCoverMessages | opaque_adapter.py:391-395 | the string under the MACs with the server's MAC after it is KE1 followed by KE2, byte for byte |
| OpaqueWire.LoadedKe1Widths | opaque_adapter.py:296-300 | a KE1 whose last field loads as a point has its other two fields in full |
| OpaqueWire.KeyByte | opaque_adapter.py:391-395 | one byte of the string tells whether the client's key is compressed |
| OpaqueWire.ExchangeInjective | opaque_adapter.py:391-395 | the string under both MACs determines every field, and none is a prefix of another, whichever accepted encoding each client's key has |
| CertChain.DecodeChain | pki.py:237-251 | recovers the items, accepts exactly two, and otherwise says truthfully whether the string is cut off, a certificate is refused, or the count is wrong |
| CertChain.ChainUnique | pki.py:223-251 | a string is the chain of at most one list of certificates |
| CertChain.ChainOfTwo | pki.py:223-234 | the accepted strings are those the encoder produces |
| ServerConfig.DecodeConfig | server_config.py:49-70 | decoding by offsets accepts exactly the strings that start with an encoding |
| ServerConfig.ConfigLayout | server_config.py:32-46 | the encoder's bytes, and exactly when it raises |
| ServerConfig.AdvertisedBytes | server_config.py:32-46 | the very bytes this server advertises at a given time |
| ServerConfig.ValidateExactly | server_config.py:73-97 | accepts exactly the fixed suite and expected name with a timestamp inside the window, whatever follows |
| ServerConfig.HonestConfigValid | server_config.py:32-97 | an honest blob is valid exactly inside the window around its timestamp |
| Framing.Socket.RecvExactly | transcript.py:37-46 | returns exactly the next n bytes however the socket cuts them, or raises when the peer closes first |
| Framing.Socket.RecvFrame | transcript.py:28-34 | returns the first frame of the stream, or raises |
| Framing.Socket.SendFrame | transcript.py:23-25 | appends the frame, or raises when the length does not fit four bytes |
| Framing.NextOfFrame | transcript.py:23-34 | a frame that was sent is received exactly when its payload is within the limit, and is refused as too large otherwise |
| Framing.FramesArrive | transcript.py:23-46 | reading as many frames as were sent returns their payloads in order, or the length error exactly when one exceeds the limit |
| Framing.CutStream | transcript.py:37-46 | a stream cut anywhere ends in an error, the peer-closed error if all frames are within the limit, and never in a short payload |
| Hex.HexRoundTrip | storage.py:113-135 | fromhex undoes hex |
| Hex.HexInjective | ratelimit.py:63 | different byte strings have different hex keys |
| Hex.HexOfBytes | storage.py:113-135 | two lower-case digits a byte, read back in either case |
| Hex.HexRefuses | storage.py:131-134 | white space before a pair is skipped, anything else that is no pair of digits is refused |
| RateLimit.RateLimiter.Allow | ratelimit.py:55-76 | decides by the count of recent timestamps and updates this key's list alone |
| RateLimit.RateLimiter.Reset | ratelimit.py:78-82 | forgets this key alone |
| RateLimit.KeysSeparate | ratelimit.py:63 | clients and credentials never share a key |
| RateLimit.KeysIndependent | ratelimit.py:52-82 | over all runs: a key's list depends only on the attempts on it since its last reset |
| RateLimit.StillStored | ratelimit.py:69-75 | allowed attempts after a time are all still stored while no cutoff has passed it |
| RateLimit.StoredBounded | ratelimit.py:72-75 | a list never holds more than the maximum |
| RateLimit.StoredFresh | ratelimit.py:68-70 | after every attempt, allowed or not, nothing older than the window stays stored |
| RateLimit.WindowBound | ratelimit.py:64-76 | with clock regressions of at most the slack, no interval of the window's length less the slack holds more allowed attempts than the maximum |
| WindowLimit.SingleBound | ratelimit.py:64-76 | with a maximum of one the whole window holds at most one allowed attempt, whatever the clock does |
| WindowLimit.ExactLimit | ratelimit.py:64-76 | the maximum is kept in every interval of a length exactly when the length is at most the window less the slack, or the window for a maximum of one |
| RateLimit.ExactDecision | ratelimit.py:64-76 | with a steady clock an attempt is allowed exactly when fewer than the maximum were allowed in the window ending now |
| RateLimit.StoredGranted | ratelimit.py:69-73 | whatever the clock does, a denial has the maximum of allowed attempts behind it |
| WindowLimit.WindowNeedsSteadyClock | ratelimit.py:64-66 | a concrete run in which a stepping clock lets three attempts into a window with maximum two |
| Storage.JSONStore.constructor | storage.py:37-42 | keeps an existing file whatever temporary file a crash left, and otherwise starts empty |
| Storage.JSONStore.Perform | storage.py:54-76 | each operation has exactly its effect and result on the dictionary in the file |
| Storage.ReadsLastWrite | storage.py:54-72 | after any history, every read, test and listing returns what the last write to each key left |
| Storage.StepKeeps | storage.py:48-76 | every step of every thread, an I/O failure and a crash keep the store's invariant |
| Storage.RunKeeps | storage.py:44-76 | the invariant holds after every interleaving with crashes anywhere |
| Storage.RunTraced | storage.py:54-76 | after any run every entry of the history is a different call, and each thread and completion carries its own |
| Storage.Linearizable | storage.py:54-76 | completed operations took effect one at a time between call and return, with sequential responses, in an order that respects real time; only called operations take effect, each at most once |
| Storage.NoLostUpdate | storage.py:54-62 | a completed read returned the last write before it |
| Storage.CrashSafe | storage.py:48-52 | at every point the file holds a whole dictionary, a crash leaves it alone, and one step changes it by one whole operation |
| Storage.LockIsReleased | storage.py:54-76 | the thread that holds the lock can always go on, and comes closer to releasing it with every step |
| Records.UnpackPack | storage.py:113-135 | the byte fields of a record come back through hex |
| Records.UnpackExactly | storage.py:130-135 | a stored record loads exactly when all four fields are hexadecimal |
| Records.StoreOpaqueRecord | storage.py:103-119 | afterwards this credential loads what was stored and every other credential loads what it did |
| Records.LoadOpaqueRecord | storage.py:122-135 | loads the stored bytes, None for an unknown credential, an error for malformed hex, and changes nothing |
| Records.RecordExists | storage.py:138-139 | true exactly when loading finds something |
| Records.LoadLastStored | storage.py:103-135 | after any history of stores, loading gives the record stored last for the credential |

## Left out

- Sockets, threads, argument parsing, printing and files: a socket is a byte stream that arrives in arbitrary pieces, the file system two named cells, the clock and fresh randomness are parameters or counters.
- The cryptography and argon2 libraries: AES-GCM, ChaCha20-Poly1305, SHA-512, Argon2id, ECDSA and X.509 parsing are ideal, free or parameters.
- `_hash_to_curve`: its result is an arbitrary curve point per password; that it can fail after 256 tries is not modelled.
- Loading of public keys checks points in the library; symbolically every public-key term loads, and a term that is none makes the step raise.
- The byte layout of OPAQUE messages inside the symbolic handshake: the two are separate models. `OpaqueWire` proves that the layouts determine the fields for every encoding of the client's key that loads, and that the MACs cover both messages.
- HKDF gives session and MAC key by salt and info; the model has the transcript among the arguments of both, and the order of the three shared secrets as in the code.
- The individual checks of `verify_certificate_chain` (pinning, validity dates, names, constraints) are one predicate on two certificates; the key that verifies is the key of the accepted server certificate.
- Computational secrecy, forward secrecy, password guessing, timing of the fake-user path and side channels.
- UTF-8: alert and echo texts are bytes, and the echo an arbitrary function of the plaintext.
- Certificate generation, bootstrap and the singletons of ratelimit.py and storage.py: claims are per limiter and per store.
- Floating-point rounding of `time.monotonic()`: times are reals.
- JSON text: the file holds the dictionary that its text stands for. An I/O failure during a write is a step that ends the operation before it takes effect.
- tools/, tests/, results/ and formal/: harnesses, logs and other models.
- Agreement.AcceptedMeansFinished: requires an honest client key in the record, because the upload of a record is not authenticated; Outsider.AgreementExact proves the condition exact.
- RateLimit.WindowBound: is about intervals shorter than the window by the slack, because the clock is read outside the lock; WindowLimit.ExactLimit proves the length exact.
