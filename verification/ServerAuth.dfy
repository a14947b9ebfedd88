/** How the client knows the server: the two signatures of pki.py, the signed ServerHello of
    server.py:107-124 and the checks of client.py:91-117. Signatures are ideal: the server's key keeps a
    log, and only what was signed under it verifies. SHA-512 is any function with 64-byte results; where a
    proof would need it to be collision-free, the conclusion names the colliding pair instead. */
module ServerAuth {
  import opened Bytes
  import opened Wire
  import opened Codec
  import opened ServerConfig
  import CertChain
  import Kdf

  const CV_PREFIX: bytes := seq(64, i => 32)
  const CV_LABEL: bytes := Ascii("CSE539 CertificateVerify") + [0]
  const SC_PREFIX: bytes := Ascii("CSE539 ServerConfig") + [0]
  const CLIENT_HELLO_ENTRY: bytes := Ascii("client_hello")

  type Hash = bytes -> bytes

  ghost predicate Digests(sha512: Hash) {
    forall x :: |sha512(x)| == HASH_LEN
  }

  // ---------------------------------------------------------------- signed messages

  /** `_build_cv_message`, with the SHA-512 of the two parts one after the other. */
  function CertVerifyMessage(sha512: Hash, transcriptHash: bytes, core: bytes): bytes {
    CV_PREFIX + CV_LABEL + sha512(transcriptHash + core)
  }

  /** What `sign_server_config` signs. */
  function ConfigMessage(config: bytes): bytes {
    SC_PREFIX + config
  }

  /** A signature over a configuration is never one over a handshake. */
  lemma MessagesSeparate(sha512: Hash, th: bytes, core: bytes, config: bytes)
    ensures CertVerifyMessage(sha512, th, core) != ConfigMessage(config)
  {
    assert CertVerifyMessage(sha512, th, core)[0] == CV_PREFIX[0] == 32;
    assert ConfigMessage(config)[0] == Ascii("CSE539 ServerConfig")[0] == 67;
  }

  predicate HelloFits(clientHello: bytes) {
    Kdf.EntryFits((CLIENT_HELLO_ENTRY, clientHello))
  }

  /** The transcript of one ClientHello, as bytes. */
  function HelloTranscript(clientHello: bytes): bytes
    requires HelloFits(clientHello)
  {
    Kdf.HistoryBytes([(CLIENT_HELLO_ENTRY, clientHello)])
  }

  /** Why the server's key signed: for its configuration, or for a core in answer to a ClientHello. */
  datatype Signing = Static(config: bytes) | PerSession(clientHello: bytes, core: bytes)

  function MessageOf(sha512: Hash, s: Signing): bytes
    requires s.PerSession? ==> HelloFits(s.clientHello)
  {
    match s
    case Static(config) => ConfigMessage(config)
    case PerSession(hello, core) => CertVerifyMessage(sha512, sha512(HelloTranscript(hello)), core)
  }

  // ---------------------------------------------------------------- the key

  /** The server's ECDSA key. `signer` is its signing algorithm, `check` its verification algorithm; the
      log is what makes it ideal. */
  class ServerKey {
    const signer: bytes -> bytes
    const check: (bytes, bytes) -> bool
    var signed: seq<bytes>
    ghost var history: seq<Signing>

    ghost predicate Valid(sha512: Hash)
      reads this
    {
      Explained(sha512, signed, history)
    }

    method Sign(ghost sha512: Hash, ghost why: Signing, message: bytes) returns (signature: bytes)
      requires Valid(sha512) && (why.PerSession? ==> HelloFits(why.clientHello)) && message == MessageOf(sha512, why)
      modifies this
      ensures Valid(sha512) && signature == signer(message)
      ensures signed == old(signed) + [message] && history == old(history) + [why]
    {
      signed := signed + [message];
      history := history + [why];
      signature := signer(message);
    }

    method Verify(signature: bytes, message: bytes) returns (r: Result<()>)
      ensures r == if check(signature, message) && message in signed then Ok(()) else Err(BadSignature)
    {
      return if check(signature, message) && message in signed then Ok(()) else Err(BadSignature);
    }
  }

  ghost predicate Explained(sha512: Hash, signed: seq<bytes>, history: seq<Signing>) {
    && |signed| == |history|
    && (forall i :: 0 <= i < |history| && history[i].PerSession? ==> HelloFits(history[i].clientHello))
    && (forall i :: 0 <= i < |signed| ==> signed[i] == MessageOf(sha512, history[i]))
  }

  // ---------------------------------------------------------------- the server

  /** The answer the server builds from the clock, a fresh nonce and the OPAQUE message. */
  function Answer(nonce: bytes, ke2: bytes, chain: bytes, config: bytes): ServerHello {
    ServerHello(1, nonce, ke2, chain, config, [], [])
  }

  /** What one answer makes the key sign: the configuration first, the handshake only if it encodes. */
  function Signings(clientHello: bytes, nonce: bytes, ke2: bytes, ts: int, ca: bytes, srv: bytes): seq<Signing> {
    match EncodeServerConfig(SERVER_ID, ts)
    case Err(_) => []
    case Ok(config) =>
      match CertChain.EncodeChain(ca, srv)
      case Err(_) => [Static(config)]
      case Ok(chain) =>
        match EncodeCore(Answer(nonce, ke2, chain, config))
        case Err(_) => [Static(config)]
        case Ok(core) => [Static(config), PerSession(clientHello, core)]
  }

  /** The encoded answer with both signatures in place. */
  function SignedAnswer(signer: bytes -> bytes, sha512: Hash, clientHello: bytes, nonce: bytes, ke2: bytes, ts: int,
                        ca: bytes, srv: bytes): Result<bytes>
    requires HelloFits(clientHello)
  {
    var config :- EncodeServerConfig(SERVER_ID, ts);
    var chain :- CertChain.EncodeChain(ca, srv);
    var core :- EncodeCore(Answer(nonce, ke2, chain, config));
    EncodeServerHello(ServerHello(1, nonce, ke2, chain, config, signer(ConfigMessage(config)),
                                  signer(MessageOf(sha512, PerSession(clientHello, core)))))
  }

  /** `_build_signed_server_hello` */
  method BuildSignedServerHello(key: ServerKey, before: Kdf.Transcript, ke2: bytes, nonce: bytes, ts: int,
                                ca: bytes, srv: bytes, sha512: Hash, ghost clientHello: bytes)
      returns (r: Result<bytes>)
    requires key.Valid(sha512) && before.Valid() && before.history == [(CLIENT_HELLO_ENTRY, clientHello)]
    modifies key
    ensures key.Valid(sha512) && HelloFits(clientHello)
    ensures key.history == old(key.history) + Signings(clientHello, nonce, ke2, ts, ca, srv)
    ensures r == SignedAnswer(key.signer, sha512, clientHello, nonce, ke2, ts, ca, srv)
  {
    assert before.history[0] == (CLIENT_HELLO_ENTRY, clientHello);
    var config :- EncodeServerConfig(SERVER_ID, ts);
    var configSig := key.Sign(sha512, Static(config), ConfigMessage(config));
    var chain :- CertChain.EncodeChain(ca, srv);
    var core :- EncodeCore(Answer(nonce, ke2, chain, config));
    var th := before.Digest(sha512);
    var certVerifySig := key.Sign(sha512, PerSession(clientHello, core), CertVerifyMessage(sha512, th, core));
    r := WrapCore(core, configSig, certVerifySig);
  }

  // ---------------------------------------------------------------- the client

  /** What the client knows of the outside world: which strings parse as certificates, which pairs of
      certificates pass every check of `verify_certificate_chain`, and the clock. */
  datatype World = World(parses: bytes -> bool, trusts: (bytes, bytes) -> bool, now: int)

  ghost predicate ChainTrusted(w: World, chain: bytes) {
    exists ca, srv :: CertChain.ChainOf(chain, [ca, srv], w.parses) && w.trusts(ca, srv)
  }

  /** Everything `client_login` establishes before it goes on to OPAQUE. */
  ghost predicate Verified(m: ServerHello, raw: bytes, clientHello: bytes, signed: seq<bytes>,
                           check: (bytes, bytes) -> bool, w: World, sha512: Hash)
  {
    && HelloFits(clientHello)
    && Starts(EncodeServerHello(m), raw) && ChainTrusted(w, m.certificateChain)
    && check(m.configSig, ConfigMessage(m.serverConfig)) && ConfigMessage(m.serverConfig) in signed
    && ValidateServerConfig(m.serverConfig, SERVER_ID, MAX_AGE_S, w.now).Ok?
    && var cv := CertVerifyMessage(sha512, sha512(HelloTranscript(clientHello)), EncodeCore(m).value);
       check(m.certVerifySig, cv) && cv in signed
  }

  /** The bytes are no acceptable ServerHello. */
  ghost predicate Unverified(raw: bytes, clientHello: bytes, signed: seq<bytes>,
                             check: (bytes, bytes) -> bool, w: World, sha512: Hash)
  {
    forall m :: !Verified(m, raw, clientHello, signed, check, w, sha512)
  }

  method VerifyCertificateChain(chain: bytes, w: World) returns (r: Result<()>)
    ensures r.Ok? <==> ChainTrusted(w, chain)
  {
    var decoded := CertChain.DecodeChain(chain, w.parses);
    if decoded.Err? {
      forall ca, srv ensures !CertChain.ChainOf(chain, [ca, srv], w.parses) {
        if CertChain.ChainOf(chain, [ca, srv], w.parses) && decoded.error == WrongCount {
          var ders :| |ders| != 2 && CertChain.ChainOf(chain, ders, w.parses);
          CertChain.ChainUnique(chain, ders, [ca, srv], w.parses);
        }
      }
      return Err(BadCertificate);
    }
    var (ca, srv) := decoded.value;
    forall ca', srv' | CertChain.ChainOf(chain, [ca', srv'], w.parses) ensures ca' == ca && srv' == srv {
      CertChain.ChainUnique(chain, [ca', srv'], [ca, srv], w.parses);
      assert [ca', srv'][0] == [ca, srv][0] && [ca', srv'][1] == [ca, srv][1];
    }
    return if w.trusts(ca, srv) then Ok(()) else Err(BadCertificate);
  }

  /** The digest of the client's second transcript. */
  method HelloDigest(clientHello: bytes, sha512: Hash) returns (r: Result<bytes>)
    ensures r == if HelloFits(clientHello) then Ok(sha512(HelloTranscript(clientHello))) else Err(DoesNotFit)
  {
    var pre := new Kdf.Transcript();
    var _ :- pre.Add(CLIENT_HELLO_ENTRY, clientHello);
    assert pre.history == [(CLIENT_HELLO_ENTRY, clientHello)];
    var digest := pre.Digest(sha512);
    return Ok(digest);
  }

  /** The checks on a parsed ServerHello, in the client's order. */
  method VerifyServerHello(key: ServerKey, m: ServerHello, ghost raw: bytes, clientHello: bytes, w: World, sha512: Hash)
      returns (r: Result<()>)
    requires Starts(EncodeServerHello(m), raw)
    ensures r.Ok? <==> Verified(m, raw, clientHello, key.signed, key.check, w, sha512)
  {
    var _ :- VerifyCertificateChain(m.certificateChain, w);
    var _ :- key.Verify(m.configSig, ConfigMessage(m.serverConfig));
    var _ :- ValidateServerConfig(m.serverConfig, SERVER_ID, MAX_AGE_S, w.now);
    var th :- HelloDigest(clientHello, sha512);
    var core := EncodeCore(m);
    r := key.Verify(m.certVerifySig, CertVerifyMessage(sha512, th, core.value));
  }

  /** client.py:87-117: accepts exactly the strings that carry a verified ServerHello. */
  method AcceptServerHello(key: ServerKey, raw: bytes, clientHello: bytes, w: World, sha512: Hash)
      returns (r: Result<ServerHello>)
    ensures r.Ok? ==> Verified(r.value, raw, clientHello, key.signed, key.check, w, sha512)
    ensures r.Err? ==> Unverified(raw, clientHello, key.signed, key.check, w, sha512)
  {
    if raw == [] {
      return Err(EmptyInput);
    }
    var parsed := DecodeServerHello(raw);
    if parsed.Err? {
      return Err(parsed.error);
    }
    OnlyThis(parsed.value, raw, clientHello, key.signed, key.check, w, sha512);
    var checked := VerifyServerHello(key, parsed.value, raw, clientHello, w, sha512);
    return if checked.Ok? then parsed else Err(checked.error);
  }

  lemma OnlyThis(m: ServerHello, raw: bytes, clientHello: bytes, signed: seq<bytes>, check: (bytes, bytes) -> bool,
                 w: World, sha512: Hash)
    requires Starts(EncodeServerHello(m), raw)
    ensures !Verified(m, raw, clientHello, signed, check, w, sha512) ==>
      Unverified(raw, clientHello, signed, check, w, sha512)
  {
    forall m' | Verified(m', raw, clientHello, signed, check, w, sha512) ensures m' == m {
      ServerHelloUnique(m, m', raw);
    }
  }

  // ---------------------------------------------------------------- authentication

  /** Two strings that SHA-512 confuses. */
  ghost predicate Collide(sha512: Hash, x: bytes, y: bytes) {
    x != y && sha512(x) == sha512(y)
  }

  /** The two answers hash to the same CertificateVerify only through a collision. */
  ghost predicate Confused(sha512: Hash, hello: bytes, core: bytes, hello': bytes, core': bytes)
    requires HelloFits(hello) && HelloFits(hello')
  {
    || Collide(sha512, HelloTranscript(hello), HelloTranscript(hello'))
    || Collide(sha512, sha512(HelloTranscript(hello)) + core, sha512(HelloTranscript(hello')) + core')
  }

  /** Without a collision the signed message determines the ClientHello and the core. */
  lemma CertVerifyDetermines(sha512: Hash, hello: bytes, core: bytes, hello': bytes, core': bytes)
    requires Digests(sha512) && HelloFits(hello) && HelloFits(hello')
    requires MessageOf(sha512, PerSession(hello, core)) == MessageOf(sha512, PerSession(hello', core'))
    ensures (hello == hello' && core == core') || Confused(sha512, hello, core, hello', core')
  {
    var th, th' := sha512(HelloTranscript(hello)), sha512(HelloTranscript(hello'));
    var front := CV_PREFIX + CV_LABEL;
    assert sha512(th + core) == (front + sha512(th + core))[|front|..];
    assert sha512(th' + core') == (front + sha512(th' + core'))[|front|..];
    if th + core == th' + core' {
      assert th == (th + core)[..HASH_LEN] == th' && core == (th + core)[HASH_LEN..] == core';
      if HelloTranscript(hello) == HelloTranscript(hello') {
        var h, h' := [(CLIENT_HELLO_ENTRY, hello)], [(CLIENT_HELLO_ENTRY, hello')];
        Kdf.HistoryInjective(h, h');
        assert h[0] == h'[0];
      }
    }
  }

  /** Server authentication, for any history of the server's key and any bytes from the network: when the
      client accepts, the server signed, in answer to this very ClientHello, exactly the core bytes the
      client received; otherwise SHA-512 confused two strings of the run, and they are named. */
  lemma ServerAuthenticated(m: ServerHello, raw: bytes, clientHello: bytes, signed: seq<bytes>, history: seq<Signing>,
                            check: (bytes, bytes) -> bool, w: World, sha512: Hash) returns (i: nat)
    requires Digests(sha512) && Explained(sha512, signed, history)
    requires Verified(m, raw, clientHello, signed, check, w, sha512)
    ensures i < |history| && history[i].PerSession?
    ensures var core := history[i].core;
      || (history[i].clientHello == clientHello && 1 + |core| <= |raw| && raw[1..1 + |core|] == core)
      || Confused(sha512, clientHello, EncodeCore(m).value, history[i].clientHello, core)
  {
    RebuiltCoreIsSlice(m, raw);
    var core := EncodeCore(m).value;
    var cv := MessageOf(sha512, PerSession(clientHello, core));
    i :| 0 <= i < |signed| && signed[i] == cv;
    match history[i] {
      case Static(config) =>
        MessagesSeparate(sha512, sha512(HelloTranscript(clientHello)), core, config);
        assert false;
      case PerSession(hello, signedCore) =>
        CertVerifyDetermines(sha512, clientHello, core, hello, signedCore);
    }
  }

  /** The signed core determines every field the client goes on to use. */
  lemma CoreDetermines(m: ServerHello, m': ServerHello)
    requires EncodeCore(m).Ok? && EncodeCore(m) == EncodeCore(m')
    ensures m' == m.(configSig := m'.configSig, certVerifySig := m'.certVerifySig)
  {
    var vs, vs' := CoreFields(m), CoreFields(m');
    PrefixFree(CORE, vs, vs', EncodeCore(m).value);
    assert vs[0] == vs'[0] && vs[1] == vs'[1] && vs[2] == vs'[2] && vs[3] == vs'[3] && vs[4] == vs'[4];
    assert FieldFits(CORE[0], vs[0]);
  }

  /** Completeness: an honest answer is accepted exactly as long as its configuration is fresh. */
  lemma HonestAnswerVerified(clientHello: bytes, nonce: bytes, ke2: bytes, ts: int, config: bytes,
                             ca: bytes, srv: bytes,
                             chain: bytes, core: bytes, m: ServerHello, rest: bytes, signer: bytes -> bytes,
                             check: (bytes, bytes) -> bool, signed: seq<bytes>, w: World, sha512: Hash)
    requires HelloFits(clientHello) && w.parses(ca) && w.parses(srv) && w.trusts(ca, srv)
    requires EncodeServerConfig(SERVER_ID, ts) == Ok(config) && CertChain.EncodeChain(ca, srv) == Ok(chain)
    requires EncodeCore(Answer(nonce, ke2, chain, config)) == Ok(core)
    requires var cv := MessageOf(sha512, PerSession(clientHello, core));
      && ConfigMessage(config) in signed && cv in signed
      && check(signer(ConfigMessage(config)), ConfigMessage(config)) && check(signer(cv), cv)
      && m == ServerHello(1, nonce, ke2, chain, config, signer(ConfigMessage(config)), signer(cv))
    requires EncodeServerHello(m).Ok?
    ensures Verified(m, EncodeServerHello(m).value + rest, clientHello, signed, check, w, sha512) <==>
      -MAX_AGE_S <= w.now - ts <= MAX_AGE_S
  {
    CertChain.ChainOfTwo(chain, ca, srv, w.parses);
    HonestConfigValid(SERVER_ID, ts, w.now, MAX_AGE_S);
    assert CoreFields(m) == CoreFields(Answer(nonce, ke2, chain, config));
  }

  /** What the key has signed for the reasons in its history verifies later. */
  lemma SignedForReason(sha512: Hash, signed: seq<bytes>, history: seq<Signing>, why: Signing)
    requires Explained(sha512, signed, history) && why in history
    ensures (why.PerSession? ==> HelloFits(why.clientHello)) && MessageOf(sha512, why) in signed
  {
    var i :| 0 <= i < |history| && history[i] == why;
    assert signed[i] == MessageOf(sha512, why);
  }

  /** What the server sends is what the client accepts: the answer it builds, with each signature where the client
      looks for it and any bytes after it, carries the given nonce and OPAQUE message and is verified exactly while
      its configuration is fresh. */
  lemma AnswerAccepted(signer: bytes -> bytes, check: (bytes, bytes) -> bool, signed: seq<bytes>,
                       history: seq<Signing>, sha512: Hash, clientHello: bytes, nonce: bytes, ke2: bytes, ts: int,
                       ca: bytes, srv: bytes, w: World, rest: bytes) returns (m: ServerHello)
    requires HelloFits(clientHello) && SignedAnswer(signer, sha512, clientHello, nonce, ke2, ts, ca, srv).Ok?
    requires Explained(sha512, signed, history)
    requires forall why :: why in Signings(clientHello, nonce, ke2, ts, ca, srv) ==> why in history
    requires forall x :: check(signer(x), x)
    requires w.parses(ca) && w.parses(srv) && w.trusts(ca, srv)
    ensures m.version == 1 && m.serverNonce == nonce && m.ke2 == ke2
    ensures var raw := SignedAnswer(signer, sha512, clientHello, nonce, ke2, ts, ca, srv).value + rest;
      if -MAX_AGE_S <= w.now - ts <= MAX_AGE_S then Verified(m, raw, clientHello, signed, check, w, sha512)
      else Unverified(raw, clientHello, signed, check, w, sha512)
  {
    var config := EncodeServerConfig(SERVER_ID, ts).value;
    var chain := CertChain.EncodeChain(ca, srv).value;
    var core := EncodeCore(Answer(nonce, ke2, chain, config)).value;
    var first, second := Static(config), PerSession(clientHello, core);
    assert Signings(clientHello, nonce, ke2, ts, ca, srv) == [first, second];
    SignedForReason(sha512, signed, history, first);
    SignedForReason(sha512, signed, history, second);
    m := ServerHello(1, nonce, ke2, chain, config, signer(ConfigMessage(config)), signer(MessageOf(sha512, second)));
    HonestAnswerVerified(clientHello, nonce, ke2, ts, config, ca, srv, chain, core, m, rest, signer, check, signed, w,
                         sha512);
    var raw := SignedAnswer(signer, sha512, clientHello, nonce, ke2, ts, ca, srv).value + rest;
    OnlyThis(m, raw, clientHello, signed, check, w, sha512);
  }

  /** The signed strings byte by byte: 64 spaces, the label and a zero byte before the digest; the other label and a
      zero byte before the configuration. */
  lemma SignedBytes(sha512: Hash, th: bytes, core: bytes, config: bytes)
    ensures var m := CertVerifyMessage(sha512, th, core);
      && |m| == 89 + |sha512(th + core)| && (forall i :: 0 <= i < 64 ==> m[i] == 32)
      && m[64..88] == Ascii("CSE539 CertificateVerify") && m[88] == 0 && m[89..] == sha512(th + core)
    ensures var m := ConfigMessage(config);
      |m| == 20 + |config| && m[..19] == Ascii("CSE539 ServerConfig") && m[19] == 0 && m[20..] == config
  {
    var front := CV_PREFIX + Ascii("CSE539 CertificateVerify");
    assert CertVerifyMessage(sha512, th, core) == front + [0] + sha512(th + core);
    assert ConfigMessage(config) == Ascii("CSE539 ServerConfig") + [0] + config;
  }
}
