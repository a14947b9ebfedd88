/** The OPAQUE client and server of opaque_adapter.py: the OPRF runs on real curve points, everything
    keyed by it is symbolic. */
module Opaque {
  import opened Bytes
  import opened CurveArithmetic
  import Oprf
  import opened Terms

  /** The curve, and the point the code hashes each user's password to, as a compressed string. */
  datatype Setup = Setup(c: Curve, hashToCurve: nat -> bytes)

  datatype Ke1 = Ke1(m: bytes, nonceC: Term, cEphPub: Term)

  datatype Ke2 = Ke2(z: bytes, envelope: Term, nonceS: Term, sEphPub: Term, serverMac: Term)

  /** What `store_opaque_record` keeps per credential. */
  datatype Record = Record(oprfKey: nat, cPub: Term, envelope: Term)

  datatype ClientState = ClientState(user: nat, blind: nat, eph: Owner, ke1: Ke1)

  datatype Keys = Keys(session: Term, mac: Term)

  datatype ServerState = ServerState(keys: Keys, transcript: seq<Term>, serverMac: Term, isFake: bool)

  /** Session key and export key, with the client's KE3. */
  datatype Outcome = Outcome(sessionKey: Term, exportKey: Term, ke3: Term)

  const SERVER_LABEL := Data(Ascii("server"))
  const CLIENT_LABEL := Data(Ascii("client"))

  lemma LabelsDiffer()
    ensures SERVER_LABEL != CLIENT_LABEL
  {
    assert Ascii("server")[0] != Ascii("client")[0];
  }

  // ---------------------------------------------------------------- keys and envelopes

  /** `_oprf_finalize`: N and the password hash under HKDF. */
  function Finalize(setup: Setup, user: nat, blind: nat, z: bytes): Result<Term>
    requires Params(setup.c)
  {
    var n :- Oprf.Unblind(setup.c, blind, z);
    Ok(RandomizedPassword(n, user))
  }

  function RandomizedPassword(n: bytes, user: nat): Term {
    Fn(OprfOutput, [Data(n), Fn(Sha512, [Password(user)])])
  }

  /** `_ksf` and `_derive_env_key` */
  function EnvKey(rw: Term, salt: Term): Term {
    Fn(EnvelopeKey, [Fn(Argon2id, [rw, salt])])
  }

  /** `_envelope_seal` */
  function SealEnvelope(rw: Term, salt: Term, nonce: Term, cPriv: Owner, sPub: Owner): Term {
    List([salt, nonce, Seal(EnvKey(rw, salt), nonce, [Scalar(cPriv), Pub(sPub)])])
  }

  /** `_envelope_open`, including the key loading that follows decryption. */
  function OpenEnvelope(rw: Term, envelope: Term): Option<(Owner, Owner)> {
    if envelope.List? && |envelope.items| == 3 && envelope.items[2].Seal? then
      var (salt, nonce, ct) := (envelope.items[0], envelope.items[1], envelope.items[2]);
      if ct.key == EnvKey(rw, salt) && ct.nonce == nonce && |ct.plaintext| == 2 &&
         ct.plaintext[0].Scalar? && ct.plaintext[1].Pub? then
        Some((ct.plaintext[0].x, ct.plaintext[1].x))
      else None
    else None
  }

  lemma OpenSealed(rw: Term, salt: Term, nonce: Term, cPriv: Owner, sPub: Owner)
    ensures OpenEnvelope(rw, SealEnvelope(rw, salt, nonce, cPriv, sPub)) == Some((cPriv, sPub))
  {
  }

  /** Only what was sealed under the password key opens, and only with that key. */
  lemma OpensOnlySealed(rw: Term, envelope: Term)
    ensures OpenEnvelope(rw, envelope).Some? <==>
      exists salt, nonce, cPriv, sPub :: envelope == SealEnvelope(rw, salt, nonce, cPriv, sPub)
  {
    if OpenEnvelope(rw, envelope).Some? {
      var (cPriv, sPub) := OpenEnvelope(rw, envelope).value;
      var (salt, nonce, ct) := (envelope.items[0], envelope.items[1], envelope.items[2]);
      assert ct.plaintext == [Scalar(cPriv), Pub(sPub)];
      assert envelope.items == [salt, nonce, Seal(EnvKey(rw, salt), nonce, [Scalar(cPriv), Pub(sPub)])];
      assert envelope == SealEnvelope(rw, salt, nonce, cPriv, sPub);
    }
  }

  /** OPRF result, password and salt all enter the envelope key. */
  lemma EnvKeySeparates(n: bytes, user: nat, salt: Term, n': bytes, user': nat, salt': Term)
    ensures EnvKey(RandomizedPassword(n, user), salt) == EnvKey(RandomizedPassword(n', user'), salt') <==>
      n == n' && user == user' && salt == salt'
  {
    var rw, rw' := RandomizedPassword(n, user), RandomizedPassword(n', user');
    assert EnvKey(rw, salt).args[0].args == [rw, salt] && EnvKey(rw', salt').args[0].args == [rw', salt'];
    assert [rw, salt] == [rw', salt'] <==> rw == rw' && salt == salt' by {
      assert [rw, salt][0] == rw && [rw', salt'][0] == rw' && [rw, salt][1] == salt && [rw', salt'][1] == salt';
    }
    assert rw.args[0] == Data(n) && rw'.args[0] == Data(n');
    assert rw.args[1].args[0] == Password(user) && rw'.args[1].args[0] == Password(user');
  }

  /** `_derive_3dh` */
  function Derive3dh(dh1: Term, dh2: Term, dh3: Term, transcript: seq<Term>): Keys {
    var args := [dh1, dh2, dh3, List(transcript)];
    Keys(Fn(SessionKey, args), Fn(MacKey, args))
  }

  function Transcript(ke1: Ke1, z: bytes, envelope: Term, nonceS: Term, sEphPub: Term): seq<Term> {
    [Data(ke1.m), ke1.nonceC, ke1.cEphPub, Data(z), envelope, nonceS, sEphPub]
  }

  function ServerMac(keys: Keys, transcript: seq<Term>): Term {
    Mac(keys.mac, [SERVER_LABEL] + transcript)
  }

  function ClientMac(keys: Keys, transcript: seq<Term>, serverMac: Term): Term {
    Mac(keys.mac, [CLIENT_LABEL] + transcript + [serverMac])
  }

  function Exporter(sessionKey: Term, transcript: seq<Term>): Term {
    Fn(ExportKey, [sessionKey, List(transcript)])
  }

  /** Session, MAC and export keys are never the same, within a session or across sessions, and each is determined
      by, and determines, what it was derived from. */
  lemma KeysApart(a: Term, b: Term, c: Term, t: seq<Term>, a': Term, b': Term, c': Term, t': seq<Term>)
    ensures var (k, k') := (Derive3dh(a, b, c, t), Derive3dh(a', b', c', t'));
      && k.session != k'.mac && Exporter(k.session, t) != k'.session && Exporter(k.session, t) != k'.mac
      && (k.session == k'.session <==> a == a' && b == b' && c == c' && t == t')
      && (k.mac == k'.mac <==> k.session == k'.session)
      && (Exporter(k.session, t) == Exporter(k'.session, t') <==> k.session == k'.session)
  {
    var (k, k') := (Derive3dh(a, b, c, t), Derive3dh(a', b', c', t'));
    assert k.session.args == k.mac.args == [a, b, c, List(t)];
    assert k'.session.args == k'.mac.args == [a', b', c', List(t')];
    FourTerms(a, b, c, List(t), a', b', c', List(t'));
    assert Exporter(k.session, t).args[0] == k.session && Exporter(k'.session, t').args[0] == k'.session;
  }

  lemma FourTerms(a: Term, b: Term, c: Term, d: Term, a': Term, b': Term, c': Term, d': Term)
    ensures [a, b, c, d] == [a', b', c', d'] <==> a == a' && b == b' && c == c' && d == d'
  {
    var x, y := [a, b, c, d], [a', b', c', d'];
    if x == y {
      assert x[0] == y[0] && x[1] == y[1] && x[2] == y[2] && x[3] == y[3];
    }
  }

  // ---------------------------------------------------------------- registration

  /** `registration_start` */
  function RegistrationStart(setup: Setup, user: nat, blind: nat): Result<bytes>
    requires Params(setup.c)
  {
    Oprf.Blind(setup.c, blind, setup.hashToCurve(user))
  }

  /** `registration_respond`, the evaluated point next to the server's public key. */
  function RegistrationRespond(setup: Setup, sPriv: Owner, oprfKey: nat, m: bytes): Result<(bytes, Term)>
    requires Params(setup.c)
  {
    var z :- Oprf.Evaluate(setup.c, oprfKey, m);
    Ok((z, Pub(sPriv)))
  }

  /** `registration_finish` with the fresh key pair, salt and nonce as arguments. */
  function RegistrationFinish(setup: Setup, user: nat, blind: nat, z: bytes, sPub: Owner,
                              cPriv: Owner, salt: Term, nonce: Term): Result<(Term, Term)>
    requires Params(setup.c)
  {
    var rw :- Finalize(setup, user, blind, z);
    Ok((Pub(cPriv), SealEnvelope(rw, salt, nonce, cPriv, sPub)))
  }

  // ---------------------------------------------------------------- login

  /** `login_start` of the client. */
  function ClientLoginStart(setup: Setup, user: nat, blind: nat, eph: Owner, nonceC: Term): Result<ClientState>
    requires Params(setup.c)
  {
    var m :- Oprf.Blind(setup.c, blind, setup.hashToCurve(user));
    Ok(ClientState(user, blind, eph, Ke1(m, nonceC, Pub(eph))))
  }

  /** `login_start` of the server; None where loading a public key or the OPRF raises. */
  function ServerLoginStart(setup: Setup, sPriv: Owner, record: Record, isFake: bool, ke1: Ke1,
                            eph: Owner, nonceS: Term): Option<(Ke2, ServerState)>
    requires Params(setup.c)
  {
    match (Oprf.Evaluate(setup.c, record.oprfKey, ke1.m), ke1.cEphPub, record.cPub)
    case (Ok(z), Pub(cEph), Pub(cStatic)) =>
      var transcript := Transcript(ke1, z, record.envelope, nonceS, Pub(eph));
      var keys := Derive3dh(Shared(sPriv, cEph), Shared(eph, cStatic), Shared(eph, cEph), transcript);
      var mac := ServerMac(keys, transcript);
      Some((Ke2(z, record.envelope, nonceS, Pub(eph), mac), ServerState(keys, transcript, mac, isFake)))
    case _ => None
  }

  /** `login_finish` of the client; None where it raises. */
  function ClientLoginFinish(setup: Setup, st: ClientState, ke2: Ke2): Option<Outcome>
    requires Params(setup.c)
  {
    match (Finalize(setup, st.user, st.blind, ke2.z), ke2.sEphPub)
    case (Ok(rw), Pub(sEph)) =>
      (match OpenEnvelope(rw, ke2.envelope)
       case Some((cPriv, sPub)) =>
         var transcript := ClientTranscript(st, ke2);
         var keys := Derive3dh(Shared(st.eph, sPub), Shared(cPriv, sEph), Shared(st.eph, sEph), transcript);
         if ke2.serverMac == ServerMac(keys, transcript) then
           Some(Outcome(keys.session, Exporter(keys.session, transcript), ClientMac(keys, transcript, ke2.serverMac)))
         else None
       case None => None)
    case _ => None
  }

  function ClientTranscript(st: ClientState, ke2: Ke2): seq<Term> {
    Transcript(st.ke1, ke2.z, ke2.envelope, ke2.nonceS, ke2.sEphPub)
  }

  /** `login_finish` of the server; None where it raises. */
  function ServerLoginFinish(st: ServerState, ke3: Term): Option<(Term, Term)> {
    if st.isFake then None
    else if ke3 != ClientMac(st.keys, st.transcript, st.serverMac) then None
    else Some((st.keys.session, Exporter(st.keys.session, st.transcript)))
  }

  // ---------------------------------------------------------------- the messages, spelled out

  /** What both sides hash, key by key: the exchange, and the three shared secrets with it. */
  datatype Spelled = Spelled(exchange: seq<Term>, secrets: seq<Term>)

  function SpellOut(m: bytes, nonceC: Term, cEph: Owner, z: bytes, envelope: Term, nonceS: Term, sEph: Owner,
                    sPriv: Owner, cPriv: Owner): Spelled {
    var exchange := [Data(m), nonceC, Pub(cEph), Data(z), envelope, nonceS, Pub(sEph)];
    Spelled(exchange, [Shared(sPriv, cEph), Shared(sEph, cPriv), Shared(sEph, cEph), List(exchange)])
  }

  /** An upload is made exactly when the answer unblinds: the new public key, and under the password key the new
      private key with the server's public key. */
  lemma UploadSpelled(setup: Setup, user: nat, blind: nat, z: bytes, sPub: Owner, cPriv: Owner, salt: Term, nonce: Term)
    requires Params(setup.c)
    ensures RegistrationFinish(setup, user, blind, z, sPub, cPriv, salt, nonce) ==
      match Oprf.Unblind(setup.c, blind, z)
      case Err(e) => Err(e)
      case Ok(n) =>
        var rw := Fn(OprfOutput, [Data(n), Fn(Sha512, [Password(user)])]);
        var key := Fn(EnvelopeKey, [Fn(Argon2id, [rw, salt])]);
        Ok((Pub(cPriv), List([salt, nonce, Seal(key, nonce, [Scalar(cPriv), Pub(sPub)])])))
  {
  }

  /** The server answers exactly when the point evaluates and both public keys load; then every field of the
      exchange is under its MAC. */
  lemma AnswerSpelled(setup: Setup, sPriv: Owner, record: Record, isFake: bool, ke1: Ke1, eph: Owner, nonceS: Term)
    requires Params(setup.c)
    ensures var answer, z := ServerLoginStart(setup, sPriv, record, isFake, ke1, eph, nonceS),
        Oprf.Evaluate(setup.c, record.oprfKey, ke1.m);
      if z.Ok? && ke1.cEphPub.Pub? && record.cPub.Pub? then
        var t := SpellOut(ke1.m, ke1.nonceC, ke1.cEphPub.x, z.value, record.envelope, nonceS, eph, sPriv,
                          record.cPub.x);
        var mac := Mac(Fn(MacKey, t.secrets), [Data(Ascii("server"))] + t.exchange);
        answer == Some((Ke2(z.value, record.envelope, nonceS, Pub(eph), mac),
                        ServerState(Keys(Fn(SessionKey, t.secrets), Fn(MacKey, t.secrets)), t.exchange, mac, isFake)))
      else answer.None?
  {
  }

  /** The client goes on exactly when its password key opens the envelope, the server's key loads and the MAC is the
      server's over the exchange as the client saw it; what it then computes, spelled out. */
  lemma FinishSpelled(setup: Setup, st: ClientState, ke2: Ke2)
    requires Params(setup.c) && st.ke1.cEphPub == Pub(st.eph)
    ensures var n := Oprf.Unblind(setup.c, st.blind, ke2.z);
      var found := if n.Ok? then
          OpenEnvelope(Fn(OprfOutput, [Data(n.value), Fn(Sha512, [Password(st.user)])]), ke2.envelope)
        else None;
      if found.Some? && ke2.sEphPub.Pub? then
        var t := SpellOut(st.ke1.m, st.ke1.nonceC, st.eph, ke2.z, ke2.envelope, ke2.nonceS, ke2.sEphPub.x,
                          found.value.1, found.value.0);
        var k, session := Fn(MacKey, t.secrets), Fn(SessionKey, t.secrets);
        ClientLoginFinish(setup, st, ke2) ==
          if ke2.serverMac == Mac(k, [Data(Ascii("server"))] + t.exchange) then
            Some(Outcome(session, Fn(ExportKey, [session, List(t.exchange)]),
                         Mac(k, [Data(Ascii("client"))] + t.exchange + [ke2.serverMac])))
          else None
      else ClientLoginFinish(setup, st, ke2).None?
  {
    var n := Oprf.Unblind(setup.c, st.blind, ke2.z);
    if n.Ok? && ke2.sEphPub.Pub? {
      var found := OpenEnvelope(RandomizedPassword(n.value, st.user), ke2.envelope);
      if found.Some? {
        SharedCommutes(st.eph, found.value.1);
        SharedCommutes(found.value.0, ke2.sEphPub.x);
        SharedCommutes(st.eph, ke2.sEphPub.x);
      }
    }
  }

  // ---------------------------------------------------------------- completeness

  /** The record an honest registration leaves, when both sides follow the protocol. */
  ghost predicate HonestlyRegistered(setup: Setup, sPriv: Owner, user: nat, cPriv: Owner, record: Record)
    requires Params(setup.c)
  {
    exists blind: nat, salt, nonce :: blind % setup.c.n != 0 &&
      RegistrationOf(setup, sPriv, user, blind, cPriv, salt, nonce, record)
  }

  /** One registration run with the given random choices ends in this record. */
  ghost predicate RegistrationOf(setup: Setup, sPriv: Owner, user: nat, blind: nat, cPriv: Owner,
                                 salt: Term, nonce: Term, record: Record)
    requires Params(setup.c)
  {
    var m := RegistrationStart(setup, user, blind);
    m.Ok? &&
    var response := RegistrationRespond(setup, sPriv, record.oprfKey, m.value);
    response.Ok? &&
    RegistrationFinish(setup, user, blind, response.value.0, sPriv, cPriv, salt, nonce)
      == Ok((record.cPub, record.envelope))
  }

  /** With a password point on the curve and the keys in range, registration never raises. */
  lemma RegistrationCompletes(setup: Setup, H: Point, sPriv: Owner, user: nat, blind: nat, oprfKey: nat,
                              cPriv: Owner, salt: Term, nonce: Term) returns (record: Record)
    requires Group(setup.c) && OnCurve(setup.c, H) && H.Affine? && setup.hashToCurve(user) == Compress(H)
    requires blind % setup.c.n != 0 && oprfKey % setup.c.n != 0
    ensures record.oprfKey == oprfKey && record.cPub == Pub(cPriv)
    ensures RegistrationOf(setup, sPriv, user, blind, cPriv, salt, nonce, record)
    ensures HonestlyRegistered(setup, sPriv, user, cPriv, record)
  {
    Oprf.BlindIndependence(setup.c, blind, oprfKey, H);
    record := RecordOf(setup, sPriv, user, blind, oprfKey, cPriv, salt, nonce);
  }

  lemma RecordOf(setup: Setup, sPriv: Owner, user: nat, blind: nat, oprfKey: nat,
                 cPriv: Owner, salt: Term, nonce: Term) returns (record: Record)
    requires Params(setup.c) && Oprf.Protocol(setup.c, blind, oprfKey, setup.hashToCurve(user)).Ok?
    ensures record.oprfKey == oprfKey && record.cPub == Pub(cPriv)
    ensures RegistrationOf(setup, sPriv, user, blind, cPriv, salt, nonce, record)
  {
    var m := RegistrationStart(setup, user, blind).value;
    var z := RegistrationRespond(setup, sPriv, oprfKey, m).value.0;
    var upload := RegistrationFinish(setup, user, blind, z, sPriv, cPriv, salt, nonce).value;
    record := Record(oprfKey, upload.0, upload.1);
  }

  /** Registration with any blind stores the envelope under the key-dependent point alone. */
  lemma RegisteredEnvelope(setup: Setup, H: Point, sPriv: Owner, user: nat, cPriv: Owner, record: Record)
      returns (salt: Term, nonce: Term)
    requires Group(setup.c) && OnCurve(setup.c, H) && H.Affine? && setup.hashToCurve(user) == Compress(H)
    requires record.oprfKey % setup.c.n != 0 && HonestlyRegistered(setup, sPriv, user, cPriv, record)
    ensures Times(setup.c, record.oprfKey, Compress(H)).Ok? && record.cPub == Pub(cPriv)
    ensures var n := Times(setup.c, record.oprfKey, Compress(H)).value;
      record.envelope == SealEnvelope(RandomizedPassword(n, user), salt, nonce, cPriv, sPriv)
  {
    var blind: nat, s, n :| blind % setup.c.n != 0 &&
      RegistrationOf(setup, sPriv, user, blind, cPriv, s, n, record);
    salt, nonce := s, n;
    Oprf.BlindIndependence(setup.c, blind, record.oprfKey, H);
  }

  /** Every field of an honest login with the registered password goes through: both MAC checks pass
      and both sides end with the same session and export key. */
  lemma LoginCompletes(setup: Setup, H: Point, sPriv: Owner, user: nat, cPriv: Owner, record: Record,
                       blind: nat, cEph: Owner, nonceC: Term, sEph: Owner, nonceS: Term)
    requires Group(setup.c) && OnCurve(setup.c, H) && H.Affine? && setup.hashToCurve(user) == Compress(H)
    requires record.oprfKey % setup.c.n != 0 && HonestlyRegistered(setup, sPriv, user, cPriv, record)
    requires blind % setup.c.n != 0
    ensures var client := ClientLoginStart(setup, user, blind, cEph, nonceC);
      client.Ok? &&
      var server := ServerLoginStart(setup, sPriv, record, false, client.value.ke1, sEph, nonceS);
      server.Some? &&
      var done := ClientLoginFinish(setup, client.value, server.value.0);
      done.Some? &&
      ServerLoginFinish(server.value.1, done.value.ke3) == Some((done.value.sessionKey, done.value.exportKey))
  {
    var salt, nonce := RegisteredEnvelope(setup, H, sPriv, user, cPriv, record);
    Oprf.BlindIndependence(setup.c, blind, record.oprfKey, H);
    SymbolicLogin(setup, sPriv, user, cPriv, record, salt, nonce, blind, cEph, nonceC, sEph, nonceS);
  }

  /** The symbolic half of completeness: equal OPRF outputs lead to equal keys. */
  lemma SymbolicLogin(setup: Setup, sPriv: Owner, user: nat, cPriv: Owner, record: Record, salt: Term, nonce: Term,
                      blind: nat, cEph: Owner, nonceC: Term, sEph: Owner, nonceS: Term)
    requires Params(setup.c) && record.cPub == Pub(cPriv)
    requires var n := Times(setup.c, record.oprfKey, setup.hashToCurve(user));
      && n.Ok? && record.envelope == SealEnvelope(RandomizedPassword(n.value, user), salt, nonce, cPriv, sPriv)
      && Oprf.Protocol(setup.c, blind, record.oprfKey, setup.hashToCurve(user)) == n
    ensures var client := ClientLoginStart(setup, user, blind, cEph, nonceC);
      client.Ok? &&
      var server := ServerLoginStart(setup, sPriv, record, false, client.value.ke1, sEph, nonceS);
      server.Some? &&
      var done := ClientLoginFinish(setup, client.value, server.value.0);
      done.Some? &&
      ServerLoginFinish(server.value.1, done.value.ke3) == Some((done.value.sessionKey, done.value.exportKey))
  {
    var client := ClientLoginStart(setup, user, blind, cEph, nonceC).value;
    AnswerFields(setup, sPriv, cPriv, record, client, sEph, nonceS);
    var server := ServerLoginStart(setup, sPriv, record, false, client.ke1, sEph, nonceS).value;
    OpenSealed(Finalize(setup, user, blind, server.0.z).value, salt, nonce, cPriv, sPriv);
    BothFinish(setup, client, server.0, server.1, cPriv, sPriv, sEph);
  }

  /** What the server's answer to a client's first message consists of. */
  lemma AnswerFields(setup: Setup, sPriv: Owner, cPriv: Owner, record: Record,
                     st: ClientState, sEph: Owner, nonceS: Term)
    requires Params(setup.c) && record.cPub == Pub(cPriv) && st.ke1.cEphPub == Pub(st.eph)
    requires Oprf.Evaluate(setup.c, record.oprfKey, st.ke1.m).Ok?
    ensures var answer := ServerLoginStart(setup, sPriv, record, false, st.ke1, sEph, nonceS);
      answer.Some? &&
      var (ke2, ss) := answer.value;
      && Ok(ke2.z) == Oprf.Evaluate(setup.c, record.oprfKey, st.ke1.m)
      && ke2.envelope == record.envelope && ke2.sEphPub == Pub(sEph) && !ss.isFake
      && ss.transcript == ClientTranscript(st, ke2)
      && ke2.serverMac == ss.serverMac == ServerMac(ss.keys, ss.transcript)
      && ss.keys == Derive3dh(Shared(sPriv, st.eph), Shared(sEph, cPriv), Shared(sEph, st.eph), ss.transcript)
  {
  }

  /** Once the envelope opens, both sides hold the same three shared secrets and accept each other. */
  lemma BothFinish(setup: Setup, st: ClientState, ke2: Ke2, ss: ServerState, cPriv: Owner, sPriv: Owner, sEph: Owner)
    requires Params(setup.c) && ke2.sEphPub == Pub(sEph) && !ss.isFake
    requires var rw := Finalize(setup, st.user, st.blind, ke2.z);
      rw.Ok? && OpenEnvelope(rw.value, ke2.envelope) == Some((cPriv, sPriv))
    requires ss.transcript == ClientTranscript(st, ke2) &&
      ke2.serverMac == ss.serverMac == ServerMac(ss.keys, ss.transcript)
    requires ss.keys == Derive3dh(Shared(sPriv, st.eph), Shared(sEph, cPriv), Shared(sEph, st.eph), ss.transcript)
    ensures var done := ClientLoginFinish(setup, st, ke2);
      done.Some? && ServerLoginFinish(ss, done.value.ke3) == Some((done.value.sessionKey, done.value.exportKey))
  {
    SharedCommutes(sPriv, st.eph);
    SharedCommutes(sEph, cPriv);
    SharedCommutes(sEph, st.eph);
  }

  /** The stored envelope opens exactly for the registered password and the point that the registered OPRF key gives:
      an answer evaluated under any other key is worth nothing. */
  lemma EnvelopeOpens(setup: Setup, H: Point, sPriv: Owner, user: nat, cPriv: Owner, record: Record,
                      st: ClientState, z: bytes)
    requires Group(setup.c) && OnCurve(setup.c, H) && H.Affine? && setup.hashToCurve(user) == Compress(H)
    requires record.oprfKey % setup.c.n != 0 && HonestlyRegistered(setup, sPriv, user, cPriv, record)
    ensures var rw := Finalize(setup, st.user, st.blind, z);
      rw.Ok? && OpenEnvelope(rw.value, record.envelope).Some? <==>
      st.user == user && Oprf.Unblind(setup.c, st.blind, z) == Times(setup.c, record.oprfKey, Compress(H))
  {
    var salt, nonce := RegisteredEnvelope(setup, H, sPriv, user, cPriv, record);
    var n := Times(setup.c, record.oprfKey, Compress(H)).value;
    OpensUnderOne(setup, n, user, salt, nonce, cPriv, sPriv, record.envelope, st, z);
  }

  lemma OpensUnderOne(setup: Setup, n: bytes, user: nat, salt: Term, nonce: Term, cPriv: Owner, sPriv: Owner,
                      envelope: Term, st: ClientState, z: bytes)
    requires Params(setup.c)
    requires envelope == SealEnvelope(RandomizedPassword(n, user), salt, nonce, cPriv, sPriv)
    ensures var rw := Finalize(setup, st.user, st.blind, z);
      rw.Ok? && OpenEnvelope(rw.value, envelope).Some? <==>
      st.user == user && Oprf.Unblind(setup.c, st.blind, z) == Ok(n)
  {
    var n' := Oprf.Unblind(setup.c, st.blind, z);
    if n'.Ok? {
      EnvKeySeparates(n, user, salt, n'.value, st.user, salt);
      OpenSealed(RandomizedPassword(n, user), salt, nonce, cPriv, sPriv);
    }
  }

  /** With any other password, or an answer evaluated under another OPRF key, the client refuses, whatever the rest
      of the server's answer is built from. */
  lemma WrongPassword(setup: Setup, H: Point, sPriv: Owner, user: nat, cPriv: Owner, record: Record,
                      st: ClientState, ke2: Ke2)
    requires Group(setup.c) && OnCurve(setup.c, H) && H.Affine? && setup.hashToCurve(user) == Compress(H)
    requires record.oprfKey % setup.c.n != 0 && HonestlyRegistered(setup, sPriv, user, cPriv, record)
    requires ke2.envelope == record.envelope
    requires st.user != user ||
      Oprf.Unblind(setup.c, st.blind, ke2.z) != Times(setup.c, record.oprfKey, Compress(H))
    ensures ClientLoginFinish(setup, st, ke2).None?
  {
    EnvelopeOpens(setup, H, sPriv, user, cPriv, record, st, ke2.z);
  }

  /** So an honest login under another OPRF key than the registered one is refused: the unblinded points differ
      unless the keys are equal modulo the group order. */
  lemma WrongKey(setup: Setup, H: Point, sPriv: Owner, user: nat, cPriv: Owner, record: Record,
                 st: ClientState, key: nat, ke2: Ke2)
    requires Group(setup.c) && OnCurve(setup.c, H) && H.Affine? && setup.hashToCurve(user) == Compress(H)
    requires record.oprfKey % setup.c.n != 0 && HonestlyRegistered(setup, sPriv, user, cPriv, record)
    requires ClientLoginStart(setup, user, st.blind, st.eph, st.ke1.nonceC) == Ok(st)
    requires Oprf.Evaluate(setup.c, key, st.ke1.m) == Ok(ke2.z) && ke2.envelope == record.envelope
    requires key % setup.c.n != record.oprfKey % setup.c.n
    ensures ClientLoginFinish(setup, st, ke2).None?
  {
    AnswerUnblinds(setup, user, st, key, ke2.z);
    Oprf.BlindIndependence(setup.c, st.blind, key, H);
    if st.blind % setup.c.n != 0 {
      Oprf.KeysDiffer(setup.c, st.blind, key, record.oprfKey, H);
    } else {
      TimesIsMult(setup.c, record.oprfKey, H);
    }
    WrongPassword(setup, H, sPriv, user, cPriv, record, st, ke2);
  }

  lemma AnswerUnblinds(setup: Setup, user: nat, st: ClientState, key: nat, z: bytes)
    requires Params(setup.c) && ClientLoginStart(setup, user, st.blind, st.eph, st.ke1.nonceC) == Ok(st)
    requires Oprf.Evaluate(setup.c, key, st.ke1.m) == Ok(z)
    ensures Oprf.Unblind(setup.c, st.blind, z) == Oprf.Protocol(setup.c, st.blind, key, setup.hashToCurve(user))
  {
  }
}
