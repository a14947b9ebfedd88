/** From every reachable state, whatever the attacker has done so far, an honest registration can still
    be made and an honest login still succeeds: the agreement theorems are not about an empty set of runs. */
module Completeness {
  import opened Bytes
  import opened CurveArithmetic
  import opened Terms
  import opened Opaque
  import opened Handshake
  import Agreement
  import Oprf

  // ---------------------------------------------------------------- paths between states

  /** One legal event leads from s to s'. */
  ghost predicate Leads(setup: Setup, s: State, ev: Event, s': State)
    requires Params(setup.c)
  {
    Legal(s, ev) && s' == Handshake.Apply(setup, s, ev)
  }

  /** Four events and the states they lead to. */
  datatype Path = Path(e0: Event, s0: State, e1: Event, s1: State, e2: Event, s2: State, e3: Event, s3: State)

  function Events(p: Path): seq<Event> {
    [p.e0, p.e1, p.e2, p.e3]
  }

  ghost predicate IsPath(setup: Setup, s: State, p: Path)
    requires Params(setup.c)
  {
    Leads(setup, s, p.e0, p.s0) && Leads(setup, p.s0, p.e1, p.s1) &&
    Leads(setup, p.s1, p.e2, p.s2) && Leads(setup, p.s2, p.e3, p.s3)
  }

  lemma Snoc(setup: Setup, events: seq<Event>, s: State, ev: Event, s': State)
    requires Params(setup.c) && LegalRun(setup, events) && Run(setup, events) == s && Leads(setup, s, ev, s')
    ensures LegalRun(setup, events + [ev]) && Run(setup, events + [ev]) == s'
  {
    assert (events + [ev])[..|events|] == events;
  }

  /** Such events extend any run that ends in s. */
  lemma Continue(setup: Setup, events: seq<Event>, s: State, p: Path)
    requires Params(setup.c) && LegalRun(setup, events) && Run(setup, events) == s && IsPath(setup, s, p)
    ensures LegalRun(setup, events + Events(p)) && Run(setup, events + Events(p)) == p.s3
  {
    var r0, r1 := events + [p.e0], events + [p.e0, p.e1];
    var r2 := events + [p.e0, p.e1, p.e2];
    assert r1 == r0 + [p.e1] && r2 == r1 + [p.e2] && events + Events(p) == r2 + [p.e3];
    Snoc(setup, events, s, p.e0, p.s0);
    Snoc(setup, r0, p.s0, p.e1, p.s1);
    Snoc(setup, r1, p.s1, p.e2, p.s2);
    Snoc(setup, r2, p.s2, p.e3, p.s3);
  }

  /** What was sent can be delivered. */
  lemma SentIsDerivable(net: set<Term>, t: Term)
    requires t in net
    ensures Derivable(net, t)
  {
    assert Yields(net, Seen(t)) == Some(t);
  }

  // ---------------------------------------------------------------- registration

  predicate Stored(s: State, credential: bytes, record: Record) {
    credential in s.records && s.records[credential] == record
  }

  /** The values of an honest registration. */
  lemma RegistrationValues(setup: Setup, H: Point, user: nat, blind: nat, oprfKey: nat) returns (m: bytes, z: bytes)
    requires Group(setup.c) && OnCurve(setup.c, H) && H.Affine? && setup.hashToCurve(user) == Compress(H)
    requires blind % setup.c.n != 0 && oprfKey % setup.c.n != 0
    ensures RegistrationStart(setup, user, blind) == Ok(m)
    ensures RegistrationRespond(setup, SERVER, oprfKey, m) == Ok((z, Pub(SERVER))) &&
      Oprf.Unblind(setup.c, blind, z).Ok?
  {
    Oprf.BlindIndependence(setup.c, blind, oprfKey, H);
    m := RegistrationStart(setup, user, blind).value;
    z := RegistrationRespond(setup, SERVER, oprfKey, m).value.0;
  }

  lemma UploadValues(setup: Setup, user: nat, blind: nat, oprfKey: nat, m: bytes, z: bytes,
                    cPriv: Owner, salt: Term, nonce: Term)
      returns (cPub: Term, envelope: Term)
    requires Params(setup.c) && blind % setup.c.n != 0 && RegistrationStart(setup, user, blind) == Ok(m)
    requires RegistrationRespond(setup, SERVER, oprfKey, m) == Ok((z, Pub(SERVER))) &&
      Oprf.Unblind(setup.c, blind, z).Ok?
    ensures RegistrationFinish(setup, user, blind, z, SERVER, cPriv, salt, nonce) == Ok((cPub, envelope))
    ensures HonestlyRegistered(setup, SERVER, user, cPriv, Record(oprfKey, cPub, envelope))
  {
    var upload := RegistrationFinish(setup, user, blind, z, SERVER, cPriv, salt, nonce).value;
    cPub, envelope := upload.0, upload.1;
    assert RegistrationOf(setup, SERVER, user, blind, cPriv, salt, nonce, Record(oprfKey, cPub, envelope));
  }

  lemma ClientRegisters(setup: Setup, s: State, user: nat, blind: nat, m: bytes) returns (s': State)
    requires Params(setup.c) && RegistrationStart(setup, user, blind) == Ok(m)
    ensures Leads(setup, s, RegStart(user, blind), s')
    ensures s' == s.(regs := s.regs + [RegSession(user, blind)], net := s.net + {Data(m)})
  {
    s' := Handshake.Apply(setup, s, RegStart(user, blind));
  }

  lemma ServerEvaluates(setup: Setup, s: State, credential: bytes, oprfKey: nat, m: bytes, z: bytes) returns (s': State)
    requires Params(setup.c) && RegistrationRespond(setup, SERVER, oprfKey, m) == Ok((z, Pub(SERVER)))
    ensures Leads(setup, s, RegRespond(credential, oprfKey, m), s')
    ensures s' == s.(pending := s.pending + [Pending(credential, oprfKey)], net := s.net + {Data(z), Pub(SERVER)})
  {
    s' := Handshake.Apply(setup, s, RegRespond(credential, oprfKey, m));
  }

  lemma ClientUploads(setup: Setup, s: State, i: nat, user: nat, blind: nat, z: bytes, cPub: Term, envelope: Term)
      returns (s': State)
    requires Params(setup.c) && Pub(SERVER) in s.net && i < |s.regs| && s.regs[i] == RegSession(user, blind)
    requires RegistrationFinish(setup, user, blind, z, SERVER,
                                Honest(s.drawn), Random(s.drawn + 1), Random(s.drawn + 2))
      == Ok((cPub, envelope))
    ensures Leads(setup, s, RegFinish(i, z, Pub(SERVER)), s')
    ensures s'.pending == s.pending && {cPub, envelope} <= s'.net
  {
    SentIsDerivable(s.net, Pub(SERVER));
    s' := Handshake.Apply(setup, s, RegFinish(i, z, Pub(SERVER)));
  }

  lemma ServerStores(setup: Setup, s: State, j: nat, oprfKey: nat, credential: bytes, cPub: Term, envelope: Term)
      returns (s': State)
    requires Params(setup.c) && {cPub, envelope} <= s.net
    requires j < |s.pending| && s.pending[j] == Pending(credential, oprfKey)
    ensures Leads(setup, s, RegStore(j, cPub, envelope), s')
    ensures Stored(s', credential, Record(oprfKey, cPub, envelope))
  {
    SentIsDerivable(s.net, cPub);
    SentIsDerivable(s.net, envelope);
    s' := Handshake.Apply(setup, s, RegStore(j, cPub, envelope));
  }

  lemma RegistrationSteps(setup: Setup, s: State, H: Point, user: nat, blind: nat, oprfKey: nat, credential: bytes)
      returns (p: Path, cPriv: Owner, record: Record)
    requires Group(setup.c) && OnCurve(setup.c, H) && H.Affine? && setup.hashToCurve(user) == Compress(H)
    requires blind % setup.c.n != 0 && oprfKey % setup.c.n != 0
    ensures IsPath(setup, s, p) && Stored(p.s3, credential, record)
    ensures record.oprfKey == oprfKey && HonestlyRegistered(setup, SERVER, user, cPriv, record)
  {
    var m, z := RegistrationValues(setup, H, user, blind, oprfKey);
    var a := ClientRegisters(setup, s, user, blind, m);
    var b := ServerEvaluates(setup, a, credential, oprfKey, m, z);
    cPriv := Honest(b.drawn);
    var cPub, envelope :=
      UploadValues(setup, user, blind, oprfKey, m, z, cPriv, Random(b.drawn + 1), Random(b.drawn + 2));
    var c := ClientUploads(setup, b, |s.regs|, user, blind, z, cPub, envelope);
    var d := ServerStores(setup, c, |s.pending|, oprfKey, credential, cPub, envelope);
    record := Record(oprfKey, cPub, envelope);
    p := Path(RegStart(user, blind), a, RegRespond(credential, oprfKey, m), b, RegFinish(|s.regs|, z, Pub(SERVER)), c,
              RegStore(|s.pending|, cPub, envelope), d);
  }

  /** After any run a user whose password hashes to a curve point can register. */
  lemma RegistrationPossible(setup: Setup, events: seq<Event>, H: Point, user: nat, blind: nat,
                             oprfKey: nat, credential: bytes)
      returns (evs: seq<Event>, cPriv: Owner, record: Record)
    requires Group(setup.c) && OnCurve(setup.c, H) && H.Affine? && setup.hashToCurve(user) == Compress(H)
    requires LegalRun(setup, events) && blind % setup.c.n != 0 && oprfKey % setup.c.n != 0
    ensures LegalRun(setup, events + evs) && Stored(Run(setup, events + evs), credential, record)
    ensures record.oprfKey == oprfKey && HonestlyRegistered(setup, SERVER, user, cPriv, record)
  {
    var p;
    p, cPriv, record := RegistrationSteps(setup, Run(setup, events), H, user, blind, oprfKey, credential);
    evs := Events(p);
    Continue(setup, events, Run(setup, events), p);
  }

  // ---------------------------------------------------------------- login

  /** Client i and server j of this state have accepted each other. */
  ghost predicate LoggedIn(s: State, i: nat, j: nat) {
    Agreement.Matches(s, i, j) && s.servers[j].phase == Accepted
  }

  /** The server accepts what the client sends last, and both hold the same exchange and keys. */
  predicate Agreed(client: ClientState, ke2: Ke2, server: ServerState, done: Outcome) {
    && ServerLoginFinish(server, done.ke3).Some?
    && ClientTranscript(client, ke2) == server.transcript && ke2.serverMac == server.serverMac
    && done.sessionKey == server.keys.session && done.exportKey == Exporter(server.keys.session, server.transcript)
    && done.ke3 == ClientMac(server.keys, server.transcript, server.serverMac)
  }

  /** The values of an honest login, and what both sides then agree on. */
  lemma LoginValues(setup: Setup, H: Point, user: nat, cPriv: Owner, record: Record, blind: nat, n: nat)
      returns (client: ClientState, ke2: Ke2, server: ServerState, done: Outcome)
    requires Group(setup.c) && OnCurve(setup.c, H) && H.Affine? && setup.hashToCurve(user) == Compress(H)
    requires record.oprfKey % setup.c.n != 0 &&
      HonestlyRegistered(setup, SERVER, user, cPriv, record) && blind % setup.c.n != 0
    ensures ClientLoginStart(setup, user, blind, Honest(n), Random(n + 1)) == Ok(client)
    ensures ServerLoginStart(setup, SERVER, record, false, client.ke1, Honest(n + 2), Random(n + 7))
      == Some((ke2, server))
    ensures ClientLoginFinish(setup, client, ke2) == Some(done) && Agreed(client, ke2, server, done)
  {
    LoginCompletes(setup, H, SERVER, user, cPriv, record, blind, Honest(n), Random(n + 1),
                   Honest(n + 2), Random(n + 7));
    client := ClientLoginStart(setup, user, blind, Honest(n), Random(n + 1)).value;
    var answer := ServerLoginStart(setup, SERVER, record, false, client.ke1, Honest(n + 2), Random(n + 7)).value;
    ke2, server := answer.0, answer.1;
    done := ClientLoginFinish(setup, client, ke2).value;
  }

  lemma ClientOpens(setup: Setup, s: State, user: nat, blind: nat, client: ClientState) returns (s': State)
    requires Params(setup.c) && ClientLoginStart(setup, user, blind, Honest(s.drawn), Random(s.drawn + 1)) == Ok(client)
    ensures Leads(setup, s, LoginStart(user, blind), s') && s' == Started(s, ClientSession(client, Sent))
    ensures {client.ke1.nonceC, client.ke1.cEphPub} <= s'.net
  {
    s' := Handshake.Apply(setup, s, LoginStart(user, blind));
  }

  lemma ServerAnswers(setup: Setup, s: State, credential: bytes, v: ServerSession) returns (s': State)
    requires Params(setup.c) && Stored(s, credential, v.record)
    requires Derivable(s.net, v.ke1.nonceC) && Derivable(s.net, v.ke1.cEphPub)
    requires v.eph == Honest(s.drawn) && v.nonceS == Random(s.drawn + 5) && v.phase == Waiting
    requires ServerLoginStart(setup, SERVER, v.record, false, v.ke1, v.eph, v.nonceS) == Some((v.ke2, v.st))
    ensures Leads(setup, s, ServerStart(credential, v.ke1, 0), s') && s' == Responded(s, v)
  {
    RespondedIs(setup, s, credential, v);
    s' := Handshake.Apply(setup, s, ServerStart(credential, v.ke1, 0));
  }

  lemma RespondedIs(setup: Setup, s: State, credential: bytes, v: ServerSession)
    requires Params(setup.c) && Stored(s, credential, v.record)
    requires v.eph == Honest(s.drawn) && v.nonceS == Random(s.drawn + 5) && v.phase == Waiting
    requires ServerLoginStart(setup, SERVER, v.record, false, v.ke1, v.eph, v.nonceS) == Some((v.ke2, v.st))
    ensures Respond(setup, s, credential, 0, v.ke1) == Responded(s, v)
  {
  }

  lemma ClientAccepts(setup: Setup, s: State, i: nat, client: ClientState, ke2: Ke2, done: Outcome) returns (s': State)
    requires Params(setup.c) && i < |s.clients| && s.clients[i] == ClientSession(client, Sent)
    requires {ke2.envelope, ke2.nonceS, ke2.sEphPub, ke2.serverMac} <= s.net
    requires ClientLoginFinish(setup, client, ke2) == Some(done)
    ensures Leads(setup, s, ClientFinish(i, ke2), s') && s' == Finished(s, i, ke2, done)
  {
    SentIsDerivable(s.net, ke2.envelope);
    SentIsDerivable(s.net, ke2.nonceS);
    SentIsDerivable(s.net, ke2.sEphPub);
    SentIsDerivable(s.net, ke2.serverMac);
    s' := Handshake.Apply(setup, s, ClientFinish(i, ke2));
  }

  lemma ServerAccepts(setup: Setup, s: State, j: nat, ke3: Term) returns (s': State)
    requires Params(setup.c) && j < |s.servers| && s.servers[j].phase == Waiting && ke3 in s.net
    requires ServerLoginFinish(s.servers[j].st, ke3).Some?
    ensures Leads(setup, s, ServerFinish(j, ke3), s')
    ensures s' == s.(servers := s.servers[j := s.servers[j].(phase := Accepted)])
  {
    SentIsDerivable(s.net, ke3);
    s' := Handshake.Apply(setup, s, ServerFinish(j, ke3));
  }

  lemma LoginBegins(setup: Setup, s: State, user: nat, credential: bytes, record: Record, blind: nat,
                    client: ClientState, ke2: Ke2, server: ServerState) returns (a: State, b: State)
    requires Params(setup.c) && Stored(s, credential, record)
    requires ClientLoginStart(setup, user, blind, Honest(s.drawn), Random(s.drawn + 1)) == Ok(client)
    requires ServerLoginStart(setup, SERVER, record, false, client.ke1, Honest(s.drawn + 2), Random(s.drawn + 7))
      == Some((ke2, server))
    ensures Leads(setup, s, LoginStart(user, blind), a) && Leads(setup, a, ServerStart(credential, client.ke1, 0), b)
    ensures |b.clients| == |s.clients| + 1 && b.clients[|s.clients|] == ClientSession(client, Sent)
    ensures |b.servers| == |s.servers| + 1 &&
      b.servers[|s.servers|].st == server && b.servers[|s.servers|].phase == Waiting
    ensures {ke2.envelope, ke2.nonceS, ke2.sEphPub, ke2.serverMac} <= b.net
  {
    a := ClientOpens(setup, s, user, blind, client);
    SentIsDerivable(a.net, client.ke1.nonceC);
    SentIsDerivable(a.net, client.ke1.cEphPub);
    b := ServerAnswers(setup, a, credential,
                       ServerSession(record, client.ke1, Honest(s.drawn + 2), Random(s.drawn + 7),
                                     ke2, server, Waiting));
  }

  lemma LoginEnds(setup: Setup, s: State, i: nat, j: nat, client: ClientState,
                  ke2: Ke2, server: ServerState, done: Outcome)
      returns (c: State, d: State)
    requires Params(setup.c) && i < |s.clients| && s.clients[i] == ClientSession(client, Sent)
    requires j < |s.servers| && s.servers[j].st == server && s.servers[j].phase == Waiting
    requires {ke2.envelope, ke2.nonceS, ke2.sEphPub, ke2.serverMac} <= s.net
    requires ClientLoginFinish(setup, client, ke2) == Some(done) && Agreed(client, ke2, server, done)
    ensures Leads(setup, s, ClientFinish(i, ke2), c) &&
      Leads(setup, c, ServerFinish(j, done.ke3), d) && LoggedIn(d, i, j)
  {
    c := ClientAccepts(setup, s, i, client, ke2, done);
    d := ServerAccepts(setup, c, j, done.ke3);
  }

  /** The four steps of a login, given values with which both sides finish and agree. */
  lemma LoginPath(setup: Setup, s: State, user: nat, credential: bytes, record: Record, blind: nat,
                  client: ClientState, ke2: Ke2, server: ServerState, done: Outcome) returns (p: Path)
    requires Params(setup.c) && Stored(s, credential, record)
    requires ClientLoginStart(setup, user, blind, Honest(s.drawn), Random(s.drawn + 1)) == Ok(client)
    requires ServerLoginStart(setup, SERVER, record, false, client.ke1, Honest(s.drawn + 2), Random(s.drawn + 7))
      == Some((ke2, server))
    requires ClientLoginFinish(setup, client, ke2) == Some(done) && Agreed(client, ke2, server, done)
    ensures IsPath(setup, s, p) && LoggedIn(p.s3, |s.clients|, |s.servers|)
  {
    var a, b := LoginBegins(setup, s, user, credential, record, blind, client, ke2, server);
    var c, d := LoginEnds(setup, b, |s.clients|, |s.servers|, client, ke2, server, done);
    p := Path(LoginStart(user, blind), a, ServerStart(credential, client.ke1, 0), b, ClientFinish(|s.clients|, ke2), c,
              ServerFinish(|s.servers|, done.ke3), d);
  }

  lemma LoginSteps(setup: Setup, s: State, H: Point, user: nat, credential: bytes,
                   record: Record, cPriv: Owner, blind: nat)
      returns (p: Path)
    requires Group(setup.c) && OnCurve(setup.c, H) && H.Affine? && setup.hashToCurve(user) == Compress(H)
    requires Stored(s, credential, record) && blind % setup.c.n != 0
    requires record.oprfKey % setup.c.n != 0 && HonestlyRegistered(setup, SERVER, user, cPriv, record)
    ensures IsPath(setup, s, p) && LoggedIn(p.s3, |s.clients|, |s.servers|)
  {
    var client, ke2, server, done := LoginValues(setup, H, user, cPriv, record, blind, s.drawn);
    p := LoginPath(setup, s, user, credential, record, blind, client, ke2, server, done);
  }

  /** After any run an honest login against an honestly made record completes, and both sides match. */
  lemma LoginPossible(setup: Setup, events: seq<Event>, H: Point, user: nat, credential: bytes, record: Record,
                      cPriv: Owner, blind: nat) returns (evs: seq<Event>)
    requires Group(setup.c) && OnCurve(setup.c, H) && H.Affine? && setup.hashToCurve(user) == Compress(H)
    requires LegalRun(setup, events) && Stored(Run(setup, events), credential, record) && blind % setup.c.n != 0
    requires record.oprfKey % setup.c.n != 0 && HonestlyRegistered(setup, SERVER, user, cPriv, record)
    ensures LegalRun(setup, events + evs)
    ensures LoggedIn(Run(setup, events + evs), |Run(setup, events).clients|, |Run(setup, events).servers|)
  {
    var p := LoginSteps(setup, Run(setup, events), H, user, credential, record, cPriv, blind);
    evs := Events(p);
    Continue(setup, events, Run(setup, events), p);
  }
}
