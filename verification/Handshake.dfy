/** Every interleaving of OPAQUE registrations and logins against one server, with an attacker that
    carries all messages. A run is a list of events; the agreement theorems hold after every run. */
module Handshake {
  import opened Bytes
  import opened CurveArithmetic
  import opened Terms
  import opened Opaque

  /** The certified P-256 key, which the server also uses as its OPAQUE static key. */
  const SERVER := Honest(0)

  datatype RegSession = RegSession(user: nat, blind: nat)
  datatype Pending = Pending(credential: bytes, oprfKey: nat)

  /** An envelope some honest client uploaded. */
  datatype Enrollment = Enrollment(user: nat, cPriv: Owner, n: bytes, salt: Term, nonce: Term)

  datatype ClientPhase = Sent | Failed | Done(ke2: Ke2, out: Outcome)
  datatype ClientSession = ClientSession(st: ClientState, phase: ClientPhase)

  datatype ServerPhase = Waiting | Rejected | Accepted
  datatype ServerSession = ServerSession(record: Record, ke1: Ke1, eph: Owner, nonceS: Term, ke2: Ke2, st: ServerState,
                                         phase: ServerPhase)

  datatype State = State(
    net: set<Term>,                 // everything that was sent
    made: set<Term>,                // the MACs and seals honest parties made
    drawn: nat,                     // random values drawn so far
    records: map<bytes, Record>,    // the password database
    regs: seq<RegSession>,
    pending: seq<Pending>,
    enrolled: seq<Enrollment>,
    clients: seq<ClientSession>,
    servers: seq<ServerSession>)

  /** One step of a client, the server or a thread of it. Blinds and OPRF keys are arbitrary; every
      received value is an argument, chosen by the attacker. */
  datatype Event =
    | RegStart(user: nat, blind: nat)
    | RegRespond(credential: bytes, oprfKey: nat, m: bytes)
    | RegFinish(i: nat, z: bytes, sPub: Term)
    | RegStore(j: nat, cPub: Term, envelope: Term)
    | LoginStart(user: nat, blind: nat)
    | ServerStart(credential: bytes, ke1: Ke1, fakeKey: nat)
    | ClientFinish(i: nat, ke2: Ke2)
    | ServerFinish(j: nat, ke3: Term)

  const INIT := State({}, {}, 1, map[], [], [], [], [], [])

  /** The attacker can produce what the event receives. */
  ghost predicate Legal(s: State, ev: Event) {
    match ev
    case RegFinish(_, _, sPub) => Derivable(s.net, sPub)
    case RegStore(_, cPub, envelope) => Derivable(s.net, cPub) && Derivable(s.net, envelope)
    case ServerStart(_, ke1, _) => Derivable(s.net, ke1.nonceC) && Derivable(s.net, ke1.cEphPub)
    case ClientFinish(_, ke2) =>
      && Derivable(s.net, ke2.envelope) && Derivable(s.net, ke2.nonceS)
      && Derivable(s.net, ke2.sEphPub) && Derivable(s.net, ke2.serverMac)
    case ServerFinish(_, ke3) => Derivable(s.net, ke3)
    case _ => true
  }

  /** The sealed part of an enrollment's envelope. */
  function SealOf(e: Enrollment): Term {
    Seal(EnvKey(RandomizedPassword(e.n, e.user), e.salt), e.nonce, [Scalar(e.cPriv), Pub(SERVER)])
  }

  /** The record looked up, or the fake one with a random key pair and envelope. */
  function Lookup(s: State, credential: bytes, fakeKey: nat): Record {
    if credential in s.records then s.records[credential]
    else Record(fakeKey, Pub(Honest(s.drawn + 1)),
                List([Random(s.drawn + 2), Random(s.drawn + 3), Random(s.drawn + 4)]))
  }

  /** The state after an honest client uploaded enrollment e. */
  function Enrolled(s: State, e: Enrollment): State {
    s.(enrolled := s.enrolled + [e], made := s.made + {SealOf(e)}, drawn := s.drawn + 3,
       net := s.net + {Pub(e.cPriv), SealEnvelope(RandomizedPassword(e.n, e.user), e.salt, e.nonce, e.cPriv, SERVER)})
  }

  /** The state after the server opened session v and sent its KE2. */
  function Responded(s: State, v: ServerSession): State {
    s.(servers := s.servers + [v], drawn := s.drawn + 6, made := s.made + {v.ke2.serverMac},
       net := s.net + {Data(v.ke2.z), v.ke2.envelope, v.ke2.nonceS, v.ke2.sEphPub, v.ke2.serverMac})
  }

  /** The state after a client opened session c and sent its KE1. */
  function Started(s: State, c: ClientSession): State {
    s.(clients := s.clients + [c], drawn := s.drawn + 2,
       net := s.net + {Data(c.st.ke1.m), c.st.ke1.nonceC, c.st.ke1.cEphPub})
  }

  /** The state after client i accepted and sent KE3. */
  function Finished(s: State, i: nat, ke2: Ke2, out: Outcome): State
    requires i < |s.clients|
  {
    s.(clients := s.clients[i := s.clients[i].(phase := Done(ke2, out))],
       made := s.made + {out.ke3}, net := s.net + {out.ke3})
  }

  /** The state after server session j checked KE3. */
  function Decided(s: State, j: nat, phase: ServerPhase): State
    requires j < |s.servers|
  {
    s.(servers := s.servers[j := s.servers[j].(phase := phase)])
  }

  function Apply(setup: Setup, s: State, ev: Event): State
    requires Params(setup.c)
  {
    match ev
    case RegStart(user, blind) =>
      (match RegistrationStart(setup, user, blind)
       case Ok(m) => s.(regs := s.regs + [RegSession(user, blind)], net := s.net + {Data(m)})
       case Err(_) => s)
    case RegRespond(credential, oprfKey, m) =>
      (match RegistrationRespond(setup, SERVER, oprfKey, m)
       case Ok((z, sPub)) => s.(pending := s.pending + [Pending(credential, oprfKey)], net := s.net + {Data(z), sPub})
       case Err(_) => s)
    case RegFinish(i, z, sPub) => Register(setup, s, i, z, sPub)
    case RegStore(j, cPub, envelope) =>
      if j < |s.pending| then
        s.(records := s.records[s.pending[j].credential := Record(s.pending[j].oprfKey, cPub, envelope)])
      else s
    case LoginStart(user, blind) =>
      (match ClientLoginStart(setup, user, blind, Honest(s.drawn), Random(s.drawn + 1))
       case Ok(st) => Started(s, ClientSession(st, Sent))
       case Err(_) => s)
    case ServerStart(credential, ke1, fakeKey) => Respond(setup, s, credential, fakeKey, ke1)
    case ClientFinish(i, ke2) => Complete(setup, s, i, ke2)
    case ServerFinish(j, ke3) =>
      if j < |s.servers| && s.servers[j].phase == Waiting then
        var phase := if ServerLoginFinish(s.servers[j].st, ke3).Some? then Accepted else Rejected;
        Decided(s, j, phase)
      else s
  }

  /** The client checks that the server's static key is the certified one (register_user.py:122-125). */
  function Register(setup: Setup, s: State, i: nat, z: bytes, sPub: Term): State
    requires Params(setup.c)
  {
    if i >= |s.regs| || sPub != Pub(SERVER) then s
    else
      var (user, blind) := (s.regs[i].user, s.regs[i].blind);
      var (cPriv, salt, nonce) := (Honest(s.drawn), Random(s.drawn + 1), Random(s.drawn + 2));
      match RegistrationFinish(setup, user, blind, z, SERVER, cPriv, salt, nonce)
      case Ok((_, _)) =>
        Enrolled(s, Enrollment(user, cPriv, Oprf.Unblind(setup.c, blind, z).value, salt, nonce))
      case Err(_) => s
  }

  function Respond(setup: Setup, s: State, credential: bytes, fakeKey: nat, ke1: Ke1): State
    requires Params(setup.c)
  {
    var (record, isFake) := (Lookup(s, credential, fakeKey), credential !in s.records);
    var (eph, nonceS) := (Honest(s.drawn), Random(s.drawn + 5));
    match ServerLoginStart(setup, SERVER, record, isFake, ke1, eph, nonceS)
    case Some((ke2, st)) => Responded(s, ServerSession(record, ke1, eph, nonceS, ke2, st, Waiting))
    case None => s
  }

  function Complete(setup: Setup, s: State, i: nat, ke2: Ke2): State
    requires Params(setup.c)
  {
    if i >= |s.clients| || s.clients[i].phase != Sent then s
    else
      match ClientLoginFinish(setup, s.clients[i].st, ke2)
      case Some(out) => Finished(s, i, ke2, out)
      case None => s.(clients := s.clients[i := s.clients[i].(phase := Failed)])
  }

  /** The state after a list of events. */
  function Run(setup: Setup, events: seq<Event>): State
    requires Params(setup.c)
  {
    if events == [] then INIT
    else Apply(setup, Run(setup, events[..|events| - 1]), events[|events| - 1])
  }

  ghost predicate LegalRun(setup: Setup, events: seq<Event>)
    requires Params(setup.c)
  {
    events != [] ==>
      var n := |events| - 1;
      LegalRun(setup, events[..n]) && Legal(Run(setup, events[..n]), events[n])
  }

  // ---------------------------------------------------------------- the invariant

  /** A scalar drawn by an honest party in this run. */
  predicate Drawn(s: State, x: Owner) {
    x.Honest? && 0 < x.n < s.drawn
  }

  ghost predicate EnrollmentsOk(s: State) {
    forall k :: 0 <= k < |s.enrolled| ==> EnrollmentOk(s, s.enrolled[k])
  }

  predicate EnrollmentOk(s: State, e: Enrollment) {
    Drawn(s, e.cPriv) && e.salt.Random? && e.nonce.Random? && SealOf(e) in s.made
  }

  predicate ServerOk(setup: Setup, s: State, v: ServerSession)
    requires Params(setup.c)
  {
    && Drawn(s, v.eph) && v.nonceS.Random?
    && ServerLoginStart(setup, SERVER, v.record, v.st.isFake, v.ke1, v.eph, v.nonceS) == Some((v.ke2, v.st))
    && (v.st.isFake ==> v.record.cPub.Pub? && Drawn(s, v.record.cPub.x))
    && (v.phase == Accepted ==> !v.st.isFake && Public(s.made, ClientMac(v.st.keys, v.st.transcript, v.st.serverMac)))
  }

  ghost predicate ServersOk(setup: Setup, s: State)
    requires Params(setup.c)
  {
    && (forall j :: 0 <= j < |s.servers| ==> ServerOk(setup, s, s.servers[j]))
    && (forall j, k :: 0 <= j < k < |s.servers| ==> s.servers[j].eph != s.servers[k].eph)
    && (forall j, k :: 0 <= j < |s.servers| && 0 <= k < |s.enrolled| && s.servers[j].st.isFake ==>
          s.servers[j].record.cPub != Pub(s.enrolled[k].cPriv))
  }

  predicate ClientOk(setup: Setup, s: State, c: ClientSession)
    requires Params(setup.c)
  {
    && Drawn(s, c.st.eph) && c.st.ke1.cEphPub == Pub(c.st.eph) && c.st.ke1.nonceC.Random?
    && (c.phase.Done? ==>
          && ClientLoginFinish(setup, c.st, c.phase.ke2) == Some(c.phase.out)
          && Public(s.made, c.phase.ke2.envelope) && Public(s.made, c.phase.ke2.serverMac))
  }

  ghost predicate ClientsOk(setup: Setup, s: State)
    requires Params(setup.c)
  {
    && (forall i :: 0 <= i < |s.clients| ==> ClientOk(setup, s, s.clients[i]))
    && (forall i, k :: 0 <= i < k < |s.clients| ==> s.clients[i].st.eph != s.clients[k].st.eph)
  }

  ghost predicate FromClient(s: State, t: Term) {
    exists i :: 0 <= i < |s.clients| && s.clients[i].phase.Done? && t == s.clients[i].phase.out.ke3
  }

  ghost predicate FromServer(s: State, t: Term) {
    exists j :: 0 <= j < |s.servers| && t == s.servers[j].st.serverMac
  }

  ghost predicate FromEnrollment(s: State, t: Term) {
    exists k :: 0 <= k < |s.enrolled| && t == SealOf(s.enrolled[k])
  }

  /** Where a MAC or seal of an honest party comes from. */
  ghost predicate Origin(s: State, t: Term) {
    FromClient(s, t) || FromServer(s, t) || FromEnrollment(s, t)
  }

  ghost predicate RecordsOk(s: State) {
    forall k :: k in s.records ==> Public(s.made, s.records[k].envelope)
  }

  ghost predicate Inv(setup: Setup, s: State)
    requires Params(setup.c)
  {
    && 0 < s.drawn
    && (forall t :: t in s.net ==> Public(s.made, t))
    && (forall t :: t in s.made ==> Origin(s, t))
    && EnrollmentsOk(s) && ServersOk(setup, s) && ClientsOk(setup, s) && RecordsOk(s)
  }

  // ---------------------------------------------------------------- hidden keys

  /** An envelope key contains the password, so no attacker ever has it. */
  lemma EnvKeyHidden(made: set<Term>, n: bytes, user: nat, salt: Term)
    ensures !Public(made, EnvKey(RandomizedPassword(n, user), salt))
  {
    var rw := RandomizedPassword(n, user);
    assert !Public(made, rw.args[1].args[0]);
    assert !Public(made, rw.args[1]);
    assert !Public(made, EnvKey(rw, salt).args[0].args[0]);
    assert !Public(made, EnvKey(rw, salt).args[0]);
  }

  lemma MadeSealsKept(setup: Setup, s: State)
    requires Params(setup.c) && Inv(setup, s)
    ensures SealsKept(s.made)
  {
    forall t | t in s.made && t.Seal? ensures !Public(s.made, t.key) {
      assert Origin(s, t);
      assert FromEnrollment(s, t);
      var k :| 0 <= k < |s.enrolled| && t == SealOf(s.enrolled[k]);
      EnvKeyHidden(s.made, s.enrolled[k].n, s.enrolled[k].user, s.enrolled[k].salt);
    }
  }

  /** A key derived from a shared secret of two honest scalars stays hidden. */
  lemma DerivedKeyHidden(made: set<Term>, dh1: Term, dh2: Term, dh3: Term, transcript: seq<Term>)
    requires !Public(made, dh1) || !Public(made, dh2) || !Public(made, dh3)
    ensures !Public(made, Derive3dh(dh1, dh2, dh3, transcript).mac)
  {
    var args := Derive3dh(dh1, dh2, dh3, transcript).mac.args;
    assert args[0] == dh1 && args[1] == dh2 && args[2] == dh3;
  }

  lemma Learned(setup: Setup, s: State, t: Term)
    requires Params(setup.c) && Inv(setup, s) && Derivable(s.net, t)
    ensures Public(s.made, t)
  {
    MadeSealsKept(setup, s);
    DerivableIsPublic(s.made, s.net, t);
  }

  // ---------------------------------------------------------------- every event keeps the invariant

  /** What growing the drawn values and the made terms preserves. */
  lemma Kept(setup: Setup, s: State, s': State)
    requires Params(setup.c) && Inv(setup, s) && s.made <= s'.made && s.drawn <= s'.drawn
    ensures forall t :: t in s.net ==> Public(s'.made, t)
    ensures forall j :: 0 <= j < |s.servers| ==> ServerOk(setup, s', s.servers[j])
    ensures forall i :: 0 <= i < |s.clients| ==> ClientOk(setup, s', s.clients[i])
    ensures forall k :: k in s.records ==> Public(s'.made, s.records[k].envelope)
    ensures forall k :: 0 <= k < |s.enrolled| ==> EnrollmentOk(s', s.enrolled[k])
  {
    forall t | t in s.net ensures Public(s'.made, t) {
      PublicMonotone(s.made, s'.made, t);
    }
    forall j | 0 <= j < |s.servers| ensures ServerOk(setup, s', s.servers[j]) {
      var v := s.servers[j];
      if v.phase == Accepted {
        PublicMonotone(s.made, s'.made, ClientMac(v.st.keys, v.st.transcript, v.st.serverMac));
      }
    }
    forall i | 0 <= i < |s.clients| ensures ClientOk(setup, s', s.clients[i]) {
      var c := s.clients[i];
      if c.phase.Done? {
        PublicMonotone(s.made, s'.made, c.phase.ke2.envelope);
        PublicMonotone(s.made, s'.made, c.phase.ke2.serverMac);
      }
    }
    forall k | k in s.records ensures Public(s'.made, s.records[k].envelope) {
      PublicMonotone(s.made, s'.made, s.records[k].envelope);
    }
  }

  /** Origins survive appending sessions and finishing a client or server session. */
  lemma OriginsKept(s: State, s': State)
    requires forall t :: t in s.made ==> Origin(s, t)
    requires |s.enrolled| <= |s'.enrolled| && |s.servers| <= |s'.servers| && |s.clients| <= |s'.clients|
    requires forall k :: 0 <= k < |s.enrolled| ==> s'.enrolled[k] == s.enrolled[k]
    requires forall j :: 0 <= j < |s.servers| ==> s'.servers[j].st == s.servers[j].st
    requires forall i :: 0 <= i < |s.clients| && s.clients[i].phase.Done? ==> s'.clients[i] == s.clients[i]
    ensures forall t :: t in s.made ==> Origin(s', t)
  {
    forall t | t in s.made ensures Origin(s', t) {
      if FromServer(s, t) {
        var j :| 0 <= j < |s.servers| && t == s.servers[j].st.serverMac;
        assert s'.servers[j].st == s.servers[j].st;
      } else if FromClient(s, t) {
        var i :| 0 <= i < |s.clients| && s.clients[i].phase.Done? && t == s.clients[i].phase.out.ke3;
        assert s'.clients[i] == s.clients[i];
      } else {
        var k :| 0 <= k < |s.enrolled| && t == SealOf(s.enrolled[k]);
        assert s'.enrolled[k] == s.enrolled[k];
      }
    }
  }

  lemma RegisterKeeps(setup: Setup, s: State, i: nat, z: bytes, sPub: Term)
    requires Params(setup.c) && Inv(setup, s)
    ensures Inv(setup, Register(setup, s, i, z, sPub))
  {
    var s' := Register(setup, s, i, z, sPub);
    if s' != s {
      var e := s'.enrolled[|s.enrolled|];
      EnrolledKeeps(setup, s, e);
    }
  }

  lemma EnrolledKeeps(setup: Setup, s: State, e: Enrollment)
    requires Params(setup.c) && Inv(setup, s)
    requires e.cPriv == Honest(s.drawn) && e.salt.Random? && e.nonce.Random?
    ensures Inv(setup, Enrolled(s, e))
  {
    var s' := Enrolled(s, e);
    Kept(setup, s, s');
    OriginsKept(s, s');
    assert s'.enrolled[|s.enrolled|] == e;
    assert Origin(s', SealOf(e));
    EnvelopePublic(s'.made, e);
  }

  lemma EnvelopePublic(made: set<Term>, e: Enrollment)
    requires e.salt.Random? && e.nonce.Random? && SealOf(e) in made
    ensures Public(made, SealEnvelope(RandomizedPassword(e.n, e.user), e.salt, e.nonce, e.cPriv, SERVER))
  {
  }

  lemma RespondKeeps(setup: Setup, s: State, credential: bytes, fakeKey: nat, ke1: Ke1)
    requires Params(setup.c) && Inv(setup, s)
    ensures Inv(setup, Respond(setup, s, credential, fakeKey, ke1))
  {
    var s' := Respond(setup, s, credential, fakeKey, ke1);
    if s' != s {
      var v := s'.servers[|s.servers|];
      LookupFacts(setup, s, credential, fakeKey);
      RespondedKeeps(setup, s, v);
    }
  }

  lemma LookupFacts(setup: Setup, s: State, credential: bytes, fakeKey: nat)
    requires Params(setup.c) && Inv(setup, s)
    ensures Public(s.made, Lookup(s, credential, fakeKey).envelope)
    ensures credential !in s.records ==> Lookup(s, credential, fakeKey).cPub == Pub(Honest(s.drawn + 1))
  {
  }

  /** The session a ServerStart event opens. */
  predicate Opened(setup: Setup, s: State, v: ServerSession)
    requires Params(setup.c)
  {
    && v.eph == Honest(s.drawn) && v.nonceS.Random? && v.phase == Waiting
    && ServerLoginStart(setup, SERVER, v.record, v.st.isFake, v.ke1, v.eph, v.nonceS) == Some((v.ke2, v.st))
    && Public(s.made, v.record.envelope) && (v.st.isFake ==> v.record.cPub == Pub(Honest(s.drawn + 1)))
  }

  lemma RespondedServers(setup: Setup, s: State, v: ServerSession)
    requires Params(setup.c) && Inv(setup, s) && Opened(setup, s, v)
    ensures ServersOk(setup, Responded(s, v))
  {
    var s' := Responded(s, v);
    forall j | 0 <= j < |s'.servers| ensures ServerOk(setup, s', s'.servers[j]) {
      if j < |s.servers| {
        Kept(setup, s, s');
      }
    }
    forall j | 0 <= j < |s.servers| ensures s.servers[j].eph != v.eph {
      assert ServerOk(setup, s, s.servers[j]);
    }
    forall k | 0 <= k < |s.enrolled| && v.st.isFake ensures v.record.cPub != Pub(s.enrolled[k].cPriv) {
      assert EnrollmentOk(s, s.enrolled[k]);
    }
  }

  lemma RespondedNet(setup: Setup, s: State, v: ServerSession, t: Term)
    requires Params(setup.c) && Inv(setup, s) && Opened(setup, s, v)
    requires t in {Data(v.ke2.z), v.ke2.envelope, v.ke2.nonceS, v.ke2.sEphPub, v.ke2.serverMac}
    ensures Public(s.made + {v.ke2.serverMac}, t)
  {
    PublicMonotone(s.made, s.made + {v.ke2.serverMac}, v.record.envelope);
  }

  lemma RespondedKeeps(setup: Setup, s: State, v: ServerSession)
    requires Params(setup.c) && Inv(setup, s) && Opened(setup, s, v)
    ensures Inv(setup, Responded(s, v))
  {
    var s' := Responded(s, v);
    Kept(setup, s, s');
    OriginsKept(s, s');
    assert s'.servers[|s.servers|] == v;
    assert Origin(s', v.ke2.serverMac);
    forall t | t in s'.net ensures Public(s'.made, t) {
      if t !in s.net {
        RespondedNet(setup, s, v, t);
      }
    }
    RespondedServers(setup, s, v);
  }

  lemma LoginStartKeeps(setup: Setup, s: State, user: nat, blind: nat)
    requires Params(setup.c) && Inv(setup, s)
    ensures Inv(setup, Apply(setup, s, LoginStart(user, blind)))
  {
    var s' := Apply(setup, s, LoginStart(user, blind));
    if s' != s {
      var c := s'.clients[|s.clients|];
      StartedKeeps(setup, s, c);
    }
  }

  lemma StartedKeeps(setup: Setup, s: State, c: ClientSession)
    requires Params(setup.c) && Inv(setup, s) && c.phase == Sent
    requires c.st.eph == Honest(s.drawn) && c.st.ke1.cEphPub == Pub(c.st.eph) && c.st.ke1.nonceC.Random?
    ensures Inv(setup, Started(s, c))
  {
    var s' := Started(s, c);
    Kept(setup, s, s');
    OriginsKept(s, s');
    assert s'.clients[|s.clients|] == c;
  }

  lemma CompleteKeeps(setup: Setup, s: State, i: nat, ke2: Ke2)
    requires Params(setup.c) && Inv(setup, s)
    requires Public(s.made, ke2.envelope) && Public(s.made, ke2.serverMac)
    ensures Inv(setup, Complete(setup, s, i, ke2))
  {
    if i < |s.clients| && s.clients[i].phase == Sent {
      match ClientLoginFinish(setup, s.clients[i].st, ke2) {
        case Some(out) => DoneKeeps(setup, s, i, ke2, out);
        case None => FailedKeeps(setup, s, i);
      }
    }
  }

  lemma FailedKeeps(setup: Setup, s: State, i: nat)
    requires Params(setup.c) && Inv(setup, s) && i < |s.clients| && s.clients[i].phase == Sent
    ensures Inv(setup, s.(clients := s.clients[i := s.clients[i].(phase := Failed)]))
  {
    var s' := s.(clients := s.clients[i := s.clients[i].(phase := Failed)]);
    Kept(setup, s, s');
    OriginsKept(s, s');
  }

  lemma DoneKeeps(setup: Setup, s: State, i: nat, ke2: Ke2, out: Outcome)
    requires Params(setup.c) && Inv(setup, s) && i < |s.clients| && s.clients[i].phase == Sent
    requires Public(s.made, ke2.envelope) && Public(s.made, ke2.serverMac)
    requires ClientLoginFinish(setup, s.clients[i].st, ke2) == Some(out)
    ensures Inv(setup, Finished(s, i, ke2, out))
  {
    var s' := Finished(s, i, ke2, out);
    Kept(setup, s, s');
    DoneOrigins(setup, s, i, ke2, out);
    DoneClients(setup, s, i, ke2, out);
  }

  lemma DoneOrigins(setup: Setup, s: State, i: nat, ke2: Ke2, out: Outcome)
    requires Params(setup.c) && Inv(setup, s) && i < |s.clients| && s.clients[i].phase == Sent
    requires ClientLoginFinish(setup, s.clients[i].st, ke2) == Some(out)
    ensures var s' := Finished(s, i, ke2, out);
      (forall t :: t in s'.made ==> Origin(s', t)) && Public(s'.made, out.ke3)
  {
    var s' := Finished(s, i, ke2, out);
    OriginsKept(s, s');
    assert s'.clients[i].phase == Done(ke2, out);
    assert FromClient(s', out.ke3);
    assert out.ke3.Mac?;
  }

  lemma DoneClients(setup: Setup, s: State, i: nat, ke2: Ke2, out: Outcome)
    requires Params(setup.c) && Inv(setup, s) && i < |s.clients| && s.clients[i].phase == Sent
    requires Public(s.made, ke2.envelope) && Public(s.made, ke2.serverMac)
    requires ClientLoginFinish(setup, s.clients[i].st, ke2) == Some(out)
    ensures ClientsOk(setup, Finished(s, i, ke2, out))
  {
    var s' := Finished(s, i, ke2, out);
    Kept(setup, s, s');
    PublicMonotone(s.made, s'.made, ke2.envelope);
    PublicMonotone(s.made, s'.made, ke2.serverMac);
    assert ClientOk(setup, s', s'.clients[i]);
  }

  lemma ServerFinishKeeps(setup: Setup, s: State, j: nat, ke3: Term)
    requires Params(setup.c) && Inv(setup, s) && Public(s.made, ke3)
    ensures Inv(setup, Apply(setup, s, ServerFinish(j, ke3)))
  {
    if j < |s.servers| && s.servers[j].phase == Waiting {
      DecidedKeeps(setup, s, j, if ServerLoginFinish(s.servers[j].st, ke3).Some? then Accepted else Rejected);
    }
  }

  lemma DecidedKeeps(setup: Setup, s: State, j: nat, phase: ServerPhase)
    requires Params(setup.c) && Inv(setup, s) && j < |s.servers|
    requires var st := s.servers[j].st;
      phase == Accepted ==> !st.isFake && Public(s.made, ClientMac(st.keys, st.transcript, st.serverMac))
    ensures Inv(setup, Decided(s, j, phase))
  {
    var s' := Decided(s, j, phase);
    OriginsKept(s, s');
    DecidedServers(setup, s, j, phase);
    assert ClientsOk(setup, s') by {
      Kept(setup, s, s');
    }
  }

  lemma DecidedServers(setup: Setup, s: State, j: nat, phase: ServerPhase)
    requires Params(setup.c) && Inv(setup, s) && j < |s.servers|
    requires var st := s.servers[j].st;
      phase == Accepted ==> !st.isFake && Public(s.made, ClientMac(st.keys, st.transcript, st.serverMac))
    ensures ServersOk(setup, Decided(s, j, phase))
  {
    var s' := Decided(s, j, phase);
    forall k | 0 <= k < |s'.servers| ensures ServerOk(setup, s', s'.servers[k]) {
      assert ServerOk(setup, s, s.servers[k]);
    }
  }

  lemma EventKeeps(setup: Setup, s: State, ev: Event)
    requires Params(setup.c) && Inv(setup, s) && Legal(s, ev)
    ensures Inv(setup, Apply(setup, s, ev))
  {
    match ev
    case RegFinish(i, z, sPub) => RegisterKeeps(setup, s, i, z, sPub);
    case RegStore(j, cPub, envelope) => Learned(setup, s, envelope);
    case LoginStart(user, blind) => LoginStartKeeps(setup, s, user, blind);
    case ServerStart(credential, ke1, fakeKey) => RespondKeeps(setup, s, credential, fakeKey, ke1);
    case ClientFinish(i, ke2) =>
      Learned(setup, s, ke2.envelope);
      Learned(setup, s, ke2.serverMac);
      CompleteKeeps(setup, s, i, ke2);
    case ServerFinish(j, ke3) =>
      Learned(setup, s, ke3);
      ServerFinishKeeps(setup, s, j, ke3);
    case _ => OtherEventKeeps(setup, s, ev);
  }

  lemma OtherEventKeeps(setup: Setup, s: State, ev: Event)
    requires Params(setup.c) && Inv(setup, s) && (ev.RegStart? || ev.RegRespond?)
    ensures Inv(setup, Apply(setup, s, ev))
  {
    var s' := Apply(setup, s, ev);
    if s' != s {
      Kept(setup, s, s');
      OriginsKept(s, s');
    }
  }

  /** The invariant holds after every legal run. */
  lemma {:induction false} RunKeeps(setup: Setup, events: seq<Event>)
    requires Params(setup.c) && LegalRun(setup, events)
    ensures Inv(setup, Run(setup, events))
  {
    if events != [] {
      var n := |events| - 1;
      RunKeeps(setup, events[..n]);
      EventKeeps(setup, Run(setup, events[..n]), events[n]);
    }
  }
}
