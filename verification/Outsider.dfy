/** Anyone may upload a record with a key of its own, and log in with it. The server's agreement is therefore a
    statement about records of honest keys, and this is exactly how far it goes. */
module Outsider {
  import opened Bytes
  import opened CurveArithmetic
  import opened Terms
  import opened Opaque
  import opened Handshake
  import opened Completeness
  import Agreement

  // ---------------------------------------------------------------- what the attacker can compute

  lemma {:induction false} AllDerivable(net: set<Term>, ts: seq<Term>) returns (ds: seq<Derivation>)
    requires forall i :: 0 <= i < |ts| ==> Derivable(net, ts[i])
    ensures YieldsAll(net, ds) == Some(ts)
  {
    if ts == [] {
      ds := [];
    } else {
      assert Derivable(net, ts[0]);
      var d :| Yields(net, d) == Some(ts[0]);
      forall i | 0 <= i < |ts[1..]| ensures Derivable(net, ts[1..][i]) {
        assert ts[1..][i] == ts[i + 1];
      }
      var more := AllDerivable(net, ts[1..]);
      ds := [d] + more;
      assert ds[1..] == more && [ts[0]] + ts[1..] == ts;
    }
  }

  lemma FnDerivable(net: set<Term>, f: Prim, ts: seq<Term>)
    requires forall i :: 0 <= i < |ts| ==> Derivable(net, ts[i])
    ensures Derivable(net, Fn(f, ts))
  {
    var ds := AllDerivable(net, ts);
    assert Yields(net, Derivation.Apply(f, ds)) == Some(Fn(f, ts));
  }

  lemma ListDerivable(net: set<Term>, ts: seq<Term>)
    requires forall i :: 0 <= i < |ts| ==> Derivable(net, ts[i])
    ensures Derivable(net, List(ts))
  {
    var ds := AllDerivable(net, ts);
    assert Yields(net, Pack(ds)) == Some(List(ts));
  }

  lemma MacDerivable(net: set<Term>, key: Term, ts: seq<Term>)
    requires Derivable(net, key) && forall i :: 0 <= i < |ts| ==> Derivable(net, ts[i])
    ensures Derivable(net, Mac(key, ts))
  {
    var k :| Yields(net, k) == Some(key);
    var ds := AllDerivable(net, ts);
    assert Yields(net, Authenticate(k, ds)) == Some(Mac(key, ts));
  }

  /** With the key it opens an envelope or seals one, and it takes packed messages apart. */
  lemma OpenedDerivable(net: set<Term>, key: Term, nonce: Term, ts: seq<Term>)
    requires Derivable(net, key)
    ensures Derivable(net, Seal(key, nonce, ts)) ==> forall i :: 0 <= i < |ts| ==> Derivable(net, ts[i])
    ensures Derivable(net, nonce) && (forall i :: 0 <= i < |ts| ==> Derivable(net, ts[i])) ==>
      Derivable(net, Seal(key, nonce, ts))
    ensures Derivable(net, List(ts)) ==> forall i :: 0 <= i < |ts| ==> Derivable(net, ts[i])
  {
    var k :| Yields(net, k) == Some(key);
    if Derivable(net, Seal(key, nonce, ts)) {
      var d :| Yields(net, d) == Some(Seal(key, nonce, ts));
      forall i: nat | i < |ts| ensures Derivable(net, ts[i]) {
        assert Yields(net, Decrypt(k, d, i)) == Some(ts[i]);
      }
    } else if Derivable(net, nonce) && forall i :: 0 <= i < |ts| ==> Derivable(net, ts[i]) {
      var n :| Yields(net, n) == Some(nonce);
      var ds := AllDerivable(net, ts);
      assert Yields(net, Encrypt(k, n, ds)) == Some(Seal(key, nonce, ts));
    }
    if Derivable(net, List(ts)) {
      var d :| Yields(net, d) == Some(List(ts));
      forall i: nat | i < |ts| ensures Derivable(net, ts[i]) {
        assert Yields(net, Unpack(d, i)) == Some(ts[i]);
      }
    }
  }

  /** With a scalar of its own, any public key that was sent gives a shared secret. */
  lemma SharedDerivable(net: set<Term>, y: Owner, n: nat)
    requires Pub(y) in net
    ensures Derivable(net, Shared(y, Attacker(n)))
  {
    SharedCommutes(y, Attacker(n));
    assert Yields(net, OwnKey(n)) == Some(Scalar(Attacker(n))) && Yields(net, Seen(Pub(y))) == Some(Pub(y));
    assert Yields(net, Agree(OwnKey(n), Seen(Pub(y)))) == Some(Shared(Attacker(n), y));
  }

  lemma OwnDerivable(net: set<Term>, n: nat, b: bytes)
    ensures Derivable(net, Pub(Attacker(n))) && Derivable(net, Data(b)) && Derivable(net, Random(n))
  {
    assert Yields(net, OwnKey(n)) == Some(Scalar(Attacker(n)));
    assert Yields(net, PublicKey(OwnKey(n))) == Some(Pub(Attacker(n)));
    assert Yields(net, Write(b)) == Some(Data(b)) && Yields(net, Draw(n)) == Some(Random(n));
  }

  // ---------------------------------------------------------------- one login

  /** The first message of a peer that uses scalar 0 of its own as its ephemeral key. */
  function OwnKe1(m: bytes): Ke1 {
    Ke1(m, Random(0), Pub(Attacker(0)))
  }

  /** The session the server opens for such a message and a record that holds key number a of the attacker. */
  ghost predicate OwnSession(setup: Setup, v: ServerSession, a: nat, m: bytes)
    requires Params(setup.c)
  {
    v.ke1 == OwnKe1(m) && v.record.cPub == Pub(Attacker(a)) && v.phase == Waiting &&
    ServerLoginStart(setup, SERVER, v.record, false, v.ke1, v.eph, v.nonceS) == Some((v.ke2, v.st))
  }

  /** The keys of that session, from the two scalars the attacker holds. */
  function OwnKeys(eph: Owner, a: nat, transcript: seq<Term>): Keys {
    Derive3dh(Shared(SERVER, Attacker(0)), Shared(eph, Attacker(a)), Shared(eph, Attacker(0)), transcript)
  }

  lemma OwnSessionFields(setup: Setup, v: ServerSession, a: nat, m: bytes)
    requires Params(setup.c) && OwnSession(setup, v, a, m)
    ensures v.st.transcript ==
      [Data(m), Random(0), Pub(Attacker(0)), Data(v.ke2.z), v.ke2.envelope, v.ke2.nonceS, v.ke2.sEphPub]
    ensures v.st.keys == OwnKeys(v.eph, a, v.st.transcript)
    ensures v.ke2.sEphPub == Pub(v.eph) && v.ke2.serverMac == v.st.serverMac && !v.st.isFake
  {
  }

  /** The peer can compute the MAC the server waits for. */
  lemma OwnKe3(setup: Setup, net: set<Term>, v: ServerSession, a: nat, m: bytes)
    requires Params(setup.c) && OwnSession(setup, v, a, m) && Pub(SERVER) in net
    requires {v.ke2.envelope, v.ke2.nonceS, v.ke2.sEphPub, v.ke2.serverMac} <= net
    ensures Derivable(net, ClientMac(v.st.keys, v.st.transcript, v.st.serverMac))
  {
    OwnSessionFields(setup, v, a, m);
    TranscriptDerivable(net, m, v.ke2);
    OwnMac(net, v.eph, a, v.st.transcript, v.st.serverMac);
  }

  lemma OwnMac(net: set<Term>, eph: Owner, a: nat, transcript: seq<Term>, serverMac: Term)
    requires forall i :: 0 <= i < |transcript| ==> Derivable(net, transcript[i])
    requires {Pub(SERVER), Pub(eph), serverMac} <= net
    ensures Derivable(net, ClientMac(OwnKeys(eph, a, transcript), transcript, serverMac))
  {
    OwnKey3dh(net, eph, a, transcript);
    OwnDerivable(net, 0, Ascii("client"));
    SentIsDerivable(net, serverMac);
    MacDerivable(net, OwnKeys(eph, a, transcript).mac, [CLIENT_LABEL] + transcript + [serverMac]);
  }

  lemma OwnKey3dh(net: set<Term>, eph: Owner, a: nat, transcript: seq<Term>)
    requires forall i :: 0 <= i < |transcript| ==> Derivable(net, transcript[i])
    requires {Pub(SERVER), Pub(eph)} <= net
    ensures Derivable(net, OwnKeys(eph, a, transcript).mac)
  {
    ListDerivable(net, transcript);
    SharedDerivable(net, SERVER, 0);
    SharedDerivable(net, eph, a);
    SharedDerivable(net, eph, 0);
    FnDerivable(net, MacKey, [Shared(SERVER, Attacker(0)), Shared(eph, Attacker(a)), Shared(eph, Attacker(0)),
                              List(transcript)]);
  }

  lemma TranscriptDerivable(net: set<Term>, m: bytes, ke2: Ke2)
    requires {ke2.envelope, ke2.nonceS, ke2.sEphPub} <= net
    ensures var t := [Data(m), Random(0), Pub(Attacker(0)), Data(ke2.z), ke2.envelope, ke2.nonceS, ke2.sEphPub];
      forall i :: 0 <= i < |t| ==> Derivable(net, t[i])
  {
    OwnDerivable(net, 0, m);
    OwnDerivable(net, 0, ke2.z);
    SentIsDerivable(net, ke2.envelope);
    SentIsDerivable(net, ke2.nonceS);
    SentIsDerivable(net, ke2.sEphPub);
  }

  /** The two steps of the login. */
  lemma OwnLogin(setup: Setup, s: State, credential: bytes, a: nat, m: bytes, v: ServerSession)
      returns (b: State, d: State)
    requires Params(setup.c) && Stored(s, credential, v.record) && OwnSession(setup, v, a, m) && Pub(SERVER) in s.net
    requires v.eph == Honest(s.drawn) && v.nonceS == Random(s.drawn + 5)
    ensures Leads(setup, s, ServerStart(credential, v.ke1, 0), b)
    ensures Leads(setup, b, ServerFinish(|s.servers|, ClientMac(v.st.keys, v.st.transcript, v.st.serverMac)), d)
    ensures d.servers == s.servers + [v.(phase := Accepted)]
  {
    b := ServerOpens(setup, s, credential, a, m, v);
    d := OwnFinishes(setup, b, s.servers, a, m, v);
  }

  lemma ServerOpens(setup: Setup, s: State, credential: bytes, a: nat, m: bytes, v: ServerSession) returns (b: State)
    requires Params(setup.c) && Stored(s, credential, v.record) && OwnSession(setup, v, a, m)
    requires v.eph == Honest(s.drawn) && v.nonceS == Random(s.drawn + 5)
    ensures Leads(setup, s, ServerStart(credential, v.ke1, 0), b) && b.servers == s.servers + [v] && s.net <= b.net
    ensures {v.ke2.envelope, v.ke2.nonceS, v.ke2.sEphPub, v.ke2.serverMac} <= b.net
  {
    OwnDerivable(s.net, 0, []);
    b := ServerAnswers(setup, s, credential, v);
  }

  lemma OwnFinishes(setup: Setup, b: State, before: seq<ServerSession>, a: nat, m: bytes, v: ServerSession)
      returns (d: State)
    requires Params(setup.c) && OwnSession(setup, v, a, m) && b.servers == before + [v] && Pub(SERVER) in b.net
    requires {v.ke2.envelope, v.ke2.nonceS, v.ke2.sEphPub, v.ke2.serverMac} <= b.net
    ensures Leads(setup, b, ServerFinish(|before|, ClientMac(v.st.keys, v.st.transcript, v.st.serverMac)), d)
    ensures d.servers == before + [v.(phase := Accepted)]
  {
    OwnSessionFields(setup, v, a, m);
    OwnKe3(setup, b.net, v, a, m);
    d := ServerTakes(setup, b, |before|, ClientMac(v.st.keys, v.st.transcript, v.st.serverMac));
  }

  lemma ServerTakes(setup: Setup, s: State, j: nat, ke3: Term) returns (d: State)
    requires Params(setup.c) && j < |s.servers| && s.servers[j].phase == Waiting && Derivable(s.net, ke3)
    requires ServerLoginFinish(s.servers[j].st, ke3).Some?
    ensures Leads(setup, s, ServerFinish(j, ke3), d) && d == Decided(s, j, Accepted)
  {
    d := Handshake.Apply(setup, s, ServerFinish(j, ke3));
  }

  /** The session an attacker-held key opens on a point of the curve. */
  lemma OwnSessionOpens(setup: Setup, H: Point, record: Record, a: nat, eph: Owner, nonceS: Term)
      returns (v: ServerSession)
    requires Group(setup.c) && OnCurve(setup.c, H) && H.Affine?
    requires record.cPub == Pub(Attacker(a)) && record.oprfKey % setup.c.n != 0
    ensures OwnSession(setup, v, a, Compress(H)) && v.record == record && v.eph == eph && v.nonceS == nonceS
  {
    TimesIsMult(setup.c, record.oprfKey, H);
    var ke1 := OwnKe1(Compress(H));
    var answer := ServerLoginStart(setup, SERVER, record, false, ke1, eph, nonceS).value;
    v := ServerSession(record, ke1, eph, nonceS, answer.0, answer.1, Waiting);
  }

  // ---------------------------------------------------------------- runs

  ghost predicate NoMatch(s: State, j: nat) {
    forall i: nat :: !Agreement.Matches(s, i, j)
  }

  /** The run continues `events`, and in it the server accepts session j on this record although no client
      finished the same exchange. */
  ghost predicate Unmatched(setup: Setup, events: seq<Event>, run: seq<Event>, record: Record, j: nat)
    requires Params(setup.c)
  {
    && events <= run && LegalRun(setup, run)
    && var s := Run(setup, run);
       j < |s.servers| && s.servers[j].record == record && s.servers[j].phase == Accepted && NoMatch(s, j)
  }

  /** An exchange with the attacker's ephemeral key matches no client. */
  lemma OwnUnmatched(setup: Setup, s: State, j: nat)
    requires Params(setup.c) && Inv(setup, s) && j < |s.servers| && |s.servers[j].st.transcript| == 7
    requires s.servers[j].st.transcript[2] == Pub(Attacker(0))
    ensures NoMatch(s, j)
  {
    forall i: nat ensures !Agreement.Matches(s, i, j) {
      if Agreement.Matches(s, i, j) {
        Agreement.ClientInTranscript(setup, s, i, j);
        assert false;
      }
    }
  }

  /** The server's public key is there for the asking. */
  lemma ServerKeySent(setup: Setup, events: seq<Event>, H: Point, credential: bytes, oprfKey: nat)
      returns (run: seq<Event>)
    requires Group(setup.c) && OnCurve(setup.c, H) && H.Affine? && LegalRun(setup, events)
    requires oprfKey % setup.c.n != 0
    ensures events <= run && LegalRun(setup, run)
    ensures var s, s' := Run(setup, events), Run(setup, run);
      s'.records == s.records && Pub(SERVER) in s'.net && s'.pending == s.pending + [Pending(credential, oprfKey)]
  {
    TimesIsMult(setup.c, oprfKey, H);
    var s, m := Run(setup, events), Compress(H);
    var z := RegistrationRespond(setup, SERVER, oprfKey, m).value.0;
    var s' := ServerEvaluates(setup, s, credential, oprfKey, m, z);
    run := events + [RegRespond(credential, oprfKey, m)];
    Snoc(setup, events, s, RegRespond(credential, oprfKey, m), s');
  }

  /** From any run with such a record, an accepted session that matches no client. */
  lemma OutsiderAccepted(setup: Setup, events: seq<Event>, H: Point, credential: bytes, record: Record, a: nat)
      returns (run: seq<Event>, j: nat)
    requires Group(setup.c) && OnCurve(setup.c, H) && H.Affine? && LegalRun(setup, events)
    requires Stored(Run(setup, events), credential, record) && record.cPub == Pub(Attacker(a))
    requires record.oprfKey % setup.c.n != 0
    ensures Unmatched(setup, events, run, record, j)
  {
    var known := ServerKeySent(setup, events, H, credential, record.oprfKey);
    var s := Run(setup, known);
    j := |s.servers|;
    var v := OwnSessionOpens(setup, H, record, a, Honest(s.drawn), Random(s.drawn + 5));
    run := OwnRun(setup, known, s, credential, a, Compress(H), v);
    EndsUnmatched(setup, events, run, s.servers, a, Compress(H), v);
  }

  lemma EndsUnmatched(setup: Setup, events: seq<Event>, run: seq<Event>, before: seq<ServerSession>, a: nat, m: bytes,
                      v: ServerSession)
    requires Params(setup.c) && OwnSession(setup, v, a, m) && events <= run && LegalRun(setup, run)
    requires Run(setup, run).servers == before + [v.(phase := Accepted)]
    ensures Unmatched(setup, events, run, v.record, |before|)
  {
    RunKeeps(setup, run);
    OwnTranscript(setup, v, a, m);
    OwnUnmatched(setup, Run(setup, run), |before|);
  }

  lemma OwnTranscript(setup: Setup, v: ServerSession, a: nat, m: bytes)
    requires Params(setup.c) && OwnSession(setup, v, a, m)
    ensures |v.st.transcript| == 7 && v.st.transcript[2] == Pub(Attacker(0))
  {
    OwnSessionFields(setup, v, a, m);
  }

  lemma OwnRun(setup: Setup, events: seq<Event>, s: State, credential: bytes, a: nat, m: bytes, v: ServerSession)
      returns (run: seq<Event>)
    requires Params(setup.c) && LegalRun(setup, events) && Run(setup, events) == s && Pub(SERVER) in s.net
    requires Stored(s, credential, v.record) && OwnSession(setup, v, a, m)
    requires v.eph == Honest(s.drawn) && v.nonceS == Random(s.drawn + 5)
    ensures events <= run && LegalRun(setup, run) && Run(setup, run).servers == s.servers + [v.(phase := Accepted)]
  {
    var b, d := OwnLogin(setup, s, credential, a, m, v);
    var start, finish := ServerStart(credential, v.ke1, 0),
      ServerFinish(|s.servers|, ClientMac(v.st.keys, v.st.transcript, v.st.serverMac));
    Snoc(setup, events, s, start, b);
    Snoc(setup, events + [start], b, finish, d);
    run := events + [start] + [finish];
  }

  /** Every session accepted on this record, in every continuation of the run, matches a client. */
  ghost predicate ServerAgrees(setup: Setup, events: seq<Event>, record: Record)
    requires Params(setup.c)
  {
    forall run: seq<Event>, j: nat :: !Unmatched(setup, events, run, record, j)
  }

  /** The record holds a key whose scalar is the attacker's. */
  predicate OutsiderKey(record: Record) {
    record.cPub.Pub? && record.cPub.x.Attacker?
  }

  lemma OtherwiseAgrees(setup: Setup, events: seq<Event>, record: Record, run: seq<Event>, j: nat)
    requires Params(setup.c) && !OutsiderKey(record)
    ensures !Unmatched(setup, events, run, record, j)
  {
    if Unmatched(setup, events, run, record, j) {
      RunKeeps(setup, run);
      AcceptedKeyLoads(setup, Run(setup, run), j);
      var i := Agreement.ServerAgreement(setup, Run(setup, run), j);
      assert false;
    }
  }

  /** A record whose key does not load as a public key opens no session. */
  lemma AcceptedKeyLoads(setup: Setup, s: State, j: nat)
    requires Params(setup.c) && Inv(setup, s) && j < |s.servers|
    ensures s.servers[j].record.cPub.Pub?
  {
    assert ServerOk(setup, s, s.servers[j]);
  }

  /** The exact reach of the server's agreement: over a stored record it holds in every continuation if and
      only if the record's key is not one of the attacker's. */
  lemma AgreementExact(setup: Setup, events: seq<Event>, H: Point, credential: bytes, record: Record)
    requires Group(setup.c) && OnCurve(setup.c, H) && H.Affine? && LegalRun(setup, events)
    requires Stored(Run(setup, events), credential, record) && record.oprfKey % setup.c.n != 0
    ensures ServerAgrees(setup, events, record) <==> !OutsiderKey(record)
  {
    if OutsiderKey(record) {
      var run, j := OutsiderAccepted(setup, events, H, credential, record, record.cPub.x.n);
    } else {
      forall run: seq<Event>, j: nat ensures !Unmatched(setup, events, run, record, j) {
        OtherwiseAgrees(setup, events, record, run, j);
      }
    }
  }

  /** Such a record can be uploaded: the whole run, from the beginning. */
  lemma OutsiderRun(setup: Setup, H: Point, credential: bytes, oprfKey: nat, a: nat)
      returns (run: seq<Event>, record: Record, j: nat)
    requires Group(setup.c) && OnCurve(setup.c, H) && H.Affine? && oprfKey % setup.c.n != 0
    ensures record.cPub == Pub(Attacker(a)) && Unmatched(setup, [], run, record, j)
  {
    var asked := ServerKeySent(setup, [], H, credential, oprfKey);
    var s := Run(setup, asked);
    OwnDerivable(s.net, a, []);
    var store := RegStore(0, Pub(Attacker(a)), Data([]));
    var s' := Handshake.Apply(setup, s, store);
    Snoc(setup, asked, s, store, s');
    record := Record(oprfKey, Pub(Attacker(a)), Data([]));
    run, j := OutsiderAccepted(setup, asked + [store], H, credential, record, a);
  }
}
