/** What the handshake guarantees after every run: each side's acceptance points to exactly one
    session of the other side, with the same transcript and keys. */
module Agreement {
  import opened Bytes
  import opened CurveArithmetic
  import opened Terms
  import opened Opaque
  import opened Handshake
  import Oprf

  /** Client session i and server session j saw the same exchange and hold the same keys. */
  ghost predicate Matches(s: State, i: nat, j: nat) {
    && i < |s.clients| && j < |s.servers| && s.clients[i].phase.Done?
    && ClientTranscript(s.clients[i].st, s.clients[i].phase.ke2) == s.servers[j].st.transcript
    && s.clients[i].phase.ke2.serverMac == s.servers[j].st.serverMac
    && s.clients[i].phase.out.sessionKey == s.servers[j].st.keys.session
    && s.clients[i].phase.out.exportKey == Exporter(s.servers[j].st.keys.session, s.servers[j].st.transcript)
    && s.clients[i].phase.out.ke3 ==
         ClientMac(s.servers[j].st.keys, s.servers[j].st.transcript, s.servers[j].st.serverMac)
  }

  /** The 3DH keys of a finished client, and what its envelope held. */
  lemma FinishedClientKeys(setup: Setup, c: ClientSession) returns (cPriv: Owner, sPub: Owner, sEph: Owner, keys: Keys)
    requires Params(setup.c) && c.phase.Done? && ClientLoginFinish(setup, c.st, c.phase.ke2) == Some(c.phase.out)
    ensures var rw := Finalize(setup, c.st.user, c.st.blind, c.phase.ke2.z);
      rw.Ok? && OpenEnvelope(rw.value, c.phase.ke2.envelope) == Some((cPriv, sPub))
    ensures c.phase.ke2.sEphPub == Pub(sEph)
    ensures var transcript := ClientTranscript(c.st, c.phase.ke2);
      && keys == Derive3dh(Shared(c.st.eph, sPub), Shared(cPriv, sEph), Shared(c.st.eph, sEph), transcript)
      && c.phase.ke2.serverMac == ServerMac(keys, transcript)
      && c.phase.out == Outcome(keys.session, Exporter(keys.session, transcript),
                                ClientMac(keys, transcript, c.phase.ke2.serverMac))
  {
    var rw := Finalize(setup, c.st.user, c.st.blind, c.phase.ke2.z).value;
    var content := OpenEnvelope(rw, c.phase.ke2.envelope).value;
    cPriv, sPub, sEph := content.0, content.1, c.phase.ke2.sEphPub.x;
    keys := Derive3dh(Shared(c.st.eph, sPub), Shared(cPriv, sEph), Shared(c.st.eph, sEph),
                      ClientTranscript(c.st, c.phase.ke2));
  }

  /** MACs over equal-length transcripts are equal only with equal keys and transcripts; the role
      labels keep the two directions apart. */
  lemma MacsSeparate(k: Keys, t: seq<Term>, k': Keys, t': seq<Term>, m: Term, m': Term)
    requires |t| == 7 && |t'| == 7
    ensures ServerMac(k, t) != ClientMac(k', t', m')
    ensures ServerMac(k, t) == ServerMac(k', t') ==> k.mac == k'.mac && t == t'
    ensures ClientMac(k, t, m) == ClientMac(k', t', m') ==> k.mac == k'.mac && t == t' && m == m'
  {
    LabelsDiffer();
    var s, s', c, c' := ServerMac(k, t).msg, ServerMac(k', t').msg, ClientMac(k, t, m).msg, ClientMac(k', t', m').msg;
    assert s[0] == SERVER_LABEL && c'[0] == CLIENT_LABEL;
    assert s[1..] == t && s'[1..] == t';
    assert c[1..8] == t && c'[1..8] == t' && c[8] == m && c'[8] == m';
  }

  /** Equal MAC keys come from equal secrets and transcripts, so the session keys are equal too. */
  lemma KeysDetermined(a: Term, b: Term, c: Term, t: seq<Term>, a': Term, b': Term, c': Term, t': seq<Term>)
    requires Derive3dh(a, b, c, t).mac == Derive3dh(a', b', c', t').mac
    ensures a == a' && b == b' && c == c' && t == t'
    ensures Derive3dh(a, b, c, t) == Derive3dh(a', b', c', t')
  {
    var m, m' := Derive3dh(a, b, c, t).mac.args, Derive3dh(a', b', c', t').mac.args;
    assert m[0] == a && m'[0] == a' && m[1] == b && m'[1] == b' && m[2] == c && m'[2] == c';
    assert m[3] == List(t) && m'[3] == List(t');
  }

  /** The 3DH keys of a server session. */
  lemma ServerKeys(setup: Setup, s: State, j: nat) returns (cEph: Owner, cStatic: Owner)
    requires Params(setup.c) && Inv(setup, s) && j < |s.servers|
    ensures var v := s.servers[j];
      && v.record.cPub == Pub(cStatic) && v.ke1.cEphPub == Pub(cEph)
      && v.st.transcript == Transcript(v.ke1, v.ke2.z, v.record.envelope, v.nonceS, Pub(v.eph))
      && v.st.keys == Derive3dh(Shared(SERVER, cEph), Shared(v.eph, cStatic), Shared(v.eph, cEph), v.st.transcript)
      && v.st.serverMac == ServerMac(v.st.keys, v.st.transcript)
  {
    assert ServerOk(setup, s, s.servers[j]);
    cEph, cStatic := s.servers[j].ke1.cEphPub.x, s.servers[j].record.cPub.x;
  }

  lemma SharedHidden(made: set<Term>, x: Owner, y: Owner)
    requires x.Honest? && y.Honest?
    ensures !Public(made, Shared(x, y))
  {
  }

  /** If the server accepts a session whose stored client key is an honest scalar, some client
      session finished the same exchange with the same keys, and the session is not a fake one. */
  lemma ServerAgreement(setup: Setup, s: State, j: nat) returns (i: nat)
    requires Params(setup.c) && Inv(setup, s) && j < |s.servers| && s.servers[j].phase == Accepted
    requires s.servers[j].record.cPub.Pub? && s.servers[j].record.cPub.x.Honest?
    ensures !s.servers[j].st.isFake && Matches(s, i, j)
  {
    var v := s.servers[j];
    assert ServerOk(setup, s, v);
    var cEph, cStatic := ServerKeys(setup, s, j);
    SharedHidden(s.made, v.eph, cStatic);
    DerivedKeyHidden(s.made, Shared(SERVER, cEph), Shared(v.eph, cStatic), Shared(v.eph, cEph), v.st.transcript);
    var ke3 := ClientMac(v.st.keys, v.st.transcript, v.st.serverMac);
    assert ke3 in s.made;
    i := ClientOrigin(setup, s, v.st.keys, v.st.transcript, v.st.serverMac);
    var c := s.clients[i];
    assert ClientOk(setup, s, c);
    var cPriv, sPub, sEph, keys := FinishedClientKeys(setup, c);
    var transcript := ClientTranscript(c.st, c.phase.ke2);
    MacsSeparate(keys, transcript, v.st.keys, v.st.transcript, c.phase.ke2.serverMac, v.st.serverMac);
    KeysDetermined(Shared(c.st.eph, sPub), Shared(cPriv, sEph), Shared(c.st.eph, sEph), transcript,
                   Shared(SERVER, cEph), Shared(v.eph, cStatic), Shared(v.eph, cEph), v.st.transcript);
  }

  /** A made client MAC was made by a finished client. */
  lemma ClientOrigin(setup: Setup, s: State, keys: Keys, transcript: seq<Term>, mac: Term) returns (i: nat)
    requires Params(setup.c) && Inv(setup, s) && |transcript| == 7 && ClientMac(keys, transcript, mac) in s.made
    ensures i < |s.clients| && s.clients[i].phase.Done? &&
      s.clients[i].phase.out.ke3 == ClientMac(keys, transcript, mac)
  {
    var t := ClientMac(keys, transcript, mac);
    assert Origin(s, t);
    if FromServer(s, t) {
      var j :| 0 <= j < |s.servers| && t == s.servers[j].st.serverMac;
      var _, _ := ServerKeys(setup, s, j);
      MacsSeparate(s.servers[j].st.keys, s.servers[j].st.transcript, keys, transcript, mac, mac);
      assert false;
    }
    assert FromClient(s, t);
    i :| 0 <= i < |s.clients| && s.clients[i].phase.Done? && t == s.clients[i].phase.out.ke3;
  }

  /** A made server MAC was made by a server session. */
  lemma ServerOrigin(setup: Setup, s: State, keys: Keys, transcript: seq<Term>) returns (j: nat)
    requires Params(setup.c) && Inv(setup, s) && |transcript| == 7 && ServerMac(keys, transcript) in s.made
    ensures j < |s.servers| && s.servers[j].st.serverMac == ServerMac(keys, transcript)
  {
    var t := ServerMac(keys, transcript);
    assert Origin(s, t);
    if FromClient(s, t) {
      var i :| 0 <= i < |s.clients| && s.clients[i].phase.Done? && t == s.clients[i].phase.out.ke3;
      assert ClientOk(setup, s, s.clients[i]);
      var _, _, _, k := FinishedClientKeys(setup, s.clients[i]);
      MacsSeparate(keys, transcript, k, ClientTranscript(s.clients[i].st, s.clients[i].phase.ke2), t,
                   s.clients[i].phase.ke2.serverMac);
      assert false;
    }
    assert FromServer(s, t);
    j :| 0 <= j < |s.servers| && t == s.servers[j].st.serverMac;
  }

  /** An envelope that opens under a password key was sealed by an honest registration of the same
      password, and holds that registration's key and the certified server key. */
  lemma EnvelopeOrigin(setup: Setup, s: State, n: bytes, user: nat, envelope: Term) returns (k: nat)
    requires Params(setup.c) && Inv(setup, s) && Public(s.made, envelope)
    requires OpenEnvelope(RandomizedPassword(n, user), envelope).Some?
    ensures k < |s.enrolled| && s.enrolled[k].user == user
    ensures OpenEnvelope(RandomizedPassword(n, user), envelope) == Some((s.enrolled[k].cPriv, SERVER))
  {
    var rw := RandomizedPassword(n, user);
    var salt, ct := envelope.items[0], envelope.items[2];
    EnvKeyHidden(s.made, n, user, salt);
    assert Public(s.made, ct) && ct in s.made && Origin(s, ct);
    SealsAreEnrollments(setup, s, ct);
    k :| 0 <= k < |s.enrolled| && ct == SealOf(s.enrolled[k]);
    var e := s.enrolled[k];
    var rw' := RandomizedPassword(e.n, e.user);
    assert ct.plaintext[0] == Scalar(e.cPriv) && ct.plaintext[1] == Pub(SERVER);
    EnvKeySeparates(n, user, salt, e.n, e.user, e.salt);
  }

  lemma SealsAreEnrollments(setup: Setup, s: State, t: Term)
    requires Params(setup.c) && Inv(setup, s) && t in s.made && t.Seal?
    ensures FromEnrollment(s, t)
  {
    assert Origin(s, t);
  }

  /** If a client finishes, some server session with a real record answered it: the exchange and the
      keys are the same, the record holds the key of an enrollment with the same password, and that
      session is not a fake one. */
  lemma ClientAgreement(setup: Setup, s: State, i: nat) returns (j: nat, k: nat)
    requires Params(setup.c) && Inv(setup, s) && i < |s.clients| && s.clients[i].phase.Done?
    ensures Matches(s, i, j) && !s.servers[j].st.isFake
    ensures k < |s.enrolled| && s.enrolled[k].user == s.clients[i].st.user
    ensures s.servers[j].record.cPub == Pub(s.enrolled[k].cPriv)
  {
    var c := s.clients[i];
    assert ClientOk(setup, s, c);
    var cPriv, sPub, sEph, keys := FinishedClientKeys(setup, c);
    var n := Oprf.Unblind(setup.c, c.st.blind, c.phase.ke2.z).value;
    k := EnvelopeOrigin(setup, s, n, c.st.user, c.phase.ke2.envelope);
    var transcript := ClientTranscript(c.st, c.phase.ke2);
    SharedHidden(s.made, c.st.eph, SERVER);
    DerivedKeyHidden(s.made, Shared(c.st.eph, sPub), Shared(cPriv, sEph), Shared(c.st.eph, sEph), transcript);
    assert c.phase.ke2.serverMac in s.made;
    j := ServerOrigin(setup, s, keys, transcript);
    var v := s.servers[j];
    var cEph, cStatic := ServerKeys(setup, s, j);
    MacsSeparate(keys, transcript, v.st.keys, v.st.transcript, v.st.serverMac, v.st.serverMac);
    KeysDetermined(Shared(c.st.eph, sPub), Shared(cPriv, sEph), Shared(c.st.eph, sEph), transcript,
                   Shared(SERVER, cEph), Shared(v.eph, cStatic), Shared(v.eph, cEph), v.st.transcript);
    assert transcript[6] == Pub(sEph) && v.st.transcript[6] == Pub(v.eph);
    SharedCommutes(cPriv, sEph);
    SharedCommutes(cStatic, v.eph);
    SharedInjective(cPriv, cStatic, sEph);
  }

  /** A server session matches at most one client session: transcripts carry the client's ephemeral key. */
  lemma SameClient(setup: Setup, s: State, i: nat, i': nat, j: nat)
    requires Params(setup.c) && Inv(setup, s) && Matches(s, i, j) && Matches(s, i', j)
    ensures i == i'
  {
    ClientInTranscript(setup, s, i, j);
    ClientInTranscript(setup, s, i', j);
  }

  lemma ClientInTranscript(setup: Setup, s: State, i: nat, j: nat)
    requires Params(setup.c) && Inv(setup, s) && Matches(s, i, j)
    ensures |s.servers[j].st.transcript| == 7 && s.servers[j].st.transcript[2] == Pub(s.clients[i].st.eph)
    ensures s.clients[i].st.eph.Honest?
  {
    assert ClientOk(setup, s, s.clients[i]);
  }

  /** A client session matches at most one server session. */
  lemma SameServer(setup: Setup, s: State, i: nat, j: nat, j': nat)
    requires Params(setup.c) && Inv(setup, s) && Matches(s, i, j) && Matches(s, i, j')
    ensures j == j'
  {
    var _, _ := ServerKeys(setup, s, j);
    var _, _ := ServerKeys(setup, s, j');
    assert s.servers[j].st.transcript[6] == Pub(s.servers[j].eph);
    assert s.servers[j'].st.transcript[6] == Pub(s.servers[j'].eph);
  }

  /** Every field of KE1 and KE2 arrived as it was sent. */
  predicate SameMessages(s: State, i: nat, j: nat) {
    && i < |s.clients| && j < |s.servers| && s.clients[i].phase.Done?
    && s.clients[i].st.ke1 == s.servers[j].ke1 && s.clients[i].phase.ke2 == s.servers[j].ke2
  }

  /** Both MACs cover both messages: where the two sessions match, nothing was altered in between. */
  lemma MatchedMessages(setup: Setup, s: State, i: nat, j: nat)
    requires Params(setup.c) && Inv(setup, s) && Matches(s, i, j)
    ensures SameMessages(s, i, j)
  {
    var c, v := s.clients[i], s.servers[j];
    assert ServerOk(setup, s, v);
    SameFields(c.st.ke1, c.phase.ke2.z, c.phase.ke2.envelope, c.phase.ke2.nonceS, c.phase.ke2.sEphPub,
               v.ke1, v.ke2.z, v.ke2.envelope, v.ke2.nonceS, v.ke2.sEphPub);
  }

  lemma SameFields(k: Ke1, z: bytes, e: Term, n: Term, p: Term, k': Ke1, z': bytes, e': Term, n': Term, p': Term)
    requires Transcript(k, z, e, n, p) == Transcript(k', z', e', n', p')
    ensures k == k' && z == z' && e == e' && n == n' && p == p'
  {
    var t, t' := Transcript(k, z, e, n, p), Transcript(k', z', e', n', p');
    assert t[0] == t'[0] && t[1] == t'[1] && t[2] == t'[2] && t[3] == t'[3];
    assert t[4] == t'[4] && t[5] == t'[5] && t[6] == t'[6];
  }

  ghost predicate OnlyClient(s: State, i: nat, j: nat) {
    Matches(s, i, j) && forall i': nat :: Matches(s, i', j) ==> i' == i
  }

  ghost predicate OnlyServer(s: State, i: nat, j: nat) {
    Matches(s, i, j) && forall j': nat :: Matches(s, i, j') ==> j' == j
  }

  /** The record holds the key of an honest client. */
  predicate HonestRecord(record: Record) {
    record.cPub.Pub? && record.cPub.x.Honest?
  }

  /** The server accepted session j, whose record holds an honest client key. */
  predicate AcceptedHonest(s: State, j: nat) {
    j < |s.servers| && s.servers[j].phase == Accepted && HonestRecord(s.servers[j].record)
  }

  /** Agreement, server side: after any list of events whose received values the attacker can produce,
      an accepted session with an honest client key is real and matches exactly one client session, which sent
      and received the very messages the server did. */
  lemma AcceptedMeansFinished(setup: Setup, events: seq<Event>, j: nat)
    requires Params(setup.c) && LegalRun(setup, events) && AcceptedHonest(Run(setup, events), j)
    ensures !Run(setup, events).servers[j].st.isFake
    ensures exists i: nat :: OnlyClient(Run(setup, events), i, j) && SameMessages(Run(setup, events), i, j)
  {
    RunKeeps(setup, events);
    var s := Run(setup, events);
    var i := ServerAgreement(setup, s, j);
    forall i': nat | Matches(s, i', j) ensures i' == i {
      SameClient(setup, s, i, i', j);
    }
    MatchedMessages(setup, s, i, j);
    assert OnlyClient(s, i, j);
  }

  /** Agreement, client side: a finished client matches exactly one server session, which received and sent the very
      messages the client did and used a real record holding the key of an enrollment with the client's password. */
  lemma FinishedMeansAnswered(setup: Setup, events: seq<Event>, i: nat) returns (j: nat, k: nat)
    requires Params(setup.c) && LegalRun(setup, events)
    requires i < |Run(setup, events).clients| && Run(setup, events).clients[i].phase.Done?
    ensures OnlyServer(Run(setup, events), i, j) && SameMessages(Run(setup, events), i, j)
    ensures !Run(setup, events).servers[j].st.isFake
    ensures var s := Run(setup, events);
      k < |s.enrolled| && s.enrolled[k].user == s.clients[i].st.user &&
      s.servers[j].record.cPub == Pub(s.enrolled[k].cPriv)
  {
    RunKeeps(setup, events);
    var s := Run(setup, events);
    j, k := ClientAgreement(setup, s, i);
    MatchedMessages(setup, s, i, j);
    forall j': nat | Matches(s, i, j') ensures j' == j {
      SameServer(setup, s, i, j, j');
    }
  }

  /** Sessions for unknown users never accept, and no attacker obtains a finished client's session key
      or a server session key over an honest client key. */
  lemma KeysStayHidden(setup: Setup, events: seq<Event>)
    requires Params(setup.c) && LegalRun(setup, events)
    ensures var s := Run(setup, events);
      forall j :: 0 <= j < |s.servers| && s.servers[j].st.isFake ==> s.servers[j].phase != Accepted
    ensures var s := Run(setup, events);
      forall i :: 0 <= i < |s.clients| && s.clients[i].phase.Done? ==>
        !Derivable(s.net, s.clients[i].phase.out.sessionKey) && !Derivable(s.net, s.clients[i].phase.out.exportKey)
    ensures var s := Run(setup, events);
      forall j :: 0 <= j < |s.servers| && HonestRecord(s.servers[j].record) ==>
        !Derivable(s.net, s.servers[j].st.keys.session) &&
        !Derivable(s.net, Exporter(s.servers[j].st.keys.session, s.servers[j].st.transcript))
  {
    RunKeeps(setup, events);
    var s := Run(setup, events);
    forall j | 0 <= j < |s.servers| && s.servers[j].st.isFake ensures s.servers[j].phase != Accepted {
      assert ServerOk(setup, s, s.servers[j]);
    }
    forall i | 0 <= i < |s.clients| && s.clients[i].phase.Done?
      ensures !Derivable(s.net, s.clients[i].phase.out.sessionKey)
      ensures !Derivable(s.net, s.clients[i].phase.out.exportKey)
    {
      ClientKeyHidden(setup, s, i);
    }
    forall j | 0 <= j < |s.servers| && HonestRecord(s.servers[j].record)
      ensures !Derivable(s.net, s.servers[j].st.keys.session)
      ensures !Derivable(s.net, Exporter(s.servers[j].st.keys.session, s.servers[j].st.transcript))
    {
      ServerKeyHidden(setup, s, j);
    }
  }

  lemma ServerKeyHidden(setup: Setup, s: State, j: nat)
    requires Params(setup.c) && Inv(setup, s) && j < |s.servers| && HonestRecord(s.servers[j].record)
    ensures !Derivable(s.net, s.servers[j].st.keys.session)
    ensures !Derivable(s.net, Exporter(s.servers[j].st.keys.session, s.servers[j].st.transcript))
  {
    var v := s.servers[j];
    assert ServerOk(setup, s, v);
    var cEph, cStatic := ServerKeys(setup, s, j);
    SharedHidden(s.made, v.eph, cStatic);
    assert v.st.keys.session.args[1] == Shared(v.eph, cStatic);
    assert Exporter(v.st.keys.session, v.st.transcript).args[0] == v.st.keys.session;
    NotLearned(setup, s, v.st.keys.session);
    NotLearned(setup, s, Exporter(v.st.keys.session, v.st.transcript));
  }

  lemma ClientKeyHidden(setup: Setup, s: State, i: nat)
    requires Params(setup.c) && Inv(setup, s) && i < |s.clients| && s.clients[i].phase.Done?
    ensures !Derivable(s.net, s.clients[i].phase.out.sessionKey)
    ensures !Derivable(s.net, s.clients[i].phase.out.exportKey)
  {
    var c := s.clients[i];
    assert ClientOk(setup, s, c);
    var cPriv, sPub, sEph, keys := FinishedClientKeys(setup, c);
    var n := Oprf.Unblind(setup.c, c.st.blind, c.phase.ke2.z).value;
    var k := EnvelopeOrigin(setup, s, n, c.st.user, c.phase.ke2.envelope);
    OutcomeHidden(s.made, c.st.eph, keys, Shared(cPriv, sEph), Shared(c.st.eph, sEph),
                  ClientTranscript(c.st, c.phase.ke2));
    NotLearned(setup, s, c.phase.out.sessionKey);
    NotLearned(setup, s, c.phase.out.exportKey);
  }

  lemma NotLearned(setup: Setup, s: State, t: Term)
    requires Params(setup.c) && Inv(setup, s) && !Public(s.made, t)
    ensures !Derivable(s.net, t)
  {
    if Derivable(s.net, t) {
      Learned(setup, s, t);
    }
  }

  lemma OutcomeHidden(made: set<Term>, eph: Owner, keys: Keys, dh2: Term, dh3: Term, transcript: seq<Term>)
    requires eph.Honest? && keys == Derive3dh(Shared(eph, SERVER), dh2, dh3, transcript)
    ensures !Public(made, keys.session) && !Public(made, Exporter(keys.session, transcript))
  {
    SharedHidden(made, eph, SERVER);
    assert keys.session.args[0] == Shared(eph, SERVER);
    assert Exporter(keys.session, transcript).args[0] == keys.session;
  }
}
