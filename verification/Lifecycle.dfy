/** How a session goes on: what one event may change, when each side decides, and that it decides once. */
module Lifecycle {
  import opened Bytes
  import opened CurveArithmetic
  import opened Terms
  import opened Opaque
  import opened Handshake
  import Oprf

  /** Nothing is taken back: what was sent stays sent, and a session keeps its messages and keys and, once it has
      decided, its decision. */
  ghost predicate Forward(s: State, s': State) {
    && s.net <= s'.net && s.made <= s'.made && s.drawn <= s'.drawn && s.enrolled <= s'.enrolled
    && ClientsForward(s.clients, s'.clients) && ServersForward(s.servers, s'.servers)
  }

  ghost predicate ClientsForward(a: seq<ClientSession>, b: seq<ClientSession>) {
    |a| <= |b| &&
    forall i :: 0 <= i < |a| ==> b[i].st == a[i].st && (a[i].phase != Sent ==> b[i].phase == a[i].phase)
  }

  ghost predicate ServersForward(a: seq<ServerSession>, b: seq<ServerSession>) {
    |a| <= |b| && forall j :: 0 <= j < |a| ==> ServerForward(a[j], b[j])
  }

  predicate ServerForward(v: ServerSession, w: ServerSession) {
    w == v.(phase := w.phase) && (v.phase != Waiting ==> w.phase == v.phase)
  }

  lemma EventForward(setup: Setup, s: State, ev: Event)
    requires Params(setup.c)
    ensures Forward(s, Handshake.Apply(setup, s, ev))
  {
  }

  lemma ForwardOn(s: State, t: State, u: State)
    requires Forward(s, t) && Forward(t, u)
    ensures Forward(s, u)
  {
    forall j | 0 <= j < |s.servers| ensures ServerForward(s.servers[j], u.servers[j]) {
      assert ServerForward(s.servers[j], t.servers[j]) && ServerForward(t.servers[j], u.servers[j]);
    }
  }

  /** Over any continuation of a run, a finished, failed, accepted or rejected session stays what it is. */
  lemma {:induction false} RunForward(setup: Setup, events: seq<Event>, more: seq<Event>)
    requires Params(setup.c)
    ensures Forward(Run(setup, events), Run(setup, events + more))
  {
    if more == [] {
      assert events + more == events;
    } else {
      var n := |more| - 1;
      RunForward(setup, events, more[..n]);
      assert (events + more)[..|events + more| - 1] == events + more[..n];
      EventForward(setup, Run(setup, events + more[..n]), more[n]);
      ForwardOn(Run(setup, events), Run(setup, events + more[..n]), Run(setup, events + more));
    }
  }

  // ---------------------------------------------------------------- nonces

  /** Each nonce is a random value drawn in the run, and no two are the same. */
  ghost predicate NoncesDiffer(s: State) {
    && (forall i :: 0 <= i < |s.clients| ==> DrawnNonce(s, s.clients[i].st.ke1.nonceC))
    && (forall j :: 0 <= j < |s.servers| ==> DrawnNonce(s, s.servers[j].nonceS))
    && (forall i, k :: 0 <= i < k < |s.clients| ==> s.clients[i].st.ke1.nonceC != s.clients[k].st.ke1.nonceC)
    && (forall j, k :: 0 <= j < k < |s.servers| ==> s.servers[j].nonceS != s.servers[k].nonceS)
    && (forall i, j :: 0 <= i < |s.clients| && 0 <= j < |s.servers| ==>
          s.clients[i].st.ke1.nonceC != s.servers[j].nonceS)
  }

  predicate DrawnNonce(s: State, nonce: Term) {
    nonce.Random? && nonce.n < s.drawn
  }

  lemma OpenedClient(s: State, c: ClientSession)
    requires NoncesDiffer(s) && c.st.ke1.nonceC == Random(s.drawn + 1)
    ensures NoncesDiffer(Started(s, c))
  {
  }

  lemma OpenedServer(s: State, v: ServerSession)
    requires NoncesDiffer(s) && v.nonceS == Random(s.drawn + 5)
    ensures NoncesDiffer(Responded(s, v))
  {
  }

  lemma SameSessions(s: State, s': State)
    requires NoncesDiffer(s) && Forward(s, s') && |s.clients| == |s'.clients| && |s.servers| == |s'.servers|
    ensures NoncesDiffer(s')
  {
    forall j | 0 <= j < |s.servers| ensures s'.servers[j].nonceS == s.servers[j].nonceS {
      assert ServerForward(s.servers[j], s'.servers[j]);
    }
  }

  lemma EventNonces(setup: Setup, s: State, ev: Event)
    requires Params(setup.c) && NoncesDiffer(s)
    ensures NoncesDiffer(Handshake.Apply(setup, s, ev))
  {
    if ev.LoginStart? {
      ClientNonce(setup, s, ev.user, ev.blind);
    } else if ev.ServerStart? {
      ServerNonce(setup, s, ev.credential, ev.fakeKey, ev.ke1);
    } else {
      NoneOpened(setup, s, ev);
      EventForward(setup, s, ev);
      SameSessions(s, Handshake.Apply(setup, s, ev));
    }
  }

  lemma NoneOpened(setup: Setup, s: State, ev: Event)
    requires Params(setup.c) && !ev.LoginStart? && !ev.ServerStart?
    ensures var s' := Handshake.Apply(setup, s, ev);
      |s.clients| == |s'.clients| && |s.servers| == |s'.servers|
  {
  }

  lemma ClientNonce(setup: Setup, s: State, user: nat, blind: nat)
    requires Params(setup.c) && NoncesDiffer(s)
    ensures NoncesDiffer(Handshake.Apply(setup, s, LoginStart(user, blind)))
  {
    var st := ClientLoginStart(setup, user, blind, Honest(s.drawn), Random(s.drawn + 1));
    if st.Ok? {
      OpenedClient(s, ClientSession(st.value, Sent));
    }
  }

  lemma ServerNonce(setup: Setup, s: State, credential: bytes, fakeKey: nat, ke1: Ke1)
    requires Params(setup.c) && NoncesDiffer(s)
    ensures NoncesDiffer(Respond(setup, s, credential, fakeKey, ke1))
  {
    var s' := Respond(setup, s, credential, fakeKey, ke1);
    if s' != s {
      OpenedServer(s, s'.servers[|s.servers|]);
    }
  }

  /** Over every run, attacked or not, no nonce is used twice by the honest parties. */
  lemma {:induction false} RunNonces(setup: Setup, events: seq<Event>)
    requires Params(setup.c)
    ensures NoncesDiffer(Run(setup, events))
  {
    if events != [] {
      var n := |events| - 1;
      RunNonces(setup, events[..n]);
      EventNonces(setup, Run(setup, events[..n]), events[n]);
    }
  }

  // ---------------------------------------------------------------- decisions

  /** A server session decides on the first KE3 it receives: it accepts exactly the client's MAC over its own
      exchange, never for an unknown user, and nothing else changes. */
  lemma ServerDecides(setup: Setup, s: State, j: nat, ke3: Term)
    requires Params(setup.c) && j < |s.servers| && s.servers[j].phase == Waiting
    ensures var s', st := Handshake.Apply(setup, s, ServerFinish(j, ke3)), s.servers[j].st;
      && s' == s.(servers := s'.servers) && |s'.servers| == |s.servers|
      && (forall k :: 0 <= k < |s.servers| && k != j ==> s'.servers[k] == s.servers[k])
      && s'.servers[j] == s.servers[j].(phase := s'.servers[j].phase)
      && s'.servers[j].phase ==
           if !st.isFake && ke3 == Mac(st.keys.mac, [Data(Ascii("client"))] + st.transcript + [st.serverMac]) then
             Accepted
           else Rejected
  {
  }

  /** A client session decides on the first KE2 it receives; only if it accepts does it send anything, its KE3. */
  lemma ClientDecides(setup: Setup, s: State, i: nat, ke2: Ke2)
    requires Params(setup.c) && i < |s.clients| && s.clients[i].phase == Sent
    ensures var s' := Handshake.Apply(setup, s, ClientFinish(i, ke2));
      var out := ClientLoginFinish(setup, s.clients[i].st, ke2);
      && |s'.clients| == |s.clients|
      && (forall k :: 0 <= k < |s.clients| && k != i ==> s'.clients[k] == s.clients[k])
      && s'.clients[i] == s.clients[i].(phase := if out.Some? then Done(ke2, out.value) else Failed)
      && s'.net == s.net + (if out.Some? then {out.value.ke3} else {})
  {
  }

  /** A client uploads nothing unless the static key in the response is the certified one. */
  lemma OnlyCertified(setup: Setup, s: State, i: nat, z: bytes, sPub: Term)
    requires Params(setup.c) && Handshake.Apply(setup, s, RegFinish(i, z, sPub)) != s
    ensures sPub == Pub(SERVER)
  {
  }

  /** The upload itself is not checked: whatever arrives is stored for the credential, next to the OPRF key drawn for
      it, and replaces what was there. */
  lemma StoresAnything(setup: Setup, s: State, j: nat, cPub: Term, envelope: Term)
    requires Params(setup.c) && j < |s.pending|
    ensures var (s', p) := (Handshake.Apply(setup, s, RegStore(j, cPub, envelope)), s.pending[j]);
      && s' == s.(records := s'.records)
      && s'.records == s.records[p.credential := Record(p.oprfKey, cPub, envelope)]
  {
  }

  /** The parts an envelope shows to someone without its key. */
  predicate LooksSealed(t: Term) {
    t.List? && |t.items| == 3 && t.items[0].Random? && t.items[1].Random? && (t.items[2].Seal? || t.items[2].Random?)
  }

  /** The envelope in the answer to this credential: the stored one, or one of the same form made of values that no
      message has carried. */
  predicate AnswerEnvelope(s: State, credential: bytes, envelope: Term) {
    if credential in s.records then envelope == s.records[credential].envelope
    else LooksSealed(envelope) && forall t :: t in envelope.items ==> t.Random? && t.n >= s.drawn
  }

  /** The server opened one session, which waits for its KE3. */
  predicate Opened(s: State, credential: bytes, s': State) {
    |s'.servers| == |s.servers| + 1 && s'.servers[..|s.servers|] == s.servers &&
    var v := s'.servers[|s.servers|];
    v.phase == Waiting && v.st.isFake == (credential !in s.records) && AnswerEnvelope(s, credential, v.ke2.envelope)
  }

  /** Whether a user exists does not show in whether the server answers: to a point of the curve it answers a real and
      an unknown user alike, exactly when the ephemeral key loads. */
  lemma UnknownAnswered(setup: Setup, s: State, credential: bytes, ke1: Ke1, M: Point, fakeKey: nat)
    requires Group(setup.c) && OnCurve(setup.c, M) && M.Affine? && ke1.m == Compress(M)
    requires fakeKey % setup.c.n != 0
    requires credential in s.records ==>
      s.records[credential].oprfKey % setup.c.n != 0 && s.records[credential].cPub.Pub?
    ensures var s' := Handshake.Apply(setup, s, ServerStart(credential, ke1, fakeKey));
      if ke1.cEphPub.Pub? then Opened(s, credential, s') else s' == s
  {
    Evaluates(setup.c, Lookup(s, credential, fakeKey).oprfKey, M);
    AnswerOpens(setup, s, credential, ke1, fakeKey);
  }

  lemma Evaluates(c: Curve, k: nat, M: Point)
    requires Group(c) && OnCurve(c, M) && M.Affine? && k % c.n != 0
    ensures Oprf.Evaluate(c, k, Compress(M)).Ok?
  {
    TimesIsMult(c, k, M);
  }

  lemma AnswerOpens(setup: Setup, s: State, credential: bytes, ke1: Ke1, fakeKey: nat)
    requires Params(setup.c) && Lookup(s, credential, fakeKey).cPub.Pub?
    requires Oprf.Evaluate(setup.c, Lookup(s, credential, fakeKey).oprfKey, ke1.m).Ok?
    ensures var s' := Respond(setup, s, credential, fakeKey, ke1);
      if ke1.cEphPub.Pub? then Opened(s, credential, s') else s' == s
  {
  }
}
