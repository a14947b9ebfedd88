/** From the handshake to the record layer: the transcript both sides hash and the traffic secrets they
    derive (client.py:79-126, server.py:153-180). */
module Session {
  import opened Bytes
  import opened CurveArithmetic
  import opened Kdf
  import opened Handshake
  import opened Agreement
  import Record
  import RecordKeys
  import Terms
  import Opaque

  /** The three messages one side added to its transcript, as it saw them on the wire. */
  datatype Exchange = Exchange(clientHello: bytes, serverHello: bytes, clientFinish: bytes)

  function History(x: Exchange): seq<Entry> {
    [(Ascii("client_hello"), x.clientHello), (Ascii("server_hello"), x.serverHello),
     (Ascii("client_finish"), x.clientFinish)]
  }

  lemma HistoryDetermines(x: Exchange, y: Exchange)
    ensures History(x) == History(y) <==> x == y
  {
    if History(x) == History(y) {
      assert History(x)[0] == History(y)[0] && History(x)[1] == History(y)[1] && History(x)[2] == History(y)[2];
    }
  }

  /** The string both sides hash, byte by byte: each message behind its length, each behind its label and the
      label's length. */
  lemma TranscriptOnWire(x: Exchange)
    requires |x.clientHello| < Pow256(4) && |x.serverHello| < Pow256(4) && |x.clientFinish| < Pow256(4)
    ensures HistoryFits(History(x)) && HistoryBytes(History(x)) ==
      [0, 12] + Ascii("client_hello") + (BE(|x.clientHello|, 4) + x.clientHello) +
      ([0, 12] + Ascii("server_hello") + (BE(|x.serverHello|, 4) + x.serverHello) +
       ([0, 13] + Ascii("client_finish") + (BE(|x.clientFinish|, 4) + x.clientFinish)))
  {
    var h := History(x);
    Widths();
    TwoBytes(0, 12);
    TwoBytes(0, 13);
    var second: seq<Entry>, third: seq<Entry> := h[1..], h[2..];
    assert second[0] == h[1] && second[1..] == third && third[0] == h[2] && |third[1..]| == 0;
    assert HistoryBytes(third) == EntryBytes(h[2]);
    assert HistoryBytes(second) == EntryBytes(h[1]) + HistoryBytes(third);
  }

  /** One of the five secrets a side derives from its session key and the messages it saw. */
  function SecretOf(name: Name, sk: Terms.Term, x: Exchange): Terms.Term
    requires HistoryFits(History(x))
  {
    DeriveTrafficSecrets(sk, TranscriptHash(History(x))).Get(name)
  }

  /** Two sides hold a secret in common exactly when it is the same one of the five and they have the same
      session key and saw the same three messages. */
  lemma SecretsAgree(a: Name, sk: Terms.Term, x: Exchange, b: Name, sk': Terms.Term, y: Exchange)
    requires HistoryFits(History(x)) && HistoryFits(History(y))
    ensures SecretOf(a, sk, x) == SecretOf(b, sk', y) <==> a == b && sk == sk' && x == y
  {
    HistoryDetermines(x, y);
    if SecretOf(a, sk, x) == SecretOf(b, sk', y) {
      SecretsDetermine(a, sk, History(x), b, sk', History(y));
    }
  }

  /** Sessions that accepted each other derive the same five secrets, and can read each other's records,
      exactly when no message was altered between them. */
  lemma MatchedSecrets(s: State, i: nat, j: nat, x: Exchange, y: Exchange)
    requires Matches(s, i, j) && HistoryFits(History(x)) && HistoryFits(History(y))
    ensures var client := DeriveTrafficSecrets(s.clients[i].phase.out.sessionKey, TranscriptHash(History(x)));
      var server := DeriveTrafficSecrets(s.servers[j].st.keys.session, TranscriptHash(History(y)));
      && (client == server <==> x == y)
      && (forall name :: x != y ==> client.Get(name) != server.Get(name))
    ensures var client := RecordKeys.Sender(true, s.clients[i].phase.out.sessionKey, History(x));
      var server := RecordKeys.Sender(false, s.servers[j].st.keys.session, History(y));
      && (RecordKeys.Secret(client) == RecordKeys.PeerSecret(server) <==> x == y)
      && (RecordKeys.Secret(server) == RecordKeys.PeerSecret(client) <==> x == y)
  {
    var sk := s.clients[i].phase.out.sessionKey;
    HistoryDetermines(x, y);
    SecretsAgree(ClientApp, sk, x, ClientApp, sk, y);
    SecretsAgree(ServerApp, sk, x, ServerApp, sk, y);
    forall name | x != y
      ensures SecretOf(name, sk, x) != SecretOf(name, sk, y)
    {
      SecretsAgree(name, sk, x, name, sk, y);
    }
  }

  // ---------------------------------------------------------------- the senders of a run

  /** One side of a session of a run. */
  datatype End = ClientEnd(i: nat) | ServerEnd(j: nat)

  /** It holds a session key: a client once it has finished, a server session from its answer on. */
  predicate HasKey(s: State, e: End) {
    match e
    case ClientEnd(i) => i < |s.clients| && s.clients[i].phase.Done?
    case ServerEnd(j) => j < |s.servers|
  }

  function KeyOf(s: State, e: End): Terms.Term
    requires HasKey(s, e)
  {
    match e
    case ClientEnd(i) => s.clients[i].phase.out.sessionKey
    case ServerEnd(j) => s.servers[j].st.keys.session
  }

  /** Two clients of a run never finish with the same session key: each key names its client's ephemeral key. */
  lemma ClientKeysDiffer(setup: Opaque.Setup, s: State, i: nat, i': nat)
    requires Params(setup.c) && Inv(setup, s) && HasKey(s, ClientEnd(i)) && HasKey(s, ClientEnd(i'))
    requires KeyOf(s, ClientEnd(i)) == KeyOf(s, ClientEnd(i'))
    ensures i == i'
  {
    ClientInKey(setup, s, i);
    ClientInKey(setup, s, i');
  }

  lemma ClientInKey(setup: Opaque.Setup, s: State, i: nat)
    requires Params(setup.c) && Inv(setup, s) && HasKey(s, ClientEnd(i))
    ensures var key := KeyOf(s, ClientEnd(i));
      key.Fn? && |key.args| == 4 && key.args[3].List? && |key.args[3].items| == 7 &&
      key.args[3].items[2] == Terms.Pub(s.clients[i].st.eph)
  {
    assert ClientOk(setup, s, s.clients[i]);
    var _, _, _, keys := FinishedClientKeys(setup, s.clients[i]);
  }

  lemma ServerKeysDiffer(setup: Opaque.Setup, s: State, j: nat, j': nat)
    requires Params(setup.c) && Inv(setup, s) && HasKey(s, ServerEnd(j)) && HasKey(s, ServerEnd(j'))
    requires KeyOf(s, ServerEnd(j)) == KeyOf(s, ServerEnd(j'))
    ensures j == j'
  {
    ServerInKey(setup, s, j);
    ServerInKey(setup, s, j');
  }

  lemma ServerInKey(setup: Opaque.Setup, s: State, j: nat)
    requires Params(setup.c) && Inv(setup, s) && HasKey(s, ServerEnd(j))
    ensures var key := KeyOf(s, ServerEnd(j));
      key.Fn? && |key.args| == 4 && key.args[3].List? && |key.args[3].items| == 7 &&
      key.args[3].items[6] == Terms.Pub(s.servers[j].eph)
  {
    var _, _ := ServerKeys(setup, s, j);
  }

  function SenderOf(s: State, e: End, h: seq<Entry>): RecordKeys.Sender
    requires HasKey(s, e)
  {
    RecordKeys.Sender(e.ClientEnd?, KeyOf(s, e), h)
  }

  /** Different ends of a run are different senders, whatever transcripts they hashed. */
  lemma SendersDiffer(setup: Opaque.Setup, s: State, e: End, h: seq<Entry>, e': End, h': seq<Entry>)
    requires Params(setup.c) && Inv(setup, s) && HasKey(s, e) && HasKey(s, e')
    requires SenderOf(s, e, h) == SenderOf(s, e', h')
    ensures e == e'
  {
    match (e, e') {
      case (ClientEnd(i), ClientEnd(i')) => ClientKeysDiffer(setup, s, i, i');
      case (ServerEnd(j), ServerEnd(j')) => ServerKeysDiffer(setup, s, j, j');
      case _ =>
    }
  }

  /** No key and nonce repeat over the sessions of any run: whatever transcript each end hashed and whatever it
      sent, two sealed records with the same key and nonce are the same record of the same end. */
  lemma RunNoNonceReuse(setup: Opaque.Setup, events: seq<Event>, ivBytes: Terms.Term -> bytes,
                        cipher: (bytes, bytes, bytes) -> bytes,
                        history: End -> seq<Entry>, sends: End -> seq<Record.Event>, e: End, i: nat, e': End, i': nat)
    requires Params(setup.c) && LegalRun(setup, events) && forall t :: |ivBytes(t)| == Record.IV_LEN
    requires HasKey(Run(setup, events), e) && HasKey(Run(setup, events), e')
    requires HistoryFits(history(e)) && HistoryFits(history(e'))
    requires
      var s := Run(setup, events);
      var (a, b) := (SenderOf(s, e, history(e)), SenderOf(s, e', history(e')));
      var (log, log') :=
        (RecordKeys.LogOf(ivBytes, cipher, a, sends(e)), RecordKeys.LogOf(ivBytes, cipher, b, sends(e')));
      && RecordKeys.KeyOf(RecordKeys.Secret(a)) == RecordKeys.KeyOf(RecordKeys.Secret(b))
      && i < |log| && i' < |log'| && log[i].nonce == log'[i'].nonce
    ensures e == e' && i == i'
  {
    RunKeeps(setup, events);
    var s := Run(setup, events);
    RecordKeys.KeysDiffer(SenderOf(s, e, history(e)), SenderOf(s, e', history(e')));
    SendersDiffer(setup, s, e, history(e), e', history(e'));
    RecordKeys.NoncesDiffer(ivBytes, cipher, SenderOf(s, e, history(e)), sends(e), i, i');
  }
}
