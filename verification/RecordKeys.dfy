/** Which key and which nonce every record uses, across all sessions and both directions. */
module RecordKeys {
  import opened Bytes
  import opened Terms
  import opened Kdf
  import opened Record

  /** Who seals: the client or the server of one session, under that session's key and transcript. */
  datatype Sender = Sender(fromClient: bool, sessionKey: Term, history: seq<Entry>)

  /** The traffic secret the endpoint seals with (client.py:151, server.py:179). */
  function Secret(s: Sender): Term
    requires HistoryFits(s.history)
  {
    var secrets := DeriveTrafficSecrets(s.sessionKey, TranscriptHash(s.history));
    if s.fromClient then secrets.clientApp else secrets.serverApp
  }

  /** The secret it opens with (client.py:152, server.py:180). */
  function PeerSecret(s: Sender): Term
    requires HistoryFits(s.history)
  {
    var secrets := DeriveTrafficSecrets(s.sessionKey, TranscriptHash(s.history));
    if s.fromClient then secrets.serverApp else secrets.clientApp
  }

  /** The key and IV of `__post_init__`. */
  function KeyOf(secret: Term): Term {
    ExpandWith(secret, "key", Data([]), 32)
  }

  function IvOf(secret: Term): Term {
    ExpandWith(secret, "iv", Data([]), IV_LEN)
  }

  /** Key and IV are expanded under their own labels and lengths, and no key is ever an IV. */
  lemma KeyAndIv(s: Term, s': Term)
    ensures KeyOf(s) == Fn(ExpandLabel, [s, Data(Ascii("key")), Data([]), Data([0, 32])])
    ensures IvOf(s) == Fn(ExpandLabel, [s, Data(Ascii("iv")), Data([]), Data([0, 12])])
    ensures KeyOf(s) != IvOf(s')
  {
    Widths();
    TwoBytes(0, 32);
    TwoBytes(0, 12);
    assert |Ascii("key")| == 3 && |Ascii("iv")| == 2;
    assert KeyOf(s).args[1] == Data(Ascii("key")) && IvOf(s').args[1] == Data(Ascii("iv"));
  }

  /** The client seals under the client's application secret, the server under its own. */
  lemma SendsUnder(s: Sender)
    requires HistoryFits(s.history)
    ensures Secret(s) ==
      DeriveTrafficSecrets(s.sessionKey, TranscriptHash(s.history)).Get(if s.fromClient then ClientApp else ServerApp)
    ensures Secret(s).args[1] == Data(Ascii(if s.fromClient then "c ap traffic" else "s ap traffic"))
  {
    SecretNamed(if s.fromClient then ClientApp else ServerApp, s.sessionKey, TranscriptHash(s.history));
  }

  lemma KeyInjective(s: Term, s': Term)
    requires KeyOf(s) == KeyOf(s')
    ensures s == s'
  {
    assert KeyOf(s).args[0] == s && KeyOf(s').args[0] == s';
  }

  lemma SecretInjective(s: Sender, s': Sender)
    requires HistoryFits(s.history) && HistoryFits(s'.history) && Secret(s) == Secret(s')
    ensures s == s'
  {
    SecretsDetermine(if s.fromClient then ClientApp else ServerApp, s.sessionKey, s.history,
                     if s'.fromClient then ClientApp else ServerApp, s'.sessionKey, s'.history);
  }

  /** Two ends of one session hold each other's secrets: what one seals the other opens, and the two
      directions use different keys. */
  lemma DirectionsPair(sk: Term, h: seq<Entry>)
    requires HistoryFits(h)
    ensures Secret(Sender(true, sk, h)) == PeerSecret(Sender(false, sk, h))
    ensures Secret(Sender(false, sk, h)) == PeerSecret(Sender(true, sk, h))
    ensures KeyOf(Secret(Sender(true, sk, h))) != KeyOf(Secret(Sender(false, sk, h)))
  {
    if KeyOf(Secret(Sender(true, sk, h))) == KeyOf(Secret(Sender(false, sk, h))) {
      KeyInjective(Secret(Sender(true, sk, h)), Secret(Sender(false, sk, h)));
      SecretInjective(Sender(true, sk, h), Sender(false, sk, h));
      assert false;
    }
  }

  /** What a sender has sealed after a run of sends and deliveries. */
  function LogOf(ivBytes: Term -> bytes, cipher: (bytes, bytes, bytes) -> bytes, s: Sender,
                 run: seq<Event>): seq<Sealed>
    requires HistoryFits(s.history) && forall t :: |ivBytes(t)| == IV_LEN
  {
    Run(cipher, ivBytes(IvOf(Secret(s))), run).log
  }

  /** One sender never repeats a nonce. */
  lemma NoncesDiffer(ivBytes: Term -> bytes, cipher: (bytes, bytes, bytes) -> bytes, s: Sender, run: seq<Event>,
                     i: nat, i': nat)
    requires HistoryFits(s.history) && forall t :: |ivBytes(t)| == IV_LEN
    requires var log := LogOf(ivBytes, cipher, s, run); i < |log| && i' < |log| && log[i].nonce == log[i'].nonce
    ensures i == i'
  {
    var iv := ivBytes(IvOf(Secret(s)));
    var ch := Run(cipher, iv, run);
    ChannelSafe(cipher, iv, run);
    NonceInjective(iv, ch.sealedAt[i], ch.sealedAt[i']);
  }

  /** Different senders never share a key. */
  lemma KeysDiffer(s: Sender, s': Sender)
    requires HistoryFits(s.history) && HistoryFits(s'.history) && KeyOf(Secret(s)) == KeyOf(Secret(s'))
    ensures s == s'
  {
    KeyInjective(Secret(s), Secret(s'));
    SecretInjective(s, s');
  }

  /** No key and nonce seal two records: over any number of senders, each with its own run of sends and
      deliveries, equal key and equal nonce mean the same sender and the same record. */
  lemma NoNonceReuse(ivBytes: Term -> bytes, cipher: (bytes, bytes, bytes) -> bytes, runs: map<Sender, seq<Event>>,
                     s: Sender, i: nat, s': Sender, i': nat)
    requires forall t :: |ivBytes(t)| == IV_LEN
    requires s in runs && s' in runs && HistoryFits(s.history) && HistoryFits(s'.history)
    requires KeyOf(Secret(s)) == KeyOf(Secret(s'))
    requires
      var log, log' := LogOf(ivBytes, cipher, s, runs[s]), LogOf(ivBytes, cipher, s', runs[s']);
      i < |log| && i' < |log'| && log[i].nonce == log'[i'].nonce
    ensures s == s' && i == i'
  {
    KeysDiffer(s, s');
    NoncesDiffer(ivBytes, cipher, s, runs[s], i, i');
  }
}
