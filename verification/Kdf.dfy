/** tls13_kdf.py: the transcript accumulator, the HKDF label encoding and the key schedule. */
module Kdf {
  import opened Bytes
  import opened Wire
  import opened Terms

  // ---------------------------------------------------------------- transcript

  type Entry = (bytes, bytes)

  const ENTRY := [Var(2), Var(4)]

  predicate EntryFits(e: Entry) {
    |e.0| < Pow256(2) && |e.1| < Pow256(4)
  }

  predicate HistoryFits(h: seq<Entry>) {
    forall i :: 0 <= i < |h| ==> EntryFits(h[i])
  }

  /** The two parts one `add` appends. */
  function Parts(e: Entry): seq<bytes>
    requires EntryFits(e)
  {
    [BE(|e.0|, 2) + e.0, BE(|e.1|, 4) + e.1]
  }

  function Join(parts: seq<bytes>): bytes {
    if parts == [] then [] else parts[0] + Join(parts[1..])
  }

  lemma {:induction false} JoinAppend(p: seq<bytes>, q: seq<bytes>)
    ensures Join(p + q) == Join(p) + Join(q)
  {
    if p == [] {
      assert p + q == q;
    } else {
      JoinAppend(p[1..], q);
      assert (p + q)[1..] == p[1..] + q;
      Assoc(p[0], Join(p[1..]), Join(q));
    }
  }

  /** The string that is hashed for a history of `add` calls. */
  function HistoryBytes(h: seq<Entry>): bytes
    requires HistoryFits(h)
  {
    if h == [] then [] else EntryBytes(h[0]) + HistoryBytes(h[1..])
  }

  function EntryBytes(e: Entry): bytes
    requires EntryFits(e)
  {
    BE(|e.0|, 2) + e.0 + (BE(|e.1|, 4) + e.1)
  }

  lemma {:induction false} HistorySnoc(h: seq<Entry>, e: Entry)
    requires HistoryFits(h) && EntryFits(e)
    ensures HistoryFits(h + [e]) && HistoryBytes(h + [e]) == HistoryBytes(h) + EntryBytes(e)
  {
    if h == [] {
      assert (h + [e])[1..] == [] && h + [e] == [e];
      assert HistoryBytes([e]) == EntryBytes(e) + HistoryBytes([e][1..]);
    } else {
      HistorySnoc(h[1..], e);
      assert (h + [e])[1..] == h[1..] + [e];
      Assoc(EntryBytes(h[0]), HistoryBytes(h[1..]), EntryBytes(e));
    }
  }

  /** `Transcript` */
  class Transcript {
    var parts: seq<bytes>
    ghost var history: seq<Entry>

    ghost predicate Valid()
      reads this
    {
      HistoryFits(history) && Join(parts) == HistoryBytes(history)
    }

    constructor ()
      ensures Valid() && history == []
    {
      parts := [];
      history := [];
    }

    /** `add`, with the label already in UTF-8. When the value is too long for its length field the
        label part has been appended, and the transcript is no longer that of a history. */
    method Add(tag: bytes, value: bytes) returns (r: Result<()>)
      requires Valid()
      modifies this
      ensures r.Ok? <==> EntryFits((tag, value))
      ensures r.Ok? ==> Valid() && history == old(history) + [(tag, value)]
      ensures r.Err? ==> r == Err(DoesNotFit)
      ensures r.Err? ==> parts == old(parts) + (if |tag| < Pow256(2) then [BE(|tag|, 2) + tag] else [])
    {
      if |tag| >= Pow256(2) {
        return Err(DoesNotFit);
      }
      var before := parts;
      parts := parts + [BE(|tag|, 2) + tag];
      if |value| >= Pow256(4) {
        return Err(DoesNotFit);
      }
      parts := parts + [BE(|value|, 4) + value];
      ghost var e := (tag, value);
      HistorySnoc(history, e);
      assert parts == before + Parts(e);
      JoinAppend(before, Parts(e));
      JoinParts(e);
      history := history + [e];
      return Ok(());
    }

    /** `digest` through `hash_bytes`: the hash object is updated part by part. */
    method Digest(sha512: bytes -> bytes) returns (digest: bytes)
      requires Valid()
      ensures digest == sha512(HistoryBytes(history))
    {
      var absorbed: bytes := [];
      for i := 0 to |parts|
        invariant absorbed == Join(parts[..i])
      {
        absorbed := absorbed + parts[i];
        assert parts[..i + 1] == parts[..i] + [parts[i]];
        JoinAppend(parts[..i], [parts[i]]);
        assert Join([parts[i]]) == parts[i] + Join([parts[i]][1..]) == parts[i];
      }
      assert parts[..|parts|] == parts;
      digest := sha512(absorbed);
    }
  }

  lemma JoinParts(e: Entry)
    requires EntryFits(e)
    ensures Join(Parts(e)) == EntryBytes(e)
  {
    var p: seq<bytes> := Parts(e);
    assert p[1..] == [p[1]] && |p[1..][1..]| == 0;
    assert Join(p) == p[0] + (p[1] + Join(p[1..][1..]));
  }

  lemma EntryLayout(e: Entry)
    requires EntryFits(e)
    ensures Fits(ENTRY, [e.0, e.1]) && Print(ENTRY, [e.0, e.1]) == EntryBytes(e)
  {
    var vs := [e.0, e.1];
    assert PrintFrom(ENTRY, vs, 2) == [];
    assert PrintFrom(ENTRY, vs, 1) == BE(|e.1|, 4) + e.1;
  }

  /** One history's string starts another's only if the history does: transcripts are unambiguous. */
  lemma {:induction false} HistoryPrefix(h: seq<Entry>, h': seq<Entry>)
    requires HistoryFits(h) && HistoryFits(h') && HistoryBytes(h) <= HistoryBytes(h')
    ensures h <= h'
  {
    if h != [] {
      var d := HistoryBytes(h');
      assert EntryBytes(h[0]) <= HistoryBytes(h) <= d;
      assert |EntryBytes(h[0])| >= 6;
      assert h' != [];
      EntryLayout(h[0]);
      EntryLayout(h'[0]);
      PrefixFree(ENTRY, [h[0].0, h[0].1], [h'[0].0, h'[0].1], d);
      assert [h[0].0, h[0].1][0] == [h'[0].0, h'[0].1][0] && [h[0].0, h[0].1][1] == [h'[0].0, h'[0].1][1];
      var n := |EntryBytes(h[0])|;
      assert HistoryBytes(h[1..]) == HistoryBytes(h)[n..] && HistoryBytes(h'[1..]) == d[n..];
      HistoryPrefix(h[1..], h'[1..]);
      assert h == [h[0]] + h[1..] && h' == [h'[0]] + h'[1..];
    }
  }

  /** Equal strings come from equal histories. */
  lemma HistoryInjective(h: seq<Entry>, h': seq<Entry>)
    requires HistoryFits(h) && HistoryFits(h') && HistoryBytes(h) == HistoryBytes(h')
    ensures h == h'
  {
    HistoryPrefix(h, h');
    HistoryPrefix(h', h);
  }

  // ---------------------------------------------------------------- HKDF-Expand-Label

  const TLS13: bytes := Ascii("tls13 ")
  const LABEL := [Fixed(2), Var(1), Var(1)]

  /** The info string of `hkdf_expand_label`. */
  function HkdfInfo(tag: bytes, context: bytes, length: int): Result<bytes> {
    Encode(LABEL, [U(length, 2), TLS13 + tag, context])
  }

  /** The info string determines length, label and context. */
  lemma InfoInjective(l: bytes, c: bytes, n: int, l': bytes, c': bytes, n': int)
    requires HkdfInfo(l, c, n).Ok? && HkdfInfo(l, c, n) == HkdfInfo(l', c', n')
    ensures l == l' && c == c' && n == n'
  {
    var vs, vs' := [U(n, 2), TLS13 + l, c], [U(n', 2), TLS13 + l', c'];
    PrefixFree(LABEL, vs, vs', HkdfInfo(l, c, n).value);
    assert vs[0] == vs'[0] && vs[1] == vs'[1] && vs[2] == vs'[2];
    assert FieldFits(LABEL[0], vs[0]);
    assert l == vs[1][|TLS13|..] == l';
  }

  /** The info string byte by byte, with the label behind "tls13 ", and exactly when packing it raises. */
  lemma InfoOnWire(tag: bytes, context: bytes, length: int)
    ensures HkdfInfo(tag, context, length) ==
      if 0 <= length < 65536 && 6 + |tag| < 256 && |context| < 256 then
        Ok(BE(length, 2) + ([6 + |tag|] + ([116, 108, 115, 49, 51, 32] + tag)) + ([|context|] + context))
      else Err(DoesNotFit)
  {
    Widths();
    var vs := [U(length, 2), TLS13 + tag, context];
    assert TLS13 == [116, 108, 115, 49, 51, 32];
    if Fits(LABEL, vs) {
      assert FieldFits(LABEL[0], vs[0]) && FieldFits(LABEL[1], vs[1]) && FieldFits(LABEL[2], vs[2]);
      OneByte(6 + |tag|);
      OneByte(|context|);
      assert PrintFrom(LABEL, vs, 3) == [];
      assert PrintFrom(LABEL, vs, 2) == [|context|] + context;
      assert PrintFrom(LABEL, vs, 1) == ([6 + |tag|] + (TLS13 + tag)) + ([|context|] + context);
      Assoc(BE(length, 2), [6 + |tag|] + (TLS13 + tag), [|context|] + context);
    }
  }

  lemma OneByte(n: byte)
    ensures n < Pow256(1) && BE(n, 1) == [n]
  {
    Widths();
    SingleByte(n);
  }

  // ---------------------------------------------------------------- key schedule

  function ExpandWith(secret: Term, tag: string, context: Term, length: nat): Term {
    Fn(ExpandLabel, [secret, Data(Ascii(tag)), context, Data(U(length, 2))])
  }

  /** `derive_secret` */
  function DeriveSecret(secret: Term, tag: string, transcriptHash: Term): Term {
    ExpandWith(secret, tag, transcriptHash, HASH_LEN)
  }

  function HkdfExtract(salt: Term, ikm: Term): Term {
    Fn(Extract, [salt, ikm])
  }

  datatype Name = ClientHs | ServerHs | ClientApp | ServerApp | Exporter

  datatype TrafficSecrets = TrafficSecrets(clientHs: Term, serverHs: Term, clientApp: Term,
                                           serverApp: Term, exporter: Term)
  {
    function Get(name: Name): Term {
      match name
      case ClientHs => clientHs
      case ServerHs => serverHs
      case ClientApp => clientApp
      case ServerApp => serverApp
      case Exporter => exporter
    }
  }

  /** `derive_traffic_secrets` */
  function DeriveTrafficSecrets(sessionKey: Term, th: Term): TrafficSecrets {
    var zero := Data(seq(HASH_LEN, i => 0));
    var emptyHash := Fn(Sha512, [Data([])]);
    var early := HkdfExtract(zero, Data([]));
    var derived0 := DeriveSecret(early, "derived", emptyHash);
    var handshake := HkdfExtract(derived0, sessionKey);
    var derived1 := DeriveSecret(handshake, "derived", emptyHash);
    var master := HkdfExtract(derived1, Data([]));
    TrafficSecrets(DeriveSecret(handshake, "c hs traffic", th), DeriveSecret(handshake, "s hs traffic", th),
                   DeriveSecret(master, "c ap traffic", th), DeriveSecret(master, "s ap traffic", th),
                   DeriveSecret(master, "exp master", th))
  }

  /** The digest of a transcript as a term. */
  function TranscriptHash(h: seq<Entry>): Term
    requires HistoryFits(h)
  {
    Fn(Sha512, [Data(HistoryBytes(h))])
  }

  /** The schedule of section 7.1 of RFC 8446 with the OPAQUE session key in the place of the shared secret: the
      handshake secrets are expanded from the secret it is extracted into, the application and exporter secrets
      from the next one, each under its own label and the transcript. */
  lemma SecretNamed(a: Name, sk: Term, th: Term)
    ensures var empty := Fn(Sha512, [Data([])]);
      var early := Fn(Extract, [Data(seq(64, i => 0)), Data([])]);
      var handshake := Fn(Extract, [Fn(ExpandLabel, [early, Data(Ascii("derived")), empty, Data([0, 64])]), sk]);
      var master := Fn(Extract, [Fn(ExpandLabel, [handshake, Data(Ascii("derived")), empty, Data([0, 64])]), Data([])]);
      DeriveTrafficSecrets(sk, th).Get(a) ==
        Fn(ExpandLabel, [if a == ClientHs || a == ServerHs then handshake else master,
                         Data(Ascii(LabelOf(a))), th, Data([0, 64])])
  {
    TwoBytes(0, 64);
    Widths();
  }

  function LabelOf(name: Name): string {
    match name
    case ClientHs => "c hs traffic"
    case ServerHs => "s hs traffic"
    case ClientApp => "c ap traffic"
    case ServerApp => "s ap traffic"
    case Exporter => "exp master"
  }

  lemma LabelsDistinct(a: Name, b: Name)
    requires Ascii(LabelOf(a)) == Ascii(LabelOf(b))
    ensures a == b
  {
    var x, y := Ascii(LabelOf(a)), Ascii(LabelOf(b));
    assert |x| == |LabelOf(a)| && |y| == |LabelOf(b)|;
    assert x[0] == LabelOf(a)[0] as int && y[0] == LabelOf(b)[0] as int;
    assert x[2] == LabelOf(a)[2] as int && y[2] == LabelOf(b)[2] as int;
  }

  /** A secret of the schedule names its place, its session key and its transcript: the five secrets of
      one session differ, and no secret is shared by two sessions. */
  lemma SecretsDetermine(a: Name, sk: Term, h: seq<Entry>, b: Name, sk': Term, h': seq<Entry>)
    requires HistoryFits(h) && HistoryFits(h')
    requires DeriveTrafficSecrets(sk, TranscriptHash(h)).Get(a) == DeriveTrafficSecrets(sk', TranscriptHash(h')).Get(b)
    ensures a == b && sk == sk' && h == h'
  {
    var s, s' := DeriveTrafficSecrets(sk, TranscriptHash(h)).Get(a),
      DeriveTrafficSecrets(sk', TranscriptHash(h')).Get(b);
    assert s.args[1] == Data(Ascii(LabelOf(a))) && s'.args[1] == Data(Ascii(LabelOf(b)));
    LabelsDistinct(a, b);
    assert s.args[2].args[0] == Data(HistoryBytes(h)) && s'.args[2].args[0] == Data(HistoryBytes(h'));
    HistoryInjective(h, h');
    var top, top' := s.args[0], s'.args[0];
    assert top == top';
    if a == ClientHs || a == ServerHs {
      assert top.args[1] == sk && top'.args[1] == sk';
    } else {
      assert top.args[0].args[0].args[1] == sk && top'.args[0].args[0].args[1] == sk';
    }
  }
}
