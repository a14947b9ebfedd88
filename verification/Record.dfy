/** record.py: one-directional record protection, with an ideal AEAD that keeps a log of what was
    sealed under its key. */
module Record {
  import opened Bytes

  const TAG_LEN := 16
  const IV_LEN := 12
  const CT_APP_DATA: byte := 23

  // ---------------------------------------------------------------- nonces

  /** The low k bits of a and b, exclusive-or. */
  function XorBits(a: nat, b: nat, k: nat): (r: nat) {
    if k == 0 then 0 else (a + b) % 2 + 2 * XorBits(a / 2, b / 2, k - 1)
  }

  function Pow2(k: nat): nat {
    if k == 0 then 1 else 2 * Pow2(k - 1)
  }

  lemma {:induction false} XorBound(a: nat, b: nat, k: nat)
    ensures XorBits(a, b, k) < Pow2(k)
  {
    if k > 0 {
      XorBound(a / 2, b / 2, k - 1);
    }
  }

  lemma ParityCancel(a: nat, b: nat, b': nat, x: nat, y: nat)
    requires (a + b) % 2 + 2 * x == (a + b') % 2 + 2 * y
    ensures x == y && b % 2 == b' % 2
  {
    assert x == y;
  }

  lemma {:induction false} XorCancel(a: nat, b: nat, b': nat, k: nat)
    requires b < Pow2(k) && b' < Pow2(k) && XorBits(a, b, k) == XorBits(a, b', k)
    ensures b == b'
  {
    if k > 0 {
      ParityCancel(a, b, b', XorBits(a / 2, b / 2, k - 1), XorBits(a / 2, b' / 2, k - 1));
      XorCancel(a / 2, b / 2, b' / 2, k - 1);
      assert b == 2 * (b / 2) + b % 2 && b' == 2 * (b' / 2) + b' % 2;
    }
  }

  /** Zero changes nothing, and the order does not matter. */
  lemma {:induction false} XorZero(a: nat, b: nat, k: nat)
    ensures a < Pow2(k) ==> XorBits(a, 0, k) == a
    ensures XorBits(a, b, k) == XorBits(b, a, k)
  {
    if k > 0 {
      XorZero(a / 2, b / 2, k - 1);
      XorZero(a / 2, 0, k - 1);
      assert a == 2 * (a / 2) + a % 2;
    }
  }

  lemma ParityTwice(a: nat, b: nat, rest: nat)
    ensures var x := (a + b) % 2 + 2 * rest; (x + b) % 2 == a % 2 && x / 2 == rest
  {
  }

  /** Exclusive-or with the same value twice gives back the first. */
  lemma {:induction false} XorTwice(a: nat, b: nat, k: nat)
    requires a < Pow2(k)
    ensures XorBits(XorBits(a, b, k), b, k) == a
  {
    if k > 0 {
      var rest := XorBits(a / 2, b / 2, k - 1);
      var x := (a + b) % 2 + 2 * rest;
      ParityTwice(a, b, rest);
      XorTwice(a / 2, b / 2, k - 1);
      assert XorBits(x, b, k) == (x + b) % 2 + 2 * XorBits(x / 2, b / 2, k - 1);
    }
  }

  function XorByte(a: byte, b: byte): byte {
    XorBound(a, b, 8);
    assert Pow2(8) == 256;
    XorBits(a, b, 8)
  }

  /** The 64-bit sequence number behind four zero bytes. */
  function Padded(seqNum: nat): (b: bytes)
    requires seqNum < Pow256(8)
    ensures |b| == IV_LEN
  {
    [0, 0, 0, 0] + BE(seqNum, 8)
  }

  /** `_nonce` */
  function Nonce(iv: bytes, seqNum: nat): (n: bytes)
    requires |iv| == IV_LEN && seqNum < Pow256(8)
    ensures |n| == IV_LEN
  {
    seq(IV_LEN, i requires 0 <= i < IV_LEN => XorByte(iv[i], Padded(seqNum)[i]))
  }

  /** The first four bytes of the IV are kept, number zero leaves it as it is, and under a zero IV the nonce is the
      big-endian number behind four zero bytes. */
  lemma NonceBytes(iv: bytes, n: nat)
    requires |iv| == IV_LEN && n < Pow256(8)
    ensures Nonce(iv, n)[..4] == iv[..4]
    ensures Nonce(iv, 0) == iv
    ensures iv == seq(IV_LEN, i => 0) ==> Nonce(iv, n) == [0, 0, 0, 0] + BE(n, 8)
  {
    ZeroBytes(8);
    forall i | 0 <= i < IV_LEN
      ensures Padded(0)[i] == 0
      ensures XorByte(iv[i], 0) == iv[i] && XorByte(0, Padded(n)[i]) == Padded(n)[i]
    {
      assert Pow2(8) == 256;
      XorZero(iv[i], 0, 8);
      XorZero(Padded(n)[i], 0, 8);
    }
  }

  lemma {:induction false} ZeroBytes(w: nat)
    ensures BE(0, w) == seq(w, i => 0)
  {
    if w > 0 {
      ZeroBytes(w - 1);
    }
  }

  /** Under one IV, different sequence numbers give different nonces. */
  lemma NonceInjective(iv: bytes, m: nat, n: nat)
    requires |iv| == IV_LEN && m < Pow256(8) && n < Pow256(8) && Nonce(iv, m) == Nonce(iv, n)
    ensures m == n
  {
    var p, q := Padded(m), Padded(n);
    forall i | 0 <= i < IV_LEN ensures p[i] == q[i] {
      assert Nonce(iv, m)[i] == Nonce(iv, n)[i];
      assert Pow2(8) == 256;
      XorCancel(iv[i], p[i], q[i], 8);
    }
    assert p == q;
    assert BE(m, 8) == p[4..] && BE(n, 8) == q[4..];
  }

  /** `_aad` */
  function Aad(contentType: byte, seqNum: nat, wireLen: nat): bytes
    requires seqNum < Pow256(8) && wireLen < Pow256(4)
  {
    [contentType] + BE(seqNum, 8) + BE(wireLen, 4)
  }

  /** The associated data binds content type, number and length, and each has its place in it. */
  lemma AadBinds(ct: byte, n: nat, len: nat, ct': byte, n': nat, len': nat)
    requires n < Pow256(8) && len < Pow256(4) && n' < Pow256(8) && len' < Pow256(4)
    ensures var d := Aad(ct, n, len); |d| == 13 && d[0] == ct && Value(d[1..9]) == n && Value(d[9..]) == len
    ensures Aad(ct, n, len) == Aad(ct', n', len') <==> ct == ct' && n == n' && len == len'
  {
    AadParts(ct, n, len);
    AadParts(ct', n', len');
  }

  lemma AadParts(ct: byte, n: nat, len: nat)
    requires n < Pow256(8) && len < Pow256(4)
    ensures var d := Aad(ct, n, len); |d| == 13 && d[0] == ct && d[1..9] == BE(n, 8) && d[9..] == BE(len, 4)
  {
  }

  // ---------------------------------------------------------------- the ideal AEAD

  datatype Sealed = Sealed(nonce: bytes, aad: bytes, plaintext: bytes, ciphertext: bytes)

  /** Ideal decryption: only what was sealed under this key opens, to what was sealed. */
  function Open(log: seq<Sealed>, nonce: bytes, aad: bytes, ciphertext: bytes): Option<bytes> {
    if log == [] then None
    else
      var e := log[0];
      if e.nonce == nonce && e.aad == aad && e.ciphertext == ciphertext then Some(e.plaintext)
      else Open(log[1..], nonce, aad, ciphertext)
  }

  lemma {:induction false} OpenInLog(log: seq<Sealed>, nonce: bytes, aad: bytes, ciphertext: bytes)
    ensures Open(log, nonce, aad, ciphertext).Some? <==>
      exists i :: 0 <= i < |log| && log[i].nonce == nonce && log[i].aad == aad && log[i].ciphertext == ciphertext
    ensures Open(log, nonce, aad, ciphertext).Some? ==>
      exists i :: 0 <= i < |log| && log[i] == Sealed(nonce, aad, Open(log, nonce, aad, ciphertext).value, ciphertext)
  {
    if log != [] {
      var e := log[0];
      OpenInLog(log[1..], nonce, aad, ciphertext);
      if e.nonce == nonce && e.aad == aad && e.ciphertext == ciphertext {
        assert log[0] == Sealed(nonce, aad, e.plaintext, ciphertext);
      } else if Open(log[1..], nonce, aad, ciphertext).Some? {
        var i :| 0 <= i < |log[1..]| &&
          log[1..][i] == Sealed(nonce, aad, Open(log[1..], nonce, aad, ciphertext).value, ciphertext);
        assert log[i + 1] == log[1..][i];
      } else {
        forall i | 0 <= i < |log|
          ensures !(log[i].nonce == nonce && log[i].aad == aad && log[i].ciphertext == ciphertext)
        {
          assert i > 0 ==> log[i] == log[1..][i - 1];
        }
      }
    }
  }

  /** ChaCha20-Poly1305 under one key, as both ends of a direction hold it. `cipher` says which
      ciphertext a seal produces. */
  class Aead {
    const cipher: (bytes, bytes, bytes) -> bytes
    var log: seq<Sealed>

    constructor (cipher: (bytes, bytes, bytes) -> bytes)
      ensures this.cipher == cipher && log == []
    {
      this.cipher := cipher;
      log := [];
    }

    method Encrypt(nonce: bytes, plaintext: bytes, aad: bytes) returns (ciphertext: bytes)
      modifies this
      ensures ciphertext == cipher(nonce, aad, plaintext)
      ensures log == old(log) + [Sealed(nonce, aad, plaintext, ciphertext)]
    {
      ciphertext := cipher(nonce, aad, plaintext);
      log := log + [Sealed(nonce, aad, plaintext, ciphertext)];
    }

    method Decrypt(nonce: bytes, ciphertext: bytes, aad: bytes) returns (r: Result<bytes>)
      ensures r == match Open(log, nonce, aad, ciphertext) case Some(p) => Ok(p) case None => Err(BadRecord)
    {
      var o := Open(log, nonce, aad, ciphertext);
      return if o.Some? then Ok(o.value) else Err(BadRecord);
    }
  }

  // ---------------------------------------------------------------- DirectionState

  /** What one seal appends to the log; None when a to_bytes call raises. */
  function SealRecord(cipher: (bytes, bytes, bytes) -> bytes, iv: bytes, contentType: byte, seqNum: nat,
                      plaintext: bytes): Option<Sealed>
    requires |iv| == IV_LEN
  {
    if seqNum < Pow256(8) && |plaintext| + TAG_LEN < Pow256(4) then
      var nonce, aad := Nonce(iv, seqNum), Aad(contentType, seqNum, |plaintext| + TAG_LEN);
      Some(Sealed(nonce, aad, plaintext, cipher(nonce, aad, plaintext)))
    else None
  }

  /** Whether a receiver expecting `expected` accepts a record, and the plaintext it then returns. */
  function OpenRecord(log: seq<Sealed>, iv: bytes, contentType: byte, expected: nat, seqNum: int,
                      ciphertext: bytes): Result<bytes>
    requires |iv| == IV_LEN
  {
    if seqNum != expected then Err(BadSequence)
    else if seqNum >= Pow256(8) || |ciphertext| >= Pow256(4) then Err(DoesNotFit)
    else
      match Open(log, Nonce(iv, seqNum), Aad(contentType, seqNum, |ciphertext|), ciphertext)
      case Some(p) => Ok(p)
      case None => Err(BadRecord)
  }

  class DirectionState {
    const iv: bytes
    const aead: Aead
    var seqNum: nat

    ghost predicate Valid()
    {
      |iv| == IV_LEN
    }

    /** `__post_init__`: the key is inside the AEAD object, the IV is the derived one. */
    constructor (iv: bytes, aead: Aead)
      requires |iv| == IV_LEN
      ensures Valid() && this.iv == iv && this.aead == aead && seqNum == 0
    {
      this.iv := iv;
      this.aead := aead;
      seqNum := 0;
    }

    /** `encrypt`: the sequence number is consumed even when a length does not fit. */
    method Encrypt(contentType: byte, plaintext: bytes) returns (r: Result<(nat, bytes)>)
      requires Valid()
      modifies this, aead
      ensures seqNum == old(seqNum) + 1
      ensures match SealRecord(aead.cipher, iv, contentType, old(seqNum), plaintext)
              case Some(e) => r == Ok((old(seqNum), e.ciphertext)) && aead.log == old(aead.log) + [e]
              case None => r == Err(DoesNotFit) && aead.log == old(aead.log)
    {
      var current := seqNum;
      seqNum := seqNum + 1;
      var wireLen := |plaintext| + TAG_LEN;
      if current >= Pow256(8) || wireLen >= Pow256(4) {
        return Err(DoesNotFit);
      }
      var aad := Aad(contentType, current, wireLen);
      var nonce := Nonce(iv, current);
      var ciphertext := aead.Encrypt(nonce, plaintext, aad);
      return Ok((current, ciphertext));
    }

    /** `decrypt`: a refused record leaves the state as it was. */
    method Decrypt(contentType: byte, claimed: int, ciphertext: bytes) returns (r: Result<bytes>)
      requires Valid()
      modifies this
      ensures r == OpenRecord(aead.log, iv, contentType, old(seqNum), claimed, ciphertext)
      ensures seqNum == if r.Ok? then old(seqNum) + 1 else old(seqNum)
    {
      if claimed != seqNum {
        return Err(BadSequence);
      }
      if claimed >= Pow256(8) || |ciphertext| >= Pow256(4) {
        return Err(DoesNotFit);
      }
      var aad := Aad(contentType, claimed, |ciphertext|);
      var nonce := Nonce(iv, claimed);
      r := aead.Decrypt(nonce, ciphertext, aad);
      if r.Ok? {
        seqNum := seqNum + 1;
      }
    }
  }

  // ---------------------------------------------------------------- a channel under attack

  /** The sender seals, or the network hands the receiver any record at all. */
  datatype Event =
    | Send(contentType: byte, plaintext: bytes)
    | Deliver(contentType: byte, seqNum: int, ciphertext: bytes)

  /** Both ends of one direction. `sealedAt` gives the sequence number of each log entry. */
  datatype Channel = Channel(sendSeq: nat, log: seq<Sealed>, sealedAt: seq<nat>, recvSeq: nat, accepted: seq<bytes>)

  const FRESH := Channel(0, [], [], 0, [])

  function Step(cipher: (bytes, bytes, bytes) -> bytes, iv: bytes, ch: Channel, ev: Event): Channel
    requires |iv| == IV_LEN
  {
    match ev
    case Send(ct, p) =>
      (match SealRecord(cipher, iv, ct, ch.sendSeq, p)
       case Some(e) => ch.(sendSeq := ch.sendSeq + 1, log := ch.log + [e], sealedAt := ch.sealedAt + [ch.sendSeq])
       case None => ch.(sendSeq := ch.sendSeq + 1))
    case Deliver(ct, n, c) =>
      (match OpenRecord(ch.log, iv, ct, ch.recvSeq, n, c)
       case Ok(p) => ch.(recvSeq := ch.recvSeq + 1, accepted := ch.accepted + [p])
       case Err(_) => ch)
  }

  function Run(cipher: (bytes, bytes, bytes) -> bytes, iv: bytes, events: seq<Event>): Channel
    requires |iv| == IV_LEN
  {
    if events == [] then FRESH
    else Step(cipher, iv, Run(cipher, iv, events[..|events| - 1]), events[|events| - 1])
  }

  /** The plaintexts that were sealed, in order. */
  function Sent(log: seq<Sealed>): (ps: seq<bytes>)
    ensures |ps| == |log| && forall i :: 0 <= i < |log| ==> ps[i] == log[i].plaintext
  {
    seq(|log|, i requires 0 <= i < |log| => log[i].plaintext)
  }

  ghost predicate LogOk(iv: bytes, ch: Channel)
    requires |iv| == IV_LEN
  {
    && |ch.sealedAt| == |ch.log|
    && (forall i :: 0 <= i < |ch.log| ==> ch.sealedAt[i] < Pow256(8) && ch.sealedAt[i] < ch.sendSeq)
    && (forall i :: 0 <= i < |ch.log| ==> ch.log[i].nonce == Nonce(iv, ch.sealedAt[i]))
    && (forall i, j :: 0 <= i < j < |ch.log| ==> ch.sealedAt[i] < ch.sealedAt[j])
  }

  ghost predicate Inv(iv: bytes, ch: Channel)
    requires |iv| == IV_LEN
  {
    && LogOk(iv, ch)
    && ch.recvSeq == |ch.accepted| <= |ch.log|
    && (forall i :: 0 <= i < ch.recvSeq ==> ch.sealedAt[i] == i)
    && ch.accepted == Sent(ch.log)[..|ch.accepted|]
  }

  /** Sequence numbers in the log increase, so none is below its index. */
  lemma {:induction false} AtLeastIndex(s: seq<nat>, i: nat)
    requires forall a, b :: 0 <= a < b < |s| ==> s[a] < s[b]
    requires i < |s|
    ensures s[i] >= i
  {
    if i > 0 {
      AtLeastIndex(s, i - 1);
      assert s[i - 1] < s[i];
    }
  }

  /** The record the receiver opens is the first one it has not accepted. */
  lemma OpensNext(iv: bytes, ch: Channel, ct: byte, n: int, c: bytes)
    requires |iv| == IV_LEN && Inv(iv, ch) && OpenRecord(ch.log, iv, ct, ch.recvSeq, n, c).Ok?
    ensures |ch.accepted| < |ch.log| && ch.sealedAt[|ch.accepted|] == |ch.accepted|
    ensures OpenRecord(ch.log, iv, ct, ch.recvSeq, n, c).value == ch.log[|ch.accepted|].plaintext
    ensures ch.log[|ch.accepted|].aad == Aad(ct, ch.recvSeq, |c|) && ch.log[|ch.accepted|].ciphertext == c
  {
    var nonce, aad, m := Nonce(iv, n), Aad(ct, n, |c|), |ch.accepted|;
    OpenInLog(ch.log, nonce, aad, c);
    var i :| 0 <= i < |ch.log| && ch.log[i] == Sealed(nonce, aad, Open(ch.log, nonce, aad, c).value, c);
    NonceInjective(iv, ch.sealedAt[i], n);
    AtLeastIndex(ch.sealedAt, i);
  }

  lemma DeliverKeeps(cipher: (bytes, bytes, bytes) -> bytes, iv: bytes, ch: Channel, ct: byte, n: int, c: bytes)
    requires |iv| == IV_LEN && Inv(iv, ch)
    ensures Inv(iv, Step(cipher, iv, ch, Deliver(ct, n, c)))
  {
    if OpenRecord(ch.log, iv, ct, ch.recvSeq, n, c).Ok? {
      OpensNext(iv, ch, ct, n, c);
      var k := |ch.accepted|;
      assert Sent(ch.log)[..k + 1] == Sent(ch.log)[..k] + [Sent(ch.log)[k]];
    }
  }

  lemma LogGrows(iv: bytes, ch: Channel, e: Sealed)
    requires |iv| == IV_LEN && LogOk(iv, ch) && ch.sendSeq < Pow256(8) && e.nonce == Nonce(iv, ch.sendSeq)
    ensures LogOk(iv, ch.(sendSeq := ch.sendSeq + 1, log := ch.log + [e], sealedAt := ch.sealedAt + [ch.sendSeq]))
  {
  }

  lemma SendKeeps(cipher: (bytes, bytes, bytes) -> bytes, iv: bytes, ch: Channel, ct: byte, p: bytes)
    requires |iv| == IV_LEN && Inv(iv, ch)
    ensures Inv(iv, Step(cipher, iv, ch, Send(ct, p)))
  {
    match SealRecord(cipher, iv, ct, ch.sendSeq, p) {
      case Some(e) =>
        LogGrows(iv, ch, e);
        assert Sent(ch.log + [e])[..|ch.accepted|] == Sent(ch.log)[..|ch.accepted|];
      case None =>
    }
  }

  /** Channel safety: whatever the network drops, replays, reorders or injects, the accepted plaintexts
      are a prefix of the sealed ones, and the receiver's sequence number counts them. */
  lemma {:induction false} ChannelSafe(cipher: (bytes, bytes, bytes) -> bytes, iv: bytes, events: seq<Event>)
    requires |iv| == IV_LEN
    ensures var ch := Run(cipher, iv, events);
      Inv(iv, ch) && ch.accepted <= Sent(ch.log) && ch.recvSeq == |ch.accepted|
  {
    if events != [] {
      var n := |events| - 1;
      ChannelSafe(cipher, iv, events[..n]);
      match events[n] {
        case Send(ct, p) => SendKeeps(cipher, iv, Run(cipher, iv, events[..n]), ct, p);
        case Deliver(ct, m, c) => DeliverKeeps(cipher, iv, Run(cipher, iv, events[..n]), ct, m, c);
      }
    }
  }

  /** Each entry of the log is a seal, with its own sequence number and some content type. */
  ghost predicate Seals(cipher: (bytes, bytes, bytes) -> bytes, iv: bytes, ch: Channel)
    requires |iv| == IV_LEN
  {
    |ch.sealedAt| == |ch.log| && forall i :: 0 <= i < |ch.log| ==> SealedAs(cipher, iv, ch.sealedAt[i], ch.log[i])
  }

  ghost predicate SealedAs(cipher: (bytes, bytes, bytes) -> bytes, iv: bytes, n: nat, e: Sealed)
    requires |iv| == IV_LEN
  {
    exists ct: byte :: SealRecord(cipher, iv, ct, n, e.plaintext) == Some(e)
  }

  lemma {:induction false} RunSeals(cipher: (bytes, bytes, bytes) -> bytes, iv: bytes, events: seq<Event>)
    requires |iv| == IV_LEN
    ensures Seals(cipher, iv, Run(cipher, iv, events))
  {
    if events != [] {
      var n := |events| - 1;
      RunSeals(cipher, iv, events[..n]);
      StepSeals(cipher, iv, Run(cipher, iv, events[..n]), events[n]);
    }
  }

  lemma StepSeals(cipher: (bytes, bytes, bytes) -> bytes, iv: bytes, ch: Channel, ev: Event)
    requires |iv| == IV_LEN && Seals(cipher, iv, ch)
    ensures Seals(cipher, iv, Step(cipher, iv, ch, ev))
  {
    if ev.Send? {
      var e := SealRecord(cipher, iv, ev.contentType, ch.sendSeq, ev.plaintext);
      assert e.Some? ==> SealedAs(cipher, iv, ch.sendSeq, e.value);
    }
  }

  /** After any run, whatever record the network delivers: if it is accepted, it is the very record the sender made
      of that plaintext, with that content type, under the number the receiver expects. */
  lemma AcceptedAsSealed(cipher: (bytes, bytes, bytes) -> bytes, iv: bytes, events: seq<Event>, ct: byte, n: int,
                         c: bytes)
    requires |iv| == IV_LEN
    requires var ch := Run(cipher, iv, events); OpenRecord(ch.log, iv, ct, ch.recvSeq, n, c).Ok?
    ensures var ch := Run(cipher, iv, events);
      var p := OpenRecord(ch.log, iv, ct, ch.recvSeq, n, c).value;
      n == ch.recvSeq && |ch.accepted| < |ch.log| &&
      SealRecord(cipher, iv, ct, ch.recvSeq, p) == Some(ch.log[|ch.accepted|]) &&
      c == ch.log[|ch.accepted|].ciphertext
  {
    var ch := Run(cipher, iv, events);
    ChannelSafe(cipher, iv, events);
    RunSeals(cipher, iv, events);
    OpensNext(iv, ch, ct, n, c);
    var e := ch.log[|ch.accepted|];
    assert SealedAs(cipher, iv, n, e);
    var ct': byte :| SealRecord(cipher, iv, ct', n, e.plaintext) == Some(e);
    AadBinds(ct, n, |c|, ct', n, |e.plaintext| + TAG_LEN);
  }

  /** Without interference, when the record fits and the cipher adds its tag, the receiver accepts the
      record that was sent. */
  lemma RecordDelivered(cipher: (bytes, bytes, bytes) -> bytes, iv: bytes, ch: Channel, ct: byte, p: bytes)
    requires |iv| == IV_LEN && Inv(iv, ch) && ch.recvSeq == ch.sendSeq
    requires var e := SealRecord(cipher, iv, ct, ch.sendSeq, p); e.Some? && |e.value.ciphertext| == |p| + TAG_LEN
    ensures var c := SealRecord(cipher, iv, ct, ch.sendSeq, p).value.ciphertext;
      Step(cipher, iv, Step(cipher, iv, ch, Send(ct, p)), Deliver(ct, ch.sendSeq, c)).accepted == ch.accepted + [p]
  {
    var e := SealRecord(cipher, iv, ct, ch.sendSeq, p).value;
    var sent := Step(cipher, iv, ch, Send(ct, p));
    SendKeeps(cipher, iv, ch, ct, p);
    AllAccepted(iv, ch);
    assert sent.log[|ch.log|] == e;
    OpenInLog(sent.log, e.nonce, e.aad, e.ciphertext);
    OpensNext(iv, sent, ct, ch.sendSeq, e.ciphertext);
  }

  lemma AllAccepted(iv: bytes, ch: Channel)
    requires |iv| == IV_LEN && Inv(iv, ch) && ch.recvSeq == ch.sendSeq
    ensures |ch.accepted| == |ch.log|
  {
    if |ch.log| > 0 {
      AtLeastIndex(ch.sealedAt, |ch.log| - 1);
    }
  }
}
