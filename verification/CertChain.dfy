/** The certificate-chain format of pki.py:223-251. Certificates are opaque DER strings; the X.509
    parser is a parameter that says which strings it accepts. */
module CertChain {
  import opened Bytes

  /** One length-prefixed item; requires what to_bytes(3) does. */
  function Item(der: bytes): bytes
    requires |der| < Pow256(3)
  {
    BE(|der|, 3) + der
  }

  predicate AllFit(ders: seq<bytes>) {
    forall i :: 0 <= i < |ders| ==> |ders[i]| < Pow256(3)
  }

  function Items(ders: seq<bytes>): bytes
    requires AllFit(ders)
  {
    if ders == [] then [] else Item(ders[0]) + Items(ders[1..])
  }

  /** `encode_cert_chain` */
  function EncodeChain(ca: bytes, srv: bytes): Result<bytes> {
    if |ca| < Pow256(3) && |srv| < Pow256(3) then Ok(Item(ca) + Item(srv)) else Err(DoesNotFit)
  }

  /** data is the concatenation of these items, each accepted by the certificate parser. */
  ghost predicate ChainOf(data: bytes, ders: seq<bytes>, parses: bytes -> bool) {
    AllFit(ders) && data == Items(ders) && forall i :: 0 <= i < |ders| ==> parses(ders[i])
  }

  lemma {:induction false} ItemsSnoc(ders: seq<bytes>, der: bytes)
    requires AllFit(ders) && |der| < Pow256(3)
    ensures AllFit(ders + [der]) && Items(ders + [der]) == Items(ders) + Item(der)
  {
    if ders == [] {
      assert [der][1..] == [] && Items([der]) == Item(der) + Items([]);
    } else {
      ItemsSnoc(ders[1..], der);
      assert (ders + [der])[1..] == ders[1..] + [der];
      Assoc(Item(ders[0]), Items(ders[1..]), Item(der));
    }
  }

  /** An item and what follows it are determined by the bytes. */
  lemma ItemUnique(der: bytes, rest: bytes, der': bytes, rest': bytes)
    requires |der| < Pow256(3) && |der'| < Pow256(3) && Item(der) + rest == Item(der') + rest'
    ensures der == der' && rest == rest'
  {
    var d := Item(der) + rest;
    assert d[..3] == BE(|der|, 3) && d[..3] == BE(|der'|, 3);
    assert d[3..3 + |der|] == der && d[3..3 + |der|] == der';
    assert d[3 + |der|..] == rest && d[3 + |der|..] == rest';
  }

  lemma FirstItem(ders: seq<bytes>)
    requires AllFit(ders) && ders != []
    ensures Items(ders) == Item(ders[0]) + Items(ders[1..]) && |Items(ders)| >= 3
  {
  }

  /** Every way to read the string as items begins with the items already read. */
  lemma {:induction false} ItemsDetermined(front: seq<bytes>, rest: bytes, ders: seq<bytes>)
    requires AllFit(front) && AllFit(ders) && Items(front) + rest == Items(ders)
    ensures front <= ders && Items(ders[|front|..]) == rest
  {
    if front == [] {
      assert ders[0..] == ders && Items(front) + rest == rest;
    } else {
      var tail := Items(front[1..]) + rest;
      Assoc(Item(front[0]), Items(front[1..]), rest);
      assert ders != [];
      FirstItem(ders);
      ItemUnique(front[0], tail, ders[0], Items(ders[1..]));
      ItemsDetermined(front[1..], rest, ders[1..]);
      assert ders[|front|..] == ders[1..][|front| - 1..];
      assert front == [front[0]] + front[1..] && ders == [ders[0]] + ders[1..];
    }
  }

  /** In a chain, unread bytes start with a complete item that the parser accepts. */
  lemma NextItem(front: seq<bytes>, rest: bytes, ders: seq<bytes>, parses: bytes -> bool)
    requires AllFit(front) && rest != [] && ChainOf(Items(front) + rest, ders, parses)
    ensures |rest| >= 3 && |rest| >= 3 + Value(rest[..3]) && parses(rest[3..3 + Value(rest[..3])])
  {
    ItemsDetermined(front, rest, ders);
    var tail := ders[|front|..];
    FirstItem(tail);
    var der := tail[0];
    assert der == ders[|front|];
    assert rest[..3] == BE(|der|, 3) && rest[3..3 + |der|] == der;
  }

  /** The loop's state: complete, accepted items, and the bytes after them. */
  ghost predicate ReadSoFar(data: bytes, certs: seq<bytes>, rest: bytes, parses: bytes -> bool) {
    AllFit(certs) && data == Items(certs) + rest && forall i :: 0 <= i < |certs| ==> parses(certs[i])
  }

  /** No list of accepted items encodes to data. */
  ghost predicate NoChain(data: bytes, parses: bytes -> bool) {
    forall ders :: !ChainOf(data, ders, parses)
  }

  lemma NoNextItem(data: bytes, front: seq<bytes>, rest: bytes, parses: bytes -> bool)
    requires rest != [] && ReadSoFar(data, front, rest, parses)
    requires |rest| < 3 || |rest| < 3 + Value(rest[..3]) || !parses(rest[3..3 + Value(rest[..3])])
    ensures NoChain(data, parses)
  {
    forall ders | ChainOf(data, ders, parses) ensures false {
      NextItem(front, rest, ders, parses);
    }
  }

  /** Reading one complete item moves it from the rest to the items. */
  lemma ReadItem(data: bytes, certs: seq<bytes>, rest: bytes, der: bytes, parses: bytes -> bool)
    requires ReadSoFar(data, certs, rest, parses) && parses(der)
    requires |rest| >= 3 + |der| && |der| == Value(rest[..3]) && der == rest[3..3 + |der|]
    ensures ReadSoFar(data, certs + [der], rest[3 + |der|..], parses)
  {
    BEOfValue(rest[..3]);
    ItemsSnoc(certs, der);
    assert rest == Item(der) + rest[3 + |der|..];
    assert Items(certs) + rest == (Items(certs) + Item(der)) + rest[3 + |der|..];
  }

  /** After accepted items the string stops short of a complete one. */
  ghost predicate CutOff(data: bytes, parses: bytes -> bool) {
    exists certs, rest :: ReadSoFar(data, certs, rest, parses) && rest != [] && ItemIn(rest).None?
  }

  /** After accepted items comes a complete one that the certificate parser refuses. */
  ghost predicate Refused(data: bytes, parses: bytes -> bool) {
    exists certs, rest :: ReadSoFar(data, certs, rest, parses) && ItemIn(rest).Some? && !parses(ItemIn(rest).value)
  }

  /** The complete item a string starts with. */
  function ItemIn(d: bytes): Option<bytes> {
    if |d| >= 3 && |d| >= 3 + Value(d[..3]) then Some(d[3..3 + Value(d[..3])]) else None
  }

  lemma ItemAt(data: bytes, start: nat)
    requires start <= |data|
    ensures ItemIn(data[start..]) ==
      if start + 3 <= |data| && start + 3 + Value(data[start..start + 3]) <= |data| then
        Some(data[start + 3..start + 3 + Value(data[start..start + 3])])
      else None
  {
    if start + 3 <= |data| {
      SliceOfRest(data, start, 0, 3);
      var n := Value(data[start..start + 3]);
      if start + 3 + n <= |data| {
        SliceOfRest(data, start, 3, 3 + n);
      }
    }
  }

  /** No complete accepted item at `start`: the string is no chain, and this says why. */
  lemma StuckAt(data: bytes, certs: seq<bytes>, start: nat, parses: bytes -> bool)
    requires start < |data| && ReadSoFar(data, certs, data[start..], parses)
    requires ItemIn(data[start..]).Some? ==> !parses(ItemIn(data[start..]).value)
    ensures NoChain(data, parses)
    ensures if ItemIn(data[start..]).None? then CutOff(data, parses) else Refused(data, parses)
  {
    NoNextItem(data, certs, data[start..], parses);
  }

  /** A complete accepted item at `start` is the next item. */
  lemma ReadAt(data: bytes, certs: seq<bytes>, start: nat, n: nat, parses: bytes -> bool)
    requires start + 3 + n <= |data| && ReadSoFar(data, certs, data[start..], parses)
    requires n == Value(data[start..start + 3]) && parses(data[start + 3..start + 3 + n])
    ensures ReadSoFar(data, certs + [data[start + 3..start + 3 + n]], data[start + 3 + n..], parses)
  {
    SliceOfRest(data, start, 0, 3);
    SliceOfRest(data, start, 3, 3 + n);
    ReadItem(data, certs, data[start..], data[start + 3..start + 3 + n], parses);
  }

  lemma NothingLeft(ders: seq<bytes>)
    requires AllFit(ders) && Items(ders) == []
    ensures ders == []
  {
  }

  /** A string is the encoding of at most one list of items. */
  lemma ChainUnique(data: bytes, ders: seq<bytes>, ders': seq<bytes>, parses: bytes -> bool)
    requires ChainOf(data, ders, parses) && ChainOf(data, ders', parses)
    ensures ders == ders'
  {
    assert Items(ders) + [] == Items(ders);
    ItemsDetermined(ders, [], ders');
    NothingLeft(ders'[|ders|..]);
  }

  /** The two-item chains are the strings `encode_cert_chain` produces. */
  lemma ChainOfTwo(data: bytes, ca: bytes, srv: bytes, parses: bytes -> bool)
    ensures ChainOf(data, [ca, srv], parses) <==> EncodeChain(ca, srv) == Ok(data) && parses(ca) && parses(srv)
  {
    var ders := [ca, srv];
    assert ders[0] == ca && ders[1] == srv;
    if |ca| < Pow256(3) && |srv| < Pow256(3) {
      FirstItem(ders);
      assert ders[1..] == [srv];
      FirstItem([srv]);
      assert [srv][1..] == [] && Items([srv]) == Item(srv);
      assert Items(ders) == Item(ca) + Item(srv);
    }
    if parses(ca) && parses(srv) {
      assert forall i :: 0 <= i < |ders| ==> parses(ders[i]);
    }
  }

  /** `_decode_cert_chain`: recovers the items and accepts exactly two. */
  method DecodeChain(data: bytes, parses: bytes -> bool) returns (r: Result<(bytes, bytes)>)
    ensures r.Ok? ==> ChainOf(data, [r.value.0, r.value.1], parses)
    ensures r == Err(WrongCount) ==> exists ders :: |ders| != 2 && ChainOf(data, ders, parses)
    ensures r.Err? ==> r.error == WrongCount || r.error == Truncated || r.error == BadCertificate
    ensures r.Err? && r.error != WrongCount ==> NoChain(data, parses)
    ensures r == Err(Truncated) ==> CutOff(data, parses)
    ensures r == Err(BadCertificate) ==> Refused(data, parses)
  {
    var pos := 0;
    var certs: seq<bytes> := [];
    while pos < |data|
      invariant pos <= |data| && ReadSoFar(data, certs, data[pos..], parses)
      decreases |data| - pos
    {
      ghost var start := pos;
      ItemAt(data, start);
      if pos + 3 > |data| {
        StuckAt(data, certs, start, parses);
        return Err(Truncated);
      }
      var n := Value(data[pos..pos + 3]);
      pos := pos + 3;
      if pos + n > |data| {
        StuckAt(data, certs, start, parses);
        return Err(Truncated);
      }
      var der := data[pos..pos + n];
      if !parses(der) {
        StuckAt(data, certs, start, parses);
        return Err(BadCertificate);
      }
      ReadAt(data, certs, start, n, parses);
      certs := certs + [der];
      pos := pos + n;
    }
    assert ChainOf(data, certs, parses);
    if |certs| != 2 {
      return Err(WrongCount);
    }
    assert certs == [certs[0], certs[1]];
    return Ok((certs[0], certs[1]));
  }
}
