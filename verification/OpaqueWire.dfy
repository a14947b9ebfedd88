/** The byte layouts of the OPAQUE messages, opaque_adapter.py:282-316 and 390-395. */
module OpaqueWire {
  import opened Bytes
  import opened Wire

  const PUB_LEN := 65
  const MAC_LEN := 64

  datatype Ke2 = Ke2(z: bytes, envelope: bytes, nonceS: bytes, sEphPub: bytes, serverMac: bytes)

  /** Python slicing d[i:j] for i <= j: clipped at the end of d. */
  function Slice(d: bytes, i: nat, j: nat): bytes
    requires i <= j
  {
    d[Min(i, |d|)..Min(j, |d|)]
  }

  datatype Ke1 = Ke1(m: bytes, nonceC: bytes, cEphPub: bytes)

  /** `_pack_ke1` */
  function PackKe1(k: Ke1): bytes {
    k.m + k.nonceC + k.cEphPub
  }

  /** `_unpack_ke1`: any string; the last field takes what is left. */
  function UnpackKe1(d: bytes): Ke1 {
    Ke1(Slice(d, 0, POINT_LEN), Slice(d, POINT_LEN, POINT_LEN + NONCE_LEN), d[Min(POINT_LEN + NONCE_LEN, |d|)..])
  }

  /** Repacking loses nothing, whatever was received, and unpacking recovers fields of honest width. */
  lemma Ke1RoundTrips(d: bytes, k: Ke1)
    ensures PackKe1(UnpackKe1(d)) == d
    ensures |k.m| == POINT_LEN && |k.nonceC| == NONCE_LEN ==> UnpackKe1(PackKe1(k)) == k
  {
    if |k.m| == POINT_LEN && |k.nonceC| == NONCE_LEN {
      var p := PackKe1(k);
      assert p[..33] == k.m && p[33..65] == k.nonceC && p[65..] == k.cEphPub;
    }
  }

  /** `_pack_ke2` makes no check but the three-byte length. */
  function PackKe2(k: Ke2): Result<bytes> {
    if |k.envelope| < Pow256(3) then
      Ok(k.z + BE(|k.envelope|, 3) + k.envelope + k.nonceS + k.sEphPub + k.serverMac)
    else Err(DoesNotFit)
  }

  /** The field widths of an honest KE2. */
  predicate WellSized(k: Ke2) {
    |k.z| == POINT_LEN && |k.nonceS| == NONCE_LEN && |k.sEphPub| == PUB_LEN && |k.serverMac| == MAC_LEN
  }

  /** `_unpack_ke2` reads any string. It undoes packing, with or without bytes after it, and a full
      MAC field is the sign that the string was a packed KE2. */
  method UnpackKe2(ke2: bytes) returns (k: Ke2)
    ensures |k.serverMac| == MAC_LEN ==> WellSized(k) && Starts(PackKe2(k), ke2)
    ensures forall k' :: WellSized(k') && Starts(PackKe2(k'), ke2) ==> k == k'
  {
    var pos := 0;
    var z := Slice(ke2, pos, pos + POINT_LEN);
    pos := pos + POINT_LEN;
    var envLen := Value(Slice(ke2, pos, pos + 3));
    pos := pos + 3;
    var envelope := Slice(ke2, pos, pos + envLen);
    pos := pos + envLen;
    var nonceS := Slice(ke2, pos, pos + NONCE_LEN);
    pos := pos + NONCE_LEN;
    var sEphPub := Slice(ke2, pos, pos + PUB_LEN);
    pos := pos + PUB_LEN;
    var serverMac := Slice(ke2, pos, pos + MAC_LEN);
    k := Ke2(z, envelope, nonceS, sEphPub, serverMac);
    if |serverMac| == MAC_LEN {
      UnpackedAll(ke2, k);
    }
    forall k' | WellSized(k') && Starts(PackKe2(k'), ke2) ensures k == k' {
      PackedFields(ke2, k');
    }
  }

  lemma UnpackedAll(d: bytes, k: Ke2)
    requires var n := Value(Slice(d, 33, 36));
      && |d| >= 197 + n
      && k == Ke2(d[..33], d[36..36 + n], d[36 + n..68 + n], d[68 + n..133 + n], d[133 + n..197 + n])
    ensures Starts(PackKe2(k), d)
  {
    BEOfValue(d[33..36]);
  }

  lemma PackedFields(d: bytes, k: Ke2)
    requires WellSized(k) && Starts(PackKe2(k), d)
    ensures var n := |k.envelope|;
      && |d| >= 197 + n && Value(Slice(d, 33, 36)) == n
      && k == Ke2(d[..33], d[36..36 + n], d[36 + n..68 + n], d[68 + n..133 + n], d[133 + n..197 + n])
  {
    var n := |k.envelope|;
    var p := PackKe2(k).value;
    var h2 := k.z + BE(n, 3);
    var h3 := h2 + k.envelope;
    var h4 := h3 + k.nonceS;
    var h5 := h4 + k.sEphPub;
    assert p == h5 + k.serverMac;
    assert h5 == p[..133 + n] == d[..133 + n] && k.serverMac == d[133 + n..197 + n];
    assert h4 == h5[..68 + n] == d[..68 + n] && k.sEphPub == h5[68 + n..] == d[68 + n..133 + n];
    assert h3 == h4[..36 + n] == d[..36 + n] && k.nonceS == h4[36 + n..] == d[36 + n..68 + n];
    assert h2 == h3[..36] == d[..36] && k.envelope == h3[36..] == d[36..36 + n];
    assert k.z == h2[..33] == d[..33] && BE(n, 3) == h2[33..] == d[33..36];
  }

  // ---------------------------------------------------------------- the string under the 3DH MACs

  /** The values both sides concatenate as the OPAQUE transcript. */
  datatype Exchange = Exchange(m: bytes, nonceC: bytes, cEphPub: bytes, z: bytes, envelope: bytes,
                               nonceS: bytes, sEphPub: bytes)

  /** The encodings of a point that `_load_pub` accepts: uncompressed, or compressed with a parity byte. */
  predicate LoadsAsPoint(pub: bytes) {
    (|pub| == PUB_LEN && pub[0] == 4) || (|pub| == POINT_LEN && (pub[0] == 2 || pub[0] == 3))
  }

  /** The fields of an exchange in which both sides went on: the client's ephemeral key is what its peer sent,
      in any encoding that loads; the other widths are fixed by the slices and the checks of both sides. */
  predicate Exchanged(x: Exchange) {
    && |x.m| == POINT_LEN && |x.nonceC| == NONCE_LEN && LoadsAsPoint(x.cEphPub) && |x.z| == POINT_LEN
    && |x.envelope| < Pow256(3) && |x.nonceS| == NONCE_LEN && |x.sEphPub| == PUB_LEN
  }

  /** A KE1 whose last field loads as a point has its first two fields in full. */
  lemma LoadedKe1Widths(d: bytes)
    requires LoadsAsPoint(UnpackKe1(d).cEphPub)
    ensures |UnpackKe1(d).m| == POINT_LEN && |UnpackKe1(d).nonceC| == NONCE_LEN
  {
  }

  function ExchangeShape(pubLen: nat): seq<Field> {
    [Fixed(POINT_LEN), Fixed(NONCE_LEN), Fixed(pubLen), Fixed(POINT_LEN), Var(3), Fixed(NONCE_LEN), Fixed(PUB_LEN)]
  }

  function ExchangeFields(x: Exchange): seq<bytes> {
    [x.m, x.nonceC, x.cEphPub, x.z, x.envelope, x.nonceS, x.sEphPub]
  }

  /** opaque_adapter.py:391-395 and 512-516: the same concatenation on both sides. */
  function ExchangeBytes(x: Exchange): Result<bytes> {
    if |x.envelope| < Pow256(3) then
      Ok(x.m + x.nonceC + x.cEphPub + x.z + BE(|x.envelope|, 3) + x.envelope + x.nonceS + x.sEphPub)
    else Err(DoesNotFit)
  }

  /** The MACs cover every byte of both messages: the string under them, with the server's MAC after it, is KE1
      followed by KE2. */
  lemma MacsCoverMessages(x: Exchange, mac: bytes)
    ensures var (ke1, ke2) :=
        (PackKe1(Ke1(x.m, x.nonceC, x.cEphPub)), PackKe2(Ke2(x.z, x.envelope, x.nonceS, x.sEphPub, mac)));
      && (ke2.Ok? <==> ExchangeBytes(x).Ok?)
      && (ke2.Ok? ==> ke1 + ke2.value == ExchangeBytes(x).value + mac)
  {
    if |x.envelope| < Pow256(3) {
      Regrouped(x.m + x.nonceC + x.cEphPub, x.z, BE(|x.envelope|, 3), x.envelope, x.nonceS, x.sEphPub, mac);
    }
  }

  lemma Regrouped(h: bytes, a: bytes, b: bytes, c: bytes, d: bytes, e: bytes, f: bytes)
    ensures h + (a + b + c + d + e + f) == h + a + b + c + d + e + f
  {
  }

  /** The concatenation determines every field, whichever encodings the two exchanges use for the client's
      key, and no transcript is a proper prefix of another: the labels and MAC appended by the callers stay
      separate from it. */
  lemma ExchangeInjective(x: Exchange, x': Exchange, d: bytes)
    requires Exchanged(x) && Exchanged(x') && Starts(ExchangeBytes(x), d) && Starts(ExchangeBytes(x'), d)
    ensures x == x'
  {
    KeyByte(x, d);
    KeyByte(x', d);
    ExchangeLayout(x);
    ExchangeLayout(x');
    var vs, vs' := ExchangeFields(x), ExchangeFields(x');
    UniqueStart(ExchangeShape(|x.cEphPub|), vs, vs', d);
    assert vs[0] == vs'[0] && vs[1] == vs'[1] && vs[2] == vs'[2] && vs[3] == vs'[3];
    assert vs[4] == vs'[4] && vs[5] == vs'[5] && vs[6] == vs'[6];
  }

  /** The byte after the point and the nonce tells how long the client's key is. */
  lemma KeyByte(x: Exchange, d: bytes)
    requires Exchanged(x) && Starts(ExchangeBytes(x), d)
    ensures |d| > 65 && d[65] == x.cEphPub[0] && |x.cEphPub| == if d[65] == 4 then PUB_LEN else POINT_LEN
  {
    var front := x.m + x.nonceC + x.cEphPub;
    assert front <= ExchangeBytes(x).value;
    assert front[65] == x.cEphPub[0];
  }

  lemma ExchangeLayout(x: Exchange)
    requires Exchanged(x)
    ensures ExchangeBytes(x) == Encode(ExchangeShape(|x.cEphPub|), ExchangeFields(x))
  {
    var vs, shape := ExchangeFields(x), ExchangeShape(|x.cEphPub|);
    ExchangeTail(x);
    assert PrintFrom(shape, vs, 2) == x.cEphPub + PrintFrom(shape, vs, 3);
    assert PrintFrom(shape, vs, 1) == x.nonceC + PrintFrom(shape, vs, 2);
    FourBefore(x.m, x.nonceC, x.cEphPub, x.z, BE(|x.envelope|, 3) + x.envelope + (x.nonceS + x.sEphPub));
    FourAfter(x.m + x.nonceC + x.cEphPub + x.z, BE(|x.envelope|, 3), x.envelope, x.nonceS, x.sEphPub);
  }

  lemma FourBefore(a: bytes, b: bytes, c: bytes, d: bytes, t: bytes)
    ensures a + (b + (c + (d + t))) == a + b + c + d + t
  {
  }

  lemma FourAfter(h: bytes, a: bytes, b: bytes, c: bytes, d: bytes)
    ensures h + (a + b + (c + d)) == h + a + b + c + d
  {
  }

  lemma ExchangeTail(x: Exchange)
    requires Exchanged(x)
    ensures Fits(ExchangeShape(|x.cEphPub|), ExchangeFields(x))
    ensures PrintFrom(ExchangeShape(|x.cEphPub|), ExchangeFields(x), 3)
         == x.z + (BE(|x.envelope|, 3) + x.envelope + (x.nonceS + x.sEphPub))
  {
    var vs, shape := ExchangeFields(x), ExchangeShape(|x.cEphPub|);
    assert PrintFrom(shape, vs, 7) == [];
    assert PrintFrom(shape, vs, 6) == x.sEphPub;
    assert PrintFrom(shape, vs, 5) == x.nonceS + x.sEphPub;
    assert PrintFrom(shape, vs, 4) == BE(|x.envelope|, 3) + x.envelope + (x.nonceS + x.sEphPub);
  }
}
