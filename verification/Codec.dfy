/** The protocol messages of codec.py: encoders as field lists, decoders over the `_R` reader.
    Each decoder is specified by the encoder alone: it accepts exactly the strings that start with
    an encoding, and returns the message of that encoding. Bytes after the encoding are ignored. */
module Codec {
  import opened Bytes
  import opened Wire

  const TAG_CLIENT_HELLO := 1
  const TAG_SERVER_HELLO := 2
  const TAG_CLIENT_FINISH := 3
  const TAG_APP_DATA := 4
  const TAG_ALERT := 5
  const TAG_CLOSE := 6

  datatype ClientHello = ClientHello(version: int, credentialId: bytes, clientNonce: bytes, ke1: bytes)

  datatype ServerHello = ServerHello(version: int, serverNonce: bytes, ke2: bytes, certificateChain: bytes,
                                     serverConfig: bytes, configSig: bytes, certVerifySig: bytes)

  datatype ClientFinish = ClientFinish(ke3: bytes)

  datatype AppData = AppData(seqNum: int, ciphertext: bytes)

  /** The text is kept as the UTF-8 bytes on the wire. */
  datatype Alert = Alert(level: int, message: bytes)

  /** `_R`: a cursor over a byte string. The ghost fields record the layout being read and the
      values read so far. */
  class Reader {
    const d: bytes
    var p: nat
    ghost const layout: seq<Field>
    ghost var got: seq<bytes>

    ghost predicate Valid()
      reads this
    {
      p <= |d| && |got| <= |layout| && Parse(layout, got, d[p..]) == Parse(layout, [], d)
    }

    /** The next field of the layout is f. */
    ghost predicate Next(f: Field)
      reads this
    {
      |got| < |layout| && layout[|got|] == f
    }

    /** No encoding in this layout starts the string. */
    ghost predicate Dead() {
      Parse(layout, [], d).None?
    }

    ghost function Rest(): bytes
      reads this
      requires Valid()
    {
      d[p..]
    }

    constructor (data: bytes, ghost shape: seq<Field>)
      ensures Valid() && d == data && p == 0 && layout == shape && got == []
    {
      d := data;
      p := 0;
      layout := shape;
      got := [];
    }

    /** `read`, moving the cursor only. */
    method Take(n: nat) returns (r: Result<bytes>)
      requires p <= |d|
      modifies this`p
      ensures r.Ok? ==> old(p) + n <= |d| && p == old(p) + n && r.value == d[old(p)..p]
      ensures r.Err? ==> |d| < old(p) + n && r == Err(Truncated) && p == old(p)
    {
      var c := d[p..Min(p + n, |d|)];
      if |c| != n {
        return Err(Truncated);
      }
      p := p + n;
      return Ok(c);
    }

    /** `read` of a field of n raw bytes. */
    method Read(n: nat) returns (r: Result<bytes>)
      requires Valid() && Next(Fixed(n))
      modifies this
      ensures r.Ok? ==> Valid() && got == old(got) + [r.value] && |r.value| == n
      ensures r.Ok? ==> old(p) + n <= |d| && p == old(p) + n && r.value == d[old(p)..p]
      ensures r.Err? ==> r == Err(Truncated) && Dead() && |d| < old(p) + n
    {
      ghost var start := p;
      r := Take(n);
      if r.Ok? {
        SliceOfRest(d, start, 0, n);
        got := got + [r.value];
      }
    }

    /** `u8`, `u16`, `u24`, `u32` and `u64`: an unsigned integer of w bytes. */
    method Unsigned(w: nat) returns (r: Result<nat>)
      requires Valid() && Next(Fixed(w))
      modifies this
      ensures r.Ok? ==> Valid() && got == old(got) + [U(r.value, w)]
      ensures r.Ok? ==> old(p) + w <= |d| && p == old(p) + w && r.value == Value(d[old(p)..p])
      ensures r.Err? ==> r == Err(Truncated) && Dead() && |d| < old(p) + w
    {
      var b :- Read(w);
      BEOfValue(b);
      return Ok(Value(b));
    }

    /** The tag test that opens every decoder. */
    method Tag(tag: byte) returns (r: Result<()>)
      requires Valid() && Next(Fixed(1)) && p == 0
      modifies this
      ensures r.Ok? ==> Valid() && got == old(got) + [U(tag, 1)]
      ensures r.Ok? ==> d != [] && d[0] == tag && p == 1
      ensures r == Err(WrongTag) ==> d != [] && d[0] != tag
      ensures r.Err? && r.error != WrongTag ==> d == [] && r == Err(Truncated) && Dead()
    {
      var b :- Take(1);
      assert b == [d[0]] && d == b + d[1..];
      SingleByte(d[0]);
      if Value(b) != tag {
        return Err(WrongTag);
      }
      got := got + [b];
      return Ok(());
    }

    /** `v16` and `v24`: a value behind a length of w bytes. */
    method Prefixed(w: nat) returns (r: Result<bytes>)
      requires Valid() && Next(Var(w))
      modifies this
      ensures r.Ok? ==> Valid() && got == old(got) + [r.value]
      ensures r.Ok? ==> old(p) + w + |r.value| == p <= |d| && |r.value| == Value(d[old(p)..old(p) + w])
      ensures r.Ok? ==> r.value == d[old(p) + w..p]
      ensures r.Err? ==> r == Err(Truncated) && Dead()
      ensures r.Err? && old(p) + w <= |d| ==> |d| < old(p) + w + Value(d[old(p)..old(p) + w])
    {
      ghost var start := p;
      var size :- Take(w);
      TakeVar(d, start, w);
      r := Take(Value(size));
      if r.Ok? {
        got := got + [r.value];
      }
    }
  }

  // ---------------------------------------------------------------- ClientHello

  const CLIENT_HELLO := [Fixed(1), Fixed(1), Fixed(HASH_LEN), Fixed(NONCE_LEN), Var(2)]

  function ClientHelloFields(m: ClientHello): seq<bytes> {
    [U(TAG_CLIENT_HELLO, 1), U(m.version, 1), m.credentialId, m.clientNonce, m.ke1]
  }

  function EncodeClientHello(m: ClientHello): Result<bytes> {
    Encode(CLIENT_HELLO, ClientHelloFields(m))
  }

  /** No ClientHello starts d. */
  ghost predicate NoClientHello(d: bytes) {
    forall m :: !Starts(EncodeClientHello(m), d)
  }

  lemma ClientHelloVerdict(d: bytes)
    ensures Parse(CLIENT_HELLO, [], d).None? ==> NoClientHello(d)
    ensures d != [] && d[0] != TAG_CLIENT_HELLO ==> NoClientHello(d)
  {
    Verdict(CLIENT_HELLO, TAG_CLIENT_HELLO, d);
  }

  lemma ClientHelloAccepted(m: ClientHello, d: bytes, rest: bytes)
    requires Parse(CLIENT_HELLO, [], d) == Some((ClientHelloFields(m), rest))
    ensures Starts(EncodeClientHello(m), d)
  {
    Verdict(CLIENT_HELLO, TAG_CLIENT_HELLO, d);
  }

  /** The reads after the tag. */
  method ReadClientHello(rd: Reader) returns (r: Result<(int, bytes, bytes, bytes)>)
    requires rd.Valid() && rd.layout == CLIENT_HELLO && |rd.got| == 1
    modifies rd
    ensures r.Ok? ==> rd.Valid()
    ensures r.Ok? ==> rd.got == old(rd.got) + [U(r.value.0, 1), r.value.1, r.value.2, r.value.3]
    ensures r.Err? ==> r == Err(Truncated) && rd.Dead()
  {
    var version :- rd.Unsigned(1);
    var cred :- rd.Read(HASH_LEN);
    var nonce :- rd.Read(NONCE_LEN);
    var ke1 :- rd.Prefixed(2);
    return Ok((version, cred, nonce, ke1));
  }

  method DecodeClientHello(data: bytes) returns (r: Result<ClientHello>)
    ensures r.Ok? ==> Starts(EncodeClientHello(r.value), data)
    ensures r.Err? ==> NoClientHello(data)
    ensures r == Err(WrongTag) <==> data != [] && data[0] != TAG_CLIENT_HELLO
    ensures r.Err? ==> r.error == WrongTag || r.error == Truncated
  {
    ClientHelloVerdict(data);
    var rd := new Reader(data, CLIENT_HELLO);
    var _ :- rd.Tag(TAG_CLIENT_HELLO);
    var body :- ReadClientHello(rd);
    var (version, cred, nonce, ke1) := body;
    r := Ok(ClientHello(version, cred, nonce, ke1));
    assert rd.got == ClientHelloFields(r.value);
    ClientHelloAccepted(r.value, data, rd.Rest());
  }

  /** A string starts with at most one ClientHello. */
  lemma ClientHelloUnique(m: ClientHello, m': ClientHello, d: bytes)
    requires Starts(EncodeClientHello(m), d) && Starts(EncodeClientHello(m'), d)
    ensures m == m'
  {
    UniqueStart(CLIENT_HELLO, ClientHelloFields(m), ClientHelloFields(m'), d);
    var vs, vs' := ClientHelloFields(m), ClientHelloFields(m');
    assert vs[1] == vs'[1] && vs[2] == vs'[2] && vs[3] == vs'[3] && vs[4] == vs'[4];
    assert FieldFits(CLIENT_HELLO[1], vs[1]);
  }

  // ---------------------------------------------------------------- ServerHello

  const CORE := [Fixed(1), Fixed(NONCE_LEN), Var(2), Var(3), Var(2)]
  const SIGNATURES := [Var(2), Var(2)]
  const SERVER_HELLO := [Fixed(1), Fixed(1), Fixed(NONCE_LEN), Var(2), Var(3), Var(2), Var(2), Var(2)]

  function CoreFields(m: ServerHello): seq<bytes> {
    [U(m.version, 1), m.serverNonce, m.ke2, m.certificateChain, m.serverConfig]
  }

  /** `encode_server_hello_core`: the part CertificateVerify signs. */
  function EncodeCore(m: ServerHello): Result<bytes> {
    Encode(CORE, CoreFields(m))
  }

  /** `encode_server_hello`: a tag, the core and both signatures. */
  function WrapCore(core: bytes, configSig: bytes, certVerifySig: bytes): Result<bytes> {
    var sigs :- Encode(SIGNATURES, [configSig, certVerifySig]);
    Ok([TAG_SERVER_HELLO] + core + sigs)
  }

  /** The server's two encoders in sequence. */
  function EncodeServerHello(m: ServerHello): Result<bytes> {
    var core :- EncodeCore(m);
    WrapCore(core, m.configSig, m.certVerifySig)
  }

  function ServerHelloFields(m: ServerHello): seq<bytes> {
    [U(TAG_SERVER_HELLO, 1), U(m.version, 1), m.serverNonce, m.ke2, m.certificateChain, m.serverConfig,
     m.configSig, m.certVerifySig]
  }

  lemma ServerHelloLayout(m: ServerHello)
    ensures EncodeServerHello(m) == Encode(SERVER_HELLO, ServerHelloFields(m))
  {
    var tag, core, sigs := [U(TAG_SERVER_HELLO, 1)], CoreFields(m), [m.configSig, m.certVerifySig];
    SingleByte(TAG_SERVER_HELLO);
    assert Fits([Fixed(1)], tag) && Print([Fixed(1)], tag) == [TAG_SERVER_HELLO] by {
      assert PrintFrom([Fixed(1)], tag, 1) == [];
    }
    FitsAppend([Fixed(1)], tag, CORE, core);
    FitsAppend([Fixed(1)] + CORE, tag + core, SIGNATURES, sigs);
    assert [Fixed(1)] + CORE + SIGNATURES == SERVER_HELLO && tag + core + sigs == ServerHelloFields(m);
    if Fits(CORE, core) && Fits(SIGNATURES, sigs) {
      PrintAppend([Fixed(1)], tag, CORE, core, 0);
      PrintAppend([Fixed(1)] + CORE, tag + core, SIGNATURES, sigs, 0);
    }
  }

  /** No ServerHello starts d. */
  ghost predicate NoServerHello(d: bytes) {
    forall m :: !Starts(EncodeServerHello(m), d)
  }

  lemma ServerHelloVerdict(d: bytes)
    ensures Parse(SERVER_HELLO, [], d).None? ==> NoServerHello(d)
    ensures d != [] && d[0] != TAG_SERVER_HELLO ==> NoServerHello(d)
  {
    Verdict(SERVER_HELLO, TAG_SERVER_HELLO, d);
    forall m | Starts(EncodeServerHello(m), d)
      ensures Starts(Encode(SERVER_HELLO, ServerHelloFields(m)), d) && d != [] && d[0] == TAG_SERVER_HELLO
    {
      ServerHelloLayout(m);
    }
  }

  lemma ServerHelloAccepted(m: ServerHello, d: bytes, rest: bytes)
    requires Parse(SERVER_HELLO, [], d) == Some((ServerHelloFields(m), rest))
    ensures Starts(EncodeServerHello(m), d)
  {
    Verdict(SERVER_HELLO, TAG_SERVER_HELLO, d);
    ServerHelloLayout(m);
  }

  /** The reads of the signed part. */
  method ReadCore(rd: Reader) returns (r: Result<(int, bytes, bytes, bytes, bytes)>)
    requires rd.Valid() && rd.layout == SERVER_HELLO && |rd.got| == 1
    modifies rd
    ensures r.Ok? ==> rd.Valid()
    ensures r.Ok? ==> rd.got == old(rd.got) + [U(r.value.0, 1), r.value.1, r.value.2, r.value.3, r.value.4]
    ensures r.Err? ==> r == Err(Truncated) && rd.Dead()
  {
    var version :- rd.Unsigned(1);
    var nonce :- rd.Read(NONCE_LEN);
    var ke2 :- rd.Prefixed(2);
    var chain :- rd.Prefixed(3);
    var config :- rd.Prefixed(2);
    return Ok((version, nonce, ke2, chain, config));
  }

  method DecodeServerHello(data: bytes) returns (r: Result<ServerHello>)
    ensures r.Ok? ==> Starts(EncodeServerHello(r.value), data)
    ensures r.Err? ==> NoServerHello(data)
    ensures r == Err(WrongTag) <==> data != [] && data[0] != TAG_SERVER_HELLO
    ensures r.Err? ==> r.error == WrongTag || r.error == Truncated
  {
    ServerHelloVerdict(data);
    var rd := new Reader(data, SERVER_HELLO);
    var _ :- rd.Tag(TAG_SERVER_HELLO);
    var core :- ReadCore(rd);
    var (version, nonce, ke2, chain, config) := core;
    var configSig :- rd.Prefixed(2);
    var certVerifySig :- rd.Prefixed(2);
    r := Ok(ServerHello(version, nonce, ke2, chain, config, configSig, certVerifySig));
    assert rd.got == ServerHelloFields(r.value);
    ServerHelloAccepted(r.value, data, rd.Rest());
  }

  /** A string starts with at most one ServerHello. */
  lemma ServerHelloUnique(m: ServerHello, m': ServerHello, d: bytes)
    requires Starts(EncodeServerHello(m), d) && Starts(EncodeServerHello(m'), d)
    ensures m == m'
  {
    ServerHelloLayout(m);
    ServerHelloLayout(m');
    UniqueStart(SERVER_HELLO, ServerHelloFields(m), ServerHelloFields(m'), d);
    assert FieldFits(SERVER_HELLO[1], ServerHelloFields(m)[1]);
    SameServerHello(m, m');
  }

  lemma SameServerHello(m: ServerHello, m': ServerHello)
    requires ServerHelloFields(m) == ServerHelloFields(m') && |U(m.version, 1)| == 1
    ensures m == m'
  {
    var vs, vs' := ServerHelloFields(m), ServerHelloFields(m');
    assert vs[1] == vs'[1] && vs[2] == vs'[2] && vs[3] == vs'[3] && vs[4] == vs'[4];
    assert vs[5] == vs'[5] && vs[6] == vs'[6] && vs[7] == vs'[7];
  }

  /** A ServerHello cut short is no ServerHello. */
  lemma TruncatedServerHello(m: ServerHello, d: bytes)
    requires EncodeServerHello(m).Ok? && d < EncodeServerHello(m).value
    ensures NoServerHello(d)
  {
    forall m' ensures !Starts(EncodeServerHello(m'), d) {
      if Starts(EncodeServerHello(m'), d) {
        ServerHelloUnique(m, m', EncodeServerHello(m).value);
        assert false;
      }
    }
  }

  /** The core the client rebuilds from a parsed ServerHello is the slice after the tag, byte for byte. */
  lemma RebuiltCoreIsSlice(m: ServerHello, d: bytes)
    requires Starts(EncodeServerHello(m), d)
    ensures EncodeCore(m).Ok?
    ensures var core := EncodeCore(m).value; 1 + |core| <= |d| && d[1..1 + |core|] == core
  {
    var core := EncodeCore(m).value;
    assert [TAG_SERVER_HELLO] + core <= EncodeServerHello(m).value;
  }

  // ---------------------------------------------------------------- ClientFinish

  const CLIENT_FINISH := [Fixed(1), Var(2)]

  function ClientFinishFields(m: ClientFinish): seq<bytes> {
    [U(TAG_CLIENT_FINISH, 1), m.ke3]
  }

  function EncodeClientFinish(m: ClientFinish): Result<bytes> {
    Encode(CLIENT_FINISH, ClientFinishFields(m))
  }

  /** No ClientFinish starts d. */
  ghost predicate NoClientFinish(d: bytes) {
    forall m :: !Starts(EncodeClientFinish(m), d)
  }

  lemma ClientFinishVerdict(d: bytes)
    ensures Parse(CLIENT_FINISH, [], d).None? ==> NoClientFinish(d)
    ensures d != [] && d[0] != TAG_CLIENT_FINISH ==> NoClientFinish(d)
  {
    Verdict(CLIENT_FINISH, TAG_CLIENT_FINISH, d);
  }

  lemma ClientFinishAccepted(m: ClientFinish, d: bytes, rest: bytes)
    requires Parse(CLIENT_FINISH, [], d) == Some((ClientFinishFields(m), rest))
    ensures Starts(EncodeClientFinish(m), d)
  {
    Verdict(CLIENT_FINISH, TAG_CLIENT_FINISH, d);
  }

  method DecodeClientFinish(data: bytes) returns (r: Result<ClientFinish>)
    ensures r.Ok? ==> Starts(EncodeClientFinish(r.value), data)
    ensures r.Err? ==> NoClientFinish(data)
    ensures r == Err(WrongTag) <==> data != [] && data[0] != TAG_CLIENT_FINISH
    ensures r.Err? ==> r.error == WrongTag || r.error == Truncated
  {
    ClientFinishVerdict(data);
    var rd := new Reader(data, CLIENT_FINISH);
    var _ :- rd.Tag(TAG_CLIENT_FINISH);
    var ke3 :- rd.Prefixed(2);
    r := Ok(ClientFinish(ke3));
    assert rd.got == ClientFinishFields(r.value);
    ClientFinishAccepted(r.value, data, rd.Rest());
  }

  lemma ClientFinishUnique(m: ClientFinish, m': ClientFinish, d: bytes)
    requires Starts(EncodeClientFinish(m), d) && Starts(EncodeClientFinish(m'), d)
    ensures m == m'
  {
    UniqueStart(CLIENT_FINISH, ClientFinishFields(m), ClientFinishFields(m'), d);
    assert ClientFinishFields(m)[1] == ClientFinishFields(m')[1];
  }

  // ---------------------------------------------------------------- AppData

  const APP_DATA := [Fixed(1), Fixed(8), Var(4)]

  function AppDataFields(m: AppData): seq<bytes> {
    [U(TAG_APP_DATA, 1), U(m.seqNum, 8), m.ciphertext]
  }

  function EncodeAppData(m: AppData): Result<bytes> {
    Encode(APP_DATA, AppDataFields(m))
  }

  /** No AppData starts d. */
  ghost predicate NoAppData(d: bytes) {
    forall m :: !Starts(EncodeAppData(m), d)
  }

  lemma AppDataVerdict(d: bytes)
    ensures Parse(APP_DATA, [], d).None? ==> NoAppData(d)
    ensures d != [] && d[0] != TAG_APP_DATA ==> NoAppData(d)
  {
    Verdict(APP_DATA, TAG_APP_DATA, d);
  }

  lemma AppDataAccepted(m: AppData, d: bytes, rest: bytes)
    requires Parse(APP_DATA, [], d) == Some((AppDataFields(m), rest))
    ensures Starts(EncodeAppData(m), d)
  {
    Verdict(APP_DATA, TAG_APP_DATA, d);
  }

  method DecodeAppData(data: bytes) returns (r: Result<AppData>)
    ensures r.Ok? ==> Starts(EncodeAppData(r.value), data)
    ensures r.Err? ==> NoAppData(data)
    ensures r == Err(WrongTag) <==> data != [] && data[0] != TAG_APP_DATA
    ensures r.Err? ==> r.error == WrongTag || r.error == Truncated
  {
    AppDataVerdict(data);
    var rd := new Reader(data, APP_DATA);
    var _ :- rd.Tag(TAG_APP_DATA);
    var seqNum :- rd.Unsigned(8);
    var ciphertext :- rd.Prefixed(4);
    r := Ok(AppData(seqNum, ciphertext));
    assert rd.got == AppDataFields(r.value);
    AppDataAccepted(r.value, data, rd.Rest());
  }

  lemma AppDataUnique(m: AppData, m': AppData, d: bytes)
    requires Starts(EncodeAppData(m), d) && Starts(EncodeAppData(m'), d)
    ensures m == m'
  {
    UniqueStart(APP_DATA, AppDataFields(m), AppDataFields(m'), d);
    var vs, vs' := AppDataFields(m), AppDataFields(m');
    assert vs[1] == vs'[1] && vs[2] == vs'[2];
    assert FieldFits(APP_DATA[1], vs[1]);
  }

  // ---------------------------------------------------------------- Alert and Close

  const ALERT := [Fixed(1), Fixed(1), Var(2)]

  function AlertFields(m: Alert): seq<bytes> {
    [U(TAG_ALERT, 1), U(m.level, 1), m.message]
  }

  function EncodeAlert(m: Alert): Result<bytes> {
    Encode(ALERT, AlertFields(m))
  }

  /** No Alert starts d. */
  ghost predicate NoAlert(d: bytes) {
    forall m :: !Starts(EncodeAlert(m), d)
  }

  lemma AlertVerdict(d: bytes)
    ensures Parse(ALERT, [], d).None? ==> NoAlert(d)
    ensures d != [] && d[0] != TAG_ALERT ==> NoAlert(d)
  {
    Verdict(ALERT, TAG_ALERT, d);
  }

  lemma AlertAccepted(m: Alert, d: bytes, rest: bytes)
    requires Parse(ALERT, [], d) == Some((AlertFields(m), rest))
    ensures Starts(EncodeAlert(m), d)
  {
    Verdict(ALERT, TAG_ALERT, d);
  }

  method DecodeAlert(data: bytes) returns (r: Result<Alert>)
    ensures r.Ok? ==> Starts(EncodeAlert(r.value), data)
    ensures r.Err? ==> NoAlert(data)
    ensures r == Err(WrongTag) <==> data != [] && data[0] != TAG_ALERT
    ensures r.Err? ==> r.error == WrongTag || r.error == Truncated
  {
    AlertVerdict(data);
    var rd := new Reader(data, ALERT);
    var _ :- rd.Tag(TAG_ALERT);
    var level :- rd.Unsigned(1);
    var message :- rd.Prefixed(2);
    r := Ok(Alert(level, message));
    assert rd.got == AlertFields(r.value);
    AlertAccepted(r.value, data, rd.Rest());
  }

  lemma AlertUnique(m: Alert, m': Alert, d: bytes)
    requires Starts(EncodeAlert(m), d) && Starts(EncodeAlert(m'), d)
    ensures m == m'
  {
    UniqueStart(ALERT, AlertFields(m), AlertFields(m'), d);
    var vs, vs' := AlertFields(m), AlertFields(m');
    assert vs[1] == vs'[1] && vs[2] == vs'[2];
    assert FieldFits(ALERT[1], vs[1]);
  }

  /** `encode_close` */
  const CLOSE: bytes := [TAG_CLOSE]

  // ---------------------------------------------------------------- the bytes on the wire

  /** A value behind its big-endian length of w bytes. */
  function Lengthened(d: bytes, w: nat): bytes
    requires |d| < Pow256(w)
  {
    BE(|d|, w) + d
  }

  lemma ClientHelloOnWire(m: ClientHello)
    ensures EncodeClientHello(m) ==
      if 0 <= m.version < 256 && |m.credentialId| == 64 &&
         |m.clientNonce| == 32 && |m.ke1| < Pow256(2) then
        Ok([1, m.version] + m.credentialId + m.clientNonce + Lengthened(m.ke1, 2))
      else Err(DoesNotFit)
  {
    var vs := ClientHelloFields(m);
    SingleByte(TAG_CLIENT_HELLO);
    if Fits(CLIENT_HELLO, vs) {
      assert FieldFits(CLIENT_HELLO[1], vs[1]) && FieldFits(CLIENT_HELLO[2], vs[2]);
      assert FieldFits(CLIENT_HELLO[3], vs[3]) && FieldFits(CLIENT_HELLO[4], vs[4]);
      SingleByte(m.version);
      ClientHelloTail(m);
      assert PrintFrom(CLIENT_HELLO, vs, 1) == [m.version] + PrintFrom(CLIENT_HELLO, vs, 2);
      FiveParts([TAG_CLIENT_HELLO], [m.version], m.credentialId, m.clientNonce, Lengthened(m.ke1, 2));
      assert [TAG_CLIENT_HELLO, m.version] == [TAG_CLIENT_HELLO] + [m.version];
    }
  }

  lemma ClientHelloTail(m: ClientHello)
    requires Fits(CLIENT_HELLO, ClientHelloFields(m)) && |m.ke1| < Pow256(2)
    ensures PrintFrom(CLIENT_HELLO, ClientHelloFields(m), 2) == m.credentialId + m.clientNonce + Lengthened(m.ke1, 2)
  {
    var vs := ClientHelloFields(m);
    assert PrintFrom(CLIENT_HELLO, vs, 5) == [];
    assert PrintFrom(CLIENT_HELLO, vs, 4) == Lengthened(m.ke1, 2);
    assert PrintFrom(CLIENT_HELLO, vs, 3) == m.clientNonce + Lengthened(m.ke1, 2);
  }

  lemma CoreOnWire(m: ServerHello)
    ensures EncodeCore(m) ==
      if 0 <= m.version < 256 && |m.serverNonce| == 32 && |m.ke2| < Pow256(2) &&
         |m.certificateChain| < Pow256(3) && |m.serverConfig| < Pow256(2) then
        Ok([m.version] + m.serverNonce + Lengthened(m.ke2, 2) + Lengthened(m.certificateChain, 3) +
           Lengthened(m.serverConfig, 2))
      else Err(DoesNotFit)
  {
    var vs := CoreFields(m);
    if Fits(CORE, vs) {
      assert FieldFits(CORE[0], vs[0]) && FieldFits(CORE[1], vs[1]) && FieldFits(CORE[2], vs[2]);
      assert FieldFits(CORE[3], vs[3]) && FieldFits(CORE[4], vs[4]);
      SingleByte(m.version);
      CoreTail(m);
      FiveParts([m.version], m.serverNonce, Lengthened(m.ke2, 2),
                Lengthened(m.certificateChain, 3), Lengthened(m.serverConfig, 2));
      assert PrintFrom(CORE, vs, 1) == m.serverNonce + PrintFrom(CORE, vs, 2);
    }
  }

  lemma FiveParts(a: bytes, b: bytes, c: bytes, d: bytes, e: bytes)
    ensures a + (b + (c + d + e)) == a + b + c + d + e
  {
  }

  lemma CoreTail(m: ServerHello)
    requires Fits(CORE, CoreFields(m)) &&
      |m.ke2| < Pow256(2) && |m.certificateChain| < Pow256(3) && |m.serverConfig| < Pow256(2)
    ensures PrintFrom(CORE, CoreFields(m), 2) ==
      Lengthened(m.ke2, 2) + Lengthened(m.certificateChain, 3) + Lengthened(m.serverConfig, 2)
  {
    var vs := CoreFields(m);
    assert PrintFrom(CORE, vs, 5) == [];
    assert PrintFrom(CORE, vs, 4) == Lengthened(m.serverConfig, 2);
    assert PrintFrom(CORE, vs, 3) == Lengthened(m.certificateChain, 3) + Lengthened(m.serverConfig, 2);
  }

  lemma WrappedOnWire(core: bytes, configSig: bytes, certVerifySig: bytes)
    ensures WrapCore(core, configSig, certVerifySig) ==
      if |configSig| < Pow256(2) && |certVerifySig| < Pow256(2) then
        Ok([2] + core + (Lengthened(configSig, 2) + Lengthened(certVerifySig, 2)))
      else Err(DoesNotFit)
  {
    var vs := [configSig, certVerifySig];
    if Fits(SIGNATURES, vs) {
      assert FieldFits(SIGNATURES[0], vs[0]) && FieldFits(SIGNATURES[1], vs[1]);
      assert PrintFrom(SIGNATURES, vs, 2) == [];
      assert PrintFrom(SIGNATURES, vs, 1) == Lengthened(certVerifySig, 2);
    }
  }

  lemma ClientFinishOnWire(m: ClientFinish)
    ensures EncodeClientFinish(m) ==
      if |m.ke3| < Pow256(2) then Ok([3] + Lengthened(m.ke3, 2)) else Err(DoesNotFit)
  {
    var vs := ClientFinishFields(m);
    SingleByte(TAG_CLIENT_FINISH);
    if Fits(CLIENT_FINISH, vs) {
      assert FieldFits(CLIENT_FINISH[1], vs[1]);
      assert PrintFrom(CLIENT_FINISH, vs, 2) == [];
      assert PrintFrom(CLIENT_FINISH, vs, 1) == Lengthened(m.ke3, 2);
    }
  }

  lemma AppDataOnWire(m: AppData)
    ensures EncodeAppData(m) ==
      if 0 <= m.seqNum < Pow256(8) && |m.ciphertext| < Pow256(4) then
        Ok([4] + (BE(m.seqNum, 8) + Lengthened(m.ciphertext, 4)))
      else Err(DoesNotFit)
  {
    var vs := AppDataFields(m);
    SingleByte(TAG_APP_DATA);
    if Fits(APP_DATA, vs) {
      assert FieldFits(APP_DATA[1], vs[1]) && FieldFits(APP_DATA[2], vs[2]);
      assert PrintFrom(APP_DATA, vs, 3) == [];
      assert PrintFrom(APP_DATA, vs, 2) == Lengthened(m.ciphertext, 4);
      assert PrintFrom(APP_DATA, vs, 1) == BE(m.seqNum, 8) + Lengthened(m.ciphertext, 4);
    }
  }

  lemma AlertOnWire(m: Alert)
    ensures EncodeAlert(m) ==
      if 0 <= m.level < 256 && |m.message| < Pow256(2) then Ok([5, m.level] + Lengthened(m.message, 2))
      else Err(DoesNotFit)
  {
    var vs := AlertFields(m);
    SingleByte(TAG_ALERT);
    if Fits(ALERT, vs) {
      assert FieldFits(ALERT[1], vs[1]) && FieldFits(ALERT[2], vs[2]);
      SingleByte(m.level);
      assert PrintFrom(ALERT, vs, 3) == [];
      assert PrintFrom(ALERT, vs, 2) == Lengthened(m.message, 2);
      assert PrintFrom(ALERT, vs, 1) == [m.level] + Lengthened(m.message, 2);
      assert Print(ALERT, vs) == [TAG_ALERT, m.level] + Lengthened(m.message, 2);
    }
  }

  /** Every message cut short is refused by its decoder. */
  lemma CutMessages(d: bytes)
    ensures forall m :: EncodeClientHello(m).Ok? && d < EncodeClientHello(m).value ==> NoClientHello(d)
    ensures forall m :: EncodeServerHello(m).Ok? && d < EncodeServerHello(m).value ==> NoServerHello(d)
    ensures forall m :: EncodeClientFinish(m).Ok? && d < EncodeClientFinish(m).value ==> NoClientFinish(d)
    ensures forall m :: EncodeAppData(m).Ok? && d < EncodeAppData(m).value ==> NoAppData(d)
    ensures forall m :: EncodeAlert(m).Ok? && d < EncodeAlert(m).value ==> NoAlert(d)
  {
    forall m | EncodeClientHello(m).Ok? && d < EncodeClientHello(m).value ensures NoClientHello(d) {
      CutShort(CLIENT_HELLO, ClientHelloFields(m), d);
    }
    forall m | EncodeServerHello(m).Ok? && d < EncodeServerHello(m).value ensures NoServerHello(d) {
      TruncatedServerHello(m, d);
    }
    forall m | EncodeClientFinish(m).Ok? && d < EncodeClientFinish(m).value ensures NoClientFinish(d) {
      CutShort(CLIENT_FINISH, ClientFinishFields(m), d);
    }
    forall m | EncodeAppData(m).Ok? && d < EncodeAppData(m).value ensures NoAppData(d) {
      CutShort(APP_DATA, AppDataFields(m), d);
    }
    forall m | EncodeAlert(m).Ok? && d < EncodeAlert(m).value ensures NoAlert(d) {
      CutShort(ALERT, AlertFields(m), d);
    }
  }
}
