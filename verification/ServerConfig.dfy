/** The server capability blob of server_config.py. The clock is a parameter. */
module ServerConfig {
  import opened Bytes
  import opened Wire

  const VERSION := 1
  const SUPPORTED_KEX := 1
  const SUPPORTED_AEAD := 2
  const SUPPORTED_HASH := 3
  const MAX_AGE_S := 86400
  const SERVER_ID: bytes := [108, 111, 99, 97, 108, 104, 111, 115, 116]  // localhost

  datatype Config = Config(version: int, kex: int, aead: int, hash: int, name: bytes, timestamp: int)

  const CONFIG := [Fixed(1), Fixed(1), Fixed(1), Fixed(1), Var(2), Fixed(8)]

  function ConfigFields(c: Config): seq<bytes> {
    [U(c.version, 1), U(c.kex, 1), U(c.aead, 1), U(c.hash, 1), c.name, U(c.timestamp, 8)]
  }

  function EncodeConfig(c: Config): Result<bytes> {
    Encode(CONFIG, ConfigFields(c))
  }

  /** The one configuration a server named `name` advertises at time ts. */
  function Advertised(name: bytes, ts: int): Config {
    Config(VERSION, SUPPORTED_KEX, SUPPORTED_AEAD, SUPPORTED_HASH, name, ts)
  }

  /** `encode_server_config`, with int(time.time()) as ts. */
  function EncodeServerConfig(name: bytes, ts: int): Result<bytes> {
    EncodeConfig(Advertised(name, ts))
  }

  /** `decode_server_config` */
  function DecodeServerConfig(data: bytes): Result<Config> {
    if |data| < 14 then Err(Truncated)
    else
      var nameLen := Value(data[4..6]);
      if |data| < 6 + nameLen + 8 then Err(Truncated)
      else Ok(Config(data[0], data[1], data[2], data[3], data[6..6 + nameLen],
                     Value(data[6 + nameLen..14 + nameLen])))
  }

  /** `validate_server_config` */
  function ValidateServerConfig(data: bytes, expectedName: bytes, maxAge: int, now: int): Result<Config> {
    var cfg :- DecodeServerConfig(data);
    if cfg.version != VERSION || cfg.kex != SUPPORTED_KEX || cfg.aead != SUPPORTED_AEAD ||
       cfg.hash != SUPPORTED_HASH || cfg.name != expectedName then Err(BadConfig)
    else if now - cfg.timestamp > maxAge || cfg.timestamp - now > maxAge then Err(BadConfig)
    else Ok(cfg)
  }

  predicate InRange(c: Config) {
    && 0 <= c.version < 256 && 0 <= c.kex < 256 && 0 <= c.aead < 256 && 0 <= c.hash < 256
    && |c.name| < Pow256(2) && 0 <= c.timestamp < Pow256(8)
  }

  function Flat(c: Config): bytes
    requires InRange(c)
  {
    [c.version, c.kex, c.aead, c.hash] + BE(|c.name|, 2) + c.name + BE(c.timestamp, 8)
  }

  lemma ConfigLayout(c: Config)
    ensures EncodeConfig(c) == if InRange(c) then Ok(Flat(c)) else Err(DoesNotFit)
  {
    FitsInRange(c);
    if InRange(c) {
      ConfigPrinted(c);
    }
  }

  lemma FitsInRange(c: Config)
    ensures Fits(CONFIG, ConfigFields(c)) <==> InRange(c)
  {
    var vs := ConfigFields(c);
    if Fits(CONFIG, vs) {
      assert FieldFits(CONFIG[0], vs[0]) && FieldFits(CONFIG[1], vs[1]) && FieldFits(CONFIG[2], vs[2]);
      assert FieldFits(CONFIG[3], vs[3]) && FieldFits(CONFIG[4], vs[4]) && FieldFits(CONFIG[5], vs[5]);
    }
  }

  lemma ConfigPrinted(c: Config)
    requires InRange(c) && Fits(CONFIG, ConfigFields(c))
    ensures Print(CONFIG, ConfigFields(c)) == Flat(c)
  {
    var vs := ConfigFields(c);
    SingleByte(c.version);
    SingleByte(c.kex);
    SingleByte(c.aead);
    SingleByte(c.hash);
    ConfigTail(c);
    assert PrintFrom(CONFIG, vs, 2) == [c.aead] + PrintFrom(CONFIG, vs, 3);
    assert PrintFrom(CONFIG, vs, 1) == [c.kex] + PrintFrom(CONFIG, vs, 2);
    FourBytes(c.version, c.kex, c.aead, c.hash, BE(|c.name|, 2) + c.name + BE(c.timestamp, 8));
    assert Flat(c) == [c.version, c.kex, c.aead, c.hash] + (BE(|c.name|, 2) + c.name + BE(c.timestamp, 8));
  }

  lemma FourBytes(a: byte, b: byte, c: byte, d: byte, t: bytes)
    ensures [a] + ([b] + ([c] + ([d] + t))) == [a, b, c, d] + t
  {
  }

  lemma ConfigTail(c: Config)
    requires InRange(c) && Fits(CONFIG, ConfigFields(c)) && U(c.hash, 1) == [c.hash]
    ensures PrintFrom(CONFIG, ConfigFields(c), 3) == [c.hash] + (BE(|c.name|, 2) + c.name + BE(c.timestamp, 8))
  {
    var vs := ConfigFields(c);
    assert PrintFrom(CONFIG, vs, 6) == [];
    assert PrintFrom(CONFIG, vs, 5) == BE(c.timestamp, 8);
    assert PrintFrom(CONFIG, vs, 4) == BE(|c.name|, 2) + c.name + BE(c.timestamp, 8);
  }

  lemma DecodedStarts(data: bytes, c: Config)
    requires DecodeServerConfig(data) == Ok(c)
    ensures InRange(c) && Flat(c) <= data
  {
    var n := |c.name|;
    BEOfValue(data[4..6]);
    BEOfValue(data[6 + n..14 + n]);
    assert data[..14 + n] == [data[0], data[1], data[2], data[3]] + data[4..6] + data[6..6 + n] + data[6 + n..14 + n];
  }

  lemma StartedDecodes(data: bytes, c: Config)
    requires InRange(c) && Flat(c) <= data
    ensures DecodeServerConfig(data) == Ok(c)
  {
    var n := |c.name|;
    var head := [c.version, c.kex, c.aead, c.hash];
    var f1 := head + BE(n, 2);
    var f2 := f1 + c.name;
    assert f2 == Flat(c)[..6 + n] == data[..6 + n] && BE(c.timestamp, 8) == Flat(c)[6 + n..] == data[6 + n..14 + n];
    assert f1 == f2[..6] == data[..6] && c.name == f2[6..] == data[6..6 + n];
    assert BE(n, 2) == f1[4..] == data[4..6];
    assert forall i :: 0 <= i < 4 ==> head[i] == f1[i] == data[i];
  }

  /** Offset-based decoding accepts exactly the strings that start with an encoding. */
  lemma DecodeConfig(data: bytes, c: Config)
    ensures DecodeServerConfig(data) == Ok(c) <==> Starts(EncodeConfig(c), data)
  {
    ConfigLayout(c);
    if DecodeServerConfig(data) == Ok(c) {
      DecodedStarts(data, c);
    }
    if Starts(EncodeConfig(c), data) {
      StartedDecodes(data, c);
    }
  }

  /** Validation accepts exactly the advertisement of the expected name at a time within the window,
      whatever bytes follow it, and returns that advertisement. */
  lemma ValidateExactly(data: bytes, name: bytes, maxAge: int, now: int, c: Config)
    ensures ValidateServerConfig(data, name, maxAge, now) == Ok(c) <==>
      c == Advertised(name, c.timestamp) && -maxAge <= now - c.timestamp <= maxAge &&
      Starts(EncodeServerConfig(name, c.timestamp), data)
  {
    DecodeConfig(data, c);
  }

  /** An honest blob passes validation for exactly the window around its timestamp. */
  lemma HonestConfigValid(name: bytes, ts: nat, now: int, maxAge: int)
    requires EncodeServerConfig(name, ts).Ok?
    ensures var data := EncodeServerConfig(name, ts).value;
      ValidateServerConfig(data, name, maxAge, now).Ok? <==> -maxAge <= now - ts <= maxAge
  {
    DecodeConfig(EncodeServerConfig(name, ts).value, Advertised(name, ts));
  }

  /** The very bytes this server advertises: version 1, the suite 1, 2, 3, the name "localhost" behind its length,
      and the time. */
  lemma AdvertisedBytes(ts: nat)
    requires ts < Pow256(8)
    ensures EncodeServerConfig(SERVER_ID, ts) ==
      Ok([1, 1, 2, 3, 0, 9, 108, 111, 99, 97, 108, 104, 111, 115, 116] + BE(ts, 8))
  {
    Widths();
    var c := Advertised(SERVER_ID, ts);
    ConfigLayout(c);
    TwoBytes(0, 9);
    assert Flat(c) == [1, 1, 2, 3] + [0, 9] + SERVER_ID + BE(ts, 8);
    FrontBytes(BE(ts, 8));
  }

  lemma FrontBytes(t: bytes)
    ensures [1, 1, 2, 3] + [0, 9] + SERVER_ID + t ==
      [1, 1, 2, 3, 0, 9, 108, 111, 99, 97, 108, 104, 111, 115, 116] + t
  {
    assert [1, 1, 2, 3] + [0, 9] + SERVER_ID == [1, 1, 2, 3, 0, 9, 108, 111, 99, 97, 108, 104, 111, 115, 116];
  }
}
