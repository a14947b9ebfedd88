/** The OPAQUE record helpers of storage.py:103-139: byte fields kept as hexadecimal strings. */
module Records {
  import opened Bytes
  import opened Hex
  import opened Storage

  datatype OpaqueRecord = OpaqueRecord(oprfKey: bytes, clientPub: bytes, envelope: bytes, credentialId: bytes)

  datatype HexRecord = HexRecord(oprfKeyHex: string, clientPubHex: string, envelopeHex: string, credentialIdHex: string)

  function Pack(r: OpaqueRecord): HexRecord {
    HexRecord(ToHex(r.oprfKey), ToHex(r.clientPub), ToHex(r.envelope), ToHex(r.credentialId))
  }

  function Unpack(raw: HexRecord): Result<OpaqueRecord> {
    var oprfKey :- FromHex(raw.oprfKeyHex);
    var clientPub :- FromHex(raw.clientPubHex);
    var envelope :- FromHex(raw.envelopeHex);
    var credentialId :- FromHex(raw.credentialIdHex);
    Ok(OpaqueRecord(oprfKey, clientPub, envelope, credentialId))
  }

  lemma UnpackPack(r: OpaqueRecord)
    ensures Unpack(Pack(r)) == Ok(r)
  {
    HexRoundTrip(r.oprfKey);
    HexRoundTrip(r.clientPub);
    HexRoundTrip(r.envelope);
    HexRoundTrip(r.credentialId);
  }

  /** A stored record loads exactly when all four of its fields are hexadecimal. */
  lemma UnpackExactly(raw: HexRecord)
    ensures Unpack(raw).Ok? <==>
      FromHex(raw.oprfKeyHex).Ok? && FromHex(raw.clientPubHex).Ok? && FromHex(raw.envelopeHex).Ok? &&
      FromHex(raw.credentialIdHex).Ok?
    ensures Unpack(raw).Err? ==> Unpack(raw) == Err(BadHex)
  {
    OnlyBadHex(raw.oprfKeyHex);
    OnlyBadHex(raw.clientPubHex);
    OnlyBadHex(raw.envelopeHex);
    OnlyBadHex(raw.credentialIdHex);
  }

  /** The operation `store_opaque_record` performs on the store. */
  function StoreOp(r: OpaqueRecord): Op<HexRecord> {
    Set(ToHex(r.credentialId), Pack(r))
  }

  /** `load_opaque_record` on a dictionary: None for an unknown credential. */
  function Load(d: Dict<HexRecord>, credentialId: bytes): Result<Option<OpaqueRecord>> {
    var key := ToHex(credentialId);
    if key !in d then Ok(None)
    else
      var r :- Unpack(d[key]);
      Ok(Some(r))
  }

  method StoreOpaqueRecord(db: JSONStore<HexRecord>, r: OpaqueRecord)
    requires db.Valid()
    modifies db
    ensures db.Valid() && Load(db.file.data, r.credentialId) == Ok(Some(r))
    ensures forall c :: c != r.credentialId ==> Load(db.file.data, c) == Load(old(db.file.data), c)
  {
    var _ := db.Perform(StoreOp(r));
    UnpackPack(r);
    forall c | c != r.credentialId ensures ToHex(c) != ToHex(r.credentialId) {
      if ToHex(c) == ToHex(r.credentialId) {
        HexInjective(c, r.credentialId);
      }
    }
  }

  method LoadOpaqueRecord(db: JSONStore<HexRecord>, credentialId: bytes) returns (r: Result<Option<OpaqueRecord>>)
    requires db.Valid()
    modifies db
    ensures db.Valid() && db.file == old(db.file) && r == Load(db.file.data, credentialId)
  {
    var response := db.Perform(Get(ToHex(credentialId)));
    if response.value.None? {
      return Ok(None);
    }
    var unpacked := Unpack(response.value.value);
    return if unpacked.Ok? then Ok(Some(unpacked.value)) else Err(unpacked.error);
  }

  method RecordExists(db: JSONStore<HexRecord>, credentialId: bytes) returns (r: bool)
    requires db.Valid()
    modifies db
    ensures db.Valid() && db.file == old(db.file)
    ensures r <==> Load(db.file.data, credentialId) != Ok(None)
  {
    var response := db.Perform(Exists(ToHex(credentialId)));
    r := response.present;
  }

  // ---------------------------------------------------------------- concurrent sessions

  /** Every operation in the history stores some record or only reads. */
  ghost predicate OnlyRecords(h: seq<Op<HexRecord>>) {
    forall i :: 0 <= i < |h| ==> !h[i].Delete? && (h[i].Set? ==> exists r :: h[i] == StoreOp(r))
  }

  /** The last record stored for a credential. */
  ghost function LastStored(h: seq<Op<HexRecord>>, credentialId: bytes): Option<OpaqueRecord>
    requires OnlyRecords(h)
  {
    if h == [] then None
    else if h[|h| - 1].Set? then
      var r :| h[|h| - 1] == StoreOp(r);
      if r.credentialId == credentialId then Some(r) else LastStored(h[..|h| - 1], credentialId)
    else LastStored(h[..|h| - 1], credentialId)
  }

  lemma StoreOpInjective(r: OpaqueRecord, r': OpaqueRecord)
    requires StoreOp(r) == StoreOp(r')
    ensures r == r'
  {
    UnpackPack(r);
    UnpackPack(r');
  }

  /** Loading after any history of stores gives back the bytes that were stored last. */
  lemma {:induction false} LoadLastStored(h: seq<Op<HexRecord>>, credentialId: bytes)
    requires OnlyRecords(h)
    ensures Load(Replay(h), credentialId) == Ok(LastStored(h, credentialId))
  {
    if h != [] {
      var n := |h| - 1;
      LoadLastStored(h[..n], credentialId);
      if h[n].Set? {
        var r :| h[n] == StoreOp(r);
        UnpackPack(r);
        forall r' | h[n] == StoreOp(r') ensures r' == r {
          StoreOpInjective(r, r');
        }
        if r.credentialId != credentialId && ToHex(r.credentialId) == ToHex(credentialId) {
          HexInjective(r.credentialId, credentialId);
        }
      }
    }
  }
}
