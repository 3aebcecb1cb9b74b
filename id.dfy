/** The account identifier of src/entities/id.h: the null, registration,
    key-hash, public-key and nickname identifiers, the CUserID variant over
    them, and its wire encoding, in which the leading length byte doubles as
    the type tag. */
module Id {
  import opened Serialize

  // SerializeFlag: the tag byte's legal values
  const FlagNullType: nat := 0
  const FlagRegIDMin: nat := 2
  const FlagRegIDMax: nat := 10
  const FlagKeyID: nat := 20
  const FlagPubKey: nat := 33
  const FlagNickID: nat := 100

  // ---------------------------------------------------------------------------
  // CNullID
  // ---------------------------------------------------------------------------

  /** The empty identifier: one value, always empty, equal to every other. */
  datatype CNullID = CNullID {
    predicate Eq(other: CNullID) { true }
    /** As written, `<` holds between any two null identifiers, itself included. */
    predicate Less(other: CNullID) { true }
    predicate IsEmpty() { true }
    function ToString(): string { "Null" }
  }

  // ---------------------------------------------------------------------------
  // CRegID
  // ---------------------------------------------------------------------------

  /** The bytes cached in vRegID: the in-memory bytes of `height` (4) followed
      by those of `index` (2), on a little-endian host. */
  function RegIdRaw(height: uint32, index: uint16): (r: seq<byte>)
    ensures |r| == 6
    ensures FromLittleEndian(r[..4]) == height && FromLittleEndian(r[4..]) == index
  {
    LittleEndianRoundTrip(height, 4);
    LittleEndianRoundTrip(index, 2);
    var r := LittleEndian(height, 4) + LittleEndian(index, 2);
    assert r[..4] == LittleEndian(height, 4) && r[4..] == LittleEndian(index, 2);
    r
  }

  /** A registration identifier: the block height at which the account was
      registered and its index within that block, with the cached raw bytes. */
  datatype CRegID = CRegID(height: uint32, index: uint16, vRegID: seq<byte>) {
    predicate Eq(other: CRegID) { height == other.height && index == other.index }
    predicate Ne(other: CRegID) { height != other.height || index != other.index }
    predicate Less(other: CRegID) {
      if height == other.height then index < other.index else height < other.height
    }
    predicate IsEmpty() { height == 0 && index == 0 }

    /** GetSerializeSize: VARINT(height) followed by VARINT(index). */
    function SerializeSize(): nat { VarIntSize(height) + VarIntSize(index) }
    function Encoding(): (r: seq<byte>)
      ensures |r| == SerializeSize()
    {
      VarIntEncode(height) + VarIntEncode(index)
    }
  }

  /** CRegID(height, index), with the raw-byte cache filled in. */
  function NewRegID(height: uint32, index: uint16): (r: CRegID)
    ensures r.height == height && r.index == index && r.vRegID == RegIdRaw(height, index)
    ensures r.IsEmpty() <==> height == 0 && index == 0
  {
    CRegID(height, index, RegIdRaw(height, index))
  }

  /** `==` compares height and index only (never the cache), `!=` is its
      negation, and `<` is lexicographic on (height, index): a strict total
      order whose equivalence is `==`. */
  lemma RegIdOrdering(a: CRegID, b: CRegID, c: CRegID)
    ensures a.Ne(b) <==> !a.Eq(b)
    ensures a.Eq(b) <==> a.height == b.height && a.index == b.index
    ensures a.Less(b) <==> a.height < b.height || (a.height == b.height && a.index < b.index)
    ensures !a.Less(a)
    ensures a.Less(b) && b.Less(c) ==> a.Less(c)
    ensures a.Eq(b) || a.Less(b) || b.Less(a)
    ensures !(a.Less(b) && b.Less(a))
    ensures a.IsEmpty() <==> a.Eq(NewRegID(0, 0))
  {
  }

  /** The VARINT payload of any registration identifier is 2 to 8 bytes long,
      inside [FlagRegIDMin, FlagRegIDMax], so the encode-time assertions on
      it never fail. */
  lemma RegIdSizeInRange(r: CRegID)
    ensures 2 <= r.SerializeSize() <= 8
    ensures FlagRegIDMin <= r.SerializeSize() <= FlagRegIDMax
  {
    VarIntSizeUint32(r.height);
    VarIntSizeUint16(r.index);
  }

  /** Reading a registration identifier: VARINT(height) into a uint32, then
      VARINT(index) into a uint16, then vRegID rebuilt from the two. */
  function RegIdRead(s: seq<byte>, pos: nat): (r: Option<(CRegID, nat)>)
    ensures r.Some? ==> pos < r.value.1 <= |s| && r.value.0.vRegID == RegIdRaw(r.value.0.height, r.value.0.index)
  {
    match VarIntRead(s, pos, UINT32_MODULUS)
    case None => None
    case Some((height, p)) =>
      match VarIntRead(s, p, UINT16_MODULUS)
      case None => None
      case Some((index, q)) => Some((CRegID(height, index, RegIdRaw(height, index)), q))
  }

  /** Reading what a registration identifier's serializer wrote gives back its
      height and index, consumes exactly those bytes, and refills the cache. */
  lemma RegIdRoundTrip(r: CRegID, s: seq<byte>, pos: nat)
    requires pos + |r.Encoding()| <= |s| && s[pos..pos + |r.Encoding()|] == r.Encoding()
    ensures RegIdRead(s, pos) == Some((NewRegID(r.height, r.index), pos + |r.Encoding()|))
  {
    var eh, ei := VarIntEncode(r.height), VarIntEncode(r.index);
    SliceSplit(s, pos, eh, ei);
    VarIntRoundTrip(r.height, s, pos, UINT32_MODULUS);
    VarIntRoundTrip(r.index, s, pos + |eh|, UINT16_MODULUS);
  }

  /** CRegID's serializer in the read direction: both VARINTs are read, then
      vRegID is cleared and refilled with the bytes of height and index. */
  method ReadRegID(s: DataStream) returns (ok: bool, r: CRegID)
    requires s.Valid()
    modifies s
    ensures s.Valid() && s.vch == old(s.vch)
    ensures ok <==> RegIdRead(old(s.vch), old(s.readPos)).Some?
    ensures ok ==> RegIdRead(old(s.vch), old(s.readPos)) == Some((r, s.readPos))
  {
    r := NewRegID(0, 0);
    var okHeight, height := ReadVarIntFrom(s, UINT32_MODULUS);
    if !okHeight {
      return false, r;
    }
    var okIndex, index := ReadVarIntFrom(s, UINT16_MODULUS);
    if !okIndex {
      return false, r;
    }
    var vRegID: seq<byte> := [];
    vRegID := vRegID + LittleEndian(height, 4);
    vRegID := vRegID + LittleEndian(index, 2);
    assert vRegID == RegIdRaw(height, index);
    ok, r := true, CRegID(height, index, vRegID);
  }

  /** CRegID's serializer in the write direction. */
  method WriteRegID(s: DataStream, r: CRegID)
    requires s.Valid()
    modifies s
    ensures s.Valid() && s.vch == old(s.vch) + r.Encoding() && s.readPos == old(s.readPos)
  {
    ghost var start := s.vch;
    s.Write(VarIntEncode(r.height));
    s.Write(VarIntEncode(r.index));
    ConcatAssoc(start, VarIntEncode(r.height), VarIntEncode(r.index));
  }

  // ---------------------------------------------------------------------------
  // CRegIDKey
  // ---------------------------------------------------------------------------

  /** A registration identifier as a fixed-width key: height as a fixed uint32,
      then index as a fixed uint16 (both most significant byte first). */
  datatype CRegIDKey = CRegIDKey(regid: CRegID) {
    predicate IsEmpty() { regid.IsEmpty() }
    predicate Eq(other: CRegIDKey) { regid.Eq(other.regid) }
    predicate Ne(other: CRegIDKey) { regid.Ne(other.regid) }
    predicate Less(other: CRegIDKey) { regid.Less(other.regid) }

    function Encoding(): (r: seq<byte>)
      ensures |r| == 6
    {
      BigEndian(regid.height, 4) + BigEndian(regid.index, 2)
    }
  }

  /** Reading a CRegIDKey into `into`: the fixed fields overwrite height and
      index; the raw-byte cache of `into` is left as it was. */
  function RegIdKeyRead(s: seq<byte>, pos: nat, into: CRegIDKey): (r: Option<(CRegIDKey, nat)>)
    ensures r.Some? <==> pos + 6 <= |s|
    ensures r.Some? ==> r.value.1 == pos + 6 && r.value.0.regid.vRegID == into.regid.vRegID
  {
    if pos + 6 <= |s| then
      var height := FromBigEndian(s[pos..pos + 4]);
      var index := FromBigEndian(s[pos + 4..pos + 6]);
      Some((CRegIDKey(CRegID(height, index, into.regid.vRegID)), pos + 6))
    else None
  }

  /** The fixed 6-byte key reads back as the same registration identifier. */
  lemma RegIdKeyRoundTrip(k: CRegIDKey, s: seq<byte>, pos: nat, into: CRegIDKey)
    requires pos + 6 <= |s| && s[pos..pos + 6] == k.Encoding()
    ensures RegIdKeyRead(s, pos, into).Some?
    ensures RegIdKeyRead(s, pos, into).value.0.Eq(k)
  {
    var e := k.Encoding();
    assert s[pos..pos + 4] == e[..4] == BigEndian(k.regid.height, 4);
    assert s[pos + 4..pos + 6] == e[4..] == BigEndian(k.regid.index, 2);
    BigEndianRoundTrip(k.regid.height, 4);
    BigEndianRoundTrip(k.regid.index, 2);
  }

  /** The 6-byte key sorts byte-wise exactly as the registration identifiers
      do, and two keys have the same bytes exactly when they are `==`. */
  lemma RegIdKeyOrder(a: CRegIDKey, b: CRegIDKey)
    ensures LexLess(a.Encoding(), b.Encoding()) <==> a.Less(b)
    ensures a.Encoding() == b.Encoding() <==> a.Eq(b)
  {
    var ha, hb := BigEndian(a.regid.height, 4), BigEndian(b.regid.height, 4);
    var ia, ib := BigEndian(a.regid.index, 2), BigEndian(b.regid.index, 2);
    LexLessConcat(ha, ia, hb, ib);
    BigEndianOrder(a.regid.height, b.regid.height, 4);
    BigEndianOrder(a.regid.index, b.regid.index, 2);
    BigEndianRoundTrip(a.regid.height, 4);
    BigEndianRoundTrip(b.regid.height, 4);
    BigEndianRoundTrip(a.regid.index, 2);
    BigEndianRoundTrip(b.regid.index, 2);
    assert ha == hb <==> a.regid.height == b.regid.height;
    assert ia == ib <==> a.regid.index == b.regid.index;
    if a.Encoding() == b.Encoding() {
      assert ha == a.Encoding()[..4] == b.Encoding()[..4] == hb;
      assert ia == a.Encoding()[4..] == b.Encoding()[4..] == ib;
    }
  }

  // ---------------------------------------------------------------------------
  // CNickID
  // ---------------------------------------------------------------------------

  /** A nickname identifier: a 64-bit number, serialized as VARINT(value). */
  datatype CNickID = CNickID(value: uint64) {
    predicate Eq(other: CNickID) { value == other.value }
    predicate Ne(other: CNickID) { value != other.value }
    predicate Less(other: CNickID) { value < other.value }
    predicate IsEmpty() { value == 0 }
  }

  /** The nickname comparators are those of the number: `!=` negates `==`,
      and `<` is a strict total order whose equivalence is `==`. */
  lemma NickIdOrdering(a: CNickID, b: CNickID, c: CNickID)
    ensures a.Ne(b) <==> !a.Eq(b)
    ensures a.Eq(b) <==> a == b
    ensures !a.Less(a)
    ensures a.Less(b) && b.Less(c) ==> a.Less(c)
    ensures a.Eq(b) || a.Less(b) || b.Less(a)
  {
  }

  // ---------------------------------------------------------------------------
  // CKeyID and CPubKey, as opaque bytes
  // ---------------------------------------------------------------------------

  /** A key hash: 20 opaque bytes (a uint160), serialized raw. */
  type CKeyID = k: seq<byte> | |k| == 20 witness seq(20, _ => 0)

  /** A key hash is empty when all its bytes are zero. */
  predicate KeyIdIsEmpty(k: CKeyID)
  {
    forall i | 0 <= i < |k| :: k[i] == 0
  }

  /** A public key: opaque bytes, serialized as their compact-size length
      followed by the bytes; empty when it holds no bytes. */
  datatype CPubKey = CPubKey(vch: seq<byte>) {
    predicate IsEmpty() { |vch| == 0 }
    function SerializeSize(): nat { CompactSizeLen(|vch|) + |vch| }
    function Encoding(): (r: seq<byte>)
      ensures |r| == SerializeSize()
    {
      WriteCompactSize(|vch|) + vch
    }
  }

  /** The public-key serializer writes 34 bytes exactly for a 33-byte key, and
      then its length byte is FlagPubKey. */
  lemma PubKeySize(p: CPubKey)
    ensures p.SerializeSize() == 1 + FlagPubKey <==> |p.vch| == FlagPubKey
    ensures |p.vch| == FlagPubKey ==> p.Encoding() == [FlagPubKey] + p.vch
  {
  }

  // ---------------------------------------------------------------------------
  // CUserID: the variant
  // ---------------------------------------------------------------------------

  /** VarIndex: the position of the active alternative in the variant. */
  datatype VarIndex = IdxNullId | IdxRegId | IdxKeyId | IdxPubKeyId | IdxNickId

  /** The value held by a CUserID: exactly one alternative. */
  datatype IdVariant =
    | NullId(nullId: CNullID)
    | RegId(regId: CRegID)
    | KeyId(keyId: CKeyID)
    | PubKeyId(pubKey: CPubKey)
    | NickId(nickId: CNickID)
  {
    function Index(): VarIndex {
      match this
      case NullId(_) => IdxNullId
      case RegId(_) => IdxRegId
      case KeyId(_) => IdxKeyId
      case PubKeyId(_) => IdxPubKeyId
      case NickId(_) => IdxNickId
    }

    /** CUserID::IsEmpty: the null alternative is active. */
    predicate IsEmpty() { NullId? }

    /** The active alternative's own IsEmpty. */
    predicate AltIsEmpty() {
      match this
      case NullId(n) => n.IsEmpty()
      case RegId(r) => r.IsEmpty()
      case KeyId(k) => KeyIdIsEmpty(k)
      case PubKeyId(p) => p.IsEmpty()
      case NickId(n) => n.IsEmpty()
    }

    predicate IsSameType(other: IdVariant) { Index() == other.Index() }

    /** operator==: the same alternative, and the alternative's own `==`. */
    predicate Eq(other: IdVariant) {
      match (this, other)
      case (NullId(a), NullId(b)) => a.Eq(b)
      case (RegId(a), RegId(b)) => a.Eq(b)
      case (KeyId(a), KeyId(b)) => a == b
      case (PubKeyId(a), PubKeyId(b)) => a == b
      case (NickId(a), NickId(b)) => a.Eq(b)
      case _ => false
    }

    predicate Ne(other: IdVariant) { !Eq(other) }
  }

  const NullUserId: IdVariant := NullId(CNullID)

  /** `==` holds exactly when both sides hold the same alternative with equal
      payloads (a registration identifier's cache does not take part); it is
      an equivalence, it implies `is_same_type`, and `!=` is its negation. */
  lemma UserIdEquality(a: IdVariant, b: IdVariant, c: IdVariant)
    ensures a.Eq(b) <==> a.IsSameType(b) && match a
      case NullId(_) => true
      case RegId(r) => r.height == b.regId.height && r.index == b.regId.index
      case KeyId(k) => k == b.keyId
      case PubKeyId(p) => p == b.pubKey
      case NickId(n) => n.value == b.nickId.value
    ensures a.Eq(a)
    ensures a.Eq(b) ==> b.Eq(a)
    ensures a.Eq(b) && b.Eq(c) ==> a.Eq(c)
    ensures a.Eq(b) ==> a.IsSameType(b)
    ensures a.Ne(b) <==> !a.Eq(b)
    ensures a.IsEmpty() && b.IsEmpty() ==> a.Eq(b)
  {
  }

  /** Apart from a registration identifier's cache, `==` is equality of values. */
  lemma UserIdEqualityOnCachedValues(a: IdVariant, b: IdVariant)
    requires a.RegId? ==> a.regId.vRegID == RegIdRaw(a.regId.height, a.regId.index)
    requires b.RegId? ==> b.regId.vRegID == RegIdRaw(b.regId.height, b.regId.index)
    ensures a.Eq(b) <==> a == b
  {
  }

  /** What `set(id)` stores: `id` itself when it is the null identifier or is
      not empty, and the null identifier when `id` is an empty identifier of
      any other kind. */
  function Stored(id: IdVariant): (r: IdVariant)
    ensures r.IsEmpty() <==> id.AltIsEmpty()
    ensures r.IsEmpty() || r == id
    ensures r.AltIsEmpty() ==> r.IsEmpty()
  {
    if id.NullId? || !id.AltIsEmpty() then id else NullUserId
  }

  /** `set` is idempotent, and it stores a value equal to the null identifier
      exactly when it is given an empty identifier. */
  lemma StoredIdempotent(id: IdVariant)
    ensures Stored(Stored(id)) == Stored(id)
    ensures Stored(id).Eq(NullUserId) <==> id.AltIsEmpty()
  {
  }

  /** GetIDName: the name the table gives the active alternative, or the empty
      string when the table has none. */
  function GetIDName(u: IdVariant, names: map<VarIndex, string>): (r: string)
    ensures u.Index() in names ==> r == names[u.Index()]
    ensures u.Index() !in names ==> r == ""
  {
    if u.Index() in names then names[u.Index()] else ""
  }

  /** With a table that names every alternative with distinct names, the name
      identifies the alternative. */
  lemma GetIDNameIdentifiesType(a: IdVariant, b: IdVariant, names: map<VarIndex, string>)
    requires forall i: VarIndex :: i in names
    requires forall i: VarIndex, j: VarIndex :: i != j ==> names[i] != names[j]
    ensures GetIDName(a, names) == GetIDName(b, names) <==> a.IsSameType(b)
  {
  }

  /** The string forms that id.h does not define: those of the registration,
      key-hash, public-key and nickname identifiers. */
  datatype Renderers = Renderers(
    regId: CRegID -> string,
    keyId: CKeyID -> string,
    pubKey: CPubKey -> string,
    nickId: CNickID -> string)

  /** ToString: the active alternative's own string form. */
  function ToString(u: IdVariant, render: Renderers): (r: string)
    ensures u.NullId? ==> r == "Null"
  {
    match u
    case NullId(n) => n.ToString()
    case RegId(reg) => render.regId(reg)
    case KeyId(k) => render.keyId(k)
    case PubKeyId(p) => render.pubKey(p)
    case NickId(n) => render.nickId(n)
  }

  /** ToJson: the pairs ("id_type", GetIDName()) and ("id", ToString()). */
  function ToJson(u: IdVariant, names: map<VarIndex, string>, render: Renderers): (r: seq<(string, string)>)
    ensures |r| == 2 && r[0].0 == "id_type" && r[1].0 == "id"
    ensures r[0].1 == GetIDName(u, names) && r[1].1 == ToString(u, render)
  {
    [("id_type", GetIDName(u, names)), ("id", ToString(u, render))]
  }

  /** The default CUserID is empty, is named as the null alternative, and its
      JSON form is that name with the string "Null". */
  lemma DefaultUserIdJson(names: map<VarIndex, string>, render: Renderers)
    ensures NullUserId.IsEmpty()
    ensures ToJson(NullUserId, names, render)
         == [("id_type", if IdxNullId in names then names[IdxNullId] else ""), ("id", "Null")]
  {
  }

  // ---------------------------------------------------------------------------
  // The wire encoding
  // ---------------------------------------------------------------------------

  /** The conditions the encoder asserts: a registration identifier's payload
      size is in [FlagRegIDMin, FlagRegIDMax], a key hash serializes to
      FlagKeyID bytes, and a public key serializes to 1 + FlagPubKey bytes. */
  predicate EncodeAssertsHold(u: IdVariant)
  {
    match u
    case RegId(r) => FlagRegIDMin <= r.SerializeSize() <= FlagRegIDMax
    case KeyId(k) => |k| == FlagKeyID
    case PubKeyId(p) => p.SerializeSize() == 1 + FlagPubKey
    case _ => true
  }

  /** Of the encoder's assertions only the public-key one can fail: they hold
      exactly when a public key, if that is the alternative, has 33 bytes. */
  lemma EncodeAssertsHoldIff(u: IdVariant)
    ensures EncodeAssertsHold(u) <==> (u.PubKeyId? ==> |u.pubKey.vch| == FlagPubKey)
  {
    match u
    case RegId(r) => RegIdSizeInRange(r);
    case PubKeyId(p) => PubKeySize(p);
    case _ =>
  }

  /** The alternative a tag byte announces, or None for a tag the decoder
      rejects. */
  function TagKind(t: nat): Option<VarIndex>
  {
    if t == FlagNickID then Some(IdxNickId)
    else if FlagRegIDMin <= t <= FlagRegIDMax then Some(IdxRegId)
    else if t == FlagKeyID then Some(IdxKeyId)
    else if t == FlagPubKey then Some(IdxPubKeyId)
    else if t == FlagNullType then Some(IdxNullId)
    else None
  }

  /** The bytes CUserID::Serialize writes. The first byte is the tag, and it
      announces the alternative that is active. */
  function Encode(u: IdVariant): (r: seq<byte>)
    requires EncodeAssertsHold(u)
    ensures |r| >= 1 && TagKind(r[0]) == Some(u.Index())
  {
    match u
    case RegId(reg) => [reg.SerializeSize()] + reg.Encoding()
    case KeyId(k) => [FlagKeyID] + k
    case PubKeyId(p) =>
      PubKeySize(p);
      p.Encoding()
    case NickId(n) => [FlagNickID] + VarIntEncode(n.value)
    case NullId(_) => [FlagNullType]
  }

  /** GetSerializeSize: 1 + the VARINT sizes for a registration identifier, 21
      for a key hash, 34 for a public key, 1 + the VARINT size for a nickname,
      1 for the null identifier; always the length of what Serialize writes. */
  function GetSerializeSize(u: IdVariant): (r: nat)
    requires EncodeAssertsHold(u)
    ensures r == |Encode(u)|
    ensures u.KeyId? ==> r == 21
    ensures u.PubKeyId? ==> r == 34
    ensures u.NullId? ==> r == 1
    ensures u.RegId? ==> 3 <= r <= 9
  {
    match u
    case RegId(reg) =>
      RegIdSizeInRange(reg);
      1 + reg.SerializeSize()
    case KeyId(k) => 1 + |k|
    case PubKeyId(p) => p.SerializeSize()
    case NickId(n) => 1 + VarIntSize(n.value)
    case NullId(_) => 1
  }

  /** CUserID::Unserialize: read the tag (a compact size); 100 reads a
      nickname; otherwise the tag is a length, and 2..10 reads a registration
      identifier (without checking that it used that many bytes), 20 reads 20
      key-hash bytes, 33 reads 33 public-key bytes, 0 is the null identifier,
      and anything else fails. The result is the identifier and the position
      after it. */
  function Decode(s: seq<byte>, pos: nat): (r: Option<(IdVariant, nat)>)
    ensures r.Some? ==> pos < r.value.1 <= |s|
  {
    match ReadCompactSize(s, pos)
    case None => None
    case Some((typeFlag, p)) =>
      if typeFlag == FlagNickID then
        match VarIntRead(s, p, UINT64_MODULUS)
        case None => None
        case Some((value, q)) => Some((NickId(CNickID(value)), q))
      else
        var len := typeFlag;
        if FlagRegIDMin <= len <= FlagRegIDMax then
          match RegIdRead(s, p)
          case None => None
          case Some((regId, q)) => Some((RegId(regId), q))
        else if len == FlagKeyID then
          if p + len <= |s| then Some((KeyId(s[p..p + len]), p + len)) else None
        else if len == FlagPubKey then
          if p + len <= |s| then Some((PubKeyId(CPubKey(s[p..p + len])), p + len)) else None
        else if len == FlagNullType then
          Some((NullUserId, p))
        else None
  }

  /** What decoding gives back for `u`: `u` itself, with a registration
      identifier's cache rebuilt from its height and index. */
  function WithRawCache(u: IdVariant): (r: IdVariant)
    ensures r.Eq(u) && r.Index() == u.Index()
    ensures r.RegId? ==> r.regId.vRegID == RegIdRaw(r.regId.height, r.regId.index)
    ensures !u.RegId? ==> r == u
  {
    match u
    case RegId(reg) => RegId(NewRegID(reg.height, reg.index))
    case _ => u
  }

  /** Round trip: decoding what Serialize wrote for `u`, wherever it stands in
      the stream, gives back an identifier equal to `u` and stops exactly
      after the bytes written. */
  lemma DecodeEncode(u: IdVariant, s: seq<byte>, pos: nat)
    requires EncodeAssertsHold(u)
    requires pos + |Encode(u)| <= |s| && s[pos..pos + |Encode(u)|] == Encode(u)
    ensures Decode(s, pos) == Some((WithRawCache(u), pos + GetSerializeSize(u)))
  {
    match u
    case RegId(_) => DecodeEncodeRegId(u, s, pos);
    case KeyId(_) => DecodeEncodeKeyId(u, s, pos);
    case PubKeyId(_) => DecodeEncodePubKey(u, s, pos);
    case NickId(_) => DecodeEncodeNickId(u, s, pos);
    case NullId(_) => assert u == NullUserId;
  }

  /** The bytes after the tag are the payload of the encoding. */
  lemma EncodingAt(s: seq<byte>, pos: nat, tag: byte, payload: seq<byte>)
    requires pos + 1 + |payload| <= |s| && s[pos..pos + 1 + |payload|] == [tag] + payload
    ensures s[pos] == tag && s[pos + 1..pos + 1 + |payload|] == payload
  {
    SliceSplit(s, pos, [tag], payload);
    assert s[pos] == s[pos..pos + 1][0];
  }

  lemma DecodeEncodeRegId(u: IdVariant, s: seq<byte>, pos: nat)
    requires u.RegId? && EncodeAssertsHold(u)
    requires pos + |Encode(u)| <= |s| && s[pos..pos + |Encode(u)|] == Encode(u)
    ensures Decode(s, pos) == Some((WithRawCache(u), pos + GetSerializeSize(u)))
  {
    var reg := u.regId;
    RegIdSizeInRange(reg);
    EncodingAt(s, pos, reg.SerializeSize(), reg.Encoding());
    RegIdRoundTrip(reg, s, pos + 1);
  }

  lemma DecodeEncodeKeyId(u: IdVariant, s: seq<byte>, pos: nat)
    requires u.KeyId? && EncodeAssertsHold(u)
    requires pos + |Encode(u)| <= |s| && s[pos..pos + |Encode(u)|] == Encode(u)
    ensures Decode(s, pos) == Some((WithRawCache(u), pos + GetSerializeSize(u)))
  {
    EncodingAt(s, pos, FlagKeyID, u.keyId);
  }

  lemma DecodeEncodePubKey(u: IdVariant, s: seq<byte>, pos: nat)
    requires u.PubKeyId? && EncodeAssertsHold(u)
    requires pos + |Encode(u)| <= |s| && s[pos..pos + |Encode(u)|] == Encode(u)
    ensures Decode(s, pos) == Some((WithRawCache(u), pos + GetSerializeSize(u)))
  {
    PubKeySize(u.pubKey);
    EncodingAt(s, pos, FlagPubKey, u.pubKey.vch);
  }

  lemma DecodeEncodeNickId(u: IdVariant, s: seq<byte>, pos: nat)
    requires u.NickId? && EncodeAssertsHold(u)
    requires pos + |Encode(u)| <= |s| && s[pos..pos + |Encode(u)|] == Encode(u)
    ensures Decode(s, pos) == Some((WithRawCache(u), pos + GetSerializeSize(u)))
  {
    EncodingAt(s, pos, FlagNickID, VarIntEncode(u.nickId.value));
    VarIntRoundTrip(u.nickId.value, s, pos + 1, UINT64_MODULUS);
  }

  /** Tags are pairwise disjoint: two identifiers whose encodings start with
      the same byte hold the same alternative. */
  lemma TagsDisjoint(u: IdVariant, v: IdVariant)
    requires EncodeAssertsHold(u) && EncodeAssertsHold(v)
    ensures Encode(u)[0] == Encode(v)[0] ==> u.IsSameType(v)
  {
  }

  /** The decoder reads back exactly the alternative its tag byte announces. */
  lemma DecodeFollowsTag(s: seq<byte>, pos: nat)
    requires Decode(s, pos).Some?
    ensures pos < |s| && TagKind(s[pos]) == Some(Decode(s, pos).value.0.Index())
  {
  }

  /** The decoder fails on every tag outside {0, 2..10, 20, 33, 100}. */
  lemma DecodeRejectsUnknownTag(s: seq<byte>, pos: nat)
    requires pos < |s| && TagKind(s[pos]).None?
    ensures Decode(s, pos).None?
  {
  }

  /** The decoder assigns the identifier directly instead of through `set`:
      tag 2 followed by two zero bytes decodes to an empty registration
      identifier, which `set` would have turned into the null identifier. */
  lemma DecodeBypassesSet()
    ensures Decode([2, 0, 0], 0) == Some((RegId(NewRegID(0, 0)), 3))
    ensures Decode([2, 0, 0], 0).value.0.AltIsEmpty() && !Decode([2, 0, 0], 0).value.0.IsEmpty()
    ensures Stored(Decode([2, 0, 0], 0).value.0) == NullUserId
  {
    var s: seq<byte> := [2, 0, 0];
    assert VarIntRead(s, 1, UINT32_MODULUS) == Some((0, 2));
    assert VarIntRead(s, 2, UINT16_MODULUS) == Some((0, 3));
  }

  /** The decoder does not check that a registration identifier used as many
      bytes as its tag announced: tags 2 and 5 before the same two bytes
      decode to the same identifier, each consuming three bytes. */
  lemma RegIdLengthNotChecked()
    ensures Decode([5, 0, 0], 0) == Decode([2, 0, 0], 0) == Some((RegId(NewRegID(0, 0)), 3))
  {
    var s: seq<byte> := [5, 0, 0];
    assert VarIntRead(s, 1, UINT32_MODULUS) == Some((0, 2));
    assert VarIntRead(s, 2, UINT16_MODULUS) == Some((0, 3));
    DecodeBypassesSet();
  }

  // ---------------------------------------------------------------------------
  // The CUserID object
  // ---------------------------------------------------------------------------

  class CUserID {
    var uid: IdVariant

    /** The default constructor: the null identifier. */
    constructor ()
      ensures uid == NullUserId
    {
      uid := NullUserId;
    }

    /** The copy constructor. */
    constructor Copy(other: CUserID)
      ensures uid == other.uid
    {
      uid := other.uid;
    }

    /** The constructor from a concrete identifier: starts null, then `set`. */
    constructor FromId(id: IdVariant)
      ensures uid == Stored(id)
    {
      uid := NullUserId;
      new;
      Set(id);
    }

    method SetEmpty()
      modifies this
      ensures uid == NullUserId
    {
      uid := NullUserId;
    }

    /** `set` (and the assignment from a concrete identifier, which calls it). */
    method Set(id: IdVariant)
      modifies this
      ensures uid == Stored(id)
    {
      if id.NullId? || !id.AltIsEmpty() {
        uid := id;
      } else {
        SetEmpty();
      }
    }

    /** Serialize: the tag byte, then the alternative's own serialization. */
    method Serialize(s: DataStream)
      requires s.Valid() && EncodeAssertsHold(uid)
      modifies s
      ensures s.Valid() && s.vch == old(s.vch) + Encode(uid) && s.readPos == old(s.readPos)
    {
      ghost var before := s.vch;
      match uid
      case RegId(reg) =>
        s.Write([reg.SerializeSize()]);
        WriteRegID(s, reg);
        ConcatAssoc(before, [reg.SerializeSize()], reg.Encoding());
      case KeyId(k) =>
        s.Write([FlagKeyID]);
        s.Write(k);
        ConcatAssoc(before, [FlagKeyID], k);
      case PubKeyId(p) =>
        PubKeySize(p);
        s.Write(p.Encoding());
      case NickId(n) =>
        s.Write([FlagNickID]);
        s.Write(VarIntEncode(n.value));
        ConcatAssoc(before, [FlagNickID], VarIntEncode(n.value));
      case NullId(_) =>
        s.Write([FlagNullType]);
    }

    /** Unserialize: on success the identifier and the read position are what
      Decode gives; on failure (the exception) the identifier is unchanged. */
    method Unserialize(s: DataStream) returns (ok: bool)
      requires s.Valid()
      modifies this, s
      ensures s.Valid() && s.vch == old(s.vch)
      ensures ok <==> Decode(old(s.vch), old(s.readPos)).Some?
      ensures ok ==> Decode(old(s.vch), old(s.readPos)) == Some((uid, s.readPos))
      ensures !ok ==> uid == old(uid)
    {
      var invalidId := false;
      var okFlag, typeFlag := ReadCompactSizeFrom(s);
      if !okFlag {
        return false;
      }
      if typeFlag == FlagNickID {
        var okNick, value := ReadVarIntFrom(s, UINT64_MODULUS);
        if !okNick {
          return false;
        }
        uid := NickId(CNickID(value));
      } else {
        var len := typeFlag;
        if FlagRegIDMin <= len <= FlagRegIDMax {
          var okReg, regId := ReadRegID(s);
          if !okReg {
            return false;
          }
          uid := RegId(regId);
        } else if len == FlagKeyID {
          var okKey, vchData := s.Read(len);
          if !okKey {
            return false;
          }
          uid := KeyId(vchData);
        } else if len == FlagPubKey {
          var okPub, vchData := s.Read(len);
          if !okPub {
            return false;
          }
          uid := PubKeyId(CPubKey(vchData));
        } else if len == FlagNullType {
          uid := NullUserId;
        } else {
          invalidId := true;
        }
      }
      ok := !invalidId;
    }
  }

  /** Serializing a CUserID holding `u` into an empty stream and unserializing
      it into another CUserID gives an identifier equal to `u`, having read
      exactly GetSerializeSize(u) bytes. */
  method SerializeRoundTrip(u: IdVariant) returns (decoded: IdVariant, consumed: nat)
    requires EncodeAssertsHold(u)
    ensures decoded.Eq(u) && decoded == WithRawCache(u)
    ensures consumed == GetSerializeSize(u)
  {
    var s := new DataStream([]);
    var writer := new CUserID();
    writer.uid := u;
    writer.Serialize(s);
    assert s.vch == Encode(u);
    DecodeEncode(u, s.vch, 0);
    var reader := new CUserID();
    var ok := reader.Unserialize(s);
    decoded, consumed := reader.uid, s.readPos;
  }
}
