/** The base transaction fields, the coin/price pair and price point records,
    and the simple field checks of src/tx/tx.h. */
module Tx {
  import opened Serialize
  import opened Id

  /** TokenSymbol and PriceSymbol are byte strings. */
  type TokenSymbol = seq<byte>
  type PriceSymbol = seq<byte>

  // ---------------------------------------------------------------------------
  // CCoinPriceType
  // ---------------------------------------------------------------------------

  /** A string's `<`: byte-wise, unsigned, a proper prefix first. Pairs are
      ordered on the first component, and on the second where the first ones
      are equal. */
  predicate PairLess(a: (TokenSymbol, PriceSymbol), b: (TokenSymbol, PriceSymbol))
  {
    if a.0 == b.0 then LexLess(a.1, b.1) else LexLess(a.0, b.0)
  }

  /** The order of coin/price pairs is a strict total order: irreflexive,
      transitive, and exactly one of `<`, `==`, `>` holds. */
  lemma PairLessStrictTotalOrder(a: (TokenSymbol, PriceSymbol), b: (TokenSymbol, PriceSymbol), c: (TokenSymbol, PriceSymbol))
    ensures !PairLess(a, a)
    ensures PairLess(a, b) && PairLess(b, c) ==> PairLess(a, c)
    ensures a == b || PairLess(a, b) || PairLess(b, a)
    ensures !(PairLess(a, b) && PairLess(b, a))
    ensures a == b ==> !PairLess(a, b)
  {
    LexLessIrreflexive(a.0);
    LexLessIrreflexive(a.1);
    LexLessTrichotomy(a.0, b.0);
    LexLessTrichotomy(a.1, b.1);
    if PairLess(a, b) && PairLess(b, c) {
      if a.0 == b.0 && b.0 == c.0 {
        LexLessTransitive(a.1, b.1, c.1);
      } else if a.0 == b.0 {
        assert LexLess(b.0, c.0);
      } else if b.0 == c.0 {
        assert LexLess(a.0, b.0);
      } else {
        LexLessTransitive(a.0, b.0, c.0);
      }
    }
  }

  /** Comparing the bytes the pair serializes to: two pairs written with
      one-byte lengths give the same bytes exactly when they are equal. */
  lemma PairEncodingInjective(a: (TokenSymbol, PriceSymbol), b: (TokenSymbol, PriceSymbol))
    requires |a.0| < 253 && |a.1| < 253 && |b.0| < 253 && |b.1| < 253
    ensures StringEncode(a.0) + StringEncode(a.1) == StringEncode(b.0) + StringEncode(b.1) <==> a == b
  {
    var ea, eb := StringEncode(a.0) + StringEncode(a.1), StringEncode(b.0) + StringEncode(b.1);
    if ea == eb {
      PairRoundTrip(a.0, a.1, ea, 0);
      PairRoundTrip(b.0, b.1, eb, 0);
    }
  }

  /** What READWRITE(coinType); READWRITE(priceType) reads: two strings. */
  function PairRead(s: seq<byte>, pos: nat): (r: Option<(TokenSymbol, PriceSymbol, nat)>)
    ensures r.Some? ==> pos < r.value.2 <= |s|
  {
    match StringRead(s, pos)
    case None => None
    case Some((coinType, p)) =>
      match StringRead(s, p)
      case None => None
      case Some((priceType, q)) => Some((coinType, priceType, q))
  }

  /** Reading back what the pair's serializer wrote gives the same two strings
      and consumes exactly those bytes. */
  lemma PairRoundTrip(coinType: TokenSymbol, priceType: PriceSymbol, s: seq<byte>, pos: nat)
    requires |coinType| < 253 && |priceType| < 253
    requires var e := StringEncode(coinType) + StringEncode(priceType);
      pos + |e| <= |s| && s[pos..pos + |e|] == e
    ensures PairRead(s, pos)
         == Some((coinType, priceType, pos + |StringEncode(coinType) + StringEncode(priceType)|))
  {
    var ec, ep := StringEncode(coinType), StringEncode(priceType);
    SliceSplit(s, pos, ec, ep);
    StringRoundTrip(coinType, s, pos);
    StringRoundTrip(priceType, s, pos + |ec|);
  }

  /** A coin/price pair: the coin symbol and the symbol it is priced in. */
  class CCoinPriceType {
    var coinType: TokenSymbol
    var priceType: PriceSymbol

    /** The default constructor: both symbols empty. */
    constructor ()
      ensures coinType == [] && priceType == []
    {
      coinType, priceType := [], [];
    }

    constructor Of(coinTypeIn: TokenSymbol, priceTypeIn: PriceSymbol)
      ensures coinType == coinTypeIn && priceType == priceTypeIn
    {
      coinType, priceType := coinTypeIn, priceTypeIn;
    }

    /** The copy constructor, by assignment. */
    constructor Copy(other: CCoinPriceType)
      ensures coinType == other.coinType && priceType == other.priceType
    {
      new;
      Assign(other);
    }

    function Key(): (TokenSymbol, PriceSymbol)
      reads this
    {
      (coinType, priceType)
    }

    /** operator<: ordered on the coin symbol, then on the price symbol. */
    predicate Less(other: CCoinPriceType)
      reads this, other
    {
      PairLess(Key(), other.Key())
    }

    /** operator==: both symbols equal. */
    predicate Eq(other: CCoinPriceType)
      reads this, other
    {
      coinType == other.coinType && priceType == other.priceType
    }

    /** operator=: both symbols become the other's; assigning an object to
        itself changes nothing. */
    method Assign(other: CCoinPriceType)
      modifies this
      ensures coinType == old(other.coinType) && priceType == old(other.priceType)
      ensures other == this ==> unchanged(this)
    {
      if this == other {
        return;
      }
      coinType := other.coinType;
      priceType := other.priceType;
    }

    /** The serialized form: coinType as a string, then priceType. */
    function Encoding(): (r: seq<byte>)
      reads this
      ensures |r| == CompactSizeLen(|coinType|) + |coinType| + CompactSizeLen(|priceType|) + |priceType|
    {
      StringEncode(coinType) + StringEncode(priceType)
    }

    method Serialize(s: DataStream)
      requires s.Valid()
      modifies s
      ensures s.Valid() && s.vch == old(s.vch) + Encoding() && s.readPos == old(s.readPos)
    {
      ghost var start := s.vch;
      s.Write(StringEncode(coinType));
      s.Write(StringEncode(priceType));
      ConcatAssoc(start, StringEncode(coinType), StringEncode(priceType));
    }

    /** Reading both symbols into the object's fields. */
    method Unserialize(s: DataStream) returns (ok: bool)
      requires s.Valid()
      modifies this, s
      ensures s.Valid() && s.vch == old(s.vch)
      ensures ok <==> PairRead(old(s.vch), old(s.readPos)).Some?
      ensures ok ==> PairRead(old(s.vch), old(s.readPos)) == Some((coinType, priceType, s.readPos))
    {
      var okCoin, coin := ReadStringFrom(s);
      if !okCoin {
        return false;
      }
      coinType := coin;
      var okPrice, price := ReadStringFrom(s);
      if !okPrice {
        return false;
      }
      priceType := price;
      ok := true;
    }
  }

  /** `==` on coin/price pairs is the equality of both symbols, and it holds
      exactly when neither pair is below the other. */
  lemma CoinPriceTypeEqualityIsOrderEquivalence(a: CCoinPriceType, b: CCoinPriceType)
    ensures a.Eq(b) <==> a.Key() == b.Key()
    ensures a.Eq(b) <==> !a.Less(b) && !b.Less(a)
  {
    PairLessStrictTotalOrder(a.Key(), b.Key(), b.Key());
  }

  // ---------------------------------------------------------------------------
  // CPricePoint
  // ---------------------------------------------------------------------------

  /** What READWRITE(coinPriceType); READWRITE(VARINT(price)) reads. */
  function PricePointRead(s: seq<byte>, pos: nat): (r: Option<(TokenSymbol, PriceSymbol, uint64, nat)>)
    ensures r.Some? ==> pos < r.value.3 <= |s|
  {
    match PairRead(s, pos)
    case None => None
    case Some((coinType, priceType, p)) =>
      match VarIntRead(s, p, UINT64_MODULUS)
      case None => None
      case Some((price, q)) => Some((coinType, priceType, price, q))
  }

  /** Values of the JSON object a price point renders to. */
  datatype JsonValue = JsonString(str: seq<byte>) | JsonUint(n: nat)

  /** A price: a coin/price pair and the price itself. The pair is a member
      object owned by the point. */
  class CPricePoint {
    const coinPriceType: CCoinPriceType
    var price: uint64

    /** The default constructor: empty symbols; the price is left
        uninitialized. */
    constructor ()
      ensures fresh(coinPriceType)
      ensures coinPriceType.coinType == [] && coinPriceType.priceType == []
    {
      coinPriceType := new CCoinPriceType();
    }

    constructor FromType(coinPriceTypeIn: CCoinPriceType, priceIn: uint64)
      ensures fresh(coinPriceType)
      ensures coinPriceType.Key() == coinPriceTypeIn.Key() && price == priceIn
    {
      coinPriceType := new CCoinPriceType.Copy(coinPriceTypeIn);
      price := priceIn;
    }

    constructor FromSymbols(coinTypeIn: TokenSymbol, priceTypeIn: PriceSymbol, priceIn: uint64)
      ensures fresh(coinPriceType)
      ensures coinPriceType.coinType == coinTypeIn && coinPriceType.priceType == priceTypeIn
      ensures price == priceIn
    {
      coinPriceType := new CCoinPriceType.Of(coinTypeIn, priceTypeIn);
      price := priceIn;
    }

    /** The copy constructor, by assignment. */
    constructor Copy(other: CPricePoint)
      ensures fresh(coinPriceType)
      ensures coinPriceType.Key() == other.coinPriceType.Key() && price == other.price
    {
      coinPriceType := new CCoinPriceType();
      new;
      Assign(other);
    }

    function GetPrice(): uint64
      reads this
    {
      price
    }

    /** GetCoinPriceType returns a copy of the pair. */
    method GetCoinPriceType() returns (r: CCoinPriceType)
      ensures fresh(r) && r.Key() == coinPriceType.Key()
    {
      r := new CCoinPriceType.Copy(coinPriceType);
    }

    /** ToJson: coin_type, price_type and price, in that order. */
    function ToJson(): (r: seq<(string, JsonValue)>)
      reads this, coinPriceType
      ensures |r| == 3
    {
      [("coin_type", JsonString(coinPriceType.coinType)),
       ("price_type", JsonString(coinPriceType.priceType)),
       ("price", JsonUint(price))]
    }

    /** operator=: the pair and the price become the other's; assigning an
        object to itself changes nothing. */
    method Assign(other: CPricePoint)
      modifies this, coinPriceType
      ensures coinPriceType.Key() == old(other.coinPriceType.Key()) && price == old(other.price)
      ensures other == this ==> unchanged(this, coinPriceType)
    {
      if this == other {
        return;
      }
      coinPriceType.Assign(other.coinPriceType);
      price := other.price;
    }

    /** The serialized form: the pair, then VARINT(price). */
    function Encoding(): (r: seq<byte>)
      reads this, coinPriceType
      ensures |r| == |coinPriceType.Encoding()| + VarIntSize(price)
    {
      coinPriceType.Encoding() + VarIntEncode(price)
    }

    method Serialize(s: DataStream)
      requires s.Valid()
      modifies s
      ensures s.Valid() && s.vch == old(s.vch) + Encoding() && s.readPos == old(s.readPos)
    {
      ghost var start, pairBytes := s.vch, coinPriceType.Encoding();
      coinPriceType.Serialize(s);
      s.Write(VarIntEncode(price));
      ConcatAssoc(start, pairBytes, VarIntEncode(price));
    }

    method Unserialize(s: DataStream) returns (ok: bool)
      requires s.Valid()
      modifies this, coinPriceType, s
      ensures s.Valid() && s.vch == old(s.vch)
      ensures ok <==> PricePointRead(old(s.vch), old(s.readPos)).Some?
      ensures ok ==> (PricePointRead(old(s.vch), old(s.readPos))
                      == Some((coinPriceType.coinType, coinPriceType.priceType, price, s.readPos)))
    {
      ok := coinPriceType.Unserialize(s);
      if !ok {
        return;
      }
      var okPrice, p := ReadVarIntFrom(s, UINT64_MODULUS);
      if !okPrice {
        return false;
      }
      price := p;
    }
  }

  /** Reading back what a price point's serializer wrote gives the same
      symbols and price and consumes exactly those bytes. */
  lemma PricePointRoundTrip(coinType: TokenSymbol, priceType: PriceSymbol, price: uint64, s: seq<byte>, pos: nat)
    requires |coinType| < 253 && |priceType| < 253
    requires var e := StringEncode(coinType) + StringEncode(priceType) + VarIntEncode(price);
      pos + |e| <= |s| && s[pos..pos + |e|] == e
    ensures PricePointRead(s, pos)
         == Some((coinType, priceType, price,
                  pos + |StringEncode(coinType) + StringEncode(priceType) + VarIntEncode(price)|))
  {
    var ep, ev := StringEncode(coinType) + StringEncode(priceType), VarIntEncode(price);
    SliceSplit(s, pos, ep, ev);
    PairRoundTrip(coinType, priceType, s, pos);
    VarIntRoundTrip(price, s, pos + |ep|, UINT64_MODULUS);
  }

  /** The JSON form of a price point carries exactly its data: two points
      render to the same object exactly when they hold the same pair and the
      same price. */
  lemma {:induction false} PricePointJsonFaithful(a: CPricePoint, b: CPricePoint)
    ensures a.ToJson() == b.ToJson()
        <==> a.coinPriceType.Key() == b.coinPriceType.Key() && a.GetPrice() == b.GetPrice()
  {
    if a.ToJson() == b.ToJson() {
      assert a.ToJson()[0] == b.ToJson()[0];
      assert a.ToJson()[1] == b.ToJson()[1];
      assert a.ToJson()[2] == b.ToJson()[2];
    }
  }

  /** What the JSON form shows and GetPrice returns is what a reader recovers
      from the point's serialized bytes: the two symbols and the price, the
      read ending at the end of the encoding. */
  lemma PricePointWireAgreesWithJson(p: CPricePoint)
    requires |p.coinPriceType.coinType| < 253 && |p.coinPriceType.priceType| < 253
    ensures PricePointRead(p.Encoding(), 0)
         == Some((p.ToJson()[0].1.str, p.ToJson()[1].1.str, p.GetPrice(), |p.Encoding()|))
  {
    var e := p.Encoding();
    assert e[0..|e|] == e;
    PricePointRoundTrip(p.coinPriceType.coinType, p.coinPriceType.priceType, p.price, e, 0);
  }

  // ---------------------------------------------------------------------------
  // CBaseTx
  // ---------------------------------------------------------------------------

  /** Transaction types: the two block-reward types, and the others, told
      apart by their code. */
  datatype TxType = BlockRewardTx | UCoinBlockRewardTx | OtherTxType(code: nat)

  /** The first transaction version. */
  const nTxVersion1: int32 := 1
  const CURRENT_VERSION: int32 := nTxVersion1

  /** A transaction pays a block reward exactly when its type is one of the
      two block-reward types. */
  predicate IsCoinBaseType(t: TxType)
  {
    t == BlockRewardTx || t == UCoinBlockRewardTx
  }

  /** The fields common to every transaction. The embedded txUid is held by
      value: the identifier it stores. */
  class CBaseTx {
    var nVersion: int32
    var nTxType: TxType
    var txUid: IdVariant
    var nValidHeight: int32
    var llFees: uint64
    var signature: seq<byte>
    var nRunStep: uint64
    var nFuelRate: int32

    /** The copy constructor: every field copied. */
    constructor Copy(other: CBaseTx)
      ensures nVersion == other.nVersion && nTxType == other.nTxType && txUid == other.txUid
      ensures nValidHeight == other.nValidHeight && llFees == other.llFees && signature == other.signature
      ensures nRunStep == other.nRunStep && nFuelRate == other.nFuelRate
    {
      nVersion, nTxType, txUid := other.nVersion, other.nTxType, other.txUid;
      nValidHeight, llFees, signature := other.nValidHeight, other.llFees, other.signature;
      nRunStep, nFuelRate := other.nRunStep, other.nFuelRate;
    }

    constructor Full(nVersionIn: int32, nTxTypeIn: TxType, txUidIn: CUserID, nValidHeightIn: int32, llFeesIn: uint64)
      ensures nVersion == nVersionIn && nTxType == nTxTypeIn && txUid == txUidIn.uid
      ensures nValidHeight == nValidHeightIn && llFees == llFeesIn && signature == []
      ensures nRunStep == 0 && nFuelRate == 0
    {
      nVersion, nTxType, txUid := nVersionIn, nTxTypeIn, txUidIn.uid;
      nValidHeight, llFees, signature := nValidHeightIn, llFeesIn, [];
      nRunStep, nFuelRate := 0, 0;
    }

    constructor WithUid(nTxTypeIn: TxType, txUidIn: CUserID, nValidHeightIn: int32, llFeesIn: uint64)
      ensures nVersion == CURRENT_VERSION && nTxType == nTxTypeIn && txUid == txUidIn.uid
      ensures nValidHeight == nValidHeightIn && llFees == llFeesIn && signature == []
      ensures nRunStep == 0 && nFuelRate == 0
    {
      nVersion, nTxType, txUid := CURRENT_VERSION, nTxTypeIn, txUidIn.uid;
      nValidHeight, llFees, signature := nValidHeightIn, llFeesIn, [];
      nRunStep, nFuelRate := 0, 0;
    }

    constructor WithVersion(nVersionIn: int32, nTxTypeIn: TxType)
      ensures nVersion == nVersionIn && nTxType == nTxTypeIn && txUid == NullUserId
      ensures nValidHeight == 0 && llFees == 0 && signature == []
      ensures nRunStep == 0 && nFuelRate == 0
    {
      nVersion, nTxType, txUid := nVersionIn, nTxTypeIn, NullUserId;
      nValidHeight, llFees, signature := 0, 0, [];
      nRunStep, nFuelRate := 0, 0;
    }

    constructor OfType(nTxTypeIn: TxType)
      ensures nVersion == CURRENT_VERSION && nTxType == nTxTypeIn && txUid == NullUserId
      ensures nValidHeight == 0 && llFees == 0 && signature == []
      ensures nRunStep == 0 && nFuelRate == 0
    {
      nVersion, nTxType, txUid := CURRENT_VERSION, nTxTypeIn, NullUserId;
      nValidHeight, llFees, signature := 0, 0, [];
      nRunStep, nFuelRate := 0, 0;
    }

    predicate IsCoinBase()
      reads this
    {
      IsCoinBaseType(nTxType)
    }
  }

  /** Whatever constructor builds it, a transaction is a block-reward
      transaction exactly when its type is a block-reward type, and a copy
      agrees with its original. */
  method NewTxIsCoinBase(t: TxType, uid: CUserID) returns (full: bool, withUid: bool, withVersion: bool, ofType: bool)
    ensures full == withUid == withVersion == ofType == (t == BlockRewardTx || t == UCoinBlockRewardTx)
  {
    var a := new CBaseTx.Full(CURRENT_VERSION, t, uid, 0, 0);
    var b := new CBaseTx.WithUid(t, uid, 0, 0);
    var c := new CBaseTx.WithVersion(CURRENT_VERSION, t);
    var d := new CBaseTx.OfType(t);
    var e := new CBaseTx.Copy(d);
    assert e.IsCoinBase() == d.IsCoinBase();
    full, withUid, withVersion, ofType := a.IsCoinBase(), b.IsCoinBase(), c.IsCoinBase(), e.IsCoinBase();
  }

  // ---------------------------------------------------------------------------
  // The IMPLEMENT_CHECK_TX_* checks
  // ---------------------------------------------------------------------------

  /** The rejection code for an invalid transaction. */
  const REJECT_INVALID: nat := 0x10
  /** The ban score every one of these checks assigns. */
  const CheckDoSLevel: nat := 100
  /** The largest memo a transaction may carry, in bytes. */
  const kCommonTxMemoMaxSize: nat := 100

  /** The outcome of a check: it passes, or it records a rejection in the
      validation state and makes CheckTx return false. */
  datatype CheckResult = Pass | Reject(dosLevel: nat, rejectCode: nat, reason: string)

  /** IMPLEMENT_CHECK_TX_MEMO. */
  function CheckTxMemo(memo: seq<byte>): (r: CheckResult)
    ensures r.Pass? <==> |memo| <= kCommonTxMemoMaxSize
    ensures r.Reject? ==> r == Reject(CheckDoSLevel, REJECT_INVALID, "memo-size-toolarge")
  {
    if |memo| > kCommonTxMemoMaxSize then Reject(CheckDoSLevel, REJECT_INVALID, "memo-size-toolarge")
    else Pass
  }

  /** The memo check is monotone in the size: a memo of exactly the maximum
      size passes, one byte more is rejected, and a memo no longer than a
      passing one passes too. */
  lemma MemoCheckBoundary(memo: seq<byte>, shorter: seq<byte>)
    ensures CheckTxMemo(seq(kCommonTxMemoMaxSize, _ => 0)).Pass?
    ensures CheckTxMemo(seq(kCommonTxMemoMaxSize + 1, _ => 0)).Reject?
    ensures CheckTxMemo(memo).Pass? && |shorter| <= |memo| ==> CheckTxMemo(shorter).Pass?
  {
  }

  /** IMPLEMENT_CHECK_TX_REGID: the transaction's uid must be a registration
      identifier. */
  function CheckTxRegId(txUid: IdVariant): (r: CheckResult)
    ensures r.Pass? <==> txUid.Index() == IdxRegId
    ensures r.Reject? ==> r == Reject(CheckDoSLevel, REJECT_INVALID, "txUid-type-error")
  {
    if !txUid.RegId? then Reject(CheckDoSLevel, REJECT_INVALID, "txUid-type-error") else Pass
  }

  /** IMPLEMENT_CHECK_TX_APPID: the application uid must be a registration
      identifier. */
  function CheckTxAppId(appUid: IdVariant): (r: CheckResult)
    ensures r.Pass? <==> appUid.Index() == IdxRegId
    ensures r.Reject? ==> r == Reject(CheckDoSLevel, REJECT_INVALID, "appUid-type-error")
  {
    if !appUid.RegId? then Reject(CheckDoSLevel, REJECT_INVALID, "appUid-type-error") else Pass
  }

  /** IMPLEMENT_CHECK_TX_REGID_OR_PUBKEY: the transaction's uid must be a
      registration identifier or a public key. */
  function CheckTxRegIdOrPubKey(txUid: IdVariant): (r: CheckResult)
    ensures r.Pass? <==> txUid.Index() in {IdxRegId, IdxPubKeyId}
    ensures r.Reject? ==> r == Reject(CheckDoSLevel, REJECT_INVALID, "txUid-type-error")
  {
    if !txUid.RegId? && !txUid.PubKeyId? then Reject(CheckDoSLevel, REJECT_INVALID, "txUid-type-error") else Pass
  }

  /** IMPLEMENT_CHECK_TX_REGID_OR_KEYID: the destination uid must be a
      registration identifier or a key hash. */
  function CheckTxRegIdOrKeyId(toUid: IdVariant): (r: CheckResult)
    ensures r.Pass? <==> toUid.Index() in {IdxRegId, IdxKeyId}
    ensures r.Reject? ==> r == Reject(CheckDoSLevel, REJECT_INVALID, "toUid-type-error")
  {
    if !toUid.RegId? && !toUid.KeyId? then Reject(CheckDoSLevel, REJECT_INVALID, "toUid-type-error") else Pass
  }

  /** The uid checks read on the wire: for an identifier decoded from a
      stream, each check passes exactly when the tag byte it was decoded from
      is one the check admits, and the registration-only check is the
      strictest of them. */
  lemma UidChecksByTag(s: seq<byte>, pos: nat)
    requires Decode(s, pos).Some?
    ensures var u := Decode(s, pos).value.0;
      && (CheckTxRegId(u).Pass? <==> FlagRegIDMin <= s[pos] <= FlagRegIDMax)
      && (CheckTxAppId(u).Pass? <==> FlagRegIDMin <= s[pos] <= FlagRegIDMax)
      && (CheckTxRegIdOrPubKey(u).Pass? <==> FlagRegIDMin <= s[pos] <= FlagRegIDMax || s[pos] == FlagPubKey)
      && (CheckTxRegIdOrKeyId(u).Pass? <==> FlagRegIDMin <= s[pos] <= FlagRegIDMax || s[pos] == FlagKeyID)
      && (CheckTxRegId(u).Pass? ==> CheckTxRegIdOrPubKey(u).Pass? && CheckTxRegIdOrKeyId(u).Pass?)
  {
    DecodeFollowsTag(s, pos);
  }

  /** The uid checks read on what a CUserID serializes to: each passes exactly
      when the first byte the identifier is written with is an admitted tag. */
  lemma UidChecksByEncoding(u: IdVariant)
    requires EncodeAssertsHold(u)
    ensures CheckTxRegId(u).Pass? <==> FlagRegIDMin <= Encode(u)[0] <= FlagRegIDMax
    ensures CheckTxAppId(u).Pass? <==> FlagRegIDMin <= Encode(u)[0] <= FlagRegIDMax
    ensures CheckTxRegIdOrPubKey(u).Pass? <==> FlagRegIDMin <= Encode(u)[0] <= FlagRegIDMax || Encode(u)[0] == FlagPubKey
    ensures CheckTxRegIdOrKeyId(u).Pass? <==> FlagRegIDMin <= Encode(u)[0] <= FlagRegIDMax || Encode(u)[0] == FlagKeyID
  {
  }
}
