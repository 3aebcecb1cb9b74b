# WaykiChain account identifiers and base transaction fields, in Dafny

This project models the account-identifier codec of WaykiChain (`src/entities/id.h`) and the
small value records and checks beside it in `src/tx/tx.h`.

- **`CUserID`** is a closed sum over five identifier kinds: the null identifier, a registration
  identifier (block height and index), a key hash (20 bytes), a public key (33 bytes) and a
  nickname (a 64-bit number).
- **Wire form.** On the wire a `CUserID` is one leading byte, followed by the identifier's own
  serialization. The byte doubles as a type tag and a length:
  - `0` is the null identifier;
  - `2..10` is the length of a registration identifier's two VARINTs;
  - `20` is a key hash;
  - `33` is a public key (the key's own length prefix);
  - `100` is a nickname.
- **`CBaseTx`, `CCoinPriceType`, `CPricePoint`.** From the transaction header the model covers:
  - the fields every transaction constructor sets;
  - `IsCoinBase`;
  - the coin/price pair with its order, equality, assignment and serialization;
  - the price point with its constructors, assignment, JSON form and serialization;
  - the memo-size and uid-type checks of the `IMPLEMENT_CHECK_TX_*` macros.

The project verifies as three modules:

- `Serialize` (`serialize.dfy`) holds the stream primitives the code uses:
  - fixed-width little- and big-endian integers;
  - byte-wise string order;
  - the one-byte compact size;
  - the base-128 VARINT;
  - length-prefixed strings;
  - a `DataStream` class, a byte vector with a read position, which the serializers write to and read from.
- `Id` (`id.dfy`) holds `CNullID`, `CRegID`, `CRegIDKey`, `CNickID`, `CKeyID`, `CPubKey`, and `CUserID` both as a value (`IdVariant`) and as an object (`class CUserID`).
- `Tx` (`tx.dfy`) holds `CCoinPriceType`, `CPricePoint`, `CBaseTx` and the checks.

Each decoder is a function from bytes and a position to `Option<(value, next position)>`. The
stream methods are proved against those functions.

These are the main results:

- **Round trip.** Decoding what `Serialize` wrote, at any position in any stream, gives back an
  identifier equal to the one written, and stops right after its bytes (`Id.DecodeEncode`).
- **Size.** `GetSerializeSize` is the length of what `Serialize` writes.
- **Assertions.** `GetSerializeSize` and `Serialize` assert eight conditions between them
  (src/entities/id.h:248, 252, 257, 262, 274, 277, 281, 286). The registration-identifier asserts
  (lines 248 and 274) can never fail, because the VARINT payload is always 2 to 8 bytes. The key-hash
  asserts (lines 252 and 277) can never fail, because a key hash always has 20 bytes. The null-branch
  asserts (lines 262 and 286) are type checks that always hold. The public-key asserts (lines 257 and
  281) hold exactly when the key has 33 bytes.
- **Tags.** The tag sets never overlap, and the decoder rejects every other tag.
- **`set`.** `set` turns an empty concrete identifier into the null one.
- **Decoder as written.** The decoder does not normalise, and it does not check the registration
  identifier's length. Both behaviours are kept and shown on concrete bytes.
- **Key order.** The fixed 6-byte registration key sorts byte-wise exactly like the identifiers.

## Model

| member | source | states |
|---|---|---|
| Serialize.LittleEndianRoundTrip | src/entities/id.h:82-86 | reading back the host bytes of a fixed-width integer gives the integer |
| Serialize.BigEndianRoundTrip | src/entities/id.h:108-111 | reading back a fixed-width key field gives the integer |
| Serialize.BigEndianOrder | src/entities/id.h:108-111 | fixed-width big-endian bytes of two integers compare byte-wise exactly as the integers do |
| Serialize.LexLessIrreflexive | src/tx/tx.h:127-133 | no string sorts below itself |
| Serialize.LexLessTransitive | src/tx/tx.h:127-133 | string order is transitive |
| Serialize.LexLessTrichotomy | src/tx/tx.h:127-133 | of two strings, exactly one of equal, below or above holds |
| Serialize.LexLessConcat | src/entities/id.h:108-111 | on equal-length prefixes, the order of concatenations is the order of the prefixes, then of the rests |
| Serialize.LexLess | src/tx/tx.h:127-133 | std::string `<` on unsigned bytes: the first difference decides, a proper prefix sorts first; the LexLess lemmas prove it a strict total order |
| Serialize.StringEncode | src/tx/tx.h:141-143 | a compact-size length then the bytes; StringRoundTrip reads it back |
| Serialize.CompactSizeLen | src/entities/id.h:295 | the compact size takes one byte exactly for values below 253 |
| Serialize.WriteCompactSize | src/entities/id.h:282 | the prefix has CompactSizeLen bytes; a value below 253 is written as the single byte itself, and the first byte is below 253 exactly for such values |
| Serialize.ReadCompactSize | src/entities/id.h:295 | succeeds on a byte below 253 and returns it, advancing one byte |
| Serialize.CompactSizeRoundTrip | src/entities/id.h:282-295 | a one-byte compact size reads back as its value |
| Serialize.VarIntReadFrom | src/entities/id.h:80-81 | the VARINT reader's value fits the target width and it consumes at least one byte |
| Serialize.VarIntBytes | src/entities/id.h:80-81 | the base-128 groups, most significant first, every group but the last reduced by one and carrying the high bit; VarIntEncodeShape and VarIntRoundTrip fix its meaning |
| Serialize.VarIntEncode | src/entities/id.h:80-81 | the VARINT writer; VarIntRoundTrip proves the reader gives back the value |
| Serialize.VarIntSize | src/entities/id.h:246-249 | the length of the VARINT; the VarIntSize lemmas bound it for each width |
| Serialize.Wrap | src/entities/id.h:80-81 | the reader's truncation to the target width yields a value below the modulus and leaves values already in range unchanged |
| Serialize.WrapIsMod | src/entities/id.h:80-81 | the truncation is exactly the remainder modulo the target width |
| Serialize.VarIntRead | src/entities/id.h:80-81 | a VARINT read yields a value of the target width and advances within the stream |
| Serialize.VarIntEncodeShape | src/entities/id.h:80-81 | every VARINT byte but the last has the continuation bit, the last one does not |
| Serialize.VarIntReadContinuation | src/entities/id.h:80-81 | reading the leading continuation bytes accumulates exactly the encoded prefix value |
| Serialize.VarIntReadStep | src/entities/id.h:80-81 | one continuation byte advances the reader's accumulator as the encoder intends |
| Serialize.VarIntReadLast | src/entities/id.h:80-81 | a byte without the continuation bit ends the read with the accumulated value |
| Serialize.VarIntRoundTrip | src/entities/id.h:80-81 | reading a VARINT written for a value of the target width returns the value and stops after its bytes |
| Serialize.VarIntRoundTripMultiByte | src/entities/id.h:80-81 | the round trip for values of two or more VARINT bytes |
| Serialize.VarIntSizeBound | src/entities/id.h:79-81 | a value below 128^k takes at most k VARINT bytes |
| Serialize.VarIntSizeUint16 | src/entities/id.h:81 | a uint16 takes 1 to 3 VARINT bytes |
| Serialize.VarIntSizeUint32 | src/entities/id.h:80 | a uint32 takes 1 to 5 VARINT bytes |
| Serialize.VarIntSizeUint64 | src/entities/id.h:138 | a uint64 takes 1 to 10 VARINT bytes |
| Serialize.StringRead | src/tx/tx.h:141-143 | a string read advances within the stream |
| Serialize.StringRoundTrip | src/tx/tx.h:141-143 | a string with a one-byte length reads back as itself |
| Serialize.DataStream.Write | src/entities/id.h:275-287 | writing appends the bytes and leaves the read position alone |
| Serialize.DataStream.ReadByte | src/entities/id.h:295 | reads the next byte when there is one; otherwise fails and stays put |
| Serialize.DataStream.Read | src/entities/id.h:310 | reads the next n bytes when there are n; otherwise fails and stays put |
| Serialize.ReadCompactSizeFrom | src/entities/id.h:295 | the stream read agrees with ReadCompactSize |
| Serialize.ReadVarIntFrom | src/entities/id.h:80-81 | the stream loop agrees with VarIntRead: value and new position, or failure |
| Serialize.ReadStringFrom | src/tx/tx.h:141-143 | the stream read agrees with StringRead |
| Id.RegIdRaw | src/entities/id.h:82-86 | the cache is 6 bytes whose first 4 read back as the height and last 2 as the index |
| Id.CNullID.Eq | src/entities/id.h:37 | any two null identifiers are equal; UserIdEquality uses it for the null alternative |
| Id.CNullID.Less | src/entities/id.h:38 | as written, `<` holds between any two null identifiers, itself included |
| Id.CNullID.IsEmpty | src/entities/id.h:40 | a null identifier is always empty |
| Id.CNullID.ToString | src/entities/id.h:41 | the string "Null"; DefaultUserIdJson shows it in the default JSON form |
| Id.CRegID.Eq | src/entities/id.h:61 | height and index equal, the cache ignored; RegIdOrdering proves it is the equivalence of `<` |
| Id.CRegID.Ne | src/entities/id.h:62 | height or index differs; RegIdOrdering proves it is the negation of `==` |
| Id.CRegID.Less | src/entities/id.h:63-69 | ordered on height, then on index; RegIdOrdering proves it a strict total order |
| Id.CRegID.IsEmpty | src/entities/id.h:74 | height and index both zero; NewRegID and StoredIdempotent use it |
| Id.CRegID.SerializeSize | src/entities/id.h:246-249 | the VARINT sizes of height and index; RegIdSizeInRange bounds it to 2..8 |
| Id.NewRegID | src/entities/id.h:50 | the constructor stores height and index with their cache; empty exactly for (0, 0) |
| Id.RegIdOrdering | src/entities/id.h:61-74 | `==` compares height and index; `!=` is its negation; `<` is lexicographic, a strict total order with `==` as equivalence; empty is `== (0,0)` |
| Id.RegIdSizeInRange | src/entities/id.h:248-274 | the VARINT payload is 2 to 8 bytes, inside [FlagRegIDMin, FlagRegIDMax] |
| Id.CRegID.Encoding | src/entities/id.h:79-81 | the registration identifier's bytes have exactly its serialized size |
| Id.RegIdRead | src/entities/id.h:79-87 | a read advances within the stream and rebuilds the cache from the height and index read |
| Id.RegIdRoundTrip | src/entities/id.h:79-87 | reading what was written gives the same height and index with a fresh cache, consuming exactly the bytes |
| Id.ReadRegID | src/entities/id.h:79-87 | the stream read (two VARINTs, cache cleared and refilled) agrees with RegIdRead |
| Id.WriteRegID | src/entities/id.h:79-81 | writing appends exactly the identifier's encoding |
| Id.CRegIDKey.Encoding | src/entities/id.h:108-111 | the key is always 6 bytes |
| Id.RegIdKeyRead | src/entities/id.h:108-111 | reading succeeds exactly when 6 bytes remain, and leaves the target's cache as it was |
| Id.RegIdKeyRoundTrip | src/entities/id.h:108-111 | the key reads back as an identifier `==` to the one written |
| Id.CRegIDKey.IsEmpty | src/entities/id.h:113 | the wrapped identifier is empty |
| Id.CRegIDKey.Eq | src/entities/id.h:117 | the wrapped identifiers are `==`; RegIdKeyOrder ties it to byte equality of the keys |
| Id.CRegIDKey.Ne | src/entities/id.h:118 | the wrapped identifiers are `!=` |
| Id.CRegIDKey.Less | src/entities/id.h:119 | the wrapped identifiers are `<`; RegIdKeyOrder ties it to byte order of the keys |
| Id.RegIdKeyOrder | src/entities/id.h:108-119 | key bytes sort exactly as the identifiers' `<`, and are equal exactly when the identifiers are `==` |
| Id.NickIdOrdering | src/entities/id.h:141-143 | nickname `==`, `!=`, `<` are those of the number: a strict total order, `!=` negating `==` |
| Id.CNickID.Eq | src/entities/id.h:141 | the numbers are equal; NickIdOrdering proves it is value equality |
| Id.CNickID.Ne | src/entities/id.h:142 | the numbers differ; NickIdOrdering proves it is the negation of `==` |
| Id.CNickID.Less | src/entities/id.h:143 | the numbers are ordered; NickIdOrdering proves it a strict total order |
| Id.CNickID.IsEmpty | src/entities/id.h:133 | the number is zero (an assumed body, see Left out) |
| Id.KeyIdIsEmpty | src/entities/id.h:202 | all 20 bytes are zero (an assumed body, see Left out); `set` turns such a key hash into null |
| Id.CPubKey.IsEmpty | src/entities/id.h:202 | the key holds no bytes (an assumed body, see Left out) |
| Id.CPubKey.SerializeSize | src/entities/id.h:255-257 | the compact-size prefix plus the key bytes; PubKeySize shows it is 34 exactly for 33 bytes |
| Id.CPubKey.Encoding | src/entities/id.h:280-282 | the key's bytes have its serialized size |
| Id.PubKeySize | src/entities/id.h:254-282 | the key serializes to 34 bytes exactly when it has 33, and then begins with the byte 33 |
| Id.IdVariant.Index | src/entities/id.h:148-149 | the position of the active alternative, in the order of the variant |
| Id.IdVariant.IsEmpty | src/entities/id.h:194-196 | the null alternative is active; StoredIdempotent ties it to `set` |
| Id.IdVariant.AltIsEmpty | src/entities/id.h:202 | the active alternative's own IsEmpty, as `set` consults it |
| Id.IdVariant.IsSameType | src/entities/id.h:209-211 | both hold the same alternative; GetIDNameIdentifiesType and UserIdEquality relate it to names and `==` |
| Id.IdVariant.Eq | src/entities/id.h:227-229 | the same alternative with `==` payloads; UserIdEquality proves it an equivalence |
| Id.IdVariant.Ne | src/entities/id.h:230-232 | the negation of `==` |
| Id.UserIdEquality | src/entities/id.h:209-232 | `==` holds iff same alternative and equal payloads; it is an equivalence, implies `is_same_type`; `!=` negates it; null identifiers are always equal |
| Id.UserIdEqualityOnCachedValues | src/entities/id.h:227-229 | with consistent caches, `==` is equality of values |
| Id.Stored | src/entities/id.h:200-207 | `set` stores the null identifier exactly for an empty identifier, and otherwise the identifier itself |
| Id.StoredIdempotent | src/entities/id.h:194-207 | `set` is idempotent, and stores something `==` the null identifier exactly for an empty identifier |
| Id.GetIDName | src/entities/id.h:214-219 | the table's name for the active alternative, or the empty string when it has none |
| Id.GetIDNameIdentifiesType | src/entities/id.h:209-219 | with a complete table of distinct names, equal names mean the same alternative |
| Id.ToString | src/entities/id.h:221-223 | the null identifier renders as "Null"; the other alternatives go to renderers given as parameters, and nothing is stated about their output |
| Id.ToJson | src/entities/id.h:234-240 | the object holds `id_type` with GetIDName, then `id` with ToString |
| Id.DefaultUserIdJson | src/entities/id.h:234-240 | the default identifier is empty and renders as its type name and "Null" |
| Id.EncodeAssertsHold | src/entities/id.h:248-281 | the encoder's asserts: a RegID payload of 2..10 bytes, a 20-byte key hash, a public key serialized in 34 bytes; EncodeAssertsHoldIff shows only the last can fail |
| Id.TagKind | src/entities/id.h:297-325 | the alternative each tag byte selects in the decoder, none for the rest; Encode, DecodeFollowsTag and TagsDisjoint use it |
| Id.EncodeAssertsHoldIff | src/entities/id.h:246-282 | the encoder's assertions hold exactly when a public key, if that is the alternative, has 33 bytes |
| Id.Encode | src/entities/id.h:268-290 | Serialize writes at least the tag byte, and the tag announces the alternative written |
| Id.GetSerializeSize | src/entities/id.h:242-266 | the size is the length of what Serialize writes: 21 for a key hash, 34 for a public key, 1 for null, 3 to 9 for a registration identifier |
| Id.Decode | src/entities/id.h:292-331 | a successful decode consumes at least the tag byte and stays within the stream |
| Id.WithRawCache | src/entities/id.h:82-86 | an identifier `==` to the argument, of the same kind, with a consistent cache |
| Id.DecodeEncode | src/entities/id.h:242-331 | decoding what Serialize wrote, anywhere in a stream, gives back the identifier (with a fresh cache) and stops after GetSerializeSize bytes |
| Id.DecodeEncodeRegId | src/entities/id.h:272-306 | a registration identifier written as its size tag and two VARINTs decodes back to the same height and index |
| Id.DecodeEncodeKeyId | src/entities/id.h:276-313 | a key hash written after tag 20 decodes back to the same 20 bytes |
| Id.DecodeEncodePubKey | src/entities/id.h:279-319 | a 33-byte public key written with its length prefix decodes back to the same key |
| Id.DecodeEncodeNickId | src/entities/id.h:283-300 | a nickname written after tag 100 decodes back to the same 64-bit value |
| Id.TagsDisjoint | src/entities/id.h:152-159 | identifiers written with the same tag byte are of the same kind |
| Id.DecodeFollowsTag | src/entities/id.h:297-325 | a decoded identifier is of the kind its tag byte announces |
| Id.DecodeRejectsUnknownTag | src/entities/id.h:322-330 | a tag outside {0, 2..10, 20, 33, 100} makes decoding fail |
| Id.DecodeBypassesSet | src/entities/id.h:303-306 | bytes 2,0,0 decode to an empty registration identifier, which `set` would have made null |
| Id.RegIdLengthNotChecked | src/entities/id.h:301-306 | tags 5 and 2 before the same two bytes decode identically, each using only three bytes |
| Id.CUserID.constructor | src/entities/id.h:166 | the default identifier is null |
| Id.CUserID.Copy | src/entities/id.h:146-148 | a copy holds the same identifier |
| Id.CUserID.FromId | src/entities/id.h:168-171 | construction from a concrete identifier stores what `set` stores |
| Id.CUserID.SetEmpty | src/entities/id.h:198 | the identifier becomes null |
| Id.CUserID.Set | src/entities/id.h:200-207 | the identifier becomes Stored(id) |
| Id.CUserID.Serialize | src/entities/id.h:268-290 | the stream gains exactly Encode(uid) |
| Id.CUserID.Unserialize | src/entities/id.h:292-331 | succeeds exactly when Decode does, then holds its identifier at its position; on failure the identifier is unchanged |
| Id.SerializeRoundTrip | src/entities/id.h:242-331 | an identifier written to a stream and read into another CUserID comes back `==`, after GetSerializeSize bytes |
| Tx.PairLessStrictTotalOrder | src/tx/tx.h:127-133 | the coin/price order is irreflexive, transitive, asymmetric and total |
| Tx.PairLess | src/tx/tx.h:127-133 | ordered on the coin symbol, then on the price symbol; PairLessStrictTotalOrder proves it a strict total order |
| Tx.PairEncodingInjective | src/tx/tx.h:141-143 | two pairs with short symbols serialize to the same bytes exactly when they are equal |
| Tx.PairRead | src/tx/tx.h:141-143 | reading a pair advances within the stream |
| Tx.PairRoundTrip | src/tx/tx.h:141-143 | a pair with short symbols reads back as itself, consuming exactly its bytes |
| Tx.CCoinPriceType.constructor | src/tx/tx.h:115 | both symbols are empty |
| Tx.CCoinPriceType.Of | src/tx/tx.h:117-118 | the symbols are the arguments |
| Tx.CCoinPriceType.Copy | src/tx/tx.h:120-122 | the copy has the other's symbols |
| Tx.CCoinPriceType.Assign | src/tx/tx.h:145-153 | both symbols become the other's; self-assignment changes nothing |
| Tx.CCoinPriceType.Less | src/tx/tx.h:127-133 | PairLess on the two symbols |
| Tx.CCoinPriceType.Eq | src/tx/tx.h:135-137 | both symbols equal; CoinPriceTypeEqualityIsOrderEquivalence ties it to the order |
| Tx.CCoinPriceType.Encoding | src/tx/tx.h:141-143 | its length is the two compact-size prefixes plus both symbols; its contents are fixed by PairRoundTrip, which reads it back as the same two symbols |
| Tx.CCoinPriceType.Serialize | src/tx/tx.h:141-143 | the stream gains exactly the pair's encoding |
| Tx.CCoinPriceType.Unserialize | src/tx/tx.h:141-143 | succeeds exactly when PairRead does, and then holds the symbols read |
| Tx.CoinPriceTypeEqualityIsOrderEquivalence | src/tx/tx.h:127-137 | `==` is equality of both symbols, and holds exactly when neither is `<` the other |
| Tx.PricePointRead | src/tx/tx.h:195-197 | reading a price point advances within the stream |
| Tx.PricePointRoundTrip | src/tx/tx.h:195-197 | a price point with short symbols reads back as its symbols and price, consuming exactly its bytes |
| Tx.CPricePoint.constructor | src/tx/tx.h:162 | an owned pair with empty symbols |
| Tx.CPricePoint.FromType | src/tx/tx.h:164-165 | an owned copy of the pair, and the price |
| Tx.CPricePoint.FromSymbols | src/tx/tx.h:167-168 | an owned pair of the symbols, and the price |
| Tx.CPricePoint.Copy | src/tx/tx.h:170-172 | an owned pair with the other's symbols, and its price |
| Tx.CPricePoint.GetPrice | src/tx/tx.h:177 | the point's price; PricePointWireAgreesWithJson shows it is the price read back from the point's serialized bytes |
| Tx.CPricePoint.GetCoinPriceType | src/tx/tx.h:178 | a fresh copy of the pair |
| Tx.CPricePoint.ToJson | src/tx/tx.h:185-193 | three entries: coin_type, price_type and price; PricePointJsonFaithful shows they determine the point's pair and price |
| Tx.PricePointJsonFaithful | src/tx/tx.h:185-193 | two price points render to the same JSON object exactly when they have the same pair and the same price |
| Tx.PricePointWireAgreesWithJson | src/tx/tx.h:177-197 | for symbols shorter than 253 bytes, reading the serialized point gives back the symbols its JSON shows and the price GetPrice returns, ending at the end of the encoding |
| Tx.CPricePoint.Assign | src/tx/tx.h:199-207 | the pair's symbols and the price become the other's; self-assignment changes nothing |
| Tx.CPricePoint.Encoding | src/tx/tx.h:195-197 | its length is the pair's encoding plus the VARINT size of the price; its contents are fixed by PricePointRoundTrip, which reads it back as the same pair and price |
| Tx.CPricePoint.Serialize | src/tx/tx.h:195-197 | the stream gains exactly the point's encoding |
| Tx.CPricePoint.Unserialize | src/tx/tx.h:195-197 | succeeds exactly when PricePointRead does, and then holds what it read |
| Tx.CBaseTx.Copy | src/tx/tx.h:57 | every field copied |
| Tx.CBaseTx.Full | src/tx/tx.h:59-61 | the given fields; no signature; run step and fuel rate 0 |
| Tx.CBaseTx.WithUid | src/tx/tx.h:63-65 | CURRENT_VERSION and the given fields; no signature; run step and fuel rate 0 |
| Tx.CBaseTx.WithVersion | src/tx/tx.h:67-69 | the given version and type; null uid; height, fees, run step, fuel rate 0 |
| Tx.CBaseTx.OfType | src/tx/tx.h:71-73 | CURRENT_VERSION and the given type; null uid; height, fees, run step, fuel rate 0 |
| Tx.IsCoinBaseType | src/tx/tx.h:99 | the type is BLOCK_REWARD_TX or UCOIN_BLOCK_REWARD_TX |
| Tx.CBaseTx.IsCoinBase | src/tx/tx.h:99 | IsCoinBaseType of the transaction's type; NewTxIsCoinBase covers every constructor |
| Tx.NewTxIsCoinBase | src/tx/tx.h:59-99 | for every constructor and a copy, IsCoinBase holds iff the type is BLOCK_REWARD_TX or UCOIN_BLOCK_REWARD_TX |
| Tx.CheckTxMemo | src/tx/tx.h:210-213 | passes iff the memo has at most kCommonTxMemoMaxSize bytes; otherwise the DoS 100, REJECT_INVALID, "memo-size-toolarge" rejection |
| Tx.MemoCheckBoundary | src/tx/tx.h:210-213 | a memo of exactly the maximum passes, one byte more is rejected, shorter memos than a passing one pass |
| Tx.CheckTxRegId | src/tx/tx.h:230-234 | passes iff the uid is a registration identifier; otherwise "txUid-type-error" |
| Tx.CheckTxAppId | src/tx/tx.h:236-240 | passes iff the app uid is a registration identifier; otherwise "appUid-type-error" |
| Tx.CheckTxRegIdOrPubKey | src/tx/tx.h:242-246 | passes iff the uid is a registration identifier or a public key; otherwise "txUid-type-error" |
| Tx.CheckTxRegIdOrKeyId | src/tx/tx.h:248-252 | passes iff the uid is a registration identifier or a key hash; otherwise "toUid-type-error" |
| Tx.UidChecksByTag | src/tx/tx.h:230-252 | for a decoded identifier each check passes iff its tag byte is one the check admits; the registration-only check implies the others |
| Tx.UidChecksByEncoding | src/tx/tx.h:230-252 | each check passes iff the first byte Serialize writes is an admitted tag |

## Left out

- `serialize.h` is not part of this model. The VARINT is modelled as the base-128 scheme: most significant group first, every group but the last reduced by one, and the high bit meaning "more". The reader wraps modulo the target width, with no overflow check. Fixed-width key fields are taken as big-endian. The cache `vRegID` is taken to be the little-endian host bytes of height and index.
- Serialize.ReadCompactSize: models only the one-byte form (below 253). A first byte of 253 or more reads as a failure, where the real reader would go on to read a wider length. Every tag the encoder writes is a single byte.
- Tx.PairRoundTrip, Tx.PricePointRoundTrip, Tx.PairEncodingInjective and Serialize.StringRoundTrip: proved only for symbols shorter than 253 bytes, because of the one-byte compact size.
- `CRegID` string parsing (`CRegID(const string&)`, `IsRegIdStr`, `IsSimpleRegIdStr`), `FromRaw`/`SetRegIDByCompact`, `IsMature`, `Clear`, `GetKeyId`, the `CNickID` string forms, `ParseUserId` and `ToDebugString` are left out: their bodies are not in the header.
- Id.NewRegID: the body of the `CRegID(height, index)` constructor is not in the header. The model takes it to fill the raw cache, as the read path does.
- The string forms of the non-null identifiers are left out. `ToString` takes them as parameters (`Renderers`). The contents of `ID_NAME_MAP` are likewise a parameter of `GetIDName`.
- `CNickID::IsEmpty` is taken to be `value == 0`, because its body is not in the header.
- Id.KeyIdIsEmpty: `CKeyID::IsEmpty` is taken to mean that all 20 bytes are zero, because its body (in `uint160`) is not in the header. `set` depends on it: under this assumption an all-zero key hash is stored as the null identifier.
- `CPubKey::IsEmpty` is taken to mean that the key holds no bytes, because its body is not in the header.
- `CKeyID` and `CPubKey` are opaque bytes. The model does not capture:
  - a public key's own validity check when it is built from 33 bytes;
  - the hashing behind `uint160`.
- The JSON library, `LogPrint` and the exception object are left out. A failed decode is `None` (the method returns `false`).
- Stream state after a failed read is left out. CCoinPriceType.Unserialize and CPricePoint.Unserialize state nothing about the object after a failed read.
- The `CBaseTx` members declared without bodies are left out: `CheckTx`, `ExecuteTx`, `GetFuel`, `IsValidHeight`, `CheckTxFeeSufficient`, `ComputeSignatureHash` and the rest.
- The static fee fields of `CBaseTx` are left out.
- `sigHash` is left out, because it is a hash cache.
- `GetPriority` is left out, because it uses floating-point division.
- The remaining macros are left out: `IMPLEMENT_CHECK_TX_ARGUMENTS`, `IMPLEMENT_CHECK_TX_FEE`, `IMPLEMENT_CHECK_TX_SIGNATURE` (fee ranges, signatures) and `IMPLEMENT_UNIVERSAL_ITEM_TO_JSON` (account lookups).
- `src/tx/wasmcontracttx.h` is not part of this model. It covers contract execution, the clocks, inline transactions and signatures.
- `config/txbase.h` is not part of this model. Its constants take these assumed values:
  - `nTxVersion1` = 1;
  - `kCommonTxMemoMaxSize` = 100;
  - `REJECT_INVALID` = 0x10.

  The transaction types are a datatype, not numbers. The lemmas do not depend on these values.
- `CCoinPriceType::ToString` and `CPricePoint::ToString` are left out, because they are printf formatting.
- `CNullID`'s `<` holds between any two null identifiers, itself included. It is modelled as written (Id.CNullID.Less), and no ordering property is claimed for it.
