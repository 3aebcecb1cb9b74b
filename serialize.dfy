/** The byte-level serialization framework that the account identifier and the
    transaction headers build on: fixed-width integers, the compact-size length
    prefix, the VARINT scheme, and a data stream with a read position. */
module Serialize {

  type byte = b: int | 0 <= b < 0x100
  type uint16 = n: int | 0 <= n < 0x1_0000
  type uint32 = n: int | 0 <= n < 0x1_0000_0000
  type uint64 = n: int | 0 <= n < 0x1_0000_0000_0000_0000
  type int32 = n: int | -0x8000_0000 <= n < 0x8000_0000

  const UINT16_MODULUS: nat := 0x1_0000
  const UINT32_MODULUS: nat := 0x1_0000_0000
  const UINT64_MODULUS: nat := 0x1_0000_0000_0000_0000

  datatype Option<T> = None | Some(value: T)

  function Pow(base: nat, k: nat): (r: nat)
    ensures base >= 1 ==> r >= 1
  {
    if k == 0 then 1 else base * Pow(base, k - 1)
  }

  // ---------------------------------------------------------------------------
  // Fixed-width integers
  // ---------------------------------------------------------------------------

  /** The `width` low bytes of `n`, least significant first: the in-memory
      layout of an unsigned integer on a little-endian host. */
  function LittleEndian(n: nat, width: nat): (r: seq<byte>)
    ensures |r| == width
  {
    if width == 0 then [] else [n % 0x100] + LittleEndian(n / 0x100, width - 1)
  }

  function FromLittleEndian(bs: seq<byte>): (n: nat)
    ensures n < Pow(0x100, |bs|)
  {
    if bs == [] then 0 else bs[0] + 0x100 * FromLittleEndian(bs[1..])
  }

  lemma {:induction false} LittleEndianRoundTrip(n: nat, width: nat)
    requires n < Pow(0x100, width)
    ensures FromLittleEndian(LittleEndian(n, width)) == n
  {
    if width > 0 {
      assert LittleEndian(n, width)[1..] == LittleEndian(n / 0x100, width - 1);
      LittleEndianRoundTrip(n / 0x100, width - 1);
    }
  }

  /** The `width` low bytes of `n`, most significant first. */
  function BigEndian(n: nat, width: nat): (r: seq<byte>)
    ensures |r| == width
  {
    if width == 0 then [] else BigEndian(n / 0x100, width - 1) + [n % 0x100]
  }

  function FromBigEndian(bs: seq<byte>): (n: nat)
    ensures n < Pow(0x100, |bs|)
  {
    if bs == [] then 0 else 0x100 * FromBigEndian(bs[..|bs| - 1]) + bs[|bs| - 1]
  }

  lemma {:induction false} BigEndianRoundTrip(n: nat, width: nat)
    requires n < Pow(0x100, width)
    ensures FromBigEndian(BigEndian(n, width)) == n
  {
    if width > 0 {
      var bs := BigEndian(n, width);
      assert bs[..|bs| - 1] == BigEndian(n / 0x100, width - 1);
      BigEndianRoundTrip(n / 0x100, width - 1);
    }
  }

  // ---------------------------------------------------------------------------
  // Byte-wise lexicographic order (std::string's operator<, and the order of a
  // byte-wise key comparator)
  // ---------------------------------------------------------------------------

  /** `a` sorts before `b`: at the first position where they differ the byte of
      `a` is smaller, or `a` is a proper prefix of `b`. */
  predicate LexLess(a: seq<byte>, b: seq<byte>)
  {
    if a == [] then b != []
    else if b == [] then false
    else if a[0] != b[0] then a[0] < b[0]
    else LexLess(a[1..], b[1..])
  }

  lemma {:induction false} LexLessIrreflexive(a: seq<byte>)
    ensures !LexLess(a, a)
  {
    if a != [] {
      LexLessIrreflexive(a[1..]);
    }
  }

  lemma {:induction false} LexLessTransitive(a: seq<byte>, b: seq<byte>, c: seq<byte>)
    requires LexLess(a, b) && LexLess(b, c)
    ensures LexLess(a, c)
  {
    if a != [] && b != [] && c != [] && a[0] == b[0] && b[0] == c[0] {
      LexLessTransitive(a[1..], b[1..], c[1..]);
    }
  }

  /** Any two byte strings are equal or ordered one way, and never both ways. */
  lemma {:induction false} LexLessTrichotomy(a: seq<byte>, b: seq<byte>)
    ensures a == b || LexLess(a, b) || LexLess(b, a)
    ensures !(LexLess(a, b) && LexLess(b, a))
    ensures a == b ==> !LexLess(a, b)
  {
    if a != [] && b != [] && a[0] == b[0] {
      LexLessTrichotomy(a[1..], b[1..]);
      if a[1..] == b[1..] {
        assert a == [a[0]] + a[1..] && b == [b[0]] + b[1..];
      }
    }
    if a == b {
      LexLessIrreflexive(a);
    }
  }

  /** Comparing two concatenations whose first parts have the same length
      compares the first parts, and the second parts only on a tie. */
  lemma {:induction false} LexLessConcat(a: seq<byte>, x: seq<byte>, b: seq<byte>, y: seq<byte>)
    requires |a| == |b|
    ensures LexLess(a + x, b + y) <==> LexLess(a, b) || (a == b && LexLess(x, y))
  {
    if a != [] {
      assert (a + x)[1..] == a[1..] + x;
      assert (b + y)[1..] == b[1..] + y;
      LexLessConcat(a[1..], x, b[1..], y);
      if a[0] == b[0] && a[1..] == b[1..] {
        assert a == [a[0]] + a[1..] && b == [b[0]] + b[1..];
      }
    } else {
      assert a + x == x && b + y == y;
    }
  }

  /** Big-endian encodings of one fixed width sort as the numbers do. */
  lemma {:induction false} BigEndianOrder(n: nat, m: nat, width: nat)
    requires n < Pow(0x100, width) && m < Pow(0x100, width)
    ensures LexLess(BigEndian(n, width), BigEndian(m, width)) <==> n < m
  {
    if width > 0 {
      var hn, hm := BigEndian(n / 0x100, width - 1), BigEndian(m / 0x100, width - 1);
      LexLessConcat(hn, [n % 0x100], hm, [m % 0x100]);
      BigEndianOrder(n / 0x100, m / 0x100, width - 1);
      BigEndianRoundTrip(n / 0x100, width - 1);
      BigEndianRoundTrip(m / 0x100, width - 1);
      assert hn == hm <==> n / 0x100 == m / 0x100;
    }
  }

  // ---------------------------------------------------------------------------
  // Compact size (WriteCompactSize / ReadCompactSize)
  // ---------------------------------------------------------------------------

  /** Number of bytes WriteCompactSize uses for `n`. */
  function CompactSizeLen(n: nat): (r: nat)
    ensures r == 1 <==> n < 253
  {
    if n < 253 then 1
    else if n <= 0xFFFF then 3
    else if n <= 0xFFFF_FFFF then 5
    else 9
  }

  /** WriteCompactSize: one byte below 253, otherwise a marker byte (253, 254,
      255) followed by the value as a 2-, 4- or 8-byte little-endian integer. */
  function WriteCompactSize(n: nat): (r: seq<byte>)
    ensures |r| == CompactSizeLen(n)
    ensures r[0] < 253 <==> n < 253
    ensures n < 253 ==> r == [n]
  {
    if n < 253 then [n]
    else if n <= 0xFFFF then [253] + LittleEndian(n, 2)
    else if n <= 0xFFFF_FFFF then [254] + LittleEndian(n, 4)
    else [255] + LittleEndian(n, 8)
  }

  /** ReadCompactSize, one-byte form only: a first byte below 253 is the value;
      the multi-byte forms are not modelled and read as a failure. The result is
      the value and the position after it. */
  function ReadCompactSize(s: seq<byte>, pos: nat): (r: Option<(nat, nat)>)
    ensures r.Some? <==> pos < |s| && s[pos] < 253
    ensures r.Some? ==> r.value == (s[pos], pos + 1)
  {
    if pos < |s| && s[pos] < 253 then Some((s[pos], pos + 1)) else None
  }

  lemma CompactSizeRoundTrip(n: nat, s: seq<byte>, pos: nat)
    requires n < 253
    requires pos < |s| && s[pos..pos + 1] == WriteCompactSize(n)
    ensures ReadCompactSize(s, pos) == Some((n, pos + 1))
  {
    assert s[pos] == s[pos..pos + 1][0];
  }

  // ---------------------------------------------------------------------------
  // VARINT (WriteVarInt / ReadVarInt / GetSizeOfVarInt)
  // ---------------------------------------------------------------------------

  /** The bytes VARINT writes for `n`, most significant 7-bit group first.
      Every group above the lowest holds one less than its face value (the
      writer's `n = (n >> 7) - 1`), and every byte but the last has its high
      bit set; `high` is that bit for the lowest group here. */
  function VarIntBytes(n: nat, high: nat): (r: seq<byte>)
    requires high == 0 || high == 0x80
    ensures |r| == VarIntSize(n)
    decreases n
  {
    (if n < 0x80 then [] else VarIntBytes(n / 0x80 - 1, 0x80)) + [n % 0x80 + high]
  }

  /** The bytes VARINT(n) writes. */
  function VarIntEncode(n: nat): (r: seq<byte>)
    ensures |r| == VarIntSize(n)
  {
    VarIntBytes(n, 0)
  }

  /** VARINT is self-delimiting: the last byte has its high bit clear and every
      other byte has it set. */
  lemma {:induction false} VarIntEncodeShape(n: nat, high: nat)
    requires high == 0 || high == 0x80
    ensures var r := VarIntBytes(n, high);
      r[|r| - 1] == n % 0x80 + high && forall i :: 0 <= i < |r| - 1 ==> r[i] >= 0x80
  {
    if n >= 0x80 {
      VarIntEncodeShape(n / 0x80 - 1, 0x80);
    }
  }

  /** GetSizeOfVarInt: the number of bytes VARINT(n) writes. */
  function VarIntSize(n: nat): (r: nat)
    ensures r >= 1
    decreases n
  {
    if n < 0x80 then 1 else 1 + VarIntSize(n / 0x80 - 1)
  }

  /** ReadVarInt into an unsigned integer type with `modulus` values, from
      position `pos` with the value read so far `acc`: each byte contributes its
      low 7 bits, `(n << 7) | (b & 0x7F)` truncated to the type, and a set high
      bit adds one and continues. Running out of bytes is a failure. The result
      is the value and the position after the last byte read. */
  function VarIntReadFrom(s: seq<byte>, pos: nat, acc: nat, modulus: nat): (r: Option<(nat, nat)>)
    requires 0 < modulus && acc < modulus
    ensures r.Some? ==> r.value.0 < modulus && pos < r.value.1 <= |s|
    decreases |s| - pos
  {
    if pos >= |s| then None
    else
      var b := s[pos];
      var n := Wrap(acc * 0x80 + b % 0x80, modulus);
      if b < 0x80 then Some((n, pos + 1))
      else VarIntReadFrom(s, pos + 1, Wrap(n + 1, modulus), modulus)
  }

  /** Truncation of `v` to an unsigned type with `modulus` values. */
  function Wrap(v: nat, modulus: nat): (r: nat)
    requires 0 < modulus
    ensures r < modulus
    ensures v < modulus ==> r == v
    decreases v
  {
    if v < modulus then v else Wrap(v - modulus, modulus)
  }

  /** Truncation is the remainder modulo the number of values. */
  lemma {:induction false} WrapIsMod(v: nat, modulus: nat)
    requires 0 < modulus
    ensures Wrap(v, modulus) == v % modulus
    decreases v
  {
    if v >= modulus {
      WrapIsMod(v - modulus, modulus);
      SubMod(v, modulus);
    }
  }

  lemma SubMod(v: int, m: int)
    requires 0 < m
    ensures (v - m) % m == v % m
  {
    var q, r := v / m, v % m;
    assert v == m * q + r;
    assert v - m == m * (q - 1) + r by {
      assert m * (q - 1) == m * q - m;
    }
    ModUnique(v - m, m, q - 1, r);
  }

  /** Euclidean division is unique. */
  lemma ModUnique(v: int, m: int, q: int, r: int)
    requires 0 < m && 0 <= r < m && v == m * q + r
    ensures v % m == r
  {
    var q', r' := v / m, v % m;
    assert m * q' + r' == m * q + r;
    assert m * (q + 1) == m * q + m && m * (q' + 1) == m * q' + m;
    if q' > q {
      MulMono(m, q + 1, q');
    } else if q' < q {
      MulMono(m, q' + 1, q);
    }
  }

  lemma MulMono(m: int, a: int, b: int)
    requires 0 < m && a <= b
    ensures m * a <= m * b
  {
    assert m * b - m * a == m * (b - a);
  }

  function VarIntRead(s: seq<byte>, pos: nat, modulus: nat): (r: Option<(nat, nat)>)
    requires 0 < modulus
    ensures r.Some? ==> r.value.0 < modulus && pos < r.value.1 <= |s|
  {
    VarIntReadFrom(s, pos, 0, modulus)
  }

  lemma ConcatAssoc(a: seq<byte>, b: seq<byte>, c: seq<byte>)
    ensures (a + b) + c == a + (b + c)
  {
  }

  /** Where a stream holds `a + b` at `pos`, it holds `a` there and `b` right
      after it. */
  lemma SliceSplit(s: seq<byte>, pos: nat, a: seq<byte>, b: seq<byte>)
    requires pos + |a + b| <= |s| && s[pos..pos + |a + b|] == a + b
    ensures s[pos..pos + |a|] == a && s[pos + |a|..pos + |a| + |b|] == b
  {
    assert s[pos..pos + |a|] == s[pos..pos + |a + b|][..|a|];
    assert s[pos + |a|..pos + |a| + |b|] == s[pos..pos + |a + b|][|a|..];
  }

  /** `bs` stands in `s` at `pos`, byte by byte. */
  predicate BytesAt(s: seq<byte>, pos: nat, bs: seq<byte>)
  {
    pos + |bs| <= |s| && forall i | 0 <= i < |bs| :: s[pos + i] == bs[i]
  }

  lemma BytesAtSlice(s: seq<byte>, pos: nat, bs: seq<byte>)
    requires pos + |bs| <= |s|
    ensures BytesAt(s, pos, bs) <==> s[pos..pos + |bs|] == bs
  {
    if BytesAt(s, pos, bs) {
      assert forall i | 0 <= i < |bs| :: s[pos..pos + |bs|][i] == bs[i];
    }
    if s[pos..pos + |bs|] == bs {
      forall i | 0 <= i < |bs|
        ensures s[pos + i] == bs[i]
      {
        assert s[pos..pos + |bs|][i] == bs[i];
      }
    }
  }

  lemma BytesAtSplit(s: seq<byte>, pos: nat, a: seq<byte>, b: seq<byte>)
    requires BytesAt(s, pos, a + b)
    ensures BytesAt(s, pos, a) && BytesAt(s, pos + |a|, b)
  {
    forall i | 0 <= i < |a|
      ensures s[pos + i] == a[i]
    {
      assert s[pos + i] == (a + b)[i];
    }
    forall i | 0 <= i < |b|
      ensures s[pos + |a| + i] == b[i]
    {
      assert s[pos + (|a| + i)] == (a + b)[|a| + i];
    }
  }

  /** Reading the continuation groups of a VARINT leaves one more than the
      value they stand for. */
  lemma {:induction false} VarIntReadContinuation(s: seq<byte>, pos: nat, m: nat, modulus: nat)
    requires m + 1 < modulus
    requires BytesAt(s, pos, VarIntBytes(m, 0x80))
    ensures VarIntReadFrom(s, pos, 0, modulus)
         == VarIntReadFrom(s, pos + |VarIntBytes(m, 0x80)|, m + 1, modulus)
    decreases m
  {
    if m < 0x80 {
      assert VarIntBytes(m, 0x80)[0] == m + 0x80;
      assert s[pos + 0] == VarIntBytes(m, 0x80)[0];
      VarIntReadStep(s, pos, 0, modulus, m);
    } else {
      var m', p := VarIntSplit(s, pos, m, 0x80);
      VarIntReadContinuation(s, pos, m', modulus);
      VarIntReadStep(s, p, m' + 1, modulus, m);
    }
  }

  /** A VARINT of two or more groups, found in a stream, is its leading groups
      (for `m / 0x80 - 1`) followed by one byte holding the low group of `m`. */
  lemma VarIntSplit(s: seq<byte>, pos: nat, m: nat, high: nat) returns (m': nat, p: nat)
    requires high == 0 || high == 0x80
    requires 0x80 <= m
    requires BytesAt(s, pos, VarIntBytes(m, high))
    ensures m' == m / 0x80 - 1 && m' < m && p == pos + |VarIntBytes(m', 0x80)|
    ensures BytesAt(s, pos, VarIntBytes(m', 0x80))
    ensures p < |s| && s[p] == m % 0x80 + high && p + 1 == pos + |VarIntBytes(m, high)|
    ensures (m' + 1) * 0x80 + s[p] % 0x80 == m
  {
    m' := m / 0x80 - 1;
    var front := VarIntBytes(m', 0x80);
    var last := [m % 0x80 + high];
    p := pos + |front|;
    assert VarIntBytes(m, high) == front + last;
    BytesAtSplit(s, pos, front, last);
    assert s[p + 0] == last[0];
  }

  /** One step of the reader on a byte that keeps the value in range. */
  lemma VarIntReadStep(s: seq<byte>, pos: nat, acc: nat, modulus: nat, v: nat)
    requires v + 1 < modulus && acc < modulus && pos < |s|
    requires acc * 0x80 + s[pos] % 0x80 == v
    requires s[pos] >= 0x80
    ensures VarIntReadFrom(s, pos, acc, modulus) == VarIntReadFrom(s, pos + 1, v + 1, modulus)
  {
  }

  /** VARINT round trip: reading what VARINT(n) wrote gives back `n` and stops
      right after it, whatever follows. */
  lemma VarIntRoundTrip(n: nat, s: seq<byte>, pos: nat, modulus: nat)
    requires n < modulus
    requires pos + |VarIntEncode(n)| <= |s| && s[pos..pos + |VarIntEncode(n)|] == VarIntEncode(n)
    ensures VarIntRead(s, pos, modulus) == Some((n, pos + |VarIntEncode(n)|))
  {
    BytesAtSlice(s, pos, VarIntEncode(n));
    if n < 0x80 {
      assert VarIntEncode(n)[0] == n;
      assert s[pos + 0] == VarIntEncode(n)[0];
      VarIntReadLast(s, pos, 0, modulus, n);
    } else {
      VarIntRoundTripMultiByte(n, s, pos, modulus);
    }
  }

  lemma VarIntRoundTripMultiByte(n: nat, s: seq<byte>, pos: nat, modulus: nat)
    requires 0x80 <= n < modulus
    requires BytesAt(s, pos, VarIntEncode(n))
    ensures VarIntRead(s, pos, modulus) == Some((n, pos + |VarIntEncode(n)|))
  {
    var m, p := VarIntSplit(s, pos, n, 0);
    assert VarIntReadFrom(s, pos, 0, modulus) == VarIntReadFrom(s, p, m + 1, modulus) by {
      VarIntReadContinuation(s, pos, m, modulus);
    }
    assert VarIntReadFrom(s, p, m + 1, modulus) == Some((n, p + 1)) by {
      VarIntReadLast(s, p, m + 1, modulus, n);
    }
  }

  /** The reader stops at a byte whose high bit is clear. */
  lemma VarIntReadLast(s: seq<byte>, pos: nat, acc: nat, modulus: nat, v: nat)
    requires v < modulus && acc < modulus && pos < |s| && s[pos] < 0x80
    requires acc * 0x80 + s[pos] % 0x80 == v
    ensures VarIntReadFrom(s, pos, acc, modulus) == Some((v, pos + 1))
  {
  }

  /** A value below 128^k takes at most k bytes. */
  lemma {:induction false} VarIntSizeBound(n: nat, k: nat)
    requires 1 <= k && n < Pow(0x80, k)
    ensures VarIntSize(n) <= k
  {
    if n >= 0x80 {
      assert k > 1;
      VarIntSizeBound(n / 0x80 - 1, k - 1);
    }
  }

  lemma VarIntSizeUint16(n: uint16)
    ensures 1 <= VarIntSize(n) <= 3
  {
    VarIntSizeBound(n, 3);
  }

  lemma VarIntSizeUint32(n: uint32)
    ensures 1 <= VarIntSize(n) <= 5
  {
    VarIntSizeBound(n, 5);
  }

  lemma VarIntSizeUint64(n: uint64)
    ensures 1 <= VarIntSize(n) <= 10
  {
    VarIntSizeBound(n, 10);
  }

  // ---------------------------------------------------------------------------
  // Strings (READWRITE of a std::string: compact-size length, then the bytes)
  // ---------------------------------------------------------------------------

  function StringEncode(str: seq<byte>): (r: seq<byte>)
    ensures |r| == CompactSizeLen(|str|) + |str|
  {
    WriteCompactSize(|str|) + str
  }

  function StringRead(s: seq<byte>, pos: nat): (r: Option<(seq<byte>, nat)>)
    ensures r.Some? ==> pos < r.value.1 <= |s|
  {
    match ReadCompactSize(s, pos)
    case None => None
    case Some((len, p)) => if p + len <= |s| then Some((s[p..p + len], p + len)) else None
  }

  lemma StringRoundTrip(str: seq<byte>, s: seq<byte>, pos: nat)
    requires |str| < 253
    requires pos + |StringEncode(str)| <= |s| && s[pos..pos + |StringEncode(str)|] == StringEncode(str)
    ensures StringRead(s, pos) == Some((str, pos + |StringEncode(str)|))
  {
    var e := StringEncode(str);
    assert s[pos] == e[0] == |str|;
    assert s[pos + 1..pos + 1 + |str|] == e[1..] == str;
  }

  // ---------------------------------------------------------------------------
  // The data stream
  // ---------------------------------------------------------------------------

  /** A byte buffer with a read position (CDataStream): writes append at the
      end, reads consume from the read position, and reading past the end is a
      failure. What the stream holds after a failed read is not modelled. */
  class DataStream {
    var vch: seq<byte>
    var readPos: nat

    ghost predicate Valid()
      reads this
    {
      readPos <= |vch|
    }

    constructor (data: seq<byte>)
      ensures Valid() && vch == data && readPos == 0
    {
      vch, readPos := data, 0;
    }

    method Write(bytes: seq<byte>)
      requires Valid()
      modifies this
      ensures Valid() && vch == old(vch) + bytes && readPos == old(readPos)
    {
      vch := vch + bytes;
    }

    method ReadByte() returns (ok: bool, b: byte)
      requires Valid()
      modifies this
      ensures Valid() && vch == old(vch)
      ensures ok <==> old(readPos) < |vch|
      ensures ok ==> b == vch[old(readPos)] && readPos == old(readPos) + 1
      ensures !ok ==> readPos == old(readPos)
    {
      if readPos < |vch| {
        ok, b := true, vch[readPos];
        readPos := readPos + 1;
      } else {
        ok, b := false, 0;
      }
    }

    method Read(n: nat) returns (ok: bool, bytes: seq<byte>)
      requires Valid()
      modifies this
      ensures Valid() && vch == old(vch)
      ensures ok <==> old(readPos) + n <= |vch|
      ensures ok ==> bytes == vch[old(readPos)..old(readPos) + n] && readPos == old(readPos) + n
      ensures !ok ==> readPos == old(readPos)
    {
      if readPos + n <= |vch| {
        ok, bytes := true, vch[readPos..readPos + n];
        readPos := readPos + n;
      } else {
        ok, bytes := false, [];
      }
    }
  }

  /** ReadCompactSize on a stream (one-byte form). */
  method ReadCompactSizeFrom(s: DataStream) returns (ok: bool, n: nat)
    requires s.Valid()
    modifies s
    ensures s.Valid() && s.vch == old(s.vch)
    ensures ok <==> ReadCompactSize(old(s.vch), old(s.readPos)).Some?
    ensures ok ==> ReadCompactSize(old(s.vch), old(s.readPos)) == Some((n, s.readPos))
  {
    var got, b := s.ReadByte();
    if !got || b >= 253 {
      return false, 0;
    }
    return true, b;
  }

  /** ReadVarInt on a stream, into an unsigned type with `modulus` values. */
  method ReadVarIntFrom(s: DataStream, modulus: nat) returns (ok: bool, n: nat)
    requires s.Valid() && 0 < modulus
    modifies s
    ensures s.Valid() && s.vch == old(s.vch)
    ensures ok <==> VarIntRead(old(s.vch), old(s.readPos), modulus).Some?
    ensures ok ==> VarIntRead(old(s.vch), old(s.readPos), modulus) == Some((n, s.readPos))
  {
    var acc: nat := 0;
    while true
      invariant s.Valid() && s.vch == old(s.vch) && acc < modulus
      invariant VarIntReadFrom(s.vch, s.readPos, acc, modulus) == VarIntRead(s.vch, old(s.readPos), modulus)
      decreases |s.vch| - s.readPos
    {
      var got, b := s.ReadByte();
      if !got {
        return false, 0;
      }
      acc := Wrap(acc * 0x80 + b % 0x80, modulus);
      if b < 0x80 {
        return true, acc;
      }
      acc := Wrap(acc + 1, modulus);
    }
  }

  /** READWRITE of a std::string on a stream (one-byte length form). */
  method ReadStringFrom(s: DataStream) returns (ok: bool, str: seq<byte>)
    requires s.Valid()
    modifies s
    ensures s.Valid() && s.vch == old(s.vch)
    ensures ok <==> StringRead(old(s.vch), old(s.readPos)).Some?
    ensures ok ==> StringRead(old(s.vch), old(s.readPos)) == Some((str, s.readPos))
  {
    var okLen, len := ReadCompactSizeFrom(s);
    if !okLen {
      return false, [];
    }
    ok, str := s.Read(len);
  }
}
