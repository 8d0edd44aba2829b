/**
 * Fixed-width little-endian readers of SaveUtil (saveutil.cpp) and the
 * unsigned `size_t` bounds check that guards every read.
 *
 * The buffer is a sequence of unsigned bytes, each a number in 0..255;
 * `size_t` is modelled as an integer in [0, 2^64) whose arithmetic wraps
 * explicitly. The readers are stated on numbers; the shifts and ors that
 * the source writes are modelled on bit-vectors and proved to compute the
 * same values.
 */
module ByteCodec {

  /** One byte of the decompressed buffer, read as `unsigned char`. */
  type Byte = b: int | 0 <= b < 0x100

  /** One UTF-16 code unit (`char16_t`). */
  type CodeUnit = c: int | 0 <= c < 0x1_0000

  /** 2^64: `size_t` arithmetic is carried out modulo this number. */
  const SIZE_MOD: int := 0x1_0000_0000_0000_0000

  type SizeT = n: int | 0 <= n < SIZE_MOD

  /** 2^32: an `int32_t` is a 32-bit two's-complement number. */
  const INT32_MOD: int := 0x1_0000_0000

  type Int32 = x: int | -0x8000_0000 <= x < 0x8000_0000

  /** The 32-bit pattern of `v`: `v` modulo 2^32. */
  function Unsigned32(v: Int32): (u: nat)
    ensures u < INT32_MOD
    ensures v < 0 <==> u >= 0x8000_0000
  {
    if v < 0 then v + INT32_MOD else v
  }

  /** The two's-complement reading of 32 unsigned bits. */
  function Signed32(u: nat): (r: Int32)
    requires u < INT32_MOD
    ensures Unsigned32(r) == u
    ensures r < 0 <==> u >= 0x8000_0000
  {
    if u < 0x8000_0000 then u else u - INT32_MOD
  }

  /** 256^k: the number of values that `k` bytes can hold. */
  function ByteRange(k: nat): nat
  {
    if k == 0 then 1 else 0x100 * ByteRange(k - 1)
  }

  /** The number that the `k` bytes from `offset` on spell, least significant first. */
  function LittleEndian(bytes: seq<Byte>, offset: nat, k: nat): (u: nat)
    requires offset + k <= |bytes|
    ensures u < ByteRange(k)
    decreases k
  {
    if k == 0 then 0 else bytes[offset] + 0x100 * LittleEndian(bytes, offset + 1, k - 1)
  }

  /**
   * `toInt32`: the four bytes at `offset`, least significant first, read as
   * a signed `int32_t`; its sign is the top bit of the last byte.
   */
  function ToInt32(bytes: seq<Byte>, offset: nat): (r: Int32)
    requires offset + 4 <= |bytes|
    ensures r < 0 <==> bytes[offset + 3] >= 0x80
  {
    LittleEndian4(bytes, offset);
    Signed32(LittleEndian(bytes, offset, 4))
  }

  /**
   * `toChar16`: the two bytes at `offset`, least significant first, as one
   * 16-bit code unit.
   */
  function ToChar16(bytes: seq<Byte>, offset: nat): (r: CodeUnit)
    requires offset + 2 <= |bytes|
    ensures r == bytes[offset] as int + 0x100 * bytes[offset + 1] as int
  {
    LittleEndian2(bytes, offset);
    LittleEndian(bytes, offset, 2)
  }

  /** Four bytes spelled out: the first is the lowest digit in base 256. */
  lemma LittleEndian4(bytes: seq<Byte>, offset: nat)
    requires offset + 4 <= |bytes|
    ensures LittleEndian(bytes, offset, 4)
         == bytes[offset] as int + 0x100 * bytes[offset + 1] as int
            + 0x1_0000 * bytes[offset + 2] as int + 0x100_0000 * bytes[offset + 3] as int
  {
    assert LittleEndian(bytes, offset + 3, 1) == bytes[offset + 3];
    assert LittleEndian(bytes, offset + 2, 2) == bytes[offset + 2] as int + 0x100 * bytes[offset + 3] as int;
    assert LittleEndian(bytes, offset + 1, 3)
        == bytes[offset + 1] + 0x100 * LittleEndian(bytes, offset + 2, 2);
  }

  /** Two bytes spelled out: the first is the low half, the second the high half. */
  lemma LittleEndian2(bytes: seq<Byte>, offset: nat)
    requires offset + 2 <= |bytes|
    ensures LittleEndian(bytes, offset, 2) == bytes[offset] as int + 0x100 * bytes[offset + 1] as int
  {
    assert LittleEndian(bytes, offset + 1, 1) == bytes[offset + 1];
  }

  // ---------------------------------------------------------------------
  // The shifts and ors of the source, on bit-vectors.
  // ---------------------------------------------------------------------

  /**
   * The shifts and ors of `toInt32`, each byte widened to 32 bits first.
   * No two shifted bytes share a bit, so or-ing them adds them up.
   */
  function Pack32(b0: bv8, b1: bv8, b2: bv8, b3: bv8): (bits: bv32)
    ensures bits as int == b0 as int + 0x100 * b1 as int + 0x1_0000 * b2 as int
                           + 0x100_0000 * b3 as int
  {
    Pack32Value(b0, b1, b2, b3);
    (b3 as bv32 << 24) | (b2 as bv32 << 16) | (b1 as bv32 << 8) | (b0 as bv32)
  }

  lemma Pack32Value(b0: bv8, b1: bv8, b2: bv8, b3: bv8)
    ensures ((b3 as bv32 << 24) | (b2 as bv32 << 16) | (b1 as bv32 << 8) | (b0 as bv32)) as int
            == b0 as int + 0x100 * b1 as int + 0x1_0000 * b2 as int + 0x100_0000 * b3 as int
  {
  }

  /** The shift and or of `toChar16`. */
  function Pack16(b0: bv8, b1: bv8): (bits: bv16)
    ensures bits as int == b0 as int + 0x100 * b1 as int
  {
    Pack16Value(b0, b1);
    ((b1 as bv16) << 8) | (b0 as bv16)
  }

  lemma Pack16Value(b0: bv8, b1: bv8)
    ensures (((b1 as bv16) << 8) | (b0 as bv16)) as int == b0 as int + 0x100 * b1 as int
  {
  }

  /**
   * `toInt32` as the source writes it: the four bytes at `offset`, as
   * 8-bit patterns, shifted into place and or-ed together.
   */
  lemma ToInt32Bits(bytes: seq<Byte>, offset: nat, b0: bv8, b1: bv8, b2: bv8, b3: bv8)
    requires offset + 4 <= |bytes|
    requires b0 as int == bytes[offset] && b1 as int == bytes[offset + 1]
    requires b2 as int == bytes[offset + 2] && b3 as int == bytes[offset + 3]
    ensures ToInt32(bytes, offset) == Signed32(Pack32(b0, b1, b2, b3) as int)
  {
    LittleEndian4(bytes, offset);
  }

  /** `toChar16` as the source writes it: the two bytes shifted into place and or-ed. */
  lemma ToChar16Bits(bytes: seq<Byte>, offset: nat, b0: bv8, b1: bv8)
    requires offset + 2 <= |bytes|
    requires b0 as int == bytes[offset] && b1 as int == bytes[offset + 1]
    ensures ToChar16(bytes, offset) == Pack16(b0, b1) as int
  {
    LittleEndian2(bytes, offset);
  }

  // ---------------------------------------------------------------------
  // Unsigned bounds.
  // ---------------------------------------------------------------------

  /**
   * `checkBufferOverflow`: true when reading `readSize` bytes at `offset`
   * of a buffer of `bufSize` bytes would overflow. The source subtracts in
   * `size_t`, so `bufSize - offset` wraps around when `offset > bufSize`;
   * the contract shows that the wrapped test is the intended one.
   */
  function CheckBufferOverflow(offset: SizeT, bufSize: SizeT, readSize: SizeT): (r: bool)
    ensures r <==> offset > bufSize || bufSize - offset < readSize
  {
    var remaining := if offset <= bufSize then bufSize - offset else bufSize - offset + SIZE_MOD;
    remaining > bufSize || remaining < readSize
  }

  /**
   * `static_cast<size_t>` of an `int32_t`: the value modulo 2^64, so that a
   * negative length becomes a number far above any buffer size.
   */
  function ToSizeT(v: Int32): (r: SizeT)
    ensures (r - v) % SIZE_MOD == 0
    ensures 0 <= v ==> r == v
    ensures v < 0 ==> r >= SIZE_MOD - 0x8000_0000
  {
    if v < 0 then v + SIZE_MOD else v
  }

  // ---------------------------------------------------------------------
  // Writers. The source declares `int32ToBuffer` and `char16ToBuffer` but
  // gives them no body; these are specification-only counterparts that
  // follow the same layout, used to state round trips.
  // ---------------------------------------------------------------------

  /** The `k` base-256 digits of `u`, least significant first. */
  function LeBytes(u: nat, k: nat): (r: seq<Byte>)
    ensures |r| == k
  {
    if k == 0 then [] else [u % 0x100] + LeBytes(u / 0x100, k - 1)
  }

  /** The four little-endian bytes of the 32-bit pattern of `v`. */
  function EncodeInt32(v: Int32): seq<Byte>
  {
    LeBytes(Unsigned32(v), 4)
  }

  /** The two little-endian bytes of a code unit. */
  function EncodeCodeUnit(c: CodeUnit): seq<Byte>
  {
    LeBytes(c, 2)
  }

  /**
   * Reading `k` bytes written as the digits of `u` gives `u` back, whatever
   * precedes them.
   */
  lemma {:induction false} LittleEndianOfLeBytes(prefix: seq<Byte>, u: nat, k: nat)
    requires u < ByteRange(k)
    ensures LittleEndian(prefix + LeBytes(u, k), |prefix|, k) == u
    decreases k
  {
    if k > 0 {
      var low := prefix + [u % 0x100];
      assert prefix + LeBytes(u, k) == low + LeBytes(u / 0x100, k - 1);
      LittleEndianOfLeBytes(low, u / 0x100, k - 1);
    }
  }

  /** Writing the number that `k` bytes spell gives back those bytes. */
  lemma {:induction false} LeBytesOfLittleEndian(bytes: seq<Byte>, offset: nat, k: nat)
    requires offset + k <= |bytes|
    ensures LeBytes(LittleEndian(bytes, offset, k), k) == bytes[offset..offset + k]
    decreases k
  {
    if k > 0 {
      var u := LittleEndian(bytes, offset, k);
      var high := LittleEndian(bytes, offset + 1, k - 1);
      LowDigit(bytes[offset], high);
      LeBytesOfLittleEndian(bytes, offset + 1, k - 1);
      assert bytes[offset..offset + k] == [bytes[offset]] + bytes[offset + 1..offset + k];
    }
  }

  /** The lowest base-256 digit of `low + 256 * high` and what is above it. */
  lemma LowDigit(low: Byte, high: nat)
    ensures (low + 0x100 * high) % 0x100 == low && (low + 0x100 * high) / 0x100 == high
  {
  }

  /** The number that `k` bytes spell depends on those bytes only. */
  lemma LittleEndianLocal(bytes: seq<Byte>, offset: nat, other: seq<Byte>, at: nat, k: nat)
    requires offset + k <= |bytes| && at + k <= |other|
    requires bytes[offset..offset + k] == other[at..at + k]
    ensures LittleEndian(bytes, offset, k) == LittleEndian(other, at, k)
  {
    var u, w := LittleEndian(bytes, offset, k), LittleEndian(other, at, k);
    LeBytesOfLittleEndian(bytes, offset, k);
    LeBytesOfLittleEndian(other, at, k);
    LittleEndianOfLeBytes([], u, k);
    LittleEndianOfLeBytes([], w, k);
    assert [] + LeBytes(u, k) == LeBytes(w, k);
  }

  /** Writing a number and reading it back gives the number. */
  lemma ToInt32OfEncoded(v: Int32)
    ensures ToInt32(EncodeInt32(v), 0) == v
  {
    LittleEndianOfLeBytes([], Unsigned32(v), 4);
    assert [] + EncodeInt32(v) == EncodeInt32(v);
  }

  /** Four bytes holding the encoding of `v` read as `v`. */
  lemma ReadEncodedInt32(bytes: seq<Byte>, offset: nat, v: Int32)
    requires offset + 4 <= |bytes| && bytes[offset..offset + 4] == EncodeInt32(v)
    ensures ToInt32(bytes, offset) == v
  {
    assert EncodeInt32(v)[0..4] == EncodeInt32(v);
    LittleEndianLocal(bytes, offset, EncodeInt32(v), 0, 4);
    ToInt32OfEncoded(v);
  }

  /** Reading four bytes and writing them back gives the same four bytes. */
  lemma EncodeToInt32(bytes: seq<Byte>, offset: nat)
    requires offset + 4 <= |bytes|
    ensures EncodeInt32(ToInt32(bytes, offset)) == bytes[offset..offset + 4]
  {
    LeBytesOfLittleEndian(bytes, offset, 4);
  }

  /** Writing a code unit and reading it back gives the code unit. */
  lemma ToChar16OfEncoded(c: CodeUnit)
    ensures ToChar16(EncodeCodeUnit(c), 0) == c
  {
    LittleEndianOfLeBytes([], c, 2);
    assert [] + EncodeCodeUnit(c) == EncodeCodeUnit(c);
  }

  /** Two bytes holding the encoding of `c` read as `c`. */
  lemma ReadEncodedChar16(bytes: seq<Byte>, offset: nat, c: CodeUnit)
    requires offset + 2 <= |bytes| && bytes[offset..offset + 2] == EncodeCodeUnit(c)
    ensures ToChar16(bytes, offset) == c
  {
    assert EncodeCodeUnit(c)[0..2] == EncodeCodeUnit(c);
    LittleEndianLocal(bytes, offset, EncodeCodeUnit(c), 0, 2);
    ToChar16OfEncoded(c);
  }

  /** Reading two bytes and writing them back gives the same two bytes. */
  lemma EncodeToChar16(bytes: seq<Byte>, offset: nat)
    requires offset + 2 <= |bytes|
    ensures EncodeCodeUnit(ToChar16(bytes, offset)) == bytes[offset..offset + 2]
  {
    LeBytesOfLittleEndian(bytes, offset, 2);
  }

  /** `toInt32` reads the four bytes at `offset` and nothing else. */
  lemma ToInt32Reads(bytes: seq<Byte>, offset: nat, other: seq<Byte>, at: nat)
    requires offset + 4 <= |bytes| && at + 4 <= |other|
    requires bytes[offset..offset + 4] == other[at..at + 4]
    ensures ToInt32(bytes, offset) == ToInt32(other, at)
  {
    LittleEndianLocal(bytes, offset, other, at, 4);
  }

  /** `toChar16` reads the two bytes at `offset` and nothing else. */
  lemma ToChar16Reads(bytes: seq<Byte>, offset: nat, other: seq<Byte>, at: nat)
    requires offset + 2 <= |bytes| && at + 2 <= |other|
    requires bytes[offset..offset + 2] == other[at..at + 2]
    ensures ToChar16(bytes, offset) == ToChar16(other, at)
  {
    LittleEndianLocal(bytes, offset, other, at, 2);
  }

  /** Reading past a prefix reads the bytes that follow it. */
  lemma ToInt32After(prefix: seq<Byte>, bytes: seq<Byte>)
    requires 4 <= |bytes|
    ensures ToInt32(prefix + bytes, |prefix|) == ToInt32(bytes, 0)
  {
    var data := prefix + bytes;
    assert data[|prefix|..|prefix| + 4] == bytes[0..4];
    ToInt32Reads(data, |prefix|, bytes, 0);
  }
}
