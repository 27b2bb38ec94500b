/** write_char and write_short with a negative value, when the cursor is
    inside a byte. write_bytes_ then hands the value itself to write_bits_,
    whose uint32 parameter holds its 32-bit sign extension rather than its
    low 8n bits; the extra one bits are OR-ed over bits already written.
    The functions here model that code as written, on values; the class in
    BitBuffers passes the low 8n bits instead. On values that fit in their
    width the two agree (AsWrittenInRange, BytesAsWrittenInRange), so they
    part only on negative values written off a byte boundary. */
module SignedWrites {
  import opened Arith
  import opened Bits
  import opened BufferState

  /** The three fields of a buffer: byte vector, byte position, bit index. */
  datatype Cursor = Cursor(bytes: seq<Byte>, pos: nat, bitIndex: nat)

  /** The cursor points into the byte vector: the shape write_bits_ relies
      on to index the tail byte. */
  predicate Shaped(c: Cursor) {
    c.bitIndex < 8 && |c.bytes| == c.pos + (if c.bitIndex > 0 then 1 else 0)
  }

  /** static_cast<uint32_t> of a signed or unsigned integer: its residue
      modulo 2^32 (the two's complement of a negative value). */
  function Unsigned32(x: int): (r: nat)
    ensures r < 0x1_0000_0000
  {
    x % 0x1_0000_0000
  }

  /** write_bits_ as written, for any uint32 data: nothing masks data to its
      low `bits` bits, so bits above them are OR-ed into the tail byte. */
  function WriteBitsAsWritten(c: Cursor, data: nat, bits: nat): (r: Cursor)
    requires Shaped(c) && bits <= 32 && (bits > 0 || c.bitIndex > 0)
    ensures Shaped(r)
    ensures 8 * r.pos + r.bitIndex == 8 * c.pos + c.bitIndex + bits
    decreases bits
  {
    var buffer := if c.bitIndex == 0 && bits > 0 then c.bytes + [0] else c.bytes;
    if c.bitIndex + bits > 8 then
      var rb := c.bitIndex + bits - 8;
      var spilled := buffer[c.pos := BitOr(buffer[c.pos], Shr(data, rb)) % 256];
      WriteBitsAsWritten(Cursor(spilled, c.pos + 1, 0), LowBits(data, rb), rb)
    else
      var offset := 8 - c.bitIndex - bits;
      var filled := buffer[c.pos := BitOr(buffer[c.pos], Shl(data, offset)) % 256];
      if c.bitIndex + bits == 8 then Cursor(filled, c.pos + 1, 0)
      else Cursor(filled, c.pos, c.bitIndex + bits)
  }

  /** write_bytes_ as written, for a value of n bytes: at a byte boundary it
      pushes the low n bytes of the uint32 conversion, highest first;
      otherwise it passes the value itself to write_bits_. */
  function WriteBytesAsWritten(c: Cursor, data: int, n: nat): (r: Cursor)
    requires Shaped(c) && 1 <= n <= 4
    requires -0x8000_0000 <= data < 0x1_0000_0000
    ensures Shaped(r)
    ensures 8 * r.pos + r.bitIndex == 8 * c.pos + c.bitIndex + 8 * n
  {
    var temp := Unsigned32(data);
    if c.bitIndex == 0 then Cursor(c.bytes + BigEndian(temp, n), c.pos + n, 0)
    else WriteBitsAsWritten(c, temp, 8 * n)
  }

  /** The spill branch of write_bits_ as written: the high bits go into the
      tail byte and the call goes on with the low rb bits at the next byte. */
  lemma {:induction false} AsWrittenSpills(c: Cursor, data: nat, bits: nat, rb: nat, spilled: seq<Byte>)
    requires Shaped(c) && bits <= 32 && c.bitIndex + bits == 8 + rb && 0 < rb
    requires spilled == Prepared(c.bytes, c.bitIndex, bits)[c.pos := BitOr(Prepared(c.bytes, c.bitIndex, bits)[c.pos], Shr(data, rb)) % 256]
    ensures Shaped(Cursor(spilled, c.pos + 1, 0))
    ensures WriteBitsAsWritten(c, data, bits) == WriteBitsAsWritten(Cursor(spilled, c.pos + 1, 0), LowBits(data, rb), rb)
  {
  }

  /** The fit branch of write_bits_ as written: the bits are OR-ed into the
      tail byte, and the cursor moves on by `bits`, to the next byte when
      the tail byte fills. */
  lemma {:induction false} AsWrittenFits(c: Cursor, data: nat, bits: nat, offset: nat, filled: seq<Byte>)
    requires Shaped(c) && (bits > 0 || c.bitIndex > 0) && c.bitIndex + bits + offset == 8
    requires filled == Prepared(c.bytes, c.bitIndex, bits)[c.pos := BitOr(Prepared(c.bytes, c.bitIndex, bits)[c.pos], Shl(data, offset)) % 256]
    ensures WriteBitsAsWritten(c, data, bits)
         == if c.bitIndex + bits == 8 then Cursor(filled, c.pos + 1, 0) else Cursor(filled, c.pos, c.bitIndex + bits)
  {
  }

  /** On data that fits in `bits` bits, write_bits_ as written keeps the
      buffer invariant and appends exactly the data's bits, as
      BitBuffers.BitBuffer.WriteBits does: the unmasked data differs from
      the masked only on wider values. */
  lemma {:induction false} AsWrittenInRange(c: Cursor, data: nat, bits: nat)
    requires WellFormed(c.bytes, c.pos, c.bitIndex)
    requires bits <= 32 && data < Pow2(bits) && (bits > 0 || c.bitIndex > 0)
    ensures WellFormed(WriteBitsAsWritten(c, data, bits).bytes, WriteBitsAsWritten(c, data, bits).pos, WriteBitsAsWritten(c, data, bits).bitIndex)
    ensures CommittedBits(WriteBitsAsWritten(c, data, bits).bytes, WriteBitsAsWritten(c, data, bits).pos, WriteBitsAsWritten(c, data, bits).bitIndex)
         == CommittedBits(c.bytes, c.pos, c.bitIndex) + ToBits(data, bits)
    decreases bits
  {
    var r := WriteBitsAsWritten(c, data, bits);
    var buffer := Prepared(c.bytes, c.bitIndex, bits);
    if c.bitIndex + bits > 8 {
      var rb := c.bitIndex + bits - 8;
      var spilled := buffer[c.pos := BitOr(buffer[c.pos], Shr(data, rb)) % 256];
      var next := Cursor(spilled, c.pos + 1, 0);
      AsWrittenSpills(c, data, bits, rb, spilled);
      SpillStep(c.bytes, c.pos, c.bitIndex, data, bits, rb, spilled);
      AsWrittenInRange(next, LowBits(data, rb), rb);
      assert r == WriteBitsAsWritten(next, LowBits(data, rb), rb);
    } else {
      FitInRange(c, data, bits);
    }
  }

  /** AsWrittenInRange when the bits fit in the tail byte. */
  lemma {:induction false} FitInRange(c: Cursor, data: nat, bits: nat)
    requires WellFormed(c.bytes, c.pos, c.bitIndex)
    requires bits <= 32 && data < Pow2(bits) && (bits > 0 || c.bitIndex > 0)
    requires c.bitIndex + bits <= 8
    ensures WellFormed(WriteBitsAsWritten(c, data, bits).bytes, WriteBitsAsWritten(c, data, bits).pos, WriteBitsAsWritten(c, data, bits).bitIndex)
    ensures CommittedBits(WriteBitsAsWritten(c, data, bits).bytes, WriteBitsAsWritten(c, data, bits).pos, WriteBitsAsWritten(c, data, bits).bitIndex)
         == CommittedBits(c.bytes, c.pos, c.bitIndex) + ToBits(data, bits)
  {
    var buffer := Prepared(c.bytes, c.bitIndex, bits);
    var offset := 8 - c.bitIndex - bits;
    var filled := buffer[c.pos := BitOr(buffer[c.pos], Shl(data, offset)) % 256];
    AsWrittenFits(c, data, bits, offset, filled);
    if c.bitIndex + bits == 8 {
      FitStep(c.bytes, c.pos, c.bitIndex, data, bits, offset, filled, c.pos + 1, 0);
    } else {
      FitStep(c.bytes, c.pos, c.bitIndex, data, bits, offset, filled, c.pos, c.bitIndex + bits);
    }
  }

  /** On a value that fits in n bytes (every unsigned value and every
      non-negative char or short), write_bytes_ as written keeps the buffer
      invariant and appends exactly the value's 8n bits on both paths, as
      BitBuffers.BitBuffer.WriteBytes does. So the two models part only on
      negative values written off a byte boundary. */
  lemma {:induction false} BytesAsWrittenInRange(c: Cursor, data: nat, n: nat)
    requires WellFormed(c.bytes, c.pos, c.bitIndex)
    requires 1 <= n <= 4 && data < Pow2(8 * n)
    ensures data < 0x1_0000_0000
    ensures var r := WriteBytesAsWritten(c, data, n);
      WellFormed(r.bytes, r.pos, r.bitIndex) &&
      CommittedBits(r.bytes, r.pos, r.bitIndex) == CommittedBits(c.bytes, c.pos, c.bitIndex) + ToBits(data, 8 * n)
  {
    Pow2Widths();
    Pow2Monotone(8 * n, 4 * BitsPerByte);
    SmallDivMod(data, 0x1_0000_0000);
    assert Unsigned32(data) == data;
    if c.bitIndex == 0 {
      PushBytesStep(c.bytes, c.pos, data, n, c.bytes + BigEndian(data, n), c.pos + n);
    } else {
      AsWrittenInRange(c, data, 8 * n);
    }
  }

  /** The first bit written into a byte, its most significant, is set
      exactly when the byte is at least 128. */
  lemma {:induction false} FirstBitOfByte(bytes: seq<Byte>)
    requires |bytes| > 0
    ensures BytesToBits(bytes)[0] <==> bytes[0] >= 128
  {
    var b := bytes[0];
    assert BytesToBits(bytes) == ToBits(b, BitsPerByte) + BytesToBits(bytes[1..]);
    assert Pow2(7) == 128;
    TopBit(b, 7);
  }

  /** The top bit of a w+1 bit value is set exactly when the value is at
      least 2^w. */
  lemma {:induction false} TopBit(b: nat, w: nat)
    requires b < 2 * Pow2(w)
    ensures ToBits(b, w + 1)[0] <==> b >= Pow2(w)
  {
    ToBitsSplit(b, 1, w);
    ShrIsDiv(b, w);
    var t := Shr(b, w);
    if b >= Pow2(w) {
      DivModUnique(b, Pow2(w), 1, b - Pow2(w));
    } else {
      DivModUnique(b, Pow2(w), 0, b);
    }
    assert ToBits(t, 1) == ToBits(t / 2, 0) + [t % 2 == 1];
  }

  /** The shift and mask write_bits_ applies to the sign extension of -1
      when 16 bits start one bit into a byte. */
  lemma {:induction false} AllOnesSpillNine(data: nat)
    requires data == 0xFFFF_FFFF
    ensures Shr(data, 9) % 256 == 255 && LowBits(data, 9) == 511
  {
    ShrIsDiv(data, 9);
    LowBitsIsMod(data, 9);
    assert Pow2(9) == 512;
    DivModUnique(data, 512, 0x7F_FFFF, 511);
  }

  /** The same when 8 bits start one bit into a byte. */
  lemma {:induction false} AllOnesSpillOne(data: nat)
    requires data == 0xFFFF_FFFF
    ensures Shr(data, 1) % 256 == 255
  {
    ShrIsDiv(data, 1);
    assert Pow2(1) == 2;
    DivModUnique(data, 2, 0x7FFF_FFFF, 1);
  }

  /** The same for the nine ones left after the first spill. */
  lemma {:induction false} NineOnesParts(low: nat)
    requires low == 511
    ensures Shr(low, 1) % 256 == 255 && LowBits(low, 1) == 1
  {
    ShrIsDiv(low, 1);
    LowBitsIsMod(low, 1);
  }

  /** 16 bits from one used bit: the tail byte gets all of data >> 9, not
      just the low 7 bits of it. */
  lemma {:induction false} ShortFirstStep(data: nat)
    requires Shr(data, 9) % 256 == 255
    ensures WriteBitsAsWritten(Cursor([0], 0, 1), data, 16)
         == WriteBitsAsWritten(Cursor([255], 1, 0), LowBits(data, 9), 9)
  {
  }

  /** Then nine bits from a byte boundary: a full byte and one bit over. */
  lemma {:induction false} ShortSecondStep(low: nat)
    requires Shr(low, 1) % 256 == 255
    ensures WriteBitsAsWritten(Cursor([255], 1, 0), low, 9)
         == WriteBitsAsWritten(Cursor([255, 255], 2, 0), LowBits(low, 1), 1)
  {
  }

  /** Then the last one bit, at the top of a fresh byte. */
  lemma {:induction false} ShortLastStep()
    ensures WriteBitsAsWritten(Cursor([255, 255], 2, 0), 1, 1) == Cursor([255, 255, 128], 2, 1)
  {
    assert Shl(1, 7) == 128;
  }

  /** 8 bits from one used bit: the tail byte gets all of data >> 1. */
  lemma {:induction false} CharFirstStep(data: nat)
    requires Shr(data, 1) % 256 == 255
    ensures WriteBitsAsWritten(Cursor([0], 0, 1), data, 8)
         == WriteBitsAsWritten(Cursor([255], 1, 0), LowBits(data, 1), 1)
  {
  }

  /** Then the last one bit. */
  lemma {:induction false} CharLastStep()
    ensures WriteBitsAsWritten(Cursor([255], 1, 0), 1, 1) == Cursor([255, 128], 1, 1)
  {
    assert Shl(1, 7) == 128;
  }

  /** The discrepancy: after one zero bit, write_short(-1) as written
      leaves the bytes 255, 255, 128, whose first bit is a one: the zero bit
      written before it is lost. (The bits 0, then sixteen ones, are the
      bytes 127, 255, 128.) */
  lemma {:induction false} NegativeShortOverwritesCommittedBit(data: int)
    requires data == -1
    ensures var r := WriteBytesAsWritten(Cursor([0], 0, 1), data, 2);
      r == Cursor([255, 255, 128], 2, 1) && BytesToBits(r.bytes)[0]
  {
    var temp := Unsigned32(data);
    AllOnesSpillNine(temp);
    var low := LowBits(temp, 9);
    NineOnesParts(low);
    ShortFirstStep(temp);
    ShortSecondStep(low);
    ShortLastStep();
    FirstBitOfByte(WriteBytesAsWritten(Cursor([0], 0, 1), data, 2).bytes);
  }

  /** The same for write_char(-1): bytes 255, 128 where the bits 0, then
      eight ones, are 127, 128. */
  lemma {:induction false} NegativeCharOverwritesCommittedBit(data: int)
    requires data == -1
    ensures var r := WriteBytesAsWritten(Cursor([0], 0, 1), data, 1);
      r == Cursor([255, 128], 1, 1) && BytesToBits(r.bytes)[0]
  {
    var temp := Unsigned32(data);
    AllOnesSpillOne(temp);
    CharFirstStep(temp);
    CharLastStep();
    FirstBitOfByte(WriteBytesAsWritten(Cursor([0], 0, 1), data, 1).bytes);
  }

  /** A tail byte 128 with one bit used has only zero bits after it. */
  lemma {:induction false} TopBitOnly(b: Byte)
    requires b == 128
    ensures ToBits(b, BitsPerByte)[1..] == Zeros(7)
  {
    ToBitsSplit(b, 1, 7);
    LowBitsIsMod(b, 7);
    assert Pow2(7) == 128;
    ToBitsZero(7);
  }

  /** 0x7FFF80 in three bytes, most significant first. */
  lemma {:induction false} ThreeBytes(v: nat, bytes: seq<Byte>)
    requires v == 0x7F_FF80 && bytes == [127, 255, 128]
    ensures BigEndian(v, 3) == bytes
  {
    assert BigEndian(v / 256 / 256, 1) == [127];
    assert BigEndian(v / 256, 2) == [127, 255];
  }

  /** The 24 bits of 0x7FFF80 are the 17 bits of 0xFFFF and seven zeros. */
  lemma {:induction false} SeventeenThenZeros(v: nat, ones: nat)
    requires v == 0x7F_FF80 && ones == 0xFFFF
    ensures ToBits(v, 24) == ToBits(ones, 17) + Zeros(7)
  {
    ToBitsSplit(v, 17, 7);
    ShrIsDiv(v, 7);
    LowBitsIsMod(v, 7);
    assert Pow2(7) == 128;
    DivModUnique(v, 128, ones, 0);
    ToBitsZero(7);
  }

  /** In 17 bits, 0xFFFF is a zero bit and then its 16 bits. */
  lemma {:induction false} LeadingZero(ones: nat)
    requires ones == 0xFFFF
    ensures ToBits(ones, 17) == [false] + ToBits(ones, 16)
  {
    ToBitsSplit(ones, 1, 16);
    ShrIsDiv(ones, 16);
    LowBitsIsMod(ones, 16);
    Pow2Widths();
    SmallDivMod(ones, 65536);
    assert ToBits(0, 1) == ToBits(0, 0) + [false];
  }

  /** The three bytes 127, 255, 128 are the bits 0, sixteen ones, then
      seven zero bits. */
  lemma {:induction false} ShortAfterZeroBits(v: nat, ones: nat, bytes: seq<Byte>)
    requires v == 0x7F_FF80 && ones == 0xFFFF && bytes == [127, 255, 128]
    ensures BytesToBits(bytes) == [false] + ToBits(ones, 16) + Zeros(7)
  {
    ThreeBytes(v, bytes);
    BigEndianBits(v, 3);
    SeventeenThenZeros(v, ones);
    LeadingZero(ones);
  }

  /** The intended result: a well-formed buffer whose committed bits are a
      zero bit followed by the sixteen bits of -1 as a short (what
      BitBuffers.BitBuffer.WriteShort leaves after one zero bit) holds the
      bytes 127, 255, 128 with the cursor at bit 1 of byte 2, and its first
      bit is still zero. */
  lemma {:induction false} CorrectedShortAfterOneBit(bytes: seq<Byte>, pos: nat, bitIndex: nat, data: int)
    requires data == -1
    requires WellFormed(bytes, pos, bitIndex)
    requires CommittedBits(bytes, pos, bitIndex) == [false] + ToBits(data % 0x1_0000, 16)
    ensures bytes == [127, 255, 128] && pos == 2 && bitIndex == 1
    ensures !BytesToBits(bytes)[0]
  {
    var expected: seq<Byte> := [127, 255, 128];
    var ones: nat := data % 0x1_0000;
    ShortAfterZeroBits(0x7F_FF80, ones, expected);
    TopBitOnly(expected[2]);
    assert WellFormed(expected, 2, 1);
    assert CommittedBits(expected, 2, 1) == [false] + ToBits(ones, 16);
    SameCommittedSameState(bytes, pos, bitIndex, expected, 2, 1);
    FirstBitOfByte(expected);
  }

  /** 0x7F80 in two bytes, most significant first. */
  lemma {:induction false} TwoBytes(v: nat, bytes: seq<Byte>)
    requires v == 0x7F80 && bytes == [127, 128]
    ensures BigEndian(v, 2) == bytes
  {
    assert BigEndian(v / 256, 1) == [127];
  }

  /** The 16 bits of 0x7F80 are the 9 bits of 0xFF and seven zeros. */
  lemma {:induction false} NineThenZeros(v: nat, ones: nat)
    requires v == 0x7F80 && ones == 0xFF
    ensures ToBits(v, 16) == ToBits(ones, 9) + Zeros(7)
  {
    ToBitsSplit(v, 9, 7);
    ShrIsDiv(v, 7);
    LowBitsIsMod(v, 7);
    assert Pow2(7) == 128;
    DivModUnique(v, 128, ones, 0);
    ToBitsZero(7);
  }

  /** In 9 bits, 0xFF is a zero bit and then its 8 bits. */
  lemma {:induction false} LeadingZeroOfByte(ones: nat)
    requires ones == 0xFF
    ensures ToBits(ones, 9) == [false] + ToBits(ones, 8)
  {
    ToBitsSplit(ones, 1, 8);
    ShrIsDiv(ones, 8);
    LowBitsIsMod(ones, 8);
    Pow2Widths();
    SmallDivMod(ones, 256);
    assert ToBits(0, 1) == ToBits(0, 0) + [false];
  }

  /** The two bytes 127, 128 are the bits 0, eight ones, then seven zero bits. */
  lemma {:induction false} CharAfterZeroBits(v: nat, ones: nat, bytes: seq<Byte>)
    requires v == 0x7F80 && ones == 0xFF && bytes == [127, 128]
    ensures BytesToBits(bytes) == [false] + ToBits(ones, 8) + Zeros(7)
  {
    TwoBytes(v, bytes);
    BigEndianBits(v, 2);
    NineThenZeros(v, ones);
    LeadingZeroOfByte(ones);
  }

  /** The intended result for char: a well-formed buffer whose committed
      bits are a zero bit followed by the eight bits of -1 as a char (what
      BitBuffers.BitBuffer.WriteChar leaves after one zero bit) holds the
      bytes 127, 128 with the cursor at bit 1 of byte 1, and its first bit
      is still zero. */
  lemma {:induction false} CorrectedCharAfterOneBit(bytes: seq<Byte>, pos: nat, bitIndex: nat, data: int)
    requires data == -1
    requires WellFormed(bytes, pos, bitIndex)
    requires CommittedBits(bytes, pos, bitIndex) == [false] + ToBits(data % 256, 8)
    ensures bytes == [127, 128] && pos == 1 && bitIndex == 1
    ensures !BytesToBits(bytes)[0]
  {
    var expected: seq<Byte> := [127, 128];
    var ones: nat := data % 256;
    CharAfterZeroBits(0x7F80, ones, expected);
    TopBitOnly(expected[1]);
    assert WellFormed(expected, 1, 1);
    assert CommittedBits(expected, 1, 1) == [false] + ToBits(ones, 8);
    SameCommittedSameState(bytes, pos, bitIndex, expected, 1, 1);
    FirstBitOfByte(expected);
  }
}
