/** The bit buffer: a growable byte vector with a write cursor (a byte
    position and a count of bits already used in the tail byte). Writes append
    bits at the cursor, most significant bit first; reads take the big-endian
    value of any run of bits by absolute bit offset. */
module BitBuffers {
  import opened Arith
  import opened Bits
  import opened BufferState
  import opened BitReads
  import opened SeqFacts

  class BitBuffer {
    var bytes: seq<Byte>
    var pos: nat
    var bitIndex: nat

    ghost predicate Valid()
      reads this
    {
      WellFormed(bytes, pos, bitIndex)
    }

    /** The bits written so far, in order. */
    ghost function Committed(): (r: seq<bool>)
      reads this
      requires Valid()
      ensures |r| == 8 * pos + bitIndex
    {
      CommittedBits(bytes, pos, bitIndex)
    }

    /** An empty buffer; the size is only a capacity hint. */
    constructor (size: nat)
      ensures Valid()
      ensures bytes == [] && pos == 0 && bitIndex == 0
      ensures Committed() == []
    {
      bytes := [];
      pos := 0;
      bitIndex := 0;
    }

    /** write_bits_: appends the low `bits` bits of data, most significant
        first, OR-ing into the tail byte and recursing on the remainder when
        they do not fit. */
    method WriteBits(data: nat, bits: nat)
      requires Valid()
      requires bits <= 32 && data < Pow2(bits)
      requires bits > 0 || bitIndex > 0
      modifies this
      ensures Valid()
      ensures Committed() == old(Committed()) + ToBits(data, bits)
      decreases bits
    {
      ghost var bytes0, pos0, bitIndex0 := bytes, pos, bitIndex;
      var buffer := bytes;
      if bitIndex == 0 && bits > 0 {
        buffer := buffer + [0];
      }

      if bitIndex + bits > 8 {
        var remainderBits := bitIndex + bits - 8;
        var remainderValue := LowBits(data, remainderBits);
        bytes := buffer[pos := BitOr(buffer[pos], Shr(data, remainderBits)) % 256];
        bitIndex := 0;
        pos := pos + 1;
        SpillStep(bytes0, pos0, bitIndex0, data, bits, remainderBits, bytes);
        ghost var spilled := Committed();
        assert spilled + ToBits(remainderValue, remainderBits) == old(Committed()) + ToBits(data, bits);
        WriteBits(remainderValue, remainderBits);
        return;
      }

      var offset := 8 - bitIndex - bits;
      bytes := buffer[pos := BitOr(buffer[pos], Shl(data, offset)) % 256];
      bitIndex := bitIndex + bits;
      if bitIndex == 8 {
        bitIndex := 0;
        pos := pos + 1;
      }
      FitStep(bytes0, pos0, bitIndex0, data, bits, offset, bytes, pos, bitIndex);
    }

    /** write_bytes_: the low 8n bits of data, most significant byte first.
        At a byte boundary the bytes are pushed whole, highest first, and the
        cursor moves n bytes on; otherwise they go through write_bits_. */
    method WriteBytes(data: nat, n: nat)
      requires Valid()
      requires 1 <= n <= 4 && data < Pow2(8 * n)
      modifies this
      ensures Valid()
      ensures Committed() == old(Committed()) + ToBits(data, 8 * n)
    {
      if bitIndex == 0 {
        ghost var bytes0, pos0 := bytes, pos;
        var i: int := n - 1;
        while i >= 0
          invariant -1 <= i < n
          invariant bytes == bytes0 + BigEndian(Shr(data, 8 * (i + 1)), n - 1 - i)
          invariant pos == pos0 && bitIndex == 0
        {
          BigEndianPush(data, i, n - 1 - i);
          AppendAssoc(bytes0, BigEndian(Shr(data, 8 * (i + 1)), n - 1 - i), [Shr(data, 8 * i) % 256]);
          bytes := bytes + [Shr(data, 8 * i) % 256];
          i := i - 1;
        }
        pos := pos + n;
        PushBytesStep(bytes0, pos0, data, n, bytes, pos);
        return;
      }
      WriteBits(data, 8 * n);
    }

    /** write_byte: one unsigned byte. */
    method WriteByte(data: Byte)
      requires Valid()
      modifies this
      ensures Valid()
      ensures Committed() == old(Committed()) + ToBits(data, 8)
    {
      Pow2Widths();
      WriteBytes(data, 1);
    }

    /** write_char: a signed char, as its 8-bit two's complement. */
    method WriteChar(data: int)
      requires Valid()
      requires -128 <= data < 128
      modifies this
      ensures Valid()
      ensures Committed() == old(Committed()) + ToBits(data % 256, 8)
    {
      Pow2Widths();
      WriteBytes(data % 256, 1);
    }

    /** write_bool: one byte holding 1 for true and 0 for false. */
    method WriteBool(data: bool)
      requires Valid()
      modifies this
      ensures Valid()
      ensures Committed() == old(Committed()) + ToBits(if data then 1 else 0, 8)
    {
      Pow2Widths();
      WriteBytes(if data then 1 else 0, 1);
    }

    /** write_short: a signed 16-bit value, as its 16-bit two's complement. */
    method WriteShort(data: int)
      requires Valid()
      requires -0x8000 <= data < 0x8000
      modifies this
      ensures Valid()
      ensures Committed() == old(Committed()) + ToBits(data % 0x1_0000, 16)
    {
      Pow2Widths();
      WriteBytes(data % 0x1_0000, 2);
    }

    /** write_int: an unsigned 32-bit value. */
    method WriteInt(data: nat)
      requires Valid()
      requires data < 0x1_0000_0000
      modifies this
      ensures Valid()
      ensures Committed() == old(Committed()) + ToBits(data, 32)
    {
      Pow2Widths();
      WriteBytes(data, 4);
    }

    /** read_bits: the big-endian value of bits firstBit .. firstBit+numBits-1
        of the byte vector, or OutOfRange past its end. Inside the committed
        bits, it is the value of those bits. */
    method ReadBits(firstBit: nat, numBits: nat) returns (r: Result<nat>)
      requires 1 <= numBits <= WordBits
      ensures r == ReadBitsFrom(bytes, firstBit, numBits, 0)
      ensures r.OutOfRange? <==> firstBit + numBits > 8 * |bytes|
      ensures r.Ok? ==> r.value == FromBits(BytesToBits(bytes)[firstBit .. firstBit + numBits])
      ensures r.Ok? ==> r.value < Pow2(numBits)
      ensures Valid() && firstBit + numBits <= |Committed()| ==>
        r == Ok(FromBits(Committed()[firstBit .. firstBit + numBits]))
    {
      r := ReadBitsOf(bytes, firstBit, numBits, 0);
      ReadRunValue(bytes, firstBit, numBits);
      if Valid() && firstBit + numBits <= 8 * pos + bitIndex {
        ReadCommitted(bytes, pos, bitIndex, firstBit, numBits);
      }
    }

    /** read_bit: 1 or 0 as bit firstBit of the byte vector is set or not. */
    method ReadBit(firstBit: nat) returns (r: Result<nat>)
      ensures r == ReadBitsFrom(bytes, firstBit, 1, 0)
      ensures r.OutOfRange? <==> firstBit >= 8 * |bytes|
      ensures r.Ok? ==> r.value == if BytesToBits(bytes)[firstBit] then 1 else 0
      ensures Valid() && firstBit < |Committed()| ==> r == Ok(if Committed()[firstBit] then 1 else 0)
    {
      r := ReadBitsOf(bytes, firstBit, 1, 0);
      ReadSingleBit(bytes, firstBit);
    }

    /** read_bytes: the big-endian value of bytes byteIndex ..
        byteIndex+numBytes-1, or OutOfRange when they do not all exist. */
    method ReadBytes(byteIndex: nat, numBytes: nat) returns (r: Result<nat>)
      requires 1 <= numBytes <= 4
      ensures r == ReadBytesFrom(bytes, byteIndex, numBytes)
      ensures r == ReadBitsFrom(bytes, 8 * byteIndex, 8 * numBytes, 0)
      ensures r.OutOfRange? <==> byteIndex + numBytes > |bytes|
      ensures r.Ok? ==> r.value == FromBits(BytesToBits(bytes[byteIndex .. byteIndex + numBytes]))
    {
      if byteIndex + numBytes > |bytes| {
        return OutOfRange;
      }
      r := ReadBitsOf(bytes, byteIndex * 8, numBytes * 8, 0);
      ReadBytesValue(bytes, byteIndex, numBytes);
    }

    /** read_byte: the byte at byteIndex, the same as reading its 8 bits. */
    method ReadByte(byteIndex: nat) returns (r: Result<nat>)
      ensures r == ReadBitsFrom(bytes, 8 * byteIndex, 8, 0)
      ensures r.OutOfRange? <==> byteIndex >= |bytes|
      ensures r.Ok? ==> r.value == bytes[byteIndex]
    {
      r := ReadBytes(byteIndex, 1);
      if r.Ok? {
        FromBitsOfByte(bytes[byteIndex .. byteIndex + 1]);
      }
    }

    /** operator==: compares the byte vectors, not the cursors. For
        well-formed buffers that is comparing the committed bits padded to
        whole bytes, and buffers with the same committed bits are equal. */
    method Equals(other: BitBuffer) returns (r: bool)
      ensures r <==> bytes == other.bytes
      ensures Valid() && other.Valid() ==> (r <==> Pack(Committed()) == Pack(other.Committed()))
      ensures Valid() && other.Valid() && Committed() == other.Committed() ==> r
    {
      r := bytes == other.bytes;
      if Valid() && other.Valid() {
        StateIsPacked(bytes, pos, bitIndex);
        StateIsPacked(other.bytes, other.pos, other.bitIndex);
      }
    }

    /** operator!=: the negation of operator==. */
    method NotEquals(other: BitBuffer) returns (r: bool)
      ensures r <==> bytes != other.bytes
      ensures Valid() && other.Valid() ==> (r <==> Pack(Committed()) != Pack(other.Committed()))
    {
      r := bytes != other.bytes;
      if Valid() && other.Valid() {
        StateIsPacked(bytes, pos, bitIndex);
        StateIsPacked(other.bytes, other.pos, other.bitIndex);
      }
    }
  }

  /** A read inside the committed bits reads those bits. */
  lemma {:induction false} ReadCommitted(bytes: seq<Byte>, pos: nat, bitIndex: nat, firstBit: nat, numBits: nat)
    requires WellFormed(bytes, pos, bitIndex)
    requires 1 <= numBits <= WordBits && firstBit + numBits <= 8 * pos + bitIndex
    ensures ReadBitsFrom(bytes, firstBit, numBits, 0)
         == Ok(FromBits(CommittedBits(bytes, pos, bitIndex)[firstBit .. firstBit + numBits]))
  {
    ReadRunValue(bytes, firstBit, numBits);
    RunInPrefix(BytesToBits(bytes), 8 * pos + bitIndex, firstBit, firstBit + numBits);
  }

  /** The round trip: a value written in w bits, wherever it sits among the
      committed bits (so also after and before other writes), reads back. */
  lemma {:induction false} ReadBackWritten(bytes: seq<Byte>, pos: nat, bitIndex: nat, before: seq<bool>, v: nat, w: nat, after: seq<bool>)
    requires WellFormed(bytes, pos, bitIndex)
    requires CommittedBits(bytes, pos, bitIndex) == before + ToBits(v, w) + after
    requires 1 <= w <= WordBits && v < Pow2(w)
    ensures ReadBitsFrom(bytes, |before|, w, 0) == Ok(v)
  {
    MiddleOfThree(before, ToBits(v, w), after);
    ReadBackAt(bytes, pos, bitIndex, |before|, v, w);
  }

  /** The same round trip, for a value found at a given offset of the
      committed bits. */
  lemma {:induction false} ReadBackAt(bytes: seq<Byte>, pos: nat, bitIndex: nat, offset: nat, v: nat, w: nat)
    requires WellFormed(bytes, pos, bitIndex)
    requires 1 <= w <= WordBits && v < Pow2(w)
    requires offset + w <= 8 * pos + bitIndex
    requires CommittedBits(bytes, pos, bitIndex)[offset .. offset + w] == ToBits(v, w)
    ensures ReadBitsFrom(bytes, offset, w, 0) == Ok(v)
  {
    ReadCommitted(bytes, pos, bitIndex, offset, w);
    FromToBits(v, w);
  }

  /** bit_iterator: a copy of a buffer's bytes and a bit index into them. */
  class BitIterator {
    const bytes: seq<Byte>
    var index: nat

    /** An iterator at the first bit. */
    constructor (buffer: BitBuffer)
      ensures bytes == buffer.bytes && index == 0
    {
      bytes := buffer.bytes;
      index := 0;
    }

    /** An iterator at bit `index`. */
    constructor At(buffer: BitBuffer, index: nat)
      ensures bytes == buffer.bytes && this.index == index
    {
      bytes := buffer.bytes;
      this.index := index;
    }

    /** current_bit and operator*: the bit under the iterator, read as a
        1-bit run through read_bits_. */
    method CurrentBit() returns (r: Result<nat>)
      ensures r == ReadBitsFrom(bytes, index, 1, 0)
      ensures r.OutOfRange? <==> index >= 8 * |bytes|
      ensures r.Ok? ==> r.value == if BytesToBits(bytes)[index] then 1 else 0
    {
      r := ReadBitsOf(bytes, index, 1, 0);
      ReadSingleBit(bytes, index);
    }

    /** Prefix operator++: the next bit. */
    method Next()
      modifies this
      ensures index == old(index) + 1
    {
      index := index + 1;
    }

    /** Postfix operator++: the next bit, returning a copy at the old one. */
    method PostNext() returns (previous: BitIterator)
      modifies this
      ensures fresh(previous)
      ensures previous.bytes == bytes && previous.index == old(index)
      ensures index == old(index) + 1
    {
      previous := new BitIterator.Copy(this);
      Next();
    }

    /** A copy of another iterator. */
    constructor Copy(other: BitIterator)
      ensures bytes == other.bytes && index == other.index
    {
      bytes := other.bytes;
      index := other.index;
    }

    /** operator==: iterators are equal when they are at the same bit,
        whatever bytes they hold. */
    method Equals(other: BitIterator) returns (r: bool)
      ensures r <==> index == other.index
    {
      r := index == other.index;
    }

    /** operator!=: the negation of operator==. */
    method NotEquals(other: BitIterator) returns (r: bool)
      ensures r <==> index != other.index
    {
      r := index != other.index;
    }
  }
}
