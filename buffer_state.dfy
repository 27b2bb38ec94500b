/** The writer's state: a byte vector, the index `pos` of the byte being
    filled and the number `bitIndex` of its bits already used. This module
    states the invariant the writers keep, the bit sequence a state stands
    for, and the effect of one OR step on it. */
module BufferState {
  import opened Arith
  import opened Bits
  import opened SeqFacts

  // ---------------------------------------------------------------------
  // The writer's state invariant and its abstract value
  // ---------------------------------------------------------------------

  /** The write cursor invariant: at most 7 bits are used in the tail byte,
      the tail byte exists exactly when some of its bits are used, and the
      bits of the tail byte after the cursor are zero. */
  ghost predicate WellFormed(bytes: seq<Byte>, pos: nat, bitIndex: nat) {
    bitIndex < 8 &&
    |bytes| == pos + (if bitIndex > 0 then 1 else 0) &&
    (bitIndex > 0 ==> ToBits(bytes[pos], BitsPerByte)[bitIndex..] == Zeros(8 - bitIndex))
  }

  /** The bits committed by the writes so far: all bits before the cursor. */
  ghost function CommittedBits(bytes: seq<Byte>, pos: nat, bitIndex: nat): (r: seq<bool>)
    requires WellFormed(bytes, pos, bitIndex)
    ensures |r| == 8 * pos + bitIndex
  {
    BytesToBits(bytes)[..8 * pos + bitIndex]
  }

  /** A byte vector whose last byte is at index pos: the bits before it, then its 8 bits. */
  lemma {:induction false} TailView(bytes: seq<Byte>, pos: nat)
    requires |bytes| == pos + 1
    ensures BytesToBits(bytes) == BytesToBits(bytes[..pos]) + ToBits(bytes[pos], BitsPerByte)
  {
    assert bytes == bytes[..pos] + [bytes[pos]];
    BytesToBitsAppend(bytes[..pos], [bytes[pos]]);
    assert BytesToBits([bytes[pos]]) == ToBits(bytes[pos], BitsPerByte) + BytesToBits([]);
  }

  /** The bytes of a well-formed buffer are its committed bits followed by zero padding. */
  lemma {:induction false} PaddedCommitted(bytes: seq<Byte>, pos: nat, bitIndex: nat)
    requires WellFormed(bytes, pos, bitIndex)
    ensures BytesToBits(bytes) == CommittedBits(bytes, pos, bitIndex) + Zeros(8 * |bytes| - (8 * pos + bitIndex))
  {
    var whole := BytesToBits(bytes);
    var n := 8 * pos + bitIndex;
    var pad := 8 * |bytes| - n;
    if bitIndex > 0 {
      var done, tail := BytesToBits(bytes[..pos]), ToBits(bytes[pos], BitsPerByte);
      TailView(bytes, pos);
      assert |done| == 8 * pos && pad == 8 - bitIndex;
      SuffixPastFirst(done, tail, bitIndex);
      PrefixAndRest(whole, n, Zeros(pad));
    } else {
      assert pad == 0 && |whole| == n;
      PrefixAndRest(whole, n, Zeros(0));
    }
  }

  /** The committed bits determine the whole state: the bytes are the
      committed bits packed with zero padding, and the cursor is their length
      split into bytes and bits. */
  lemma {:induction false} StateIsPacked(bytes: seq<Byte>, pos: nat, bitIndex: nat)
    requires WellFormed(bytes, pos, bitIndex)
    ensures bytes == Pack(CommittedBits(bytes, pos, bitIndex))
    ensures pos == |CommittedBits(bytes, pos, bitIndex)| / 8
    ensures bitIndex == |CommittedBits(bytes, pos, bitIndex)| % 8
  {
    var c := CommittedBits(bytes, pos, bitIndex);
    PaddedCommitted(bytes, pos, bitIndex);
    PackUnpack(c);
    assert (|c| + 7) / 8 == |bytes|;
    assert BytesToBits(Pack(c)) == BytesToBits(bytes);
    UnpackPack(bytes);
    UnpackPack(Pack(c));
  }

  /** Two well-formed states with the same committed bits are the same state. */
  lemma {:induction false} SameCommittedSameState(b1: seq<Byte>, p1: nat, i1: nat, b2: seq<Byte>, p2: nat, i2: nat)
    requires WellFormed(b1, p1, i1) && WellFormed(b2, p2, i2)
    requires CommittedBits(b1, p1, i1) == CommittedBits(b2, p2, i2)
    ensures b1 == b2 && p1 == p2 && i1 == i2
  {
    StateIsPacked(b1, p1, i1);
    StateIsPacked(b2, p2, i2);
  }

  /** Equality of byte vectors does not determine the cursor: a tail byte 0
      with one bit used and with two bits used are both well formed and
      commit different bits. */
  lemma {:induction false} SameBytesDifferentCursor()
    ensures WellFormed([0], 0, 1) && WellFormed([0], 0, 2)
    ensures CommittedBits([0], 0, 1) != CommittedBits([0], 0, 2)
  {
    ToBitsZero(BitsPerByte);
  }

  /** The byte vector write_bits_ ORs into: the old one, with a zero byte
      pushed when no bit of the tail is in use. Its bits up to the cursor are
      the committed bits and the rest of its last byte is zero. */
  lemma {:induction false} PrepareTail(before: seq<Byte>, b: seq<Byte>, pos: nat, bitIndex: nat)
    requires WellFormed(before, pos, bitIndex)
    requires b == if bitIndex == 0 then before + [0] else before
    ensures |b| == pos + 1
    ensures ToBits(b[pos], BitsPerByte)[bitIndex..] == Zeros(8 - bitIndex)
    ensures BytesToBits(b)[..8 * pos + bitIndex] == CommittedBits(before, pos, bitIndex)
  {
    if bitIndex == 0 {
      ToBitsZero(BitsPerByte);
      BytesToBitsAppend(before, [0]);
      PrefixPastFirst(BytesToBits(before), BytesToBits([0]), 0);
    }
  }

  /** OR-ing k bits of v into the last byte b[pos], just after its first
      `used` bits, when the bits after them are zero: the byte stays below
      256, the bits up to the new cursor are the old ones followed by v's k
      bits, and the bits after the new cursor are still zero. */
  lemma {:induction false} PlaceInTail(b: seq<Byte>, pos: nat, used: nat, v: nat, k: nat, offset: nat)
    requires |b| == pos + 1 && used + k + offset == 8 && v < Pow2(k)
    requires ToBits(b[pos], BitsPerByte)[used..] == Zeros(8 - used)
    ensures BitOr(b[pos], Shl(v, offset)) % 256 == BitOr(b[pos], Shl(v, offset)) < 256
    ensures var b' := b[pos := BitOr(b[pos], Shl(v, offset)) % 256];
      BytesToBits(b')[..8 * pos + used + k] == BytesToBits(b)[..8 * pos + used] + ToBits(v, k) &&
      ToBits(b'[pos], BitsPerByte)[used + k..] == Zeros(offset)
  {
    var t := b[pos];
    var x := BitOr(t, Shl(v, offset));
    var tail, bits, zeros := ToBits(t, BitsPerByte), ToBits(v, k), Zeros(offset);
    var head := tail[..used];
    assert x < 256 && x % 256 == x && ToBits(x, BitsPerByte) == head + bits + zeros by {
      Pow2Widths();
      OrIntoTail(t, BitsPerByte, used, v, k, offset);
      DivModUnique(x, 256, 0, x);
    }
    DropTwo(head, bits, zeros);
    var b' := b[pos := x];
    var done := BytesToBits(b[..pos]);
    assert BytesToBits(b')[..8 * pos + used + k] == done + (head + bits) by {
      UpdateKeepsPrefix(b, pos, x);
      TailView(b', pos);
      PrefixPastFirst(done, ToBits(x, BitsPerByte), used + k);
    }
    assert BytesToBits(b)[..8 * pos + used] == done + head by {
      TailView(b, pos);
      PrefixPastFirst(done, tail, used);
    }
    AppendAssoc(done, head, bits);
  }

  /** One OR step of write_bits_ that leaves room in the tail byte: the k
      bits of v, shifted left to sit right after the first `used` bits, are
      OR-ed into it; the cursor stays in that byte, now `used + k` bits in,
      and the new state commits the old bits followed by v's k bits. */
  lemma {:induction false} ExtendTail(b: seq<Byte>, pos: nat, used: nat, v: nat, k: nat, offset: nat)
    requires |b| == pos + 1 && 0 < used + k < 8 && used + k + offset == 8 && v < Pow2(k)
    requires ToBits(b[pos], BitsPerByte)[used..] == Zeros(8 - used)
    ensures BitOr(b[pos], Shl(v, offset)) % 256 == BitOr(b[pos], Shl(v, offset)) < 256
    ensures var b' := b[pos := BitOr(b[pos], Shl(v, offset)) % 256];
      WellFormed(b', pos, used + k) &&
      CommittedBits(b', pos, used + k) == BytesToBits(b)[..8 * pos + used] + ToBits(v, k)
  {
    PlaceInTail(b, pos, used, v, k, offset);
  }

  /** One OR step of write_bits_ that fills the tail byte: as ExtendTail, but
      the cursor moves to the start of the next byte. */
  lemma {:induction false} FillTail(b: seq<Byte>, pos: nat, used: nat, v: nat, k: nat, offset: nat)
    requires |b| == pos + 1 && used + k == 8 && offset == 0 && v < Pow2(k)
    requires ToBits(b[pos], BitsPerByte)[used..] == Zeros(8 - used)
    ensures BitOr(b[pos], Shl(v, offset)) % 256 == BitOr(b[pos], Shl(v, offset)) < 256
    ensures var b' := b[pos := BitOr(b[pos], Shl(v, offset)) % 256];
      WellFormed(b', pos + 1, 0) &&
      CommittedBits(b', pos + 1, 0) == BytesToBits(b)[..8 * pos + used] + ToBits(v, k)
  {
    PlaceInTail(b, pos, used, v, k, offset);
  }

  /** The overflow step of write_bits_: when `bits` bits do not fit after
      the first `used` bits of the tail byte, the high 8 - used bits of data
      fill that byte, the cursor moves to the next byte, and the low
      used + bits - 8 bits are what is left to append. */
  lemma {:induction false} SpillHead(b: seq<Byte>, pos: nat, used: nat, data: nat, bits: nat, rb: nat)
    requires |b| == pos + 1 && used < 8 && used + bits == 8 + rb && 0 < rb && data < Pow2(bits)
    requires ToBits(b[pos], BitsPerByte)[used..] == Zeros(8 - used)
    ensures BitOr(b[pos], Shr(data, rb)) % 256 == BitOr(b[pos], Shr(data, rb)) < 256
    ensures LowBits(data, rb) < Pow2(rb)
    ensures var b' := b[pos := BitOr(b[pos], Shr(data, rb)) % 256];
      WellFormed(b', pos + 1, 0) &&
      CommittedBits(b', pos + 1, 0) + ToBits(LowBits(data, rb), rb) == BytesToBits(b)[..8 * pos + used] + ToBits(data, bits)
  {
    var k := 8 - used;
    SplitHigh(data, bits, k, rb);
    FillTail(b, pos, used, Shr(data, rb), k, 0);
    AppendAssoc(BytesToBits(b)[..8 * pos + used], ToBits(Shr(data, rb), k), ToBits(LowBits(data, rb), rb));
  }

  /** The vector write_bits_ ORs into: the old one, with a zero byte pushed
      when the cursor is at a byte boundary and there are bits to write. */
  function Prepared(bytes: seq<Byte>, bitIndex: nat, bits: nat): seq<Byte> {
    if bitIndex == 0 && bits > 0 then bytes + [0] else bytes
  }

  /** write_bits_ when the bits fit in the tail byte: OR-ing them in, shifted
      left by `offset`, and advancing the cursor (to the next byte when the
      tail byte fills) gives a well-formed state that commits the old bits
      followed by the `bits` bits of data. */
  lemma {:induction false} FitStep(bytes: seq<Byte>, pos: nat, bitIndex: nat, data: nat, bits: nat, offset: nat,
                bytes': seq<Byte>, pos': nat, bitIndex': nat)
    requires WellFormed(bytes, pos, bitIndex) && (bits > 0 || bitIndex > 0)
    requires bitIndex + bits + offset == 8 && data < Pow2(bits)
    requires |Prepared(bytes, bitIndex, bits)| == pos + 1
    requires bytes' == Prepared(bytes, bitIndex, bits)[pos := BitOr(Prepared(bytes, bitIndex, bits)[pos], Shl(data, offset)) % 256]
    requires pos' == (if bitIndex + bits == 8 then pos + 1 else pos)
    requires bitIndex' == (if bitIndex + bits == 8 then 0 else bitIndex + bits)
    ensures WellFormed(bytes', pos', bitIndex')
    ensures CommittedBits(bytes', pos', bitIndex') == CommittedBits(bytes, pos, bitIndex) + ToBits(data, bits)
  {
    var buffer := Prepared(bytes, bitIndex, bits);
    PrepareTail(bytes, buffer, pos, bitIndex);
    if bitIndex + bits == 8 {
      FillTail(buffer, pos, bitIndex, data, bits, offset);
    } else {
      ExtendTail(buffer, pos, bitIndex, data, bits, offset);
    }
  }

  /** write_bits_ when the bits overflow the tail byte: its high bits fill
      the tail byte, the cursor moves to the next byte, and what the new
      state commits followed by the low rb bits still to be written is the
      old bits followed by all `bits` bits of data. */
  lemma {:induction false} SpillStep(bytes: seq<Byte>, pos: nat, bitIndex: nat, data: nat, bits: nat, rb: nat, bytes': seq<Byte>)
    requires WellFormed(bytes, pos, bitIndex)
    requires bitIndex + bits == 8 + rb && 0 < rb && data < Pow2(bits)
    requires |Prepared(bytes, bitIndex, bits)| == pos + 1
    requires bytes' == Prepared(bytes, bitIndex, bits)[pos := BitOr(Prepared(bytes, bitIndex, bits)[pos], Shr(data, rb)) % 256]
    ensures LowBits(data, rb) < Pow2(rb)
    ensures WellFormed(bytes', pos + 1, 0)
    ensures CommittedBits(bytes', pos + 1, 0) + ToBits(LowBits(data, rb), rb) == CommittedBits(bytes, pos, bitIndex) + ToBits(data, bits)
  {
    var buffer := Prepared(bytes, bitIndex, bits);
    PrepareTail(bytes, buffer, pos, bitIndex);
    SpillHead(buffer, pos, bitIndex, data, bits, rb);
  }

  /** The byte loop of write_bytes_ at a byte boundary: pushing the n
      big-endian bytes of data and moving the cursor n bytes on keeps the
      invariant and commits the low 8n bits of data. */
  lemma {:induction false} PushBytesStep(bytes: seq<Byte>, pos: nat, data: nat, n: nat, bytes': seq<Byte>, pos': nat)
    requires WellFormed(bytes, pos, 0)
    requires bytes' == bytes + BigEndian(data, n) && pos' == pos + n
    ensures WellFormed(bytes', pos', 0)
    ensures CommittedBits(bytes', pos', 0) == CommittedBits(bytes, pos, 0) + ToBits(data, 8 * n)
  {
    BytesToBitsAppend(bytes, BigEndian(data, n));
    BigEndianBits(data, n);
    assert CommittedBits(bytes, pos, 0) == BytesToBits(bytes);
    assert CommittedBits(bytes', pos', 0) == BytesToBits(bytes');
  }

  /** At a byte boundary the two paths of write_bytes_ agree: any well-formed
      state that commits the old bits followed by the low 8n bits of data, as
      write_bits_ leaves it, is exactly the old bytes with the n big-endian
      bytes of data pushed and the cursor n bytes on. */
  lemma {:induction false} AlignedWriteIsPush(bytes: seq<Byte>, pos: nat, data: nat, n: nat, bytes': seq<Byte>, pos': nat, bitIndex': nat)
    requires WellFormed(bytes, pos, 0) && WellFormed(bytes', pos', bitIndex')
    requires CommittedBits(bytes', pos', bitIndex') == CommittedBits(bytes, pos, 0) + ToBits(data, 8 * n)
    ensures bytes' == bytes + BigEndian(data, n) && pos' == pos + n && bitIndex' == 0
  {
    PushBytesStep(bytes, pos, data, n, bytes + BigEndian(data, n), pos + n);
    SameCommittedSameState(bytes', pos', bitIndex', bytes + BigEndian(data, n), pos + n, 0);
  }
}
