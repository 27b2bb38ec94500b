/** The readers' core: read_bits_ takes the big-endian value of any run of
    bits by absolute bit offset, byte by byte, and read_bytes_ reads whole
    bytes through it. Both fail when the run lies past the end of the bytes. */
module BitReads {
  import opened Arith
  import opened Bits
  import opened SeqFacts

  /** A read either yields a value or fails because the requested bits lie
      beyond the end of the byte vector. */
  datatype Result<T> = Ok(value: T) | OutOfRange

  /** The width of the unsigned results of the readers (`uint32_t`). */
  const WordBits: nat := 32

  /** Conversion to `uint32_t`: the low 32 bits of the value. */
  function ToUint32(x: nat): nat {
    LowBits(x, WordBits)
  }

  /** The conversion keeps the value modulo 2^32. */
  lemma {:induction false} ToUint32IsMod(x: nat)
    ensures ToUint32(x) == x % 0x1_0000_0000 && ToUint32(x) < 0x1_0000_0000
  {
    LowBitsIsMod(x, WordBits);
    Pow2Widths();
  }

  /** A value that fits in 32 bits is its own `uint32_t` conversion. */
  lemma {:induction false} SmallIsUnchanged(x: nat, n: nat)
    requires n <= WordBits && x < Pow2(n)
    ensures ToUint32(x) == x
  {
    Pow2Monotone(n, WordBits);
    LowBitsIsMod(x, WordBits);
    SmallDivMod(x, Pow2(WordBits));
  }

  /** Bits o .. o+k-1 of byte p are bits 8p+o .. 8p+o+k-1 of the vector. */
  lemma {:induction false} RunAt(bytes: seq<Byte>, p: nat, o: nat, k: nat)
    requires o + k <= 8 && p < |bytes|
    ensures BytesToBits(bytes)[8 * p + o .. 8 * p + o + k] == ToBits(bytes[p], BitsPerByte)[o .. o + k]
  {
    var head, tail := ToBits(bytes[0], BitsPerByte), BytesToBits(bytes[1..]);
    assert BytesToBits(bytes) == head + tail;
    if p == 0 {
      RunInFirst(head, tail, 8 * p + o, k);
      assert 8 * p + o == o;
    } else {
      RunAt(bytes[1..], p - 1, o, k);
      assert bytes[1..][p - 1] == bytes[p];
      RunInSecond(head, tail, 8 * p + o, 8 * (p - 1) + o, k);
    }
  }

  /** The value of a run of n bits that starts at bit i, which is bit o of
      byte p, and ends inside that byte: the byte with its first o bits
      masked off, shifted right past the end of the run. */
  lemma {:induction false} ReadWithinByte(bytes: seq<Byte>, i: nat, p: nat, o: nat, n: nat)
    requires i == 8 * p + o && o + n <= 8 && p < |bytes|
    ensures FromBits(BytesToBits(bytes)[i .. i + n]) == Shr(LowBits(bytes[p], 8 - o), 8 - n - o)
  {
    RunAt(bytes, p, o, n);
    SliceValue(bytes[p], BitsPerByte, o, n);
    assert BitsPerByte - o - n == 8 - n - o;
  }

  /** The value of a run of n bits that starts at bit i, which is bit o of
      byte p, and leaves that byte: the masked rest of the byte, shifted left
      past the bits still to come, plus the value of those bits. */
  lemma {:induction false} ReadAcrossByte(bytes: seq<Byte>, i: nat, p: nat, o: nat, n: nat, m: nat)
    requires i == 8 * p + o && o < 8 && m == 8 - o && o + n > 8 && i + n <= 8 * |bytes|
    ensures p < |bytes|
    ensures FromBits(BytesToBits(bytes)[i .. i + n])
         == Shl(LowBits(bytes[p], m), n - m) + FromBits(BytesToBits(bytes)[i + m .. i + m + (n - m)])
  {
    var bits := BytesToBits(bytes);
    assert i + m + (n - m) == i + n;
    SplitRun(bits, i, i + m, i + n);
    FromBitsAppend(bits[i .. i + m], bits[i + m .. i + n]);
    ReadWithinByte(bytes, i, p, o, m);
    assert 8 - m - o == 0;
    ShlIsMul(LowBits(bytes[p], m), n - m);
  }

  /** A byte is its own low 8 bits, so the unmasked byte equals the masked one. */
  lemma {:induction false} LowBitsOfByte(b: Byte)
    ensures LowBits(b, 8) == b
  {
    LowBitsIsMod(b, 8);
    Pow2Widths();
    DivModUnique(b, 256, 0, b);
  }

  /** read_bits_: bits bitIndex .. bitIndex+numBits-1 read byte by byte and
      added to the accumulator ret, the result returned as a 32-bit unsigned
      value. The bounds check comes before any byte is touched. */
  function ReadBitsFrom(bytes: seq<Byte>, bitIndex: nat, numBits: nat, ret: nat): (r: Result<nat>)
    requires 1 <= numBits <= WordBits
    ensures r.OutOfRange? <==> bitIndex + numBits > |bytes| * 8
    decreases numBits
  {
    if bitIndex + numBits > |bytes| * 8 then OutOfRange
    else
      var pos := bitIndex / 8;
      var start := bitIndex - pos * 8;
      if start + numBits - 1 >= 8 then
        // The run leaves this byte: keep its bits from `start` on and weigh
        // them above the numBits - bitsRead bits still to be read.
        var bitsRead := 8 - start;
        var byte := LowBits(bytes[pos], bitsRead);
        ReadBitsFrom(bytes, bitIndex + bitsRead, numBits - bitsRead, ret + Shl(byte, numBits - bitsRead))
      else
        var byte := if start > 0 then LowBits(bytes[pos], 8 - start) else bytes[pos];
        Ok(ToUint32(ret + Shr(byte, 8 - numBits - start)))
  }

  /** Adding a run's high part to the accumulator first and its rest later
      adds the whole run. */
  lemma {:induction false} AddRun(ret: nat, high: nat, rest: nat, all: nat, v: Result<nat>)
    requires all == high + rest
    requires v.Ok? ==> v.value == ToUint32(ret + high + rest)
    ensures v.Ok? ==> v.value == ToUint32(ret + all)
  {
  }

  /** A read that leaves its first byte is the read of the bits after that
      byte, with the masked rest of the byte, weighed above them, already in
      the accumulator. */
  lemma {:induction false} ReadAcrossStep(bytes: seq<Byte>, bitIndex: nat, numBits: nat, ret: nat, bitsRead: nat, high: nat)
    requires 1 <= numBits <= WordBits && bitIndex + numBits <= |bytes| * 8
    requires bitsRead == 8 - (bitIndex - bitIndex / 8 * 8) && bitsRead < numBits
    requires high == Shl(LowBits(bytes[bitIndex / 8], bitsRead), numBits - bitsRead)
    ensures ReadBitsFrom(bytes, bitIndex, numBits, ret)
         == ReadBitsFrom(bytes, bitIndex + bitsRead, numBits - bitsRead, ret + high)
  {
  }

  /** A read that ends inside its first byte yields ret plus the value of the run. */
  lemma {:induction false} ReadWithinStep(bytes: seq<Byte>, bitIndex: nat, numBits: nat, ret: nat)
    requires 1 <= numBits <= WordBits && bitIndex + numBits <= |bytes| * 8
    requires (bitIndex - bitIndex / 8 * 8) + numBits <= 8
    ensures ReadBitsFrom(bytes, bitIndex, numBits, ret)
         == Ok(ToUint32(ret + FromBits(BytesToBits(bytes)[bitIndex .. bitIndex + numBits])))
  {
    var pos := bitIndex / 8;
    var start := bitIndex - pos * 8;
    assert ReadBitsFrom(bytes, bitIndex, numBits, ret)
        == Ok(ToUint32(ret + Shr(LowBits(bytes[pos], 8 - start), 8 - numBits - start))) by {
      LowBitsOfByte(bytes[pos]);
    }
    ReadWithinByte(bytes, bitIndex, pos, start, numBits);
  }

  /** One step of ReadBitsValue across a byte boundary: what holds for the
      read of the bits after the first byte holds for the whole read. */
  lemma {:induction false} ReadAcrossValue(bytes: seq<Byte>, bitIndex: nat, numBits: nat, ret: nat, bitsRead: nat, high: nat)
    requires 1 <= numBits <= WordBits && bitIndex + numBits <= |bytes| * 8
    requires bitsRead == 8 - (bitIndex - bitIndex / 8 * 8) && bitsRead < numBits
    requires high == Shl(LowBits(bytes[bitIndex / 8], bitsRead), numBits - bitsRead)
    requires ReadBitsFrom(bytes, bitIndex + bitsRead, numBits - bitsRead, ret + high).Ok? ==>
      ReadBitsFrom(bytes, bitIndex + bitsRead, numBits - bitsRead, ret + high).value
        == ToUint32(ret + high + FromBits(BytesToBits(bytes)[bitIndex + bitsRead .. bitIndex + bitsRead + (numBits - bitsRead)]))
    ensures ReadBitsFrom(bytes, bitIndex, numBits, ret).Ok? ==>
      ReadBitsFrom(bytes, bitIndex, numBits, ret).value
        == ToUint32(ret + FromBits(BytesToBits(bytes)[bitIndex .. bitIndex + numBits]))
  {
    ReadAcrossStep(bytes, bitIndex, numBits, ret, bitsRead, high);
    ReadAcrossByte(bytes, bitIndex, bitIndex / 8, bitIndex - bitIndex / 8 * 8, numBits, bitsRead);
    AddRun(ret, high, FromBits(BytesToBits(bytes)[bitIndex + bitsRead .. bitIndex + bitsRead + (numBits - bitsRead)]),
      FromBits(BytesToBits(bytes)[bitIndex .. bitIndex + numBits]),
      ReadBitsFrom(bytes, bitIndex + bitsRead, numBits - bitsRead, ret + high));
  }

  /** What read_bits_ returns, when the run is in range: ret plus the
      big-endian value of the run, as a 32-bit unsigned value. */
  lemma {:induction false} ReadBitsValue(bytes: seq<Byte>, bitIndex: nat, numBits: nat, ret: nat)
    requires 1 <= numBits <= WordBits
    ensures ReadBitsFrom(bytes, bitIndex, numBits, ret).Ok? ==>
      ReadBitsFrom(bytes, bitIndex, numBits, ret).value
        == ToUint32(ret + FromBits(BytesToBits(bytes)[bitIndex .. bitIndex + numBits]))
    decreases numBits
  {
    if bitIndex + numBits <= |bytes| * 8 {
      var bitsRead: nat := 8 - (bitIndex - bitIndex / 8 * 8);
      if bitsRead < numBits {
        var high := Shl(LowBits(bytes[bitIndex / 8], bitsRead), numBits - bitsRead);
        ReadBitsValue(bytes, bitIndex + bitsRead, numBits - bitsRead, ret + high);
        ReadAcrossValue(bytes, bitIndex, numBits, ret, bitsRead, high);
      } else {
        ReadWithinStep(bytes, bitIndex, numBits, ret);
      }
    }
  }

  /** The low o+1 bits of x are its low o bits plus bit o weighed by 2^o. */
  lemma {:induction false} LowBitsStep(x: nat, o: nat)
    ensures LowBits(x, o + 1) == LowBits(x, o) + LowBits(Shr(x, o), 1) * Pow2(o)
  {
    LowBitsIsMod(x, o + 1);
    LowBitsIsMod(x, o);
    LowBitsIsMod(Shr(x, o), 1);
    ShrIsDiv(x, o);
    ModPow2Step(x, o);
  }

  /** One turn of the weighting loop: bit `offset` of the byte, weighed by
      2^(base + offset), extends the low bits already weighed by one. */
  lemma {:induction false} WeighStep(byte: nat, offset: nat, base: nat)
    ensures LowBits(byte, offset + 1) * Pow2(base)
         == LowBits(byte, offset) * Pow2(base) + LowBits(Shr(byte, offset), 1) * Pow2(base + offset)
  {
    LowBitsStep(byte, offset);
    Pow2Add(base, offset);
    Distribute(LowBits(byte, offset), LowBits(Shr(byte, offset), 1), Pow2(offset), Pow2(base));
  }

  lemma {:induction false} Distribute(low: nat, bit: nat, weight: nat, scale: nat)
    ensures (low + bit * weight) * scale == low * scale + bit * (scale * weight)
  {
  }

  /** After the weighting loop has run over all bitsRead bits of a byte
      below 2^bitsRead, it has added the byte shifted left by base. */
  lemma {:induction false} WeighDone(byte: nat, bitsRead: nat, base: nat)
    requires byte < Pow2(bitsRead)
    ensures LowBits(byte, bitsRead) * Pow2(base) == Shl(byte, base)
  {
    LowBitsIsMod(byte, bitsRead);
    SmallDivMod(byte, Pow2(bitsRead));
    ShlIsMul(byte, base);
  }

  /** The weighting loop of read_bits_: it adds bit j of the masked byte,
      counted from the least significant end, with weight
      2^(numBits - bitsRead + j), for each j below bitsRead, which is adding
      the byte shifted left by numBits - bitsRead. */
  method WeighLowBits(byte: nat, numBits: nat, bitsRead: nat, ret: nat) returns (acc: nat)
    requires bitsRead <= numBits && byte < Pow2(bitsRead)
    ensures acc == ret + Shl(byte, numBits - bitsRead)
  {
    var base: nat := numBits - bitsRead;
    acc := ret;
    var p: nat := base;
    var offset: nat := 0;
    while p < numBits
      invariant p <= numBits && offset == p - base
      invariant acc == ret + LowBits(byte, offset) * Pow2(base)
    {
      WeighStep(byte, offset, base);
      acc := acc + LowBits(Shr(byte, offset), 1) * Pow2(p);
      p := p + 1;
      offset := offset + 1;
    }
    WeighDone(byte, bitsRead, base);
  }

  /** read_bits_ as the buffer runs it: the bounds check, then either the
      last byte of the run (mask, shift, add, truncate to 32 bits) or the
      masked rest of the current byte added bit by bit with weight 2^p, and
      the same on the bits after it. It computes exactly ReadBitsFrom. */
  method ReadBitsOf(bytes: seq<Byte>, bitIndex: nat, numBits: nat, ret: nat) returns (r: Result<nat>)
    requires 1 <= numBits <= WordBits
    ensures r == ReadBitsFrom(bytes, bitIndex, numBits, ret)
    decreases numBits
  {
    if bitIndex + numBits > |bytes| * 8 {
      return OutOfRange;
    }
    var pos := bitIndex / 8;
    var start: nat := bitIndex - pos * 8;
    var end := start + numBits - 1;
    if end >= 8 {
      // Here 8 - numBits - start is negative, so only the mask 0xFF >> start applies.
      var bitsRead: nat := 8 - start;
      var byte := LowBits(bytes[pos], bitsRead);
      LowBitsBound(bytes[pos], bitsRead);
      var acc := WeighLowBits(byte, numBits, bitsRead, ret);
      r := ReadBitsOf(bytes, bitIndex + bitsRead, numBits - bitsRead, acc);
      return;
    }
    var byte := bytes[pos];
    if start > 0 {
      byte := LowBits(byte, 8 - start);
    }
    var shift: nat := 8 - numBits - start;
    byte := Shr(byte, shift);
    r := Ok(ToUint32(ret + byte));
  }

  /** What read_bits_ returns from an empty accumulator, when the run is in
      range: the big-endian value of the run, which fits in numBits bits, so
      the 32-bit conversion loses nothing. */
  lemma {:induction false} ReadRunValue(bytes: seq<Byte>, firstBit: nat, numBits: nat)
    requires 1 <= numBits <= WordBits
    ensures ReadBitsFrom(bytes, firstBit, numBits, 0).Ok? ==>
      ReadBitsFrom(bytes, firstBit, numBits, 0).value == FromBits(BytesToBits(bytes)[firstBit .. firstBit + numBits])
    ensures ReadBitsFrom(bytes, firstBit, numBits, 0).Ok? ==>
      ReadBitsFrom(bytes, firstBit, numBits, 0).value < Pow2(numBits)
  {
    if firstBit + numBits <= |bytes| * 8 {
      var run := BytesToBits(bytes)[firstBit .. firstBit + numBits];
      ReadBitsValue(bytes, firstBit, numBits, 0);
      assert |run| == numBits;
      SmallIsUnchanged(FromBits(run), numBits);
    }
  }

  /** A 1-bit read yields 1 or 0 as the bit is set or not. */
  lemma {:induction false} ReadSingleBit(bytes: seq<Byte>, firstBit: nat)
    ensures ReadBitsFrom(bytes, firstBit, 1, 0).Ok? ==>
      firstBit < |BytesToBits(bytes)| &&
      ReadBitsFrom(bytes, firstBit, 1, 0).value == if BytesToBits(bytes)[firstBit] then 1 else 0
  {
    if firstBit + 1 <= |bytes| * 8 {
      var run := BytesToBits(bytes)[firstBit .. firstBit + 1];
      ReadRunValue(bytes, firstBit, 1);
      FromBitsSingle(run);
    }
  }

  /** Bytes byteIndex .. byteIndex+numBytes-1 are bits 8 byteIndex .. 8 (byteIndex+numBytes)-1. */
  lemma {:induction false} BytesRun(bytes: seq<Byte>, byteIndex: nat, numBytes: nat)
    requires byteIndex + numBytes <= |bytes|
    ensures BytesToBits(bytes)[byteIndex * 8 .. byteIndex * 8 + numBytes * 8]
         == BytesToBits(bytes[byteIndex .. byteIndex + numBytes])
  {
    var pre, run, post := bytes[..byteIndex], bytes[byteIndex .. byteIndex + numBytes], bytes[byteIndex + numBytes..];
    SplitThree(bytes, byteIndex, byteIndex + numBytes);
    BytesToBitsAppend(pre + run, post);
    BytesToBitsAppend(pre, run);
    MiddleOfThree(BytesToBits(pre), BytesToBits(run), BytesToBits(post));
  }

  /** read_bytes_: numBytes bytes from byteIndex on, read as bits through
      read_bits_ after checking that the bytes exist. */
  function ReadBytesFrom(bytes: seq<Byte>, byteIndex: nat, numBytes: nat): (r: Result<nat>)
    requires 1 <= numBytes <= 4
    ensures r.OutOfRange? <==> byteIndex + numBytes > |bytes|
  {
    if byteIndex + numBytes > |bytes| then OutOfRange
    else ReadBitsFrom(bytes, byteIndex * 8, numBytes * 8, 0)
  }

  /** What read_bytes_ returns, when the bytes exist: their big-endian value,
      which fits in 8 numBytes bits (so the 32-bit conversion loses nothing). */
  lemma {:induction false} ReadBytesValue(bytes: seq<Byte>, byteIndex: nat, numBytes: nat)
    requires 1 <= numBytes <= 4
    ensures ReadBytesFrom(bytes, byteIndex, numBytes).Ok? ==>
      ReadBytesFrom(bytes, byteIndex, numBytes).value == FromBits(BytesToBits(bytes[byteIndex .. byteIndex + numBytes]))
    ensures ReadBytesFrom(bytes, byteIndex, numBytes).Ok? ==>
      ReadBytesFrom(bytes, byteIndex, numBytes).value < Pow2(8 * numBytes)
  {
    if byteIndex + numBytes <= |bytes| {
      BytesRun(bytes, byteIndex, numBytes);
      ReadRunValue(bytes, byteIndex * 8, numBytes * 8);
    }
  }
}
