/** Facts about the bits the test scenarios write, kept apart from the
    buffer so that they are proved in the context of Bits alone. */
module ScenarioBits {
  import opened Arith
  import opened Bits
  import opened SeqFacts

  /** The run widths of MixedRuns: one, two, four and eight bits, with
      their powers of two. They are parameters of the lemmas below, tied to
      the numbers only here, so that the proofs work on whole runs: with the
      literal widths in scope the solver expands the bit sequences element
      by element, which makes these proofs slow and erratic.
      The requires of the scenario lemmas write the committed bits as
      `[] + ToBits(..) + ...` because that is the exact term the writers'
      ensures produce from an empty buffer (old committed bits `[]`). */
  predicate RunWidths(w1: nat, w2: nat, w4: nat, w8: nat) {
    w2 == w1 + w1 && w4 == w2 + w2 && w8 == w4 + w4 &&
    Pow2(w1) == 2 && Pow2(w2) == 4 && Pow2(w4) == 16 && Pow2(w8) == 256 && Pow2(w8 + w8) == 65536
  }

  lemma {:induction false} RunWidthsHold(w1: nat, w2: nat, w4: nat, w8: nat)
    requires w1 == 1 && w2 == 2 && w4 == 4 && w8 == 8
    ensures RunWidths(w1, w2, w4, w8)
  {
    Pow2Widths();
  }

  /** The four runs of the first byte of MixedRuns, joined. */
  lemma {:induction false} JoinFirstByte(a: nat, b: nat, c: nat, d: nat, w1: nat, w2: nat, w4: nat, w8: nat)
    requires b < 2 && c < 4 && d < 16
    requires RunWidths(w1, w2, w4, w8)
    ensures ToBits(a, w1) + ToBits(b, w1) + ToBits(c, w2) + ToBits(d, w4) == ToBits(((a * 2 + b) * 4 + c) * 16 + d, w8)
  {
    var h1: nat := a * 2 + b;
    ToBitsJoin(a, b, w1, w1, 2);
    assert ToBits(a, w1) + ToBits(b, w1) == ToBits(h1, w2);
    var h2: nat := h1 * 4 + c;
    ToBitsJoin(h1, c, w2, w2, 4);
    assert ToBits(a, w1) + ToBits(b, w1) + ToBits(c, w2) == ToBits(h2, w4);
    ToBitsJoin(h2, d, w4, w4, 16);
  }

  /** All the bits MixedRuns writes are byte 0, the four runs joined,
      followed by the eight bits of e. */
  lemma {:induction false} SplitMixedRuns(a: nat, b: nat, c: nat, d: nat, e: nat, w1: nat, w2: nat, w4: nat, w8: nat, all: seq<bool>)
    requires a < 2 && b < 2 && c < 4 && d < 16
    requires RunWidths(w1, w2, w4, w8)
    requires all == [] + ToBits(a, w1) + ToBits(b, w1) + ToBits(c, w2) + ToBits(d, w4) + ToBits(e, w8)
    ensures ((a * 2 + b) * 4 + c) * 16 + d < Pow2(w8)
    ensures all == ToBits(((a * 2 + b) * 4 + c) * 16 + d, w8) + ToBits(e, w8)
  {
    var first: nat := ((a * 2 + b) * 4 + c) * 16 + d;
    FirstByteBound(a, b, c, d);
    JoinFirstByte(a, b, c, d, w1, w2, w4, w8);
    RegroupRuns(ToBits(a, w1), ToBits(b, w1), ToBits(c, w2), ToBits(d, w4), ToBits(e, w8),
                ToBits(first, w8), ToBits(first, w8) + ToBits(e, w8));
  }

  /** The value of all the bits MixedRuns writes, read as one number: byte 0
      then byte 1. */
  lemma {:induction false} MixedValue(a: nat, b: nat, c: nat, d: nat, e: nat, w1: nat, w2: nat, w4: nat, w8: nat, all: seq<bool>)
    requires a < 2 && b < 2 && c < 4 && d < 16 && e < 256
    requires RunWidths(w1, w2, w4, w8)
    requires all == [] + ToBits(a, w1) + ToBits(b, w1) + ToBits(c, w2) + ToBits(d, w4) + ToBits(e, w8)
    ensures FromBits(all) == (((a * 2 + b) * 4 + c) * 16 + d) * 256 + e
  {
    var first: nat := ((a * 2 + b) * 4 + c) * 16 + d;
    SplitMixedRuns(a, b, c, d, e, w1, w2, w4, w8, all);
    FromBitsAppend(ToBits(first, w8), ToBits(e, w8));
    FromToBits(first, w8);
    FromToBits(e, w8);
  }

  /** The four runs fill exactly one byte. */
  lemma {:induction false} FirstByteBound(a: nat, b: nat, c: nat, d: nat)
    requires a < 2 && b < 2 && c < 4 && d < 16
    ensures ((a * 2 + b) * 4 + c) * 16 + d < 256
  {
  }

  /** The small powers of two the scenarios use. */
  lemma {:induction false} Pow2Small()
    ensures Pow2(1) == 2 && Pow2(2) == 4 && Pow2(3) == 8 && Pow2(4) == 16
  {
  }
}

/** The three scenarios of the repository's test program, each on a fresh
    buffer: first for any values of the widths the test uses, then with the
    test's own values. */
module Scenarios {
  import opened Arith
  import opened Bits
  import opened BufferState
  import opened BitReads
  import opened BitBuffers
  import opened SeqFacts
  import opened ScenarioBits

  /** One bit x, then y and z in four bits each: y and z read back from bit
      offsets 1 and 5, and bit 1 is the top bit of y. */
  method BitRuns(x: nat, y: nat, z: nat) returns (bit1: Result<nat>, run1: Result<nat>, run5: Result<nat>)
    requires x < 2 && y < 16 && z < 16
    ensures bit1 == Ok(y / 8) && run1 == Ok(y) && run5 == Ok(z)
  {
    var buffer := new BitBuffer(1000);
    buffer.WriteBits(x, 1);
    buffer.WriteBits(y, 4);
    buffer.WriteBits(z, 4);
    bit1 := buffer.ReadBit(1);
    run1 := buffer.ReadBits(1, 4);
    run5 := buffer.ReadBits(5, 4);
    BitRunsRead(buffer.bytes, buffer.pos, buffer.bitIndex, x, y, z);
    BitRunsTopBit(buffer.bytes, buffer.pos, buffer.bitIndex, x, y, z);
  }

  /** The two 4-bit runs BitRuns reads back. */
  lemma {:induction false} BitRunsRead(bytes: seq<Byte>, pos: nat, bitIndex: nat, x: nat, y: nat, z: nat)
    requires WellFormed(bytes, pos, bitIndex)
    requires x < 2 && y < 16 && z < 16
    requires CommittedBits(bytes, pos, bitIndex) == [] + ToBits(x, 1) + ToBits(y, 4) + ToBits(z, 4)
    ensures ReadBitsFrom(bytes, 1, 4, 0) == Ok(y)
    ensures ReadBitsFrom(bytes, 5, 4, 0) == Ok(z)
  {
    var p1 := [] + ToBits(x, 1);
    var p2 := p1 + ToBits(y, 4);
    Pow2Small();
    MiddleOfThree(p1, ToBits(y, 4), ToBits(z, 4));
    ReadBackAt(bytes, pos, bitIndex, 1, y, 4);
    LastPart(p2, ToBits(z, 4));
    ReadBackAt(bytes, pos, bitIndex, 5, z, 4);
  }

  /** Bit 1, read on its own, is the top bit of the first 4-bit run. */
  lemma {:induction false} BitRunsTopBit(bytes: seq<Byte>, pos: nat, bitIndex: nat, x: nat, y: nat, z: nat)
    requires WellFormed(bytes, pos, bitIndex)
    requires x < 2 && y < 16 && z < 16
    requires CommittedBits(bytes, pos, bitIndex) == [] + ToBits(x, 1) + ToBits(y, 4) + ToBits(z, 4)
    ensures ReadBitsFrom(bytes, 1, 1, 0) == Ok(y / 8)
  {
    var p1 := [] + ToBits(x, 1);
    var committed := CommittedBits(bytes, pos, bitIndex);
    assert committed[1 .. 5] == ToBits(y, 4) by {
      MiddleOfThree(p1, ToBits(y, 4), ToBits(z, 4));
    }
    assert ToBits(y, 4) == ToBits(y / 8, 1) + ToBits(y % 8, 3) by {
      Pow2Small();
      ToBitsJoin(y / 8, y % 8, 1, 3, 8);
    }
    assert committed[1 .. 2] == ToBits(y / 8, 1) by {
      FirstPart(ToBits(y / 8, 1), ToBits(y % 8, 3));
      SliceWithin(committed, 1, 5, ToBits(y, 4), 0, 1);
    }
    Pow2Small();
    ReadBackAt(bytes, pos, bitIndex, 1, y / 8, 1);
  }

  /** A 32-bit int i, two 4-bit values e and b, then a short s: each reads
      back, the int and the short as whole bytes, the short as its 16-bit
      two's complement. */
  method WholeAndPartBytes(i: nat, e: nat, b: nat, s: int)
    returns (int0: Result<nat>, run32: Result<nat>, run36: Result<nat>, short5: Result<nat>)
    requires i < 0x1_0000_0000 && e < 16 && b < 16 && -0x8000 <= s < 0x8000
    ensures int0 == Ok(i) && run32 == Ok(e) && run36 == Ok(b) && short5 == Ok(s % 0x1_0000)
  {
    var buffer := new BitBuffer(1000);
    buffer.WriteInt(i);
    buffer.WriteBits(e, 4);
    buffer.WriteBits(b, 4);
    buffer.WriteShort(s);
    int0 := buffer.ReadBytes(0, 4);
    run32 := buffer.ReadBits(32, 4);
    run36 := buffer.ReadBits(36, 4);
    short5 := buffer.ReadBytes(5, 2);
    WholeAndPartBytesRead(buffer.bytes, buffer.pos, buffer.bitIndex, i, e, b, s % 0x1_0000);
  }

  /** What WholeAndPartBytes reads from the bits it wrote. */
  lemma {:induction false} WholeAndPartBytesRead(bytes: seq<Byte>, pos: nat, bitIndex: nat, i: nat, e: nat, b: nat, s: nat)
    requires WellFormed(bytes, pos, bitIndex)
    requires i < 0x1_0000_0000 && e < 16 && b < 16 && s < 0x1_0000
    requires CommittedBits(bytes, pos, bitIndex) == [] + ToBits(i, 32) + ToBits(e, 4) + ToBits(b, 4) + ToBits(s, 16)
    ensures ReadBitsFrom(bytes, 0, 32, 0) == Ok(i)
    ensures ReadBitsFrom(bytes, 32, 4, 0) == Ok(e)
    ensures ReadBitsFrom(bytes, 36, 4, 0) == Ok(b)
    ensures ReadBitsFrom(bytes, 40, 16, 0) == Ok(s)
  {
    var p1 := [] + ToBits(i, 32);
    var p2 := p1 + ToBits(e, 4);
    var p3 := p2 + ToBits(b, 4);
    Pow2Widths();
    Pow2Small();
    MiddleOfThree([], ToBits(i, 32), ToBits(e, 4));
    RunInFirst(p2, ToBits(b, 4), 0, 32);
    RunInFirst(p3, ToBits(s, 16), 0, 32);
    ReadBackAt(bytes, pos, bitIndex, 0, i, 32);
    MiddleOfThree(p1, ToBits(e, 4), ToBits(b, 4));
    RunInFirst(p3, ToBits(s, 16), 32, 4);
    ReadBackAt(bytes, pos, bitIndex, 32, e, 4);
    MiddleOfThree(p2, ToBits(b, 4), ToBits(s, 16));
    ReadBackAt(bytes, pos, bitIndex, 36, b, 4);
    LastPart(p3, ToBits(s, 16));
    ReadBackAt(bytes, pos, bitIndex, 40, s, 16);
  }

  /** Bits a and b, two bits c, four bits d, then the byte e: every run
      reads back, byte 0 is the four runs joined, and the two bytes
      together are byte 0 followed by e. */
  method MixedRuns(a: nat, b: nat, c: nat, d: nat, e: Byte)
    returns (bit0: Result<nat>, bit1: Result<nat>, run2: Result<nat>, run4: Result<nat>,
             byte1: Result<nat>, run8: Result<nat>, byte0: Result<nat>, bytes0: Result<nat>)
    requires a < 2 && b < 2 && c < 4 && d < 16
    ensures bit0 == Ok(a) && bit1 == Ok(b) && run2 == Ok(c) && run4 == Ok(d)
    ensures byte1 == Ok(e) && run8 == Ok(e)
    ensures byte0 == Ok(((a * 2 + b) * 4 + c) * 16 + d)
    ensures bytes0 == Ok((((a * 2 + b) * 4 + c) * 16 + d) * 256 + e)
  {
    var buffer := new BitBuffer(1024);
    buffer.WriteBits(a, 1);
    buffer.WriteBits(b, 1);
    buffer.WriteBits(c, 2);
    buffer.WriteBits(d, 4);
    buffer.WriteByte(e);
    bit0 := buffer.ReadBit(0);
    bit1 := buffer.ReadBit(1);
    run2 := buffer.ReadBits(2, 2);
    run4 := buffer.ReadBits(4, 4);
    byte1 := buffer.ReadByte(1);
    run8 := buffer.ReadBits(8, 8);
    byte0 := buffer.ReadByte(0);
    bytes0 := buffer.ReadBytes(0, 2);
    MixedRunsRead(buffer.bytes, buffer.pos, buffer.bitIndex, a, b, c, d, e);
    RunWidthsHold(1, 2, 4, 8);
    MixedFirstByteRead(buffer.bytes, buffer.pos, buffer.bitIndex, a, b, c, d, e, 1, 2, 4, 8);
    MixedBothBytesRead(buffer.bytes, buffer.pos, buffer.bitIndex, a, b, c, d, e, 1, 2, 4, 8);
  }

  /** The runs MixedRuns reads back one by one. */
  lemma {:induction false} MixedRunsRead(bytes: seq<Byte>, pos: nat, bitIndex: nat, a: nat, b: nat, c: nat, d: nat, e: Byte)
    requires WellFormed(bytes, pos, bitIndex)
    requires a < 2 && b < 2 && c < 4 && d < 16
    requires CommittedBits(bytes, pos, bitIndex) == [] + ToBits(a, 1) + ToBits(b, 1) + ToBits(c, 2) + ToBits(d, 4) + ToBits(e, 8)
    ensures ReadBitsFrom(bytes, 0, 1, 0) == Ok(a) && ReadBitsFrom(bytes, 1, 1, 0) == Ok(b)
    ensures ReadBitsFrom(bytes, 2, 2, 0) == Ok(c) && ReadBitsFrom(bytes, 4, 4, 0) == Ok(d)
    ensures ReadBitsFrom(bytes, 8, 8, 0) == Ok(e)
  {
    var sa, sb, sc, sd, se := ToBits(a, 1), ToBits(b, 1), ToBits(c, 2), ToBits(d, 4), ToBits(e, 8);
    var p1 := [] + sa;
    var p2 := p1 + sb;
    var p3 := p2 + sc;
    var p4 := p3 + sd;
    Pow2Widths();
    Pow2Small();
    MiddleOfThree([], sa, sb);
    RunInFirst(p2, sc, 0, 1);
    RunInFirst(p3, sd, 0, 1);
    RunInFirst(p4, se, 0, 1);
    ReadBackAt(bytes, pos, bitIndex, 0, a, 1);
    MiddleOfThree(p1, sb, sc);
    RunInFirst(p3, sd, 1, 1);
    RunInFirst(p4, se, 1, 1);
    ReadBackAt(bytes, pos, bitIndex, 1, b, 1);
    MiddleOfThree(p2, sc, sd);
    RunInFirst(p4, se, 2, 2);
    ReadBackAt(bytes, pos, bitIndex, 2, c, 2);
    MiddleOfThree(p3, sd, se);
    ReadBackAt(bytes, pos, bitIndex, 4, d, 4);
    LastPart(p4, se);
    ReadBackAt(bytes, pos, bitIndex, 8, e, 8);
  }

  /** Byte 0 as MixedRuns reads it: the four runs joined. The run widths
      are parameters, as in ScenarioBits. */
  lemma {:induction false} MixedFirstByteRead(bytes: seq<Byte>, pos: nat, bitIndex: nat, a: nat, b: nat, c: nat, d: nat, e: Byte,
                                              w1: nat, w2: nat, w4: nat, w8: nat)
    requires WellFormed(bytes, pos, bitIndex)
    requires a < 2 && b < 2 && c < 4 && d < 16
    requires RunWidths(w1, w2, w4, w8) && 1 <= w8 && w8 + w8 <= WordBits
    requires CommittedBits(bytes, pos, bitIndex) == [] + ToBits(a, w1) + ToBits(b, w1) + ToBits(c, w2) + ToBits(d, w4) + ToBits(e, w8)
    ensures ReadBitsFrom(bytes, 0, w8, 0) == Ok(((a * 2 + b) * 4 + c) * 16 + d)
  {
    var first := ((a * 2 + b) * 4 + c) * 16 + d;
    SplitMixedRuns(a, b, c, d, e, w1, w2, w4, w8, CommittedBits(bytes, pos, bitIndex));
    ReadCommitted(bytes, pos, bitIndex, 0, w8);
    FirstPart(ToBits(first, w8), ToBits(e, w8));
    FromToBits(first, w8);
  }

  /** Bytes 0 and 1 as MixedRuns reads them: byte 0, then e. */
  lemma {:induction false} MixedBothBytesRead(bytes: seq<Byte>, pos: nat, bitIndex: nat, a: nat, b: nat, c: nat, d: nat, e: Byte,
                                              w1: nat, w2: nat, w4: nat, w8: nat)
    requires WellFormed(bytes, pos, bitIndex)
    requires a < 2 && b < 2 && c < 4 && d < 16
    requires RunWidths(w1, w2, w4, w8) && 1 <= w8 && w8 + w8 <= WordBits
    requires CommittedBits(bytes, pos, bitIndex) == [] + ToBits(a, w1) + ToBits(b, w1) + ToBits(c, w2) + ToBits(d, w4) + ToBits(e, w8)
    ensures ReadBitsFrom(bytes, 0, w8 + w8, 0) == Ok((((a * 2 + b) * 4 + c) * 16 + d) * 256 + e)
  {
    var all := [] + ToBits(a, w1) + ToBits(b, w1) + ToBits(c, w2) + ToBits(d, w4) + ToBits(e, w8);
    MixedValue(a, b, c, d, e, w1, w2, w4, w8, all);
    ReadCommitted(bytes, pos, bitIndex, 0, w8 + w8);
    WholeRun(CommittedBits(bytes, pos, bitIndex), w8 + w8);
  }

  /** test.cpp with its own values: read_bit(1) is 1 and both runs are 10. */
  method TestBitRuns() returns (bit1: Result<nat>, run1: Result<nat>, run5: Result<nat>)
    ensures bit1 == Ok(1) && run1 == Ok(10) && run5 == Ok(10)
  {
    bit1, run1, run5 := BitRuns(1, 10, 10);
  }

  /** test.cpp with its own values: 100, 14, 11 and 20. */
  method TestWholeAndPartBytes() returns (int0: Result<nat>, run32: Result<nat>, run36: Result<nat>, short5: Result<nat>)
    ensures int0 == Ok(100) && run32 == Ok(14) && run36 == Ok(11) && short5 == Ok(20)
  {
    int0, run32, run36, short5 := WholeAndPartBytes(100, 14, 11, 20);
  }

  /** test.cpp with its own values: byte 0 is 170 and the first two bytes
      are 43620. */
  method TestMixedRuns() returns (bit0: Result<nat>, bit1: Result<nat>, run2: Result<nat>, run4: Result<nat>,
                                  byte1: Result<nat>, run8: Result<nat>, byte0: Result<nat>, bytes0: Result<nat>)
    ensures bit0 == Ok(1) && bit1 == Ok(0) && run2 == Ok(2) && run4 == Ok(10)
    ensures byte1 == Ok(100) && run8 == Ok(100) && byte0 == Ok(170) && bytes0 == Ok(43620)
  {
    bit0, bit1, run2, run4, byte1, run8, byte0, bytes0 := MixedRuns(1, 0, 2, 10, 100);
  }
}
