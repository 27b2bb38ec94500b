/** The abstract view of the buffer: a byte vector read as a sequence of bits,
    each byte most significant bit first, and the big-endian value of a run
    of bits. */
module Bits {
  import opened Arith
  import opened SeqFacts

  /** An unsigned 8-bit value, the element type of the buffer's byte vector. */
  type Byte = b: nat | b < 256

  /** The number of bits in a byte (the writer's `bits_per_byte`). */
  const BitsPerByte: nat := 8

  lemma {:induction false} Pow2Widths()
    ensures Pow2(BitsPerByte) == 256
    ensures Pow2(2 * BitsPerByte) == 65536
    ensures Pow2(4 * BitsPerByte) == 4294967296
  {
    assert Pow2(BitsPerByte) == 256;
    Pow2Add(BitsPerByte, BitsPerByte);
    Pow2Add(2 * BitsPerByte, 2 * BitsPerByte);
  }

  /** The low w bits of v, most significant bit first. */
  function ToBits(v: nat, w: nat): (r: seq<bool>)
    ensures |r| == w
  {
    if w == 0 then [] else ToBits(v / 2, w - 1) + [v % 2 == 1]
  }

  /** The unsigned value of a bit sequence read most significant bit first. */
  function FromBits(bs: seq<bool>): (r: nat)
    ensures r < Pow2(|bs|)
  {
    if |bs| == 0 then 0
    else 2 * FromBits(bs[..|bs| - 1]) + (if bs[|bs| - 1] then 1 else 0)
  }

  function Zeros(k: nat): (r: seq<bool>)
    ensures |r| == k && forall i :: 0 <= i < k ==> !r[i]
  {
    seq(k, _ => false)
  }

  lemma {:induction false} ToBitsZero(k: nat)
    ensures ToBits(0, k) == Zeros(k)
  {
    if k > 0 {
      ToBitsZero(k - 1);
    }
  }

  /** Writing a value in n + k bits is writing its high part, x >> k, in n
      bits followed by its low k bits. */
  lemma {:induction false} ToBitsSplit(x: nat, n: nat, k: nat)
    ensures ToBits(x, n + k) == ToBits(Shr(x, k), n) + ToBits(LowBits(x, k), k)
  {
    if k > 0 {
      ToBitsSplit(x / 2, n, k - 1);
      var m := LowBits(x, k);
      assert m / 2 == LowBits(x / 2, k - 1) && m % 2 == x % 2;
    }
  }

  /** FromBits inverts ToBits on values that fit in the width. */
  lemma {:induction false} FromToBits(v: nat, w: nat)
    requires v < Pow2(w)
    ensures FromBits(ToBits(v, w)) == v
  {
    if w > 0 {
      DivPow2Bound(v, w - 1, 1);
      FromToBits(v / 2, w - 1);
      var bs := ToBits(v, w);
      assert bs[..w - 1] == ToBits(v / 2, w - 1);
    }
  }

  /** ToBits inverts FromBits: a bit sequence is the bits of its own value. */
  lemma {:induction false} ToFromBits(bs: seq<bool>)
    ensures ToBits(FromBits(bs), |bs|) == bs
  {
    if |bs| > 0 {
      var n := |bs|;
      ToFromBits(bs[..n - 1]);
      var f := FromBits(bs);
      assert f / 2 == FromBits(bs[..n - 1]) && (f % 2 == 1) == bs[n - 1];
      assert bs == bs[..n - 1] + [bs[n - 1]];
    }
  }

  /** The value of a concatenation: the first part is weighted by 2^|ys|. */
  lemma {:induction false} FromBitsAppend(xs: seq<bool>, ys: seq<bool>)
    ensures FromBits(xs + ys) == FromBits(xs) * Pow2(|ys|) + FromBits(ys)
    decreases |ys|
  {
    if |ys| == 0 {
      assert xs + ys == xs;
    } else {
      var n := |ys|;
      var init := ys[..n - 1];
      var b := if ys[n - 1] then 1 else 0;
      FromBitsAppend(xs, init);
      assert FromBits(xs + ys) == 2 * FromBits(xs + init) + b by {
        assert (xs + ys)[..|xs + ys| - 1] == xs + init;
      }
      assert FromBits(ys) == 2 * FromBits(init) + b by {
        assert ys[..n - 1] == init;
      }
      DoubleSum(FromBits(xs), Pow2(n - 1), FromBits(init), b);
    }
  }

  lemma {:induction false} DoubleSum(a: nat, p: nat, c: nat, b: nat)
    ensures 2 * (a * p + c) + b == a * (2 * p) + (2 * c + b)
  {
  }

  /** The bit sequence a byte vector stands for: each byte in turn, most
      significant bit first. */
  function BytesToBits(bytes: seq<Byte>): (r: seq<bool>)
    ensures |r| == 8 * |bytes|
  {
    if |bytes| == 0 then [] else ToBits(bytes[0], BitsPerByte) + BytesToBits(bytes[1..])
  }

  lemma {:induction false} BytesToBitsAppend(a: seq<Byte>, b: seq<Byte>)
    ensures BytesToBits(a + b) == BytesToBits(a) + BytesToBits(b)
  {
    if |a| == 0 {
      assert a + b == b;
    } else {
      assert (a + b)[1..] == a[1..] + b;
      BytesToBitsAppend(a[1..], b);
    }
  }

  /** Bitwise OR of two bit sequences of the same length. */
  function OrBits(a: seq<bool>, b: seq<bool>): (r: seq<bool>)
    requires |a| == |b|
    ensures |r| == |a| && forall i :: 0 <= i < |a| ==> r[i] == (a[i] || b[i])
  {
    seq(|a|, i requires 0 <= i < |a| => a[i] || b[i])
  }

  /** BitOr on numbers is OrBits on their bits. */
  lemma {:induction false} BitOrBits(a: nat, b: nat, n: nat)
    requires a < Pow2(n) && b < Pow2(n)
    ensures BitOr(a, b) < Pow2(n)
    ensures ToBits(BitOr(a, b), n) == OrBits(ToBits(a, n), ToBits(b, n))
    decreases n
  {
    if a == 0 {
      ToBitsZero(n);
    } else if b == 0 {
      ToBitsZero(n);
    } else {
      DivPow2Bound(a, n - 1, 1);
      DivPow2Bound(b, n - 1, 1);
      BitOrBits(a / 2, b / 2, n - 1);
      var c := BitOr(a, b);
      assert c / 2 == BitOr(a / 2, b / 2);
    }
  }

  /** Shifting left by o bits appends o zero bits. */
  lemma {:induction false} ShiftBits(v: nat, n: nat, o: nat)
    ensures ToBits(Shl(v, o), n + o) == ToBits(v, n) + Zeros(o)
  {
    if o > 0 {
      ShiftBits(v, n, o - 1);
      var y := Shl(v, o - 1);
      assert Shl(v, o) / 2 == y && Shl(v, o) % 2 == 0;
      assert Zeros(o - 1) + [false] == Zeros(o);
    }
  }

  /** A k-bit value shifted left by o bits fits in k + o bits. */
  lemma {:induction false} ShlBound(v: nat, k: nat, o: nat)
    requires v < Pow2(k)
    ensures Shl(v, o) < Pow2(k + o)
  {
    ShlIsMul(v, o);
    Pow2Add(k, o);
    MulAddBound(v, Pow2(k), 0, Pow2(o));
  }

  /** v << o, for v below 2^k, written in used + k + o bits: `used` zero
      bits, the k bits of v, then o zero bits. */
  lemma {:induction false} ShiftedIntoWord(v: nat, k: nat, o: nat, used: nat, n: nat)
    requires used + k + o == n && v < Pow2(k)
    ensures Shl(v, o) < Pow2(n)
    ensures ToBits(Shl(v, o), n) == Zeros(used) + ToBits(v, k) + Zeros(o)
  {
    var m := k + o;
    var x := Shl(v, o);
    ShlBound(v, k, o);
    assert x < Pow2(n) by {
      Pow2Monotone(m, n);
    }
    ShiftBits(v, k, o);
    assert ToBits(x, n) == Zeros(used) + ToBits(x, m) by {
      ToBitsSplit(x, used, m);
      ShrIsDiv(x, m);
      LowBitsIsMod(x, m);
      SmallDivMod(x, Pow2(m));
      ToBitsZero(used);
    }
    AppendAssoc(Zeros(used), ToBits(v, k), Zeros(o));
  }

  /** OR-ing a word whose bits from `used` on are zero with one that is zero
      outside a middle run vs keeps the prefix and places the run after it. */
  lemma {:induction false} OrIntoZeros(ts: seq<bool>, xs: seq<bool>, used: nat, vs: seq<bool>, o: nat)
    requires |ts| == used + |vs| + o && ts[used..] == Zeros(|vs| + o)
    requires xs == Zeros(used) + vs + Zeros(o)
    ensures OrBits(ts, xs) == ts[..used] + vs + Zeros(o)
  {
    var e := ts[..used] + vs + Zeros(o);
    forall i | 0 <= i < |ts|
      ensures OrBits(ts, xs)[i] == e[i]
    {
      if i >= used {
        assert ts[i] == ts[used..][i - used];
      }
    }
  }

  /** OR-ing the k bits of v, shifted to sit right after the first `used` bits
      of an n-bit word whose remaining bits are zero, appends exactly those k
      bits to the used prefix and leaves the bits after them zero. */
  lemma {:induction false} OrIntoTail(t: nat, n: nat, used: nat, v: nat, k: nat, o: nat)
    requires used + k + o == n && t < Pow2(n) && v < Pow2(k)
    requires ToBits(t, n)[used..] == Zeros(n - used)
    ensures BitOr(t, Shl(v, o)) < Pow2(n)
    ensures ToBits(BitOr(t, Shl(v, o)), n) == ToBits(t, n)[..used] + ToBits(v, k) + Zeros(o)
  {
    ShiftedIntoWord(v, k, o, used, n);
    BitOrBits(t, Shl(v, o), n);
    OrIntoZeros(ToBits(t, n), ToBits(Shl(v, o), n), used, ToBits(v, k), o);
  }

  /** The bits of a value below 2^(k + rb): its high k bits, data >> rb,
      followed by its low rb bits, data & (2^rb - 1). */
  lemma {:induction false} SplitHigh(data: nat, bits: nat, k: nat, rb: nat)
    requires bits == k + rb && data < Pow2(bits)
    ensures Shr(data, rb) < Pow2(k) && LowBits(data, rb) < Pow2(rb)
    ensures ToBits(data, bits) == ToBits(Shr(data, rb), k) + ToBits(LowBits(data, rb), rb)
  {
    ShrBound(data, k, rb);
    LowBitsBound(data, rb);
    ToBitsSplit(data, k, rb);
  }

  /** The big-endian value of bits s .. s+k-1 of an n-bit word: mask off the
      first s bits, then shift the bits after the run away. */
  lemma {:induction false} SliceValue(b: nat, n: nat, s: nat, k: nat)
    requires s + k <= n
    ensures FromBits(ToBits(b, n)[s .. s + k]) == Shr(LowBits(b, n - s), n - s - k)
  {
    var o := n - s - k;
    var m := LowBits(b, n - s);
    ToBitsSplit(b, s, n - s);
    ToBitsSplit(m, k, o);
    assert ToBits(b, n)[s .. s + k] == ToBits(Shr(m, o), k);
    LowBitsBound(b, n - s);
    ShrBound(m, k, o);
    FromToBits(Shr(m, o), k);
  }

  /** The n bytes of v, most significant first (the low 8n bits of v). */
  function BigEndian(v: nat, n: nat): (r: seq<Byte>)
    ensures |r| == n
  {
    if n == 0 then [] else BigEndian(v / 256, n - 1) + [v % 256]
  }

  /** Pushing the big-endian bytes of v appends exactly the low 8n bits of v. */
  lemma {:induction false} BigEndianBits(v: nat, n: nat)
    ensures BytesToBits(BigEndian(v, n)) == ToBits(v, 8 * n)
  {
    if n > 0 {
      BigEndianBits(v / 256, n - 1);
      BytesToBitsAppend(BigEndian(v / 256, n - 1), [v % 256]);
      assert BytesToBits([v % 256]) == ToBits(v % 256, BitsPerByte) + BytesToBits([]);
      Pow2Widths();
      ToBitsSplit(v, 8 * (n - 1), BitsPerByte);
      ShrIsDiv(v, BitsPerByte);
      LowBitsIsMod(v, BitsPerByte);
    }
  }

  /** Packs bits into bytes, most significant bit first, padding the last byte
      with zero bits. */
  function Pack(bits: seq<bool>): (r: seq<Byte>)
    ensures |r| == (|bits| + 7) / 8
    decreases |bits|
  {
    Pow2Widths();
    if |bits| == 0 then []
    else if |bits| < 8 then [FromBits(bits + Zeros(8 - |bits|))]
    else [FromBits(bits[..8])] + Pack(bits[8..])
  }

  /** Unpacking packed bits gives the bits back, followed by the zero padding. */
  lemma {:induction false} PackUnpack(bits: seq<bool>)
    ensures BytesToBits(Pack(bits)) == bits + Zeros(8 * ((|bits| + 7) / 8) - |bits|)
    decreases |bits|
  {
    if |bits| == 0 {
    } else if |bits| < 8 {
      var padded := bits + Zeros(8 - |bits|);
      ToFromBits(padded);
      assert BytesToBits(Pack(bits)) == ToBits(FromBits(padded), BitsPerByte) + BytesToBits([]);
    } else {
      PackUnpack(bits[8..]);
      ToFromBits(bits[..8]);
      assert bits == bits[..8] + bits[8..];
    }
  }

  /** Packing the bits of a byte vector gives the byte vector back. */
  lemma {:induction false} UnpackPack(bytes: seq<Byte>)
    ensures Pack(BytesToBits(bytes)) == bytes
  {
    if |bytes| > 0 {
      var bits := BytesToBits(bytes);
      assert bits[..8] == ToBits(bytes[0], BitsPerByte) && bits[8..] == BytesToBits(bytes[1..]);
      Pow2Widths();
      FromToBits(bytes[0], BitsPerByte);
      UnpackPack(bytes[1..]);
    }
  }

  /** One push of the byte loop of write_bytes_: the low byte of data >> 8i,
      pushed after the big-endian bytes of data >> 8(i + 1), gives the
      big-endian bytes of data >> 8i. */
  lemma {:induction false} BigEndianPush(data: nat, i: nat, m: nat)
    ensures BigEndian(Shr(data, 8 * (i + 1)), m) + [Shr(data, 8 * i) % 256] == BigEndian(Shr(data, 8 * i), m + 1)
  {
    ShrShr(data, 8 * i, BitsPerByte);
    ShrIsDiv(Shr(data, 8 * i), BitsPerByte);
    Pow2Widths();
  }

  /** The value of a single bit. */
  lemma {:induction false} FromBitsSingle(bs: seq<bool>)
    requires |bs| == 1
    ensures FromBits(bs) == if bs[0] then 1 else 0
  {
    assert |bs[..0]| == 0;
  }

  /** The value of the bits of one byte is the byte. */
  lemma {:induction false} FromBitsOfByte(bytes: seq<Byte>)
    requires |bytes| == 1
    ensures FromBits(BytesToBits(bytes)) == bytes[0]
  {
    assert BytesToBits(bytes) == ToBits(bytes[0], BitsPerByte) + BytesToBits([]);
    assert BytesToBits(bytes) == ToBits(bytes[0], BitsPerByte);
    Pow2Widths();
    FromToBits(bytes[0], BitsPerByte);
  }

  /** Writing hi in w bits and then lo in k bits writes hi * 2^k + lo in
      w + k bits, when lo fits in k bits. */
  lemma {:induction false} ToBitsJoin(hi: nat, lo: nat, w: nat, k: nat, p: nat)
    requires p == Pow2(k) && lo < p
    ensures ToBits(hi, w) + ToBits(lo, k) == ToBits(hi * p + lo, w + k)
  {
    var x := hi * p + lo;
    ToBitsSplit(x, w, k);
    ShrIsDiv(x, k);
    LowBitsIsMod(x, k);
    DivModUnique(x, p, hi, lo);
  }
}
