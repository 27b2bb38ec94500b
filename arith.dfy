/** Exact integer arithmetic that stands in for the shifts, masks and
    bitwise OR of the C++ buffer: `x >> k` is `x / Pow2(k)`, `x << k` is
    `x * Pow2(k)`, `x & ((1 << k) - 1)` is `x % Pow2(k)`, `a | b` is `BitOr(a, b)`. */
module Arith {

  /** 2^n, the positional weight of bit n. */
  function Pow2(n: nat): (r: nat)
    ensures r >= 1
  {
    if n == 0 then 1 else 2 * Pow2(n - 1)
  }

  lemma {:induction false} Pow2Add(a: nat, b: nat)
    ensures Pow2(a + b) == Pow2(a) * Pow2(b)
  {
    if b > 0 {
      Pow2Add(a, b - 1);
      calc {
        Pow2(a + b);
        2 * Pow2(a + b - 1);
        2 * (Pow2(a) * Pow2(b - 1));
        Pow2(a) * (2 * Pow2(b - 1));
      }
    }
  }

  lemma {:induction false} Pow2Monotone(a: nat, b: nat)
    requires a <= b
    ensures Pow2(a) <= Pow2(b)
  {
    if a < b {
      Pow2Monotone(a, b - 1);
    }
  }

  /** Euclidean division is determined by its quotient and remainder. */
  lemma {:induction false} DivModUnique(x: int, d: int, q: int, r: int)
    requires d > 0 && 0 <= r < d && x == q * d + r
    ensures x / d == q && x % d == r
  {
    var q', r' := x / d, x % d;
    assert x == q' * d + r';
    assert (q - q') * d == r' - r;
    if q > q' {
      MulMonotone(1, q - q', d);
      assert false;
    } else if q < q' {
      MulMonotone(1, q' - q, d);
      assert false;
    }
  }

  /** A number below the divisor is its own remainder, with quotient 0. */
  lemma {:induction false} SmallDivMod(x: nat, d: nat)
    requires x < d
    ensures x / d == 0 && x % d == x
  {
  }

  lemma {:induction false} MulMonotone(a: int, b: int, c: int)
    requires 0 <= a <= b && c >= 0
    ensures a * c <= b * c
  {
  }

  lemma {:induction false} MulAssoc(a: int, b: int, c: int)
    ensures (a * b) * c == a * (b * c)
  {
  }

  /** The carry-free sum: a high part below A times B plus a low part below B stays below A * B. */
  lemma {:induction false} MulAddBound(a: nat, aBound: nat, c: nat, b: nat)
    requires a < aBound && c < b
    ensures a * b + c < aBound * b
  {
    MulMonotone(a + 1, aBound, b);
  }

  /** A number below 2^(n + k), shifted right by k bits, is below 2^n. */
  lemma {:induction false} DivPow2Bound(x: nat, n: nat, k: nat)
    requires x < Pow2(n + k)
    ensures x / Pow2(k) < Pow2(n)
  {
    Pow2Add(n, k);
    var q := x / Pow2(k);
    assert x == q * Pow2(k) + x % Pow2(k);
    if q >= Pow2(n) {
      MulMonotone(Pow2(n), q, Pow2(k));
      assert false;
    }
  }

  /** One halving step of a split at bit k: the quotient and remainder by 2^k
      in terms of those of x / 2 by 2^(k - 1). */
  lemma {:induction false} HalveSplit(x: nat, k: nat)
    requires k >= 1
    ensures x / Pow2(k) == (x / 2) / Pow2(k - 1)
    ensures x % Pow2(k) == 2 * ((x / 2) % Pow2(k - 1)) + x % 2
  {
    var p := Pow2(k - 1);
    var q := (x / 2) / p;
    var r := 2 * ((x / 2) % p) + x % 2;
    assert x / 2 == q * p + (x / 2) % p;
    assert x == 2 * (x / 2) + x % 2;
    assert x == q * (2 * p) + r;
    DivModUnique(x, 2 * p, q, r);
  }

  /** Bitwise OR of two naturals, one bit at a time from the least significant end. */
  function BitOr(a: nat, b: nat): nat
    decreases a
  {
    if a == 0 then b
    else if b == 0 then a
    else 2 * BitOr(a / 2, b / 2) + (if a % 2 == 1 || b % 2 == 1 then 1 else 0)
  }

  /** The low o+1 bits of x are its low o bits plus bit o. */
  lemma {:induction false} ModPow2Step(x: nat, o: nat)
    ensures x % Pow2(o + 1) == x % Pow2(o) + ((x / Pow2(o)) % 2) * Pow2(o)
  {
    var p := Pow2(o);
    var q := x / p;
    assert x == q * p + x % p;
    assert q == 2 * (q / 2) + q % 2;
    assert x == (q / 2) * (2 * p) + ((q % 2) * p + x % p);
    DivModUnique(x, 2 * p, q / 2, (q % 2) * p + x % p);
  }

  /** x >> k, one halving at a time, so that only division by the constant 2 is exposed. */
  function Shr(x: nat, k: nat): nat {
    if k == 0 then x else Shr(x / 2, k - 1)
  }

  /** x << k, one doubling at a time. */
  function Shl(x: nat, k: nat): nat {
    if k == 0 then x else 2 * Shl(x, k - 1)
  }

  /** x & (2^k - 1): the low k bits of x. */
  function LowBits(x: nat, k: nat): nat {
    if k == 0 then 0 else 2 * LowBits(x / 2, k - 1) + x % 2
  }

  /** A value below 2^(n + k), shifted right by k bits, is below 2^n. */
  lemma {:induction false} ShrBound(x: nat, n: nat, k: nat)
    requires x < Pow2(n + k)
    ensures Shr(x, k) < Pow2(n)
  {
    if k > 0 {
      ShrBound(x / 2, n, k - 1);
    }
  }

  /** The low k bits of a value are below 2^k. */
  lemma {:induction false} LowBitsBound(x: nat, k: nat)
    ensures LowBits(x, k) < Pow2(k)
  {
    if k > 0 {
      LowBitsBound(x / 2, k - 1);
    }
  }

  lemma {:induction false} ShrIsDiv(x: nat, k: nat)
    ensures Shr(x, k) == x / Pow2(k)
  {
    if k > 0 {
      ShrIsDiv(x / 2, k - 1);
      HalveSplit(x, k);
    }
  }

  lemma {:induction false} ShlIsMul(x: nat, k: nat)
    ensures Shl(x, k) == x * Pow2(k)
  {
    if k > 0 {
      ShlIsMul(x, k - 1);
      MulAssoc(2, x, Pow2(k - 1));
    }
  }

  lemma {:induction false} LowBitsIsMod(x: nat, k: nat)
    ensures LowBits(x, k) == x % Pow2(k)
  {
    if k > 0 {
      LowBitsIsMod(x / 2, k - 1);
      HalveSplit(x, k);
    }
  }

  /** Shifting right by a and then by b is shifting right by a + b. */
  lemma {:induction false} ShrShr(x: nat, a: nat, b: nat)
    ensures Shr(Shr(x, a), b) == Shr(x, a + b)
  {
    if a > 0 {
      ShrShr(x / 2, a - 1, b);
    }
  }
}
