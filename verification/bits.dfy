/**
 Fixed-width unsigned arithmetic used by the pixel buffer: bytes, 32-bit words,
 powers of two, and the bitwise AND / NOT that the stride rounding relies on.
 Bitwise operations are defined on naturals, one bit at a time, so that the
 rounding trick can be proved about ordinary integers.
 */
module Bits {

  /** One unsigned 8-bit channel value (`uint8_t`). */
  type byte = b: int | 0 <= b < 256

  const WordModulus: int := 0x1_0000_0000

  /** An unsigned 32-bit value (`uint32_t`). */
  type u32 = n: int | 0 <= n < WordModulus

  /** True when `v` is representable as a signed 32-bit `int`. */
  predicate IsInt32(v: int) {
    -0x8000_0000 <= v < 0x8000_0000
  }

  /** Distance between two integers. */
  function Distance(a: int, b: int): nat
  {
    if a <= b then b - a else a - b
  }

  /** `std::clamp(v, 0, 255)` followed by the cast to `uint8_t`: the byte nearest to `v`. */
  function Clamp(v: int): (r: byte)
    ensures forall b: byte :: Distance(r, v) <= Distance(b, v)
    ensures 0 <= v < 256 ==> r == v
  {
    if v < 0 then 0 else if v > 255 then 255 else v
  }

  function Pow2(n: nat): (r: nat)
    ensures r >= 1
  {
    if n == 0 then 1 else 2 * Pow2(n - 1)
  }

  /** A power of two is the same as an alignment the bitmask trick supports. */
  predicate IsPowerOfTwo(a: nat) {
    exists k: nat :: k < 32 && Pow2(k) == a
  }

  /** Bitwise AND of two naturals, least significant bit first. */
  function And(x: nat, y: nat): nat
    decreases x
  {
    if x == 0 || y == 0 then 0
    else 2 * And(x / 2, y / 2) + (if x % 2 == 1 && y % 2 == 1 then 1 else 0)
  }

  /** Bitwise NOT of a 32-bit word (`~m`). */
  function Not32(m: u32): (r: u32)
    ensures r + m == WordModulus - 1
  {
    WordModulus - 1 - m
  }

  /** Unsigned 32-bit addition with wrap-around. */
  function AddU32(a: u32, b: u32): (r: u32)
    ensures a + b < WordModulus ==> r == a + b
    ensures a + b >= WordModulus ==> r == a + b - WordModulus
  {
    (a + b) % WordModulus
  }

  /** Unsigned 32-bit multiplication with wrap-around. */
  function MulU32(a: u32, b: u32): u32
  {
    (a * b) % WordModulus
  }

  lemma {:induction false} Pow2Add(a: nat, b: nat)
    ensures Pow2(a + b) == Pow2(a) * Pow2(b)
  {
    if a > 0 {
      Pow2Add(a - 1, b);
    }
  }

  lemma {:induction false} Pow2Monotone(k: nat, n: nat)
    requires k <= n
    ensures Pow2(k) <= Pow2(n)
  {
    if k < n {
      Pow2Monotone(k, n - 1);
    }
  }

  lemma Pow2Values()
    ensures Pow2(2) == 4 && Pow2(5) == 32 && Pow2(32) == WordModulus
  {
    assert Pow2(2) == 4;
    assert Pow2(4) == 16;
    Pow2Add(4, 4);
    Pow2Add(8, 8);
    Pow2Add(16, 16);
  }

  /** Euclidean division is unique: `q*d + r` with `0 <= r < d` has quotient `q` and remainder `r`. */
  lemma DivModUnique(q: int, d: int, r: int)
    requires 0 < d && 0 <= r < d
    ensures (q * d + r) / d == q
    ensures (q * d + r) % d == r
  {
    var n := q * d + r;
    var q', r' := n / d, n % d;
    assert n == q' * d + r';
    assert (q - q') * d == r' - r;
    if q > q' {
      assert (q - q') * d >= d by { MulAtLeast(q - q', d); }
      assert false;
    } else if q < q' {
      assert (q' - q) * d >= d by { MulAtLeast(q' - q, d); }
      assert false;
    }
  }

  lemma MulAtLeast(a: int, d: int)
    requires a >= 1 && d >= 0
    ensures a * d >= d
  {
  }

  /** Splitting off the lowest bit: the remainder modulo `2m` is twice the remainder of `x/2` modulo `m`, plus that bit. */
  lemma ModDouble(x: nat, m: nat)
    requires m > 0
    ensures x % (2 * m) == 2 * ((x / 2) % m) + x % 2
  {
    var q, b := x / 2, x % 2;
    var t, s := q / m, q % m;
    assert x == (2 * m) * t + (2 * s + b);
    DivModUnique(t, 2 * m, 2 * s + b);
  }

  /** AND with an all-ones mask of `n` bits keeps every value below `2^n`. */
  lemma {:induction false} AndOnes(x: nat, n: nat)
    requires x < Pow2(n)
    ensures And(x, Pow2(n) - 1) == x
  {
    if n == 0 || x == 0 {
    } else {
      var y := Pow2(n) - 1;
      assert y % 2 == 1 && y / 2 == Pow2(n - 1) - 1;
      AndOnes(x / 2, n - 1);
    }
  }

  /** The value of the lowest `k` bits of `x`. */
  function LowBits(x: nat, k: nat): nat
  {
    if k == 0 then 0 else 2 * LowBits(x / 2, k - 1) + x % 2
  }

  /** The lowest `k` bits of `x` are its remainder modulo `2^k`. */
  lemma {:induction false} LowBitsIsMod(x: nat, k: nat)
    ensures LowBits(x, k) == x % Pow2(k)
  {
    if k > 0 {
      LowBitsIsMod(x / 2, k - 1);
      ModDouble(x, Pow2(k - 1));
    }
  }

  /** AND with the mask `2^n - 2^k` clears the low `k` bits of any `x` below `2^n`. */
  lemma {:induction false} AndClearsLowBitsRec(x: nat, k: nat, n: nat)
    requires k <= n && x < Pow2(n)
    ensures Pow2(k) <= Pow2(n)
    ensures And(x, Pow2(n) - Pow2(k)) == x - LowBits(x, k)
    decreases n
  {
    Pow2Monotone(k, n);
    if k == 0 {
      AndClearsNoBits(x, n);
    } else if n == k {
      AndClearsAllBits(x, k);
    } else if x == 0 {
      AndClearsZero(k, n);
    } else {
      Pow2Monotone(k - 1, n - 1);
      HalfBelow(x, n);
      AndClearsLowBitsRec(x / 2, k - 1, n - 1);
      AndClearsLowBitsStep(x, k, n);
    }
  }

  /** The base case `k = 0` of `AndClearsLowBitsRec`: the mask is all ones. */
  lemma AndClearsNoBits(x: nat, n: nat)
    requires x < Pow2(n)
    ensures And(x, Pow2(n) - Pow2(0)) == x - LowBits(x, 0)
  {
    AndOnes(x, n);
  }

  /** The base case `k = n` of `AndClearsLowBitsRec`: the mask is empty. */
  lemma AndClearsAllBits(x: nat, k: nat)
    requires x < Pow2(k)
    ensures And(x, Pow2(k) - Pow2(k)) == x - LowBits(x, k)
  {
    LowBitsBelow(x, k);
  }

  /** The base case `x = 0` of `AndClearsLowBitsRec`. */
  lemma AndClearsZero(k: nat, n: nat)
    requires Pow2(k) <= Pow2(n)
    ensures And(0, Pow2(n) - Pow2(k)) == 0 - LowBits(0, k)
  {
    LowBitsOfZero(k);
  }

  /** Dropping the lowest bit of a value below `2^n` leaves a value below `2^(n-1)`. */
  lemma HalfBelow(x: nat, n: nat)
    requires 0 < n && x < Pow2(n)
    ensures x / 2 < Pow2(n - 1)
  {
    assert Pow2(n) == 2 * Pow2(n - 1);
  }

  /** The inductive step of `AndClearsLowBitsRec`: from `x / 2` and one bit fewer to `x`. */
  lemma AndClearsLowBitsStep(x: nat, k: nat, n: nat)
    requires 0 < k <= n && Pow2(k - 1) <= Pow2(n - 1)
    requires And(x / 2, Pow2(n - 1) - Pow2(k - 1)) == x / 2 - LowBits(x / 2, k - 1)
    ensures And(x, Pow2(n) - Pow2(k)) == x - LowBits(x, k)
  {
    var m := Pow2(n - 1) - Pow2(k - 1);
    assert Pow2(n) - Pow2(k) == 2 * m;
    AndHalves(x, m);
    assert LowBits(x, k) == 2 * LowBits(x / 2, k - 1) + x % 2;
  }

  lemma {:induction false} LowBitsOfZero(k: nat)
    ensures LowBits(0, k) == 0
  {
    if k > 0 {
      LowBitsOfZero(k - 1);
    }
  }

  /** A value below `2^k` is its own lowest `k` bits. */
  lemma {:induction false} LowBitsBelow(x: nat, k: nat)
    requires x < Pow2(k)
    ensures LowBits(x, k) == x
  {
    if k > 0 {
      LowBitsBelow(x / 2, k - 1);
    }
  }

  /** AND with the mask `~(2^k - 1)` over `n` bits rounds `x` down to a multiple of `2^k`. */
  lemma AndClearsLowBits(x: nat, k: nat, n: nat)
    requires k <= n && x < Pow2(n)
    ensures Pow2(k) <= Pow2(n)
    ensures And(x, Pow2(n) - Pow2(k)) == x - x % Pow2(k)
  {
    AndClearsLowBitsRec(x, k, n);
    LowBitsIsMod(x, k);
  }

  /** The AND of two values is no larger than either of them. */
  lemma {:induction false} AndAtMost(x: nat, y: nat)
    ensures And(x, y) <= x && And(x, y) <= y
    decreases x
  {
    if x != 0 && y != 0 {
      AndAtMost(x / 2, y / 2);
    }
  }

  /** ANDing with an even mask `2y` drops the lowest bit and halves both operands. */
  lemma AndHalves(x: nat, y: nat)
    ensures And(x, 2 * y) == 2 * And(x / 2, y)
  {
    if x != 0 && y != 0 {
      var m := 2 * y;
      assert m / 2 == y && m % 2 == 0;
      assert And(x, m) == 2 * And(x / 2, m / 2) + 0;
    }
  }

  /** Subtracting the remainder leaves a multiple of the divisor. */
  lemma RoundDownIsMultiple(x: nat, a: nat)
    requires a > 0
    ensures (x - x % a) % a == 0
    ensures x - x % a == (x / a) * a
  {
    DivModUnique(x / a, a, 0);
  }
}
