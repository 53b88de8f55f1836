/**
 * The three integer helpers of the utility header, over 32-bit unsigned
 * integers (`unsigned int`, the only type `next_power_of_2` is meaningful for,
 * because `__builtin_clz` counts over `unsigned int`).
 *
 * Bit operations are defined arithmetically on naturals; wrap-around of the
 * unsigned subtraction and addition is written out as `% 2^32`.
 */
module IntNumeric {

  const Two32: nat := 0x1_0000_0000
  type uint32 = x: int | 0 <= x < 0x1_0000_0000

  /** 2^k */
  function Pow2(k: nat): (p: nat)
    ensures p >= 1
  {
    if k == 0 then 1 else 2 * Pow2(k - 1)
  }

  /** n is 2^k for some k. */
  predicate PowerOfTwo(n: nat)
    decreases n
  {
    n == 1 || (n > 1 && n % 2 == 0 && PowerOfTwo(n / 2))
  }

  /** Bitwise `a & b` on naturals. */
  function BitAnd(a: nat, b: nat): nat
    decreases a
  {
    if a == 0 || b == 0 then 0
    else 2 * BitAnd(a / 2, b / 2) + (if a % 2 == 1 && b % 2 == 1 then 1 else 0)
  }

  /** Unsigned 32-bit subtraction, wrapping modulo 2^32. */
  function Sub32(a: uint32, b: uint32): uint32 {
    (a - b) % Two32
  }

  /** Unsigned 32-bit addition, wrapping modulo 2^32. */
  function Add32(a: uint32, b: uint32): uint32 {
    (a + b) % Two32
  }

  /** `is_power_of_2(x)`: `(x & (x - 1)) == 0`. */
  predicate IsPowerOf2(x: uint32) {
    BitAnd(x, Sub32(x, 1)) == 0
  }

  /** `cdiv(a, b)`: `(a + b - 1) / b`, every step in unsigned 32-bit arithmetic. */
  function Cdiv(a: uint32, b: uint32): uint32
    requires b > 0
  {
    Sub32(Add32(a, b), 1) / b
  }

  /** Number of significant bits of n (0 for n == 0). */
  function BitLength(n: nat): (l: nat)
    ensures n == 0 <==> l == 0
    decreases n
  {
    if n == 0 then 0 else 1 + BitLength(n / 2)
  }

  /** `__builtin_clz(y)` for a nonzero 32-bit y: the number of leading zero
      bits, so that the highest set bit of y is bit 31 - z. */
  function Clz(y: uint32): (z: nat)
    requires y != 0
    ensures z < 32
    ensures Pow2(31 - z) <= y < Pow2(32 - z)
  {
    Pow2Value32();
    BitLengthBound(y, 32);
    BitLengthBounds(y);
    32 - BitLength(y)
  }

  /** `next_power_of_2(x)`: `1 << (32 - __builtin_clz(x - 1))`. The source calls
      `__builtin_clz(0)` (undefined) for x == 1 and shifts by 32 (undefined) for
      x > 2^31, so it demands 2 <= x <= 2^31. */
  function NextPowerOf2(x: uint32): nat
    requires 2 <= x <= 0x8000_0000
  {
    Pow2(32 - Clz(Sub32(x, 1)))
  }

  // ----- lemmas -----

  lemma {:induction false} BitAndSelf(a: nat)
    ensures BitAnd(a, a) == a
    decreases a
  {
    if a != 0 { BitAndSelf(a / 2); }
  }

  /** For x >= 1, `x & (x - 1)` clears the lowest set bit, so it is zero
      exactly when x has a single set bit. */
  lemma {:induction false} ClearLowestBit(x: nat)
    requires x >= 1
    ensures BitAnd(x, x - 1) == 0 <==> PowerOfTwo(x)
    decreases x
  {
    if x == 1 {
    } else if x % 2 == 0 {
      var m := x / 2;
      assert (x - 1) / 2 == m - 1 && (x - 1) % 2 == 1;
      ClearLowestBit(m);
    } else {
      var m := x / 2;
      assert (x - 1) / 2 == m && (x - 1) % 2 == 0;
      BitAndSelf(m);
    }
  }

  /** `is_power_of_2` holds exactly of the powers of two and of zero. */
  lemma IsPowerOf2Exactly(x: uint32)
    ensures IsPowerOf2(x) <==> x == 0 || PowerOfTwo(x)
  {
    if x >= 1 {
      assert Sub32(x, 1) == x - 1;
      ClearLowestBit(x);
    }
  }

  lemma {:induction false} Pow2IsPowerOfTwo(k: nat)
    ensures PowerOfTwo(Pow2(k))
  {
    if k > 0 { Pow2IsPowerOfTwo(k - 1); }
  }

  lemma {:induction false} Pow2Monotone(i: nat, j: nat)
    requires i <= j
    ensures Pow2(i) <= Pow2(j)
    decreases j
  {
    if i < j { Pow2Monotone(i, j - 1); }
  }

  /** 2^(L-1) <= n < 2^L for the bit length L of a positive n. */
  lemma {:induction false} BitLengthBounds(n: nat)
    requires n >= 1
    ensures Pow2(BitLength(n) - 1) <= n < Pow2(BitLength(n))
    decreases n
  {
    if n > 1 { BitLengthBounds(n / 2); }
  }

  lemma {:induction false} BitLengthBound(n: nat, k: nat)
    requires n < Pow2(k)
    ensures BitLength(n) <= k
    decreases k
  {
    if n > 0 {
      BitLengthBound(n / 2, k - 1);
    }
  }

  /** Every power of two is 2^(BitLength - 1). */
  lemma {:induction false} PowerOfTwoIsPow2(n: nat)
    requires PowerOfTwo(n)
    ensures n == Pow2(BitLength(n) - 1)
    decreases n
  {
    if n > 1 { PowerOfTwoIsPow2(n / 2); }
  }

  /** For every a and every b > 0 whose sum does not overflow, `cdiv` is the
      ceiling of a / b. */
  lemma CdivIsCeiling(a: uint32, b: uint32)
    requires b > 0 && a + b - 1 < Two32
    ensures Cdiv(a, b) * b >= a
    ensures (Cdiv(a, b) - 1) * b < a
  {
    var s := a + b - 1;
    assert Sub32(Add32(a, b), 1) == s;
    var q, r := s / b, s % b;
    assert s == q * b + r && 0 <= r < b;
    assert Cdiv(a, b) == q;
  }

  /** `next_power_of_2(x)` is the power of two p with p / 2 < x <= p. */
  lemma NextPowerOf2IsLeastPowerAbove(x: uint32)
    requires 2 <= x <= 0x8000_0000
    ensures PowerOfTwo(NextPowerOf2(x)) && NextPowerOf2(x) < Two32
    ensures IsPowerOf2(NextPowerOf2(x))
    ensures x <= NextPowerOf2(x) && NextPowerOf2(x) / 2 < x
  {
    var y := x - 1;
    assert Sub32(x, 1) == y;
    var l := BitLength(y);
    assert Pow2(31) == 0x8000_0000 by { Pow2Value31(); }
    BitLengthBound(y, 31);
    BitLengthBounds(y);
    assert NextPowerOf2(x) == Pow2(l);
    Pow2IsPowerOfTwo(l);
    Pow2Monotone(l, 31);
    IsPowerOf2Exactly(Pow2(l));
  }

  lemma Pow2Value32()
    ensures Pow2(32) == Two32
  {
    Pow2Value31();
  }

  lemma Pow2Value31()
    ensures Pow2(31) == 0x8000_0000
  {
    assert Pow2(8) == 256;
    assert Pow2(16) == 65536;
    assert Pow2(24) == 0x100_0000;
  }

  /** A power of two is its own next power of two. */
  lemma NextPowerOf2OfPowerOfTwo(x: uint32)
    requires 2 <= x <= 0x8000_0000 && IsPowerOf2(x)
    ensures NextPowerOf2(x) == x
  {
    IsPowerOf2Exactly(x);
    NextPowerOf2IsLeastPowerAbove(x);
    var p := NextPowerOf2(x);
    PowerOfTwoIsPow2(x);
    PowerOfTwoIsPow2(p);
    var i, j := BitLength(x) - 1, BitLength(p) - 1;
    if i < j {
      Pow2Monotone(i + 1, j);
      assert false;
    } else if j < i {
      Pow2Monotone(j + 1, i);
      assert false;
    }
  }
}
