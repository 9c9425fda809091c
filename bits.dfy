/**
 * Unsigned 32-bit integers and the operators the bit-counting strategies use
 * (`&`, `>>`, wrapping `+`), written out on natural numbers, together with the
 * population count that every strategy is meant to compute.
 */
module Bits {

  /** 2^32: uint32_t values are the naturals below it. */
  const Modulus32: nat := 0x1_0000_0000

  /** uint32_t. */
  type u32 = x: nat | x < 0x1_0000_0000

  function Pow2(k: nat): (p: nat)
    ensures p >= 1
  {
    if k == 0 then 1 else 2 * Pow2(k - 1)
  }

  /**
   * The powers of two that the lane widths and the word size use. The ladder
   * of intermediate values is there only so that each step is a single small
   * multiplication for the solver.
   */
  lemma Pow2Values()
    ensures Pow2(8) == 256 && Pow2(10) == 1024 && Pow2(11) == 2048 && Pow2(16) == 65536
    ensures Pow2(22) == 0x40_0000 && Pow2(24) == 0x100_0000 && Pow2(32) == Modulus32
  {
    assert Pow2(1) == 2;
    assert Pow2(2) == 4;
    assert Pow2(3) == 8;
    assert Pow2(4) == 16;
    assert Pow2(5) == 32;
    assert Pow2(6) == 64;
    assert Pow2(7) == 128;
    assert Pow2(8) == 256;
    assert Pow2(9) == 512;
    assert Pow2(10) == 1024;
    assert Pow2(11) == 2048;
    assert Pow2(12) == 4096;
    assert Pow2(13) == 8192;
    assert Pow2(14) == 16384;
    assert Pow2(15) == 32768;
    assert Pow2(16) == 65536;
    assert Pow2(17) == 131072;
    assert Pow2(18) == 262144;
    assert Pow2(19) == 524288;
    assert Pow2(20) == 1048576;
    assert Pow2(21) == 2097152;
    assert Pow2(22) == 4194304;
    assert Pow2(23) == 8388608;
    assert Pow2(24) == 16777216;
    assert Pow2(25) == 33554432;
    assert Pow2(26) == 67108864;
    assert Pow2(27) == 134217728;
    assert Pow2(28) == 268435456;
    assert Pow2(29) == 536870912;
    assert Pow2(30) == 1073741824;
    assert Pow2(31) == 2147483648;
    assert Pow2(32) == 4294967296;
  }

  /**
   * `a & b` on unsigned integers, one binary digit at a time. A bit of the
   * result is set only where it is set in both operands, so the result is
   * no larger than either.
   */
  function BitAnd(a: nat, b: nat): (r: nat)
    ensures r <= a && r <= b
  {
    if a == 0 || b == 0 then 0
    else 2 * BitAnd(a / 2, b / 2) + (if a % 2 == 1 && b % 2 == 1 then 1 else 0)
  }

  /** `n >> k` on an unsigned integer: `k` halvings, which never make it larger. */
  function Shr(n: nat, k: nat): (r: nat)
    ensures r <= n
  {
    if k == 0 then n else Shr(n / 2, k - 1)
  }

  /** The number formed by the low `k` bits of `n`. */
  function LowBits(n: nat, k: nat): nat
  {
    if k == 0 then 0 else 2 * LowBits(n / 2, k - 1) + n % 2
  }

  /**
   * uint32_t addition, which wraps around modulo 2^32: a sum that fits is
   * exact, and a sum that does not loses exactly 2^32.
   */
  function Add32(a: u32, b: u32): (r: u32)
    ensures a + b < Modulus32 ==> r == a + b
    ensures a + b >= Modulus32 ==> r == a + b - Modulus32
  {
    (a + b) % Modulus32
  }

  /** The number of ones in the binary representation of `n`. */
  function PopCount(n: nat): nat
  {
    if n == 0 then 0 else n % 2 + PopCount(n / 2)
  }

  // ---------------------------------------------------------------------------
  // Shifts and low bits

  /** Halving and the low bit of `2 * m + b`. */
  lemma HalfOf(m: nat, b: nat)
    requires b < 2
    ensures (2 * m + b) / 2 == m && (2 * m + b) % 2 == b
  {
  }

  /** Shifting by `a` and then by `b` is shifting by `a + b`. */
  lemma {:induction false} ShrShr(n: nat, a: nat, b: nat)
    ensures Shr(Shr(n, a), b) == Shr(n, a + b)
    decreases a
  {
    if a > 0 {
      ShrShr(n / 2, a - 1, b);
    }
  }

  /** `n >> k` is the quotient of `n` by 2^k, rounded down. */
  lemma {:induction false} ShrIsDivision(n: nat, k: nat)
    ensures Shr(n, k) * Pow2(k) <= n < (Shr(n, k) + 1) * Pow2(k)
    decreases k
  {
    if k > 0 {
      var h, r, p := n / 2, Shr(n / 2, k - 1), Pow2(k - 1);
      ShrIsDivision(h, k - 1);
      assert r * p <= h < (r + 1) * p;
      assert Shr(n, k) == r && Pow2(k) == 2 * p;
      assert h + 1 <= (r + 1) * p;
      MulComm2(r, p);
      MulComm2(r + 1, p);
    }
  }

  /** Doubling one factor doubles the product. */
  lemma MulComm2(a: nat, b: nat)
    ensures a * (2 * b) == 2 * (a * b)
  {
  }

  /** A value below 2^(k+j) shifted right by `k` is below 2^j. */
  lemma {:induction false} ShrBound(n: nat, k: nat, j: nat)
    requires n < Pow2(k + j)
    ensures Shr(n, k) < Pow2(j)
    decreases k
  {
    if k > 0 {
      assert Pow2(k + j) == 2 * Pow2(k - 1 + j);
      ShrBound(n / 2, k - 1, j);
    }
  }

  /** The low `k` bits of any number form a number below 2^k. */
  lemma {:induction false} LowBitsBound(n: nat, k: nat)
    ensures LowBits(n, k) < Pow2(k)
    decreases k
  {
    if k > 0 {
      LowBitsBound(n / 2, k - 1);
    }
  }

  /** A number below 2^k is its own low `k` bits. */
  lemma {:induction false} LowBitsOfSmall(n: nat, k: nat)
    requires n < Pow2(k)
    ensures LowBits(n, k) == n
    decreases k
  {
    if k > 0 {
      LowBitsOfSmall(n / 2, k - 1);
    }
  }

  // ---------------------------------------------------------------------------
  // Bitwise and

  /** `n & (2^k - 1)` keeps exactly the low `k` bits of `n`. */
  lemma {:induction false} BitAndLowMask(n: nat, k: nat)
    ensures BitAnd(n, Pow2(k) - 1) == LowBits(n, k)
    decreases k
  {
    if k > 0 && n != 0 {
      var p := Pow2(k - 1);
      assert Pow2(k) - 1 == 2 * (p - 1) + 1;
      HalfOf(p - 1, 1);
      BitAndLowMask(n / 2, k - 1);
    }
    if k > 0 && n == 0 {
      LowBitsOfSmall(0, k);
    }
  }

  lemma {:induction false} BitAndSelf(a: nat)
    ensures BitAnd(a, a) == a
    decreases a
  {
    if a != 0 {
      BitAndSelf(a / 2);
    }
  }

  // ---------------------------------------------------------------------------
  // Population count

  lemma PopCountAppendBit(m: nat, b: nat)
    requires b < 2
    ensures PopCount(2 * m + b) == b + PopCount(m)
  {
    HalfOf(m, b);
  }

  /**
   * The position of the lowest set bit of a non-zero `n`: bit `z` of `n` is
   * set and the `z` bits below it are all clear.
   */
  function TrailingZeros(n: nat): (z: nat)
    requires n > 0
    ensures Shr(n, z) % 2 == 1
    ensures LowBits(n, z) == 0
  {
    if n % 2 == 1 then 0 else 1 + TrailingZeros(n / 2)
  }

  /**
   * `n &= n - 1` clears exactly the lowest set bit of a non-zero `n`: the
   * result is `n` less the bit at `TrailingZeros(n)`, and so has one set
   * bit fewer.
   */
  lemma {:induction false} ClearLowestSetBit(n: nat)
    requires n > 0
    ensures BitAnd(n, n - 1) + Pow2(TrailingZeros(n)) == n
    ensures BitAnd(n, n - 1) < n
    ensures PopCount(BitAnd(n, n - 1)) == PopCount(n) - 1
    decreases n
  {
    var h := n / 2;
    assert PopCount(n) == n % 2 + PopCount(h);
    if n % 2 == 1 {
      if n > 1 {
        assert n - 1 == 2 * h && (n - 1) / 2 == h && (n - 1) % 2 == 0;
        assert BitAnd(n, n - 1) == 2 * BitAnd(h, h);
        BitAndSelf(h);
        PopCountAppendBit(h, 0);
      }
      assert TrailingZeros(n) == 0;
    } else {
      assert TrailingZeros(n) == 1 + TrailingZeros(h);
      assert n == 2 * h && n - 1 == 2 * (h - 1) + 1;
      assert (n - 1) / 2 == h - 1 && n % 2 == 0;
      assert BitAnd(n, n - 1) == 2 * BitAnd(h, h - 1);
      ClearLowestSetBit(h);
      assert Pow2(TrailingZeros(n)) == 2 * Pow2(TrailingZeros(h));
      PopCountAppendBit(BitAnd(h, h - 1), 0);
    }
  }

  /**
   * Splitting a number at bit `k`: its population count is that of its low
   * `k` bits plus that of the rest shifted down.
   */
  lemma PopCountSplit(n: nat, k: nat)
    ensures PopCount(n) == PopCount(BitAnd(n, Pow2(k) - 1)) + PopCount(Shr(n, k))
  {
    BitAndLowMask(n, k);
    PopCountSplitLow(n, k);
  }

  lemma {:induction false} PopCountSplitLow(n: nat, k: nat)
    ensures PopCount(n) == PopCount(LowBits(n, k)) + PopCount(Shr(n, k))
    decreases k
  {
    if k > 0 {
      var low := LowBits(n / 2, k - 1);
      PopCountSplitLow(n / 2, k - 1);
      assert LowBits(n, k) == 2 * low + n % 2;
      PopCountAppendBit(low, n % 2);
      assert Shr(n, k) == Shr(n / 2, k - 1);
      assert PopCount(n) == n % 2 + PopCount(n / 2);
    }
  }

  /** A number below 2^k has at most `k` set bits. */
  lemma {:induction false} PopCountBound(n: nat, k: nat)
    requires n < Pow2(k)
    ensures PopCount(n) <= k
    decreases k
  {
    if n > 0 {
      PopCountBound(n / 2, k - 1);
    }
  }

  /** A uint32_t has at most 32 set bits. */
  lemma PopCountU32(n: u32)
    ensures PopCount(n) <= 32
  {
    Pow2Values();
    PopCountBound(n, 32);
  }

  /** 2^k - 1, the number with its low `k` bits all set, has exactly `k` set bits. */
  lemma {:induction false} PopCountAllOnes(k: nat)
    ensures PopCount(Pow2(k) - 1) == k
    decreases k
  {
    if k > 0 {
      PopCountAllOnes(k - 1);
      PopCountAppendBit(Pow2(k - 1) - 1, 1);
    }
  }
}
