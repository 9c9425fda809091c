/**
 * Reversal of the decimal digits of a signed 32-bit integer, returning 0
 * when the reversed value does not fit: the reference solution, which guards
 * both ends of the range, and a second solution that works only on
 * non-positive values and negates around them.
 */
module ReverseInt {

  const IntMin: int := -0x8000_0000
  const IntMax: int := 0x7FFF_FFFF

  /** int: the values from INT_MIN to INT_MAX. */
  type i32 = x: int | -0x8000_0000 <= x <= 0x7FFF_FFFF

  predicate InInt32(v: int)
  {
    IntMin <= v <= IntMax
  }

  // ---------------------------------------------------------------------------
  // C++ division and remainder by 10

  /** C++ `x / 10`: the quotient truncated toward zero. */
  function Div10(x: int): (q: int)
    ensures x >= 0 ==> 0 <= 10 * q <= x < 10 * q + 10
    ensures x < 0 ==> 10 * q - 10 < x <= 10 * q <= 0
  {
    if x >= 0 then x / 10 else -((-x) / 10)
  }

  /** C++ `x % 10`: the remainder, which takes the sign of `x`. */
  function Rem10(x: int): (r: int)
    ensures x == 10 * Div10(x) + r
    ensures x >= 0 ==> 0 <= r <= 9
    ensures x < 0 ==> -9 <= r <= 0
  {
    x - 10 * Div10(x)
  }

  /** |x|, the measure both loops decrease. */
  function Abs(x: int): nat
  {
    if x < 0 then -x else x
  }

  // ---------------------------------------------------------------------------
  // What the reversal means: digits read backwards

  function Pow10(k: nat): (p: nat)
    ensures p >= 1
  {
    if k == 0 then 1 else 10 * Pow10(k - 1)
  }

  /** The decimal digits of `m`, least significant first; no trailing zero digit. */
  function Digits(m: nat): (ds: seq<nat>)
    ensures forall i :: 0 <= i < |ds| ==> ds[i] < 10
    ensures ds == [] <==> m == 0
    ensures ds != [] ==> ds[|ds| - 1] != 0
  {
    if m == 0 then [] else [m % 10] + Digits(m / 10)
  }

  /** The number a digit sequence stands for, least significant digit first. */
  function Value(ds: seq<nat>): nat
  {
    if ds == [] then 0 else ds[0] + 10 * Value(ds[1..])
  }

  function Reverse<T>(s: seq<T>): seq<T>
  {
    if s == [] then [] else Reverse(s[1..]) + [s[0]]
  }

  /** The reversal of a signed value: its digits in the opposite order, with its sign. */
  function Reversal(x: int): int
  {
    if x < 0 then -(Value(Reverse(Digits(-x))) as int) else Value(Reverse(Digits(x)))
  }

  /** What both solutions return: the reversal when it fits in an int, and 0 otherwise. */
  function ReverseSpec(x: int): int
  {
    if InInt32(Reversal(x)) then Reversal(x) else 0
  }

  // ---------------------------------------------------------------------------
  // Digit sequences

  lemma {:induction false} ValueOfDigits(m: nat)
    ensures Value(Digits(m)) == m
    decreases m
  {
    if m > 0 {
      ValueOfDigits(m / 10);
      assert Digits(m)[1..] == Digits(m / 10);
    }
  }

  /** A digit sequence without a trailing zero is the digit sequence of its value. */
  lemma {:induction false} DigitsOfValue(ds: seq<nat>)
    requires forall i :: 0 <= i < |ds| ==> ds[i] < 10
    requires ds != [] ==> ds[|ds| - 1] != 0
    ensures Digits(Value(ds)) == ds
    decreases |ds|
  {
    if ds != [] {
      var rest := ds[1..];
      DigitsOfValue(rest);
      var v := Value(ds);
      assert v == ds[0] + 10 * Value(rest);
      assert v % 10 == ds[0] && v / 10 == Value(rest);
      assert v != 0 by {
        if rest == [] {
          assert ds[0] == ds[|ds| - 1];
        } else {
          assert Digits(Value(rest)) != [];
        }
      }
      assert ds == [ds[0]] + rest;
    }
  }

  lemma {:induction false} ValueAppend(a: seq<nat>, b: seq<nat>)
    ensures Value(a + b) == Value(a) + Pow10(|a|) * Value(b)
    decreases |a|
  {
    if a != [] {
      assert (a + b)[1..] == a[1..] + b && (a + b)[0] == a[0];
      ValueAppend(a[1..], b);
      var x, p, v := Value(a[1..]), Pow10(|a| - 1), Value(b);
      calc {
        Value(a + b);
        a[0] + 10 * (x + p * v);
        a[0] + 10 * x + 10 * (p * v);
        { MulAssoc(10, p, v); }
        a[0] + 10 * x + (10 * p) * v;
        Value(a) + Pow10(|a|) * v;
      }
    } else {
      assert a + b == b;
    }
  }

  lemma MulAssoc(a: int, b: int, c: int)
    ensures a * (b * c) == (a * b) * c
  {
  }

  lemma {:induction false} ReverseAt<T>(s: seq<T>)
    ensures |Reverse(s)| == |s|
    ensures forall i :: 0 <= i < |s| ==> Reverse(s)[i] == s[|s| - 1 - i]
    decreases |s|
  {
    if s != [] {
      ReverseAt(s[1..]);
    }
  }

  lemma ReverseReverse<T>(s: seq<T>)
    ensures Reverse(Reverse(s)) == s
  {
    ReverseAt(s);
    ReverseAt(Reverse(s));
  }

  /**
   * A natural number whose last digit is not zero is given back by
   * reversing its digits twice.
   */
  lemma ReversedDigitsTwice(m: nat)
    requires m % 10 != 0
    ensures Value(Reverse(Digits(Value(Reverse(Digits(m)))))) == m
  {
    var ds := Digits(m);
    ReverseAt(ds);
    var rs := Reverse(ds);
    assert rs[|rs| - 1] == ds[0] == m % 10;
    DigitsOfValue(rs);
    ReverseReverse(ds);
    ValueOfDigits(m);
  }

  /**
   * Reversal undoes itself on every value whose last digit is not zero;
   * a trailing zero is lost (see TrailingZeroIsLost).
   */
  lemma ReversalInvolution(x: int)
    requires Rem10(x) != 0
    ensures Reversal(Reversal(x)) == x
  {
    if x < 0 {
      assert (-x) % 10 != 0;
      ReversedDigitsTwice(-x);
      var r := Value(Reverse(Digits(-x)));
      assert r != 0 by {
        assert Value(Reverse(Digits(r))) == -x;
      }
    } else {
      ReversedDigitsTwice(x);
    }
  }

  /**
   * Round trip of the solutions' contract: when the reversal of an int fits
   * and the int has no trailing zero, reversing the result gives the int
   * back.
   */
  lemma ReverseSpecRoundTrip(x: i32)
    requires Rem10(x) != 0 && ReverseSpec(x) != 0
    ensures ReverseSpec(ReverseSpec(x)) == x
  {
    ReversalInvolution(x);
  }

  /** A trailing zero does not survive the round trip: 120 reverses to 21, and 21 to 12. */
  lemma TrailingZeroIsLost()
    ensures ReverseSpec(120) == 21 && ReverseSpec(ReverseSpec(120)) == 12
  {
    RevFromIsReversal(120);
    assert RevFrom(120, 0) == RevFrom(12, 0) == RevFrom(1, 2) == RevFrom(0, 21);
    RevFromIsReversal(21);
    assert RevFrom(21, 0) == RevFrom(2, 1) == RevFrom(0, 12);
  }

  // ---------------------------------------------------------------------------
  // The digit-by-digit loop

  /**
   * The value both loops end with when no guard fires, from the current `x`
   * and the reversal accumulated so far: peel off `x % 10`, append it to
   * `acc`, continue with `x / 10`, all with C++ semantics. With `x` and
   * `acc` of one sign, every step only moves the accumulator away from zero.
   */
  function RevFrom(x: int, acc: int): (r: int)
    ensures x >= 0 && acc >= 0 ==> r >= acc
    ensures x <= 0 && acc <= 0 ==> r <= acc
    decreases Abs(x)
  {
    if x == 0 then acc else RevFrom(Div10(x), acc * 10 + Rem10(x))
  }

  /** Putting the last digit `d` of `m` at the end of the reversal of `m / 10`. */
  lemma ReverseDigitsStep(m: nat)
    requires m > 0
    ensures Value(Reverse(Digits(m)))
         == Value(Reverse(Digits(m / 10))) + Pow10(|Digits(m / 10)|) * (m % 10)
    ensures |Digits(m)| == |Digits(m / 10)| + 1
  {
    var ds, rest := Digits(m), Digits(m / 10);
    assert ds != [] && ds[1..] == rest && ds[0] == m % 10;
    assert Reverse(ds) == Reverse(ds[1..]) + [ds[0]];
    ValueAppend(Reverse(rest), [m % 10]);
    ReverseAt(rest);
    assert Value([m % 10]) == m % 10;
  }

  /** One turn of the loop. */
  lemma RevFromStep(x: int, acc: int)
    requires x != 0
    ensures RevFrom(x, acc) == RevFrom(Div10(x), acc * 10 + Rem10(x))
  {
  }

  /** On a natural number, the loop appends the reversed digits to `acc`. */
  lemma {:induction false} RevFromNat(m: nat, acc: int)
    ensures RevFrom(m, acc) == acc * Pow10(|Digits(m)|) + Value(Reverse(Digits(m)))
    decreases m
  {
    if m > 0 {
      var d, rest := m % 10, Digits(m / 10);
      assert Div10(m) == m / 10 && Rem10(m) == d;
      assert RevFrom(m, acc) == RevFrom(m / 10, acc * 10 + d);
      RevFromNat(m / 10, acc * 10 + d);
      ReverseDigitsStep(m);
      var p, r := Pow10(|rest|), Value(Reverse(rest));
      assert Pow10(|Digits(m)|) == 10 * p;
      AppendDigitArith(acc, d, p, r);
    }
  }

  lemma AppendDigitArith(acc: int, d: int, p: int, r: int)
    ensures (acc * 10 + d) * p + r == acc * (10 * p) + (r + p * d)
  {
    MulAssoc(acc, 10, p);
  }

  /** On a non-positive `x` and `acc`, the loop is the negation of the one on -x and -acc. */
  lemma {:induction false} RevFromNeg(x: int, acc: int)
    requires x <= 0
    ensures RevFrom(x, acc) == -RevFrom(-x, -acc)
    decreases -x
  {
    if x < 0 {
      assert Div10(x) == -Div10(-x) && Rem10(x) == -Rem10(-x);
      RevFromNeg(Div10(x), acc * 10 + Rem10(x));
    }
  }

  /** Starting from an empty accumulator, the loop computes the reversal. */
  lemma RevFromIsReversal(x: int)
    ensures RevFrom(x, 0) == Reversal(x)
  {
    if x < 0 {
      RevFromNeg(x, 0);
      RevFromNat(-x, 0);
    } else {
      RevFromNat(x, 0);
    }
  }

  /**
   * When the next step `acc * 10 + x % 10` already leaves the int range on
   * the side of the sign of `x`, so does the final reversal.
   */
  lemma StepLeavesRange(x: int, acc: int)
    requires x != 0
    requires x > 0 ==> acc >= 0 && acc * 10 + Rem10(x) > IntMax
    requires x < 0 ==> acc <= 0 && acc * 10 + Rem10(x) < IntMin
    ensures !InInt32(RevFrom(x, acc))
  {
    RevFromStep(x, acc);
  }

  // ---------------------------------------------------------------------------
  // ReferenceSolution

  /**
   * Peels off digits with C++ `%` and `/`, and returns 0 as soon as the next
   * step `rev * 10 + pop` would leave the int range. The guards make every
   * value assigned to `rev` an int.
   */
  method ReferenceReverse(x: i32) returns (r: i32)
    ensures r == ReverseSpec(x)
  {
    RevFromIsReversal(x);
    var y: i32 := x;
    var rev: i32 := 0;
    while y != 0
      invariant x >= 0 ==> y >= 0 && rev >= 0
      invariant x < 0 ==> y <= 0 && rev <= 0
      invariant RevFrom(y, rev) == Reversal(x)
      decreases Abs(y)
    {
      ghost var before := y;
      var pop := Rem10(y);
      y := Div10(y);
      if rev > Div10(IntMax) || (rev == Div10(IntMax) && pop > 7) {
        StepLeavesRange(before, rev);
        return 0;
      }
      if rev < Div10(IntMin) || (rev == Div10(IntMin) && pop < -8) {
        StepLeavesRange(before, rev);
        return 0;
      }
      rev := rev * 10 + pop;
    }
    return rev;
  }

  // ---------------------------------------------------------------------------
  // MySolution

  /**
   * Reverses a non-positive value directly, guarding only the lower end of
   * the range. A positive value is negated, reversed, and negated back,
   * except that a reversal equal to INT_MIN, which cannot be negated, gives 0.
   */
  method MyReverse(x: i32) returns (r: i32)
    ensures r == ReverseSpec(x)
    decreases if x > 0 then 1 else 0
  {
    if x > 0 {
      var res := MyReverse(-x);
      ReversalOfNegation(x);
      if res == IntMin {
        return 0;
      }
      return -res;
    }

    RevFromIsReversal(x);
    var y: i32 := x;
    var res: i32 := 0;
    while y != 0
      invariant y <= 0 && res <= 0
      invariant RevFrom(y, res) == Reversal(x)
      decreases Abs(y)
    {
      ghost var before := y;
      var sub := Rem10(y);
      y := Div10(y);
      if res < Div10(IntMin) {
        StepLeavesRange(before, res);
        return 0;
      }
      if res == Div10(IntMin) && sub < -8 {
        StepLeavesRange(before, res);
        return 0;
      }
      res := res * 10 + sub;
    }
    return res;
  }

  /**
   * The contract on a positive value follows from the one on its negation:
   * negating the result is safe exactly when it is not INT_MIN.
   */
  lemma ReversalOfNegation(x: i32)
    requires x > 0
    ensures ReverseSpec(x) == if ReverseSpec(-x) == IntMin then 0 else -ReverseSpec(-x)
  {
  }

  /** The two solutions are interchangeable: they return the same value on every int. */
  method SolutionsAgree(x: i32) returns (mine: i32, reference: i32)
    ensures mine == reference
  {
    mine := MyReverse(x);
    reference := ReferenceReverse(x);
  }

  // ---------------------------------------------------------------------------
  // Examples

  lemma ReverseExamples()
    ensures ReverseSpec(0) == 0
    ensures ReverseSpec(123) == 321
    ensures ReverseSpec(-123) == -321
  {
    assert Digits(123) == [3, 2, 1];
    assert Reverse([3, 2, 1]) == [1, 2, 3];
    assert Value([1, 2, 3]) == 321;
  }

  /** 1534236469 reverses to 9646324351, which is above INT_MAX. */
  lemma ReverseOverflowExample()
    ensures Reversal(1534236469) == 9646324351
    ensures ReverseSpec(1534236469) == 0
  {
    RevFromIsReversal(1534236469);
    RevFromOf1534236469Part0();
    RevFromOf1534236469Part1();
    RevFromOf1534236469Part2();
    RevFromOf1534236469Part3();
  }

  /** INT_MIN reverses to -8463847412, below INT_MIN, so the result is 0. */
  lemma ReverseIntMinExample()
    ensures Reversal(IntMin) == -8463847412
    ensures ReverseSpec(IntMin) == 0
  {
    RevFromIsReversal(IntMin);
    RevFromOfIntMinStart();
    RevFromOfIntMinPart0();
    RevFromOfIntMinPart1();
    RevFromOfIntMinPart2();
    RevFromOfIntMinPart3();
  }

  // The loop unrolled on the two inputs above, a few turns per lemma. The
  // split exists only to keep each proof within the solver's resource limit.

  lemma RevFromOf1534236469Part0()
    ensures RevFrom(1534236469, 0) == RevFrom(1534236, 964)
  {
    var x, acc := 1534236469, 0;
    RevFromStep(x, acc);
    x, acc := Div10(x), acc * 10 + Rem10(x);
    assert x == 153423646 && acc == 9;
    RevFromStep(x, acc);
    x, acc := Div10(x), acc * 10 + Rem10(x);
    assert x == 15342364 && acc == 96;
    RevFromStep(x, acc);
    x, acc := Div10(x), acc * 10 + Rem10(x);
    assert x == 1534236 && acc == 964;
  }

  lemma RevFromOf1534236469Part1()
    ensures RevFrom(1534236, 964) == RevFrom(1534, 964632)
  {
    var x, acc := 1534236, 964;
    RevFromStep(x, acc);
    x, acc := Div10(x), acc * 10 + Rem10(x);
    assert x == 153423 && acc == 9646;
    RevFromStep(x, acc);
    x, acc := Div10(x), acc * 10 + Rem10(x);
    assert x == 15342 && acc == 96463;
    RevFromStep(x, acc);
    x, acc := Div10(x), acc * 10 + Rem10(x);
    assert x == 1534 && acc == 964632;
  }

  lemma RevFromOf1534236469Part2()
    ensures RevFrom(1534, 964632) == RevFrom(1, 964632435)
  {
    var x, acc := 1534, 964632;
    RevFromStep(x, acc);
    x, acc := Div10(x), acc * 10 + Rem10(x);
    assert x == 153 && acc == 9646324;
    RevFromStep(x, acc);
    x, acc := Div10(x), acc * 10 + Rem10(x);
    assert x == 15 && acc == 96463243;
    RevFromStep(x, acc);
    x, acc := Div10(x), acc * 10 + Rem10(x);
    assert x == 1 && acc == 964632435;
  }

  lemma RevFromOf1534236469Part3()
    ensures RevFrom(1, 964632435) == RevFrom(0, 9646324351)
  {
    var x, acc := 1, 964632435;
    RevFromStep(x, acc);
    x, acc := Div10(x), acc * 10 + Rem10(x);
    assert x == 0 && acc == 9646324351;
  }

  lemma RevFromOfIntMinStart()
    ensures RevFrom(-2147483648, 0) == RevFrom(-214748364, -8)
  {
    var x, acc := -2147483648, 0;
    RevFromStep(x, acc);
    x, acc := Div10(x), acc * 10 + Rem10(x);
    assert x == -214748364 && acc == -8;
  }

  lemma RevFromOfIntMinPart0()
    ensures RevFrom(-214748364, -8) == RevFrom(-2147483, -846)
  {
    var x, acc := -214748364, -8;
    RevFromStep(x, acc);
    x, acc := Div10(x), acc * 10 + Rem10(x);
    assert x == -21474836 && acc == -84;
    RevFromStep(x, acc);
    x, acc := Div10(x), acc * 10 + Rem10(x);
    assert x == -2147483 && acc == -846;
  }

  lemma RevFromOfIntMinPart1()
    ensures RevFrom(-2147483, -846) == RevFrom(-2147, -846384)
  {
    var x, acc := -2147483, -846;
    RevFromStep(x, acc);
    x, acc := Div10(x), acc * 10 + Rem10(x);
    assert x == -214748 && acc == -8463;
    RevFromStep(x, acc);
    x, acc := Div10(x), acc * 10 + Rem10(x);
    assert x == -21474 && acc == -84638;
    RevFromStep(x, acc);
    x, acc := Div10(x), acc * 10 + Rem10(x);
    assert x == -2147 && acc == -846384;
  }

  lemma RevFromOfIntMinPart2()
    ensures RevFrom(-2147, -846384) == RevFrom(-2, -846384741)
  {
    var x, acc := -2147, -846384;
    RevFromStep(x, acc);
    x, acc := Div10(x), acc * 10 + Rem10(x);
    assert x == -214 && acc == -8463847;
    RevFromStep(x, acc);
    x, acc := Div10(x), acc * 10 + Rem10(x);
    assert x == -21 && acc == -84638474;
    RevFromStep(x, acc);
    x, acc := Div10(x), acc * 10 + Rem10(x);
    assert x == -2 && acc == -846384741;
  }

  lemma RevFromOfIntMinPart3()
    ensures RevFrom(-2, -846384741) == RevFrom(0, -8463847412)
  {
    var x, acc := -2, -846384741;
    RevFromStep(x, acc);
    x, acc := Div10(x), acc * 10 + Rem10(x);
    assert x == 0 && acc == -8463847412;
  }
}
