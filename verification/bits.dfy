/**
 * Non-negative integers read as bit strings. Bit i of x is its i-th binary
 * digit; the operations below are the unbounded counterparts of C's and
 * Python's `^`, `&`, `|` and `1 << k` on integers that never overflow.
 * Every other module states its bit-level facts in terms of `Bit`.
 */
module Bits {

  /** 2^n, the value of `1 << n`. */
  function Pow2(n: nat): (r: nat)
    ensures r >= 1
  {
    if n == 0 then 1 else 2 * Pow2(n - 1)
  }

  /** Bit i of x. */
  predicate Bit(x: nat, i: nat)
  {
    if i == 0 then x % 2 == 1 else Bit(x / 2, i - 1)
  }

  /** Bitwise exclusive or. */
  function Xor(a: nat, b: nat): nat
    decreases a + b
  {
    if a == 0 then b
    else if b == 0 then a
    else (if a % 2 != b % 2 then 1 else 0) + 2 * Xor(a / 2, b / 2)
  }

  /** Bitwise and. */
  function And(a: nat, b: nat): nat
  {
    if a == 0 || b == 0 then 0
    else (if a % 2 == 1 && b % 2 == 1 then 1 else 0) + 2 * And(a / 2, b / 2)
  }

  /** Bitwise or. */
  function Or(a: nat, b: nat): nat
    decreases a + b
  {
    if a == 0 then b
    else if b == 0 then a
    else (if a % 2 == 1 || b % 2 == 1 then 1 else 0) + 2 * Or(a / 2, b / 2)
  }

  /** `x >> i`: x halved i times, rounding down. */
  function ShiftRight(x: nat, i: nat): nat
  {
    if i == 0 then x else ShiftRight(x / 2, i - 1)
  }

  /** Number of set bits. */
  function Popcount(x: nat): nat
  {
    if x == 0 then 0 else x % 2 + Popcount(x / 2)
  }

  /** x is a single set bit, i.e. a power of two. */
  predicate IsSingleBit(x: nat)
  {
    exists k: nat {:trigger Pow2(k)} :: k < x && Pow2(k) == x
  }

  // ---------------------------------------------------------------------------
  // Bits of the basic values and operations
  // ---------------------------------------------------------------------------

  lemma {:induction false} BitOfZero(i: nat)
    ensures !Bit(0, i)
  {
    if i > 0 {
      BitOfZero(i - 1);
    }
  }

  lemma {:induction false} BitOfPow2(k: nat, i: nat)
    ensures Bit(Pow2(k), i) <==> i == k
  {
    if k == 0 {
      if i > 0 {
        BitOfZero(i - 1);
      }
    } else if i > 0 {
      assert Pow2(k) / 2 == Pow2(k - 1);
      BitOfPow2(k - 1, i - 1);
    }
  }

  lemma {:induction false} BitOfXor(a: nat, b: nat, i: nat)
    ensures Bit(Xor(a, b), i) <==> Bit(a, i) != Bit(b, i)
    decreases a + b
  {
    if a == 0 {
      BitOfZero(i);
    } else if b == 0 {
      BitOfZero(i);
    } else {
      var c := if a % 2 != b % 2 then 1 else 0;
      var x := Xor(a / 2, b / 2);
      assert Xor(a, b) == c + 2 * x;
      if i > 0 {
        assert (c + 2 * x) / 2 == x;
        BitOfXor(a / 2, b / 2, i - 1);
      }
    }
  }

  lemma {:induction false} BitOfAnd(a: nat, b: nat, i: nat)
    ensures Bit(And(a, b), i) <==> Bit(a, i) && Bit(b, i)
  {
    if a == 0 || b == 0 {
      BitOfZero(i);
    } else {
      var c := if a % 2 == 1 && b % 2 == 1 then 1 else 0;
      var x := And(a / 2, b / 2);
      assert And(a, b) == c + 2 * x;
      if i > 0 {
        assert (c + 2 * x) / 2 == x;
        BitOfAnd(a / 2, b / 2, i - 1);
      }
    }
  }

  lemma {:induction false} BitOfOr(a: nat, b: nat, i: nat)
    ensures Bit(Or(a, b), i) <==> Bit(a, i) || Bit(b, i)
    decreases a + b
  {
    if a == 0 {
      BitOfZero(i);
    } else if b == 0 {
      BitOfZero(i);
    } else {
      var c := if a % 2 == 1 || b % 2 == 1 then 1 else 0;
      var x := Or(a / 2, b / 2);
      assert Or(a, b) == c + 2 * x;
      if i > 0 {
        assert (c + 2 * x) / 2 == x;
        BitOfOr(a / 2, b / 2, i - 1);
      }
    }
  }

  /** Bit i of x is the low digit of `x >> i`. */
  lemma {:induction false} BitIsShiftedDigit(x: nat, i: nat)
    ensures Bit(x, i) <==> ShiftRight(x, i) % 2 == 1
  {
    if i > 0 {
      BitIsShiftedDigit(x / 2, i - 1);
    }
  }

  // ---------------------------------------------------------------------------
  // Extensionality and bounds
  // ---------------------------------------------------------------------------

  /** Two numbers with the same bits are equal. */
  lemma {:induction false} BitsExtensional(a: nat, b: nat)
    requires forall i: nat :: Bit(a, i) == Bit(b, i)
    ensures a == b
    decreases a + b
  {
    if a != 0 || b != 0 {
      assert Bit(a, 0) == Bit(b, 0);
      forall i: nat
        ensures Bit(a / 2, i) == Bit(b / 2, i)
      {
        assert Bit(a, i + 1) == Bit(b, i + 1);
      }
      BitsExtensional(a / 2, b / 2);
    }
  }

  /** A nonzero number has a set bit. */
  lemma NonzeroHasBit(x: nat) returns (i: nat)
    requires x != 0
    ensures Bit(x, i)
  {
    if forall j: nat :: !Bit(x, j) {
      forall j: nat
        ensures Bit(x, j) == Bit(0, j)
      {
        BitOfZero(j);
      }
      BitsExtensional(x, 0);
    }
    i :| Bit(x, i);
  }

  /** A number below 2^n has no bit at or above n. */
  lemma {:induction false} NoBitsAbove(x: nat, n: nat, i: nat)
    requires x < Pow2(n) && i >= n
    ensures !Bit(x, i)
  {
    if n == 0 {
      assert x == 0;
      BitOfZero(i);
    } else {
      NoBitsAbove(x / 2, n - 1, i - 1);
    }
  }

  /** A number with no bit at or above n is below 2^n. */
  lemma {:induction false} BelowFromBits(x: nat, n: nat)
    requires forall i: nat :: i >= n ==> !Bit(x, i)
    ensures x < Pow2(n)
  {
    if n == 0 {
      if x != 0 {
        var i := NonzeroHasBit(x);
        assert false;
      }
    } else {
      forall i: nat | i >= n - 1
        ensures !Bit(x / 2, i)
      {
        assert !Bit(x, i + 1);
      }
      BelowFromBits(x / 2, n - 1);
    }
  }

  // ---------------------------------------------------------------------------
  // Algebra of exclusive or
  // ---------------------------------------------------------------------------

  lemma XorZeroRight(a: nat)
    ensures Xor(a, 0) == a
  {
  }

  lemma XorCommutes(a: nat, b: nat)
    ensures Xor(a, b) == Xor(b, a)
  {
    forall i: nat
      ensures Bit(Xor(a, b), i) == Bit(Xor(b, a), i)
    {
      BitOfXor(a, b, i);
      BitOfXor(b, a, i);
    }
    BitsExtensional(Xor(a, b), Xor(b, a));
  }

  lemma XorAssociates(a: nat, b: nat, c: nat)
    ensures Xor(Xor(a, b), c) == Xor(a, Xor(b, c))
  {
    forall i: nat
      ensures Bit(Xor(Xor(a, b), c), i) == Bit(Xor(a, Xor(b, c)), i)
    {
      BitOfXor(Xor(a, b), c, i);
      BitOfXor(a, b, i);
      BitOfXor(a, Xor(b, c), i);
      BitOfXor(b, c, i);
    }
    BitsExtensional(Xor(Xor(a, b), c), Xor(a, Xor(b, c)));
  }

  lemma XorSelf(a: nat)
    ensures Xor(a, a) == 0
  {
    forall i: nat
      ensures Bit(Xor(a, a), i) == Bit(0, i)
    {
      BitOfXor(a, a, i);
      BitOfZero(i);
    }
    BitsExtensional(Xor(a, a), 0);
  }

  /** Exclusive or with a fixed value can be undone. */
  lemma XorCancel(a: nat, b: nat)
    ensures Xor(Xor(a, b), b) == a
  {
    XorAssociates(a, b, b);
    XorSelf(b);
  }

  /** Exclusive or with a fixed value is injective. */
  lemma XorInjective(c: nat, a: nat, b: nat)
    requires Xor(c, a) == Xor(c, b)
    ensures a == b
  {
    XorCommutes(c, a);
    XorCommutes(c, b);
    XorCancel(a, c);
    XorCancel(b, c);
  }

  lemma XorBound(a: nat, b: nat, n: nat)
    requires a < Pow2(n) && b < Pow2(n)
    ensures Xor(a, b) < Pow2(n)
  {
    forall i: nat | i >= n
      ensures !Bit(Xor(a, b), i)
    {
      BitOfXor(a, b, i);
      NoBitsAbove(a, n, i);
      NoBitsAbove(b, n, i);
    }
    BelowFromBits(Xor(a, b), n);
  }

  lemma Pow2Monotone(k: nat, n: nat)
    requires k < n
    ensures Pow2(k) < Pow2(n)
    decreases n
  {
    if k < n - 1 {
      Pow2Monotone(k, n - 1);
    }
  }

  lemma Pow2Injective(j: nat, k: nat)
    requires Pow2(j) == Pow2(k)
    ensures j == k
  {
    if j < k {
      Pow2Monotone(j, k);
    } else if k < j {
      Pow2Monotone(k, j);
    }
  }

  /** 2^k exceeds k, so a single bit is named by a unique exponent below it. */
  lemma Pow2ExceedsExponent(k: nat)
    ensures k < Pow2(k)
  {
  }

  lemma SingleBitOf(k: nat)
    ensures IsSingleBit(Pow2(k))
  {
    Pow2ExceedsExponent(k);
  }

  /** The exponent of a single bit. */
  lemma SingleBitExponent(x: nat) returns (k: nat)
    requires IsSingleBit(x)
    ensures Pow2(k) == x && k < x
  {
    k :| k < x && Pow2(k) == x;
  }

  /** A single bit is a number with exactly one set bit. */
  lemma SingleBitHasOneBit(x: nat, k: nat)
    requires Pow2(k) == x
    ensures Popcount(x) == 1
    decreases k
  {
    if k > 0 {
      SingleBitHasOneBit(x / 2, k - 1);
    }
  }

  /** Adding a bit that is not set is the same as exclusive-oring it in. */
  lemma {:induction false} AddMissingBit(y: nat, k: nat)
    requires !Bit(y, k)
    ensures Pow2(k) + y == Xor(Pow2(k), y)
  {
    if y != 0 {
      if k == 0 {
        assert Xor(1, y) == 1 + 2 * Xor(0, y / 2);
      } else {
        assert !Bit(y / 2, k - 1);
        AddMissingBit(y / 2, k - 1);
        assert Xor(Pow2(k), y) == (if y % 2 == 1 then 1 else 0) + 2 * Xor(Pow2(k - 1), y / 2);
      }
    }
  }

  /** Popcount counts bits: it grows by one when a missing bit is added. */
  lemma {:induction false} PopcountAddBit(y: nat, k: nat)
    requires !Bit(y, k)
    ensures Popcount(Pow2(k) + y) == Popcount(y) + 1
  {
    if k == 0 {
      assert y % 2 == 0;
    } else {
      assert !Bit(y / 2, k - 1);
      PopcountAddBit(y / 2, k - 1);
      var x := Pow2(k) + y;
      assert x / 2 == Pow2(k - 1) + y / 2 && x % 2 == y % 2;
    }
  }
}
