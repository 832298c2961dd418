/**
 * The bit utilities of include/binUtils.h: `setBit`, `getBit` and the
 * `TallBitMatrix` that scatters the low bits of a vector into the places of
 * the set bits of a mask (a bit deposit). Values of the unsigned type `B`
 * are naturals below 2^width.
 */
module BinUtils {
  import opened Bits

  // ---------------------------------------------------------------------------
  // setBit and getBit
  // ---------------------------------------------------------------------------

  /** `setBit(val, i)`: the new value of `val`, `(1 << i) | val`. */
  function SetBit(val: nat, i: nat): nat
  {
    Or(Pow2(i), val)
  }

  /** setBit sets bit i and leaves every other bit as it was. */
  lemma SetBitBits(val: nat, i: nat, j: nat)
    ensures Bit(SetBit(val, i), j) <==> j == i || Bit(val, j)
  {
    BitOfOr(Pow2(i), val, j);
    BitOfPow2(i, j);
  }

  /** Setting the same bit twice is setting it once. */
  lemma SetBitIdempotent(val: nat, i: nat)
    ensures SetBit(SetBit(val, i), i) == SetBit(val, i)
  {
    forall j: nat
      ensures Bit(SetBit(SetBit(val, i), i), j) == Bit(SetBit(val, i), j)
    {
      SetBitBits(SetBit(val, i), i, j);
      SetBitBits(val, i, j);
    }
    BitsExtensional(SetBit(SetBit(val, i), i), SetBit(val, i));
  }

  /** `getBit(val, i)`: `(val >> i) & 1`. */
  function GetBit(val: nat, i: nat): nat
  {
    And(ShiftRight(val, i), 1)
  }

  /** getBit is 0 or 1, and 1 exactly when bit i is set. */
  lemma GetBitValue(val: nat, i: nat)
    ensures GetBit(val, i) <= 1
    ensures GetBit(val, i) == 1 <==> Bit(val, i)
  {
    var y := ShiftRight(val, i);
    if y != 0 {
      assert And(y, 1) == (if y % 2 == 1 then 1 else 0) + 2 * And(y / 2, 0);
    }
    BitIsShiftedDigit(val, i);
  }

  /** Reading back a bit that was just set gives 1; other bits read as before. */
  lemma GetSetBit(val: nat, i: nat, j: nat)
    ensures GetBit(SetBit(val, i), i) == 1
    ensures j != i ==> GetBit(SetBit(val, i), j) == GetBit(val, j)
  {
    SetBitBits(val, i, i);
    GetBitValue(SetBit(val, i), i);
    SetBitBits(val, i, j);
    GetBitValue(SetBit(val, i), j);
    GetBitValue(val, j);
  }

  // ---------------------------------------------------------------------------
  // Bit facts used by the matrix
  // ---------------------------------------------------------------------------

  /** `(1u << n) - 1u` has exactly the bits below n. */
  lemma {:induction false} LowMaskBits(n: nat, j: nat)
    ensures Bit(Pow2(n) - 1, j) <==> j < n
  {
    if n == 0 {
      BitOfZero(j);
    } else if j > 0 {
      assert (Pow2(n) - 1) / 2 == Pow2(n - 1) - 1;
      LowMaskBits(n - 1, j - 1);
    }
  }

  /** Masking with `(1 << n) - 1` keeps the bits below n. */
  lemma MaskedBits(v: nat, n: nat, j: nat)
    ensures Bit(And(v, Pow2(n) - 1), j) <==> Bit(v, j) && j < n
  {
    BitOfAnd(v, Pow2(n) - 1, j);
    LowMaskBits(n, j);
  }

  lemma MaskedBound(v: nat, n: nat)
    ensures And(v, Pow2(n) - 1) < Pow2(n)
  {
    var masked := And(v, Pow2(n) - 1);
    forall j: nat | j >= n
      ensures !Bit(masked, j)
    {
      MaskedBits(v, n, j);
    }
    BelowFromBits(masked, n);
  }

  /** `ones & (1 << k)` is nonzero exactly when bit k of ones is set. */
  lemma AndBitNonzero(ones: nat, k: nat)
    ensures And(ones, Pow2(k)) != 0 <==> Bit(ones, k)
  {
    BitOfAnd(ones, Pow2(k), k);
    BitOfPow2(k, k);
    if !Bit(ones, k) {
      forall j: nat
        ensures Bit(And(ones, Pow2(k)), j) == Bit(0, j)
      {
        BitOfAnd(ones, Pow2(k), j);
        BitOfPow2(k, j);
        BitOfZero(j);
      }
      BitsExtensional(And(ones, Pow2(k)), 0);
    } else {
      BitOfZero(k);
    }
  }

  /** Masking distributes over exclusive or. */
  lemma AndXor(a: nat, b: nat, m: nat)
    ensures And(Xor(a, b), m) == Xor(And(a, m), And(b, m))
  {
    forall j: nat
      ensures Bit(And(Xor(a, b), m), j) == Bit(Xor(And(a, m), And(b, m)), j)
    {
      BitOfAnd(Xor(a, b), m, j);
      BitOfXor(a, b, j);
      BitOfXor(And(a, m), And(b, m), j);
      BitOfAnd(a, m, j);
      BitOfAnd(b, m, j);
    }
    BitsExtensional(And(Xor(a, b), m), Xor(And(a, m), And(b, m)));
  }

  /** Exclusive or of four values can be regrouped. */
  lemma XorRegroup(a: nat, b: nat, c: nat, d: nat)
    ensures Xor(Xor(a, b), Xor(c, d)) == Xor(Xor(a, c), Xor(b, d))
  {
    forall j: nat
      ensures Bit(Xor(Xor(a, b), Xor(c, d)), j) == Bit(Xor(Xor(a, c), Xor(b, d)), j)
    {
      BitOfXor(Xor(a, b), Xor(c, d), j);
      BitOfXor(Xor(a, c), Xor(b, d), j);
      BitOfXor(a, b, j);
      BitOfXor(c, d, j);
      BitOfXor(a, c, j);
      BitOfXor(b, d, j);
    }
    BitsExtensional(Xor(Xor(a, b), Xor(c, d)), Xor(Xor(a, c), Xor(b, d)));
  }

  // ---------------------------------------------------------------------------
  // The columns: places of the low set bits of a mask
  // ---------------------------------------------------------------------------

  /** The positions below k where `ones` has a set bit, in increasing order. */
  function SetPositions(ones: nat, k: nat): (r: seq<nat>)
    ensures |r| <= k
  {
    if k == 0 then []
    else SetPositions(ones, k - 1) + (if Bit(ones, k - 1) then [k - 1] else [])
  }

  /** The number of set bits of `ones` below k. */
  function CountBelow(ones: nat, k: nat): nat
  {
    if k == 0 then 0 else CountBelow(ones, k - 1) + (if Bit(ones, k - 1) then 1 else 0)
  }

  /**
   * SetPositions lists exactly the set bits below k, each once, in strictly
   * increasing order.
   */
  lemma {:induction false} SetPositionsSpec(ones: nat, k: nat)
    ensures |SetPositions(ones, k)| == CountBelow(ones, k)
    ensures forall i :: 0 <= i < |SetPositions(ones, k)| ==>
      SetPositions(ones, k)[i] < k && Bit(ones, SetPositions(ones, k)[i])
    ensures forall i, j :: 0 <= i < j < |SetPositions(ones, k)| ==>
      SetPositions(ones, k)[i] < SetPositions(ones, k)[j]
    ensures forall p: nat :: p < k && Bit(ones, p) ==> p in SetPositions(ones, k)
  {
    if k > 0 {
      SetPositionsSpec(ones, k - 1);
    }
  }

  /** A shorter scan is a prefix of a longer one. */
  lemma {:induction false} SetPositionsPrefix(ones: nat, k: nat, n: nat)
    requires k <= n
    ensures SetPositions(ones, k) <= SetPositions(ones, n)
    decreases n
  {
    if k < n {
      SetPositionsPrefix(ones, k, n - 1);
    }
  }

  lemma {:induction false} CountBelowStep(x: nat, k: nat)
    ensures CountBelow(x, k + 1) == x % 2 + CountBelow(x / 2, k)
  {
    if k > 0 {
      CountBelowStep(x, k - 1);
    }
  }

  /** Below its width, the number of set bits is the popcount. */
  lemma {:induction false} CountBelowIsPopcount(x: nat, n: nat)
    requires x < Pow2(n)
    ensures CountBelow(x, n) == Popcount(x)
  {
    if n == 0 {
      assert x == 0;
    } else {
      CountBelowIsPopcount(x / 2, n - 1);
      CountBelowStep(x, n - 1);
    }
  }

  function Min(a: nat, b: nat): nat
  {
    if a <= b then a else b
  }

  /** The columns `generateColumns(ones)` fills: the first w set bits of ones, as single bits. */
  function ColumnsFor(ones: nat, w: nat, width: nat): (r: seq<nat>)
    ensures |r| == Min(w, |SetPositions(ones, width)|)
  {
    var pos := SetPositions(ones, width);
    seq(Min(w, |pos|), i requires 0 <= i < Min(w, |pos|) => Pow2(pos[i]))
  }

  // ---------------------------------------------------------------------------
  // expandBitstring as a function
  // ---------------------------------------------------------------------------

  /** Exclusive or of the columns selected by the bits of v, lowest column first. */
  function Expand(cols: seq<nat>, v: nat): nat
  {
    if cols == [] then 0
    else Xor(if v % 2 == 1 then cols[0] else 0, Expand(cols[1..], v / 2))
  }

  /** The result of `expandBitstring(vec)` with the first n columns. */
  function Deposit(cols: seq<nat>, n: nat, vec: nat): nat
    requires n <= |cols|
  {
    Expand(cols[..n], And(vec, Pow2(n) - 1))
  }

  lemma {:induction false} ExpandZero(cols: seq<nat>)
    ensures Expand(cols, 0) == 0
  {
    if cols != [] {
      ExpandZero(cols[1..]);
    }
  }

  /** The unit vector k selects column k. */
  lemma {:induction false} ExpandUnit(cols: seq<nat>, k: nat)
    requires k < |cols|
    ensures Expand(cols, Pow2(k)) == cols[k]
  {
    if k == 0 {
      ExpandZero(cols[1..]);
      XorZeroRight(cols[0]);
    } else {
      ExpandUnit(cols[1..], k - 1);
      assert Pow2(k) / 2 == Pow2(k - 1);
    }
  }

  lemma XorDigits(a: nat, b: nat)
    ensures Xor(a, b) % 2 == (if a % 2 != b % 2 then 1 else 0)
    ensures Xor(a, b) / 2 == Xor(a / 2, b / 2)
  {
    if a == 0 {
      assert Xor(a / 2, b / 2) == b / 2;
    } else if b == 0 {
      XorZeroRight(a / 2);
    } else {
      DigitSplit(if a % 2 != b % 2 then 1 else 0, Xor(a / 2, b / 2));
    }
  }

  /** A binary digit and the number above it are recovered by % 2 and / 2. */
  lemma DigitSplit(d: nat, x: nat)
    requires d < 2
    ensures (d + 2 * x) % 2 == d && (d + 2 * x) / 2 == x
  {
  }

  /** Expansion is linear over exclusive or. */
  lemma {:induction false} ExpandLinear(cols: seq<nat>, a: nat, b: nat)
    ensures Expand(cols, Xor(a, b)) == Xor(Expand(cols, a), Expand(cols, b))
  {
    if cols != [] {
      XorDigits(a, b);
      ExpandLinear(cols[1..], a / 2, b / 2);
      var ta := if a % 2 == 1 then cols[0] else 0;
      var tb := if b % 2 == 1 then cols[0] else 0;
      var tab := if Xor(a, b) % 2 == 1 then cols[0] else 0;
      assert tab == Xor(ta, tb) by {
        XorSelf(cols[0]);
        XorZeroRight(cols[0]);
      }
      XorRegroup(ta, tb, Expand(cols[1..], a / 2), Expand(cols[1..], b / 2));
    }
  }

  /** Every set bit of an expansion is a set bit of some column. */
  lemma {:induction false} ExpandWithin(cols: seq<nat>, v: nat, ones: nat, j: nat)
    requires forall k, i: nat :: 0 <= k < |cols| && Bit(cols[k], i) ==> Bit(ones, i)
    ensures Bit(Expand(cols, v), j) ==> Bit(ones, j)
  {
    if cols == [] {
      BitOfZero(j);
    } else {
      forall k, i: nat | 0 <= k < |cols[1..]| && Bit(cols[1..][k], i)
        ensures Bit(ones, i)
      {
        assert cols[1..][k] == cols[k + 1];
      }
      var rest := Expand(cols[1..], v / 2);
      ExpandWithin(cols[1..], v / 2, ones, j);
      var t := if v % 2 == 1 then cols[0] else 0;
      assert Expand(cols, v) == Xor(t, rest);
      BitOfXor(t, rest, j);
      BitOfZero(j);
      if Bit(t, j) {
        assert Bit(cols[0], j);
      }
    }
  }

  /** expandBitstring is linear: `expand(a ^ b) == expand(a) ^ expand(b)`. */
  lemma DepositLinear(cols: seq<nat>, n: nat, a: nat, b: nat)
    requires n <= |cols|
    ensures Deposit(cols, n, Xor(a, b)) == Xor(Deposit(cols, n, a), Deposit(cols, n, b))
  {
    AndXor(a, b, Pow2(n) - 1);
    ExpandLinear(cols[..n], And(a, Pow2(n) - 1), And(b, Pow2(n) - 1));
  }

  /**
   * Bit k of vec contributes exactly column k when k is below the number of
   * nonzero columns, and nothing otherwise.
   */
  lemma DepositContribution(cols: seq<nat>, n: nat, vec: nat, k: nat)
    requires n <= |cols|
    ensures k < n ==> Deposit(cols, n, Xor(vec, Pow2(k))) == Xor(Deposit(cols, n, vec), cols[k])
    ensures k >= n ==> Deposit(cols, n, Xor(vec, Pow2(k))) == Deposit(cols, n, vec)
  {
    DepositLinear(cols, n, vec, Pow2(k));
    var masked := And(Pow2(k), Pow2(n) - 1);
    if k < n {
      forall j: nat
        ensures Bit(masked, j) == Bit(Pow2(k), j)
      {
        MaskedBits(Pow2(k), n, j);
        BitOfPow2(k, j);
      }
      BitsExtensional(masked, Pow2(k));
      ExpandUnit(cols[..n], k);
    } else {
      forall j: nat
        ensures Bit(masked, j) == Bit(0, j)
      {
        MaskedBits(Pow2(k), n, j);
        BitOfPow2(k, j);
        BitOfZero(j);
      }
      BitsExtensional(masked, 0);
      ExpandZero(cols[..n]);
      XorZeroRight(Deposit(cols, n, vec));
    }
  }

  /** With the columns of `generateColumns(ones)`, no bit outside `ones` is ever set. */
  lemma DepositWithinOnes(ones: nat, w: nat, width: nat, vec: nat, j: nat)
    ensures Bit(Deposit(ColumnsFor(ones, w, width), |ColumnsFor(ones, w, width)|, vec), j) ==> Bit(ones, j)
  {
    var cols := ColumnsFor(ones, w, width);
    var pos := SetPositions(ones, width);
    SetPositionsSpec(ones, width);
    forall k, i: nat | 0 <= k < |cols| && Bit(cols[k], i)
      ensures Bit(ones, i)
    {
      BitOfPow2(pos[k], i);
    }
    assert cols[..|cols|] == cols;
    ExpandWithin(cols, And(vec, Pow2(|cols|) - 1), ones, j);
  }

  // ---------------------------------------------------------------------------
  // expandBitstring as written, for a B wider than 32 bits
  // ---------------------------------------------------------------------------

  /** `0u - 1u`: all 32 bits of an `unsigned int`. */
  const UIntOnes: nat := Pow2(32) - 1

  /**
   * `expandBitstring` as written, for a type B of any width: the mask
   * `0u - bool(vec & 1u)` that selects a column is an `unsigned int`, so
   * only the low 32 bits of a selected column reach the result. The mask
   * `(1u << n) - 1u` is taken as 2^n - 1, which it is for n below 32.
   */
  function DepositAsWritten(cols: seq<nat>, n: nat, vec: nat): nat
    requires n <= |cols|
  {
    Deposit(seq(|cols|, k requires 0 <= k < |cols| => And(cols[k], UIntOnes)), n, vec)
  }

  /** Masking with the 32 low bits keeps a number below 2^32. */
  lemma UIntMaskKeeps(x: nat)
    requires x < Pow2(32)
    ensures And(x, UIntOnes) == x
  {
    forall j: nat
      ensures Bit(And(x, UIntOnes), j) == Bit(x, j)
    {
      MaskedBits(x, 32, j);
      if j >= 32 {
        NoBitsAbove(x, 32, j);
      }
    }
    BitsExtensional(And(x, UIntOnes), x);
  }

  /** For a B of at most 32 bits the masks change nothing: as written is as intended. */
  lemma DepositAsWrittenNarrow(cols: seq<nat>, n: nat, vec: nat)
    requires n <= |cols| && forall k :: 0 <= k < |cols| ==> cols[k] < Pow2(32)
    ensures DepositAsWritten(cols, n, vec) == Deposit(cols, n, vec)
  {
    var masked := seq(|cols|, k requires 0 <= k < |cols| => And(cols[k], UIntOnes));
    forall k | 0 <= k < |cols|
      ensures masked[k] == cols[k]
    {
      UIntMaskKeeps(cols[k]);
    }
    assert masked == cols;
  }

  /**
   * The inputs that show the difference: B of 64 bits, W = 1 and `ones`
   * with only bit k set, for k from 32 to 63 (bit 40, say).
   * `generateColumns` makes the single column 1 << k, which
   * `expandBitstring(1)` is meant to return; as written it returns 0.
   */
  lemma WideColumnDropped(k: nat)
    requires 32 <= k < 64
    ensures ColumnsFor(Pow2(k), 1, 64) == [Pow2(k)]
    ensures Deposit([Pow2(k)], 1, 1) == Pow2(k)
    ensures DepositAsWritten([Pow2(k)], 1, 1) == 0
  {
    WideColumnGenerated(k);
    ExpandZero([]);
    ExpandZero([0]);
    assert Pow2(1) - 1 == 1 && And(1, 1) == 1;
    assert [Pow2(k)][..1] == [Pow2(k)] && [Pow2(k)][1..] == [];
    WideColumnMasked(k);
    assert seq(1, j requires 0 <= j < 1 => And([Pow2(k)][j], UIntOnes)) == [0];
    assert [0][..1] == [0] && [0][1..] == [];
  }

  /** `generateColumns` on a mask with the one bit k below the width makes the one column 1 << k. */
  lemma WideColumnGenerated(k: nat)
    requires k < 64
    ensures ColumnsFor(Pow2(k), 1, 64) == [Pow2(k)]
  {
    var pos := SetPositions(Pow2(k), 64);
    SetPositionsSpec(Pow2(k), 64);
    BitOfPow2(k, k);
    assert k in pos;
    BitOfPow2(k, pos[0]);
  }

  /** The 32-bit mask clears a single bit at k >= 32. */
  lemma WideColumnMasked(k: nat)
    requires 32 <= k
    ensures And(Pow2(k), UIntOnes) == 0
  {
    forall j: nat
      ensures Bit(And(Pow2(k), UIntOnes), j) == Bit(0, j)
    {
      MaskedBits(Pow2(k), 32, j);
      BitOfPow2(k, j);
      BitOfZero(j);
    }
    BitsExtensional(And(Pow2(k), UIntOnes), 0);
  }

  // ---------------------------------------------------------------------------
  // TallBitMatrix
  // ---------------------------------------------------------------------------

  /** `TallBitMatrix<W, B>`: W columns of B, of which the first few are nonzero. */
  class TallBitMatrix {
    /** W, the number of columns. */
    const w: nat
    /** The number of bits of B. */
    const width: nat
    const columns: array<nat>
    var numNonzeroColumns: nat

    ghost predicate Valid()
      reads this
    {
      columns.Length == w && numNonzeroColumns <= w
    }

    /** A matrix as declared: its contents are set by `clear` before use. */
    constructor (w: nat, width: nat)
      ensures Valid() && this.w == w && this.width == width && fresh(columns)
    {
      this.w := w;
      this.width := width;
      columns := new nat[w];
      numNonzeroColumns := 0;
    }

    /** `clear()`: every column zero, no nonzero columns. */
    method Clear()
      requires columns.Length == w
      modifies this, columns
      ensures Valid() && numNonzeroColumns == 0
      ensures forall k :: 0 <= k < w ==> columns[k] == 0
    {
      for k := 0 to w
        invariant forall j :: 0 <= j < k ==> columns[j] == 0
      {
        columns[k] := 0;
      }
      numNonzeroColumns := 0;
    }

    /**
     * `generateColumns(ones)`: walk a single bit up through B; each bit that
     * is set in `ones` becomes the next column, until W columns are taken
     * or the bit is shifted out of B.
     */
    static method GenerateColumns(w: nat, width: nat, ones: nat) returns (m: TallBitMatrix)
      requires ones < Pow2(width)
      ensures fresh(m) && fresh(m.columns) && m.Valid() && m.w == w && m.width == width
      ensures m.numNonzeroColumns == Min(w, Popcount(ones))
      ensures m.columns[..m.numNonzeroColumns] == ColumnsFor(ones, w, width)
      ensures forall k :: m.numNonzeroColumns <= k < w ==> m.columns[k] == 0
    {
      m := new TallBitMatrix(w, width);
      m.Clear();
      FirstColumn(width);
      var newCol: nat := 1 % Pow2(width);
      var c := 0;
      ghost var k := 0;
      while newCol != 0 && c < w
        invariant k <= width && newCol == (if k < width then Pow2(k) else 0)
        invariant c <= w && c == |SetPositions(ones, k)|
        invariant forall i :: 0 <= i < c ==> m.columns[i] == Pow2(SetPositions(ones, k)[i])
        invariant forall i :: c <= i < w ==> m.columns[i] == 0
        invariant m.Valid() && m.w == w && m.width == width && m.numNonzeroColumns == 0
        decreases width - k
      {
        AndBitNonzero(ones, k);
        if And(ones, newCol) != 0 {
          m.columns[c] := newCol;
          c := c + 1;
        }
        ShiftColumn(k, width);
        newCol := (newCol * 2) % Pow2(width);
        k := k + 1;
      }
      m.numNonzeroColumns := c;
      GeneratedColumns(ones, w, width, k, c);
      assert m.columns[..c] == ColumnsFor(ones, w, width);
    }

    /**
     * `expandBitstring(vec)`: keep the low `m_numNonzeroColumns` bits of vec,
     * then exclusive-or in column c for each set bit c.
     */
    method ExpandBitstring(vec: nat) returns (r: nat)
      requires Valid()
      ensures r == Deposit(columns[..], numNonzeroColumns, vec)
    {
      var n := numNonzeroColumns;
      var v: nat := And(vec, Pow2(n) - 1);
      ghost var cols := columns[..n];
      ghost var v0 := v;
      MaskedBound(vec, n);
      r := 0;
      var c: nat := 0;
      while v != 0
        invariant c <= n && v < Pow2(n - c)
        invariant Xor(r, Expand(cols[c..], v)) == Expand(cols, v0)
        decreases v
      {
        assert c < n by {
          assert Pow2(0) == 1;
        }
        var term := if v % 2 == 1 then columns[c] else 0;
        assert cols[c..][1..] == cols[c + 1..];
        XorAssociates(r, term, Expand(cols[c + 1..], v / 2));
        r := Xor(r, term);
        c := c + 1;
        v := v / 2;
      }
      ExpandZero(cols[c..]);
      XorZeroRight(r);
      assert columns[..][..n] == cols;
    }
  }

  /** Doubling the walking bit: the next bit, or zero once it leaves B. */
  lemma ShiftColumn(k: nat, width: nat)
    requires k < width
    ensures (Pow2(k) * 2) % Pow2(width) == (if k + 1 < width then Pow2(k + 1) else 0)
  {
    assert Pow2(k) * 2 == Pow2(k + 1);
    if k + 1 < width {
      Pow2Monotone(k + 1, width);
      SmallMod(Pow2(k + 1), Pow2(width));
    } else {
      SelfMod(Pow2(width));
    }
  }

  /** The walking bit starts at bit 0, or at zero when B has no bits. */
  lemma FirstColumn(width: nat)
    ensures 1 % Pow2(width) == (if 0 < width then Pow2(0) else 0)
  {
    assert Pow2(0) == 1;
    if 0 < width {
      Pow2Monotone(0, width);
      SmallMod(1, Pow2(width));
    } else {
      SelfMod(1);
    }
  }

  lemma SmallMod(x: nat, m: nat)
    requires x < m
    ensures x % m == x
  {
  }

  lemma SelfMod(m: nat)
    requires m > 0
    ensures m % m == 0
  {
  }

  /** Where the scan of generateColumns stops, its columns are ColumnsFor. */
  lemma GeneratedColumns(ones: nat, w: nat, width: nat, k: nat, c: nat)
    requires ones < Pow2(width) && k <= width && c <= w && c == |SetPositions(ones, k)|
    requires k == width || c == w
    ensures c == Min(w, Popcount(ones)) && c <= |SetPositions(ones, width)|
    ensures forall i :: 0 <= i < c ==> SetPositions(ones, k)[i] == SetPositions(ones, width)[i]
    ensures |ColumnsFor(ones, w, width)| == c
  {
    SetPositionsPrefix(ones, k, width);
    SetPositionsSpec(ones, width);
    CountBelowIsPopcount(ones, width);
  }
}
