/**
 * The canonical reflected-binary Gray-code walk over the 2^dim corners of a
 * hypercube (masado/traversal.py): the axis-flip sequence ("base path"), the
 * corner visitation order it induces ("base order") and the per-depth move
 * rule used by the backtracking search.
 *
 * Corners and displacements are bit vectors, modelled as naturals below 2^dim.
 */
module GrayPath {
  import opened Bits
  import opened Positions

  /** x is one axis flip 1 << d of a dim-dimensional hypercube. */
  predicate IsAxis(x: nat, dim: nat)
  {
    exists d: nat :: d < dim && x == Pow2(d)
  }

  // ---------------------------------------------------------------------------
  // Base path
  // ---------------------------------------------------------------------------

  /** generate_base_path: empty for dimension 0, otherwise lower ++ [1 << (dim-1)] ++ lower. */
  function BasePath(dim: nat): (r: seq<nat>)
    ensures |r| == Pow2(dim) - 1
  {
    if dim == 0 then [] else BasePath(dim - 1) + [Pow2(dim - 1)] + BasePath(dim - 1)
  }

  /** Number of trailing zero bits of a positive number (the "ruler" function). */
  function TrailingZeros(y: nat): nat
    requires y > 0
  {
    if y % 2 == 1 then 0 else 1 + TrailingZeros(y / 2)
  }

  /** Every entry of the base path is one axis flip 1 << k with k < dim. */
  lemma {:induction false} BasePathEntriesAreAxes(dim: nat, i: nat)
    requires i < |BasePath(dim)|
    ensures exists k: nat :: k < dim && BasePath(dim)[i] == Pow2(k)
  {
    var lower := BasePath(dim - 1);
    var h := |lower|;
    if i < h {
      BasePathEntriesAreAxes(dim - 1, i);
      assert BasePath(dim)[i] == lower[i];
    } else if i == h {
      assert BasePath(dim)[i] == Pow2(dim - 1);
    } else {
      BasePathEntriesAreAxes(dim - 1, i - h - 1);
      assert BasePath(dim)[i] == lower[i - h - 1];
    }
  }

  /**
   * The middle flip of the base path is the top axis 1 << (dim-1), and the two
   * halves around it are mirror images: the path is a palindrome.
   */
  lemma {:induction false} BasePathMiddleAndMirror(dim: nat)
    requires dim >= 1
    ensures BasePath(dim)[Pow2(dim - 1) - 1] == Pow2(dim - 1)
    ensures forall i :: 0 <= i < |BasePath(dim)| ==>
              BasePath(dim)[i] == BasePath(dim)[|BasePath(dim)| - 1 - i]
  {
    var p := BasePath(dim);
    var lower := BasePath(dim - 1);
    var h := |lower|;
    assert p == lower + [Pow2(dim - 1)] + lower;
    if dim >= 2 {
      BasePathMiddleAndMirror(dim - 1);
    }
    forall i | 0 <= i < |p|
      ensures p[i] == p[|p| - 1 - i]
    {
      if i < h {
        assert p[i] == lower[i];
        assert p[|p| - 1 - i] == lower[h - 1 - i];
      } else if i > h {
        assert p[i] == lower[i - h - 1];
        assert p[|p| - 1 - i] == lower[|p| - 1 - i];
      }
    }
  }

  /**
   * Reference characterisation: the i-th flip of the reflected-binary Gray
   * code is the lowest set bit of i+1.
   */
  lemma {:induction false} BasePathIsRuler(dim: nat, i: nat)
    requires i < |BasePath(dim)|
    ensures BasePath(dim)[i] == Pow2(TrailingZeros(i + 1))
  {
    var lower := BasePath(dim - 1);
    var h := |lower|;
    assert BasePath(dim) == lower + [Pow2(dim - 1)] + lower;
    if i < h {
      BasePathIsRuler(dim - 1, i);
    } else if i == h {
      TrailingZerosOfPow2(dim - 1);
    } else {
      var j := i - h - 1;
      BasePathIsRuler(dim - 1, j);
      TrailingZerosIgnoresHighBit(dim - 1, j + 1);
    }
  }

  lemma {:induction false} TrailingZerosOfPow2(m: nat)
    ensures TrailingZeros(Pow2(m)) == m
  {
    if m > 0 {
      TrailingZerosOfPow2(m - 1);
    }
  }

  lemma {:induction false} TrailingZerosIgnoresHighBit(m: nat, y: nat)
    requires 0 < y < Pow2(m)
    ensures TrailingZeros(Pow2(m) + y) == TrailingZeros(y)
  {
    if y % 2 == 0 {
      assert m > 0;
      assert (Pow2(m) + y) / 2 == Pow2(m - 1) + y / 2;
      TrailingZerosIgnoresHighBit(m - 1, y / 2);
    }
  }

  // ---------------------------------------------------------------------------
  // Base order: prefix exclusive-or scan of the base path
  // ---------------------------------------------------------------------------

  /** [acc] followed by the running exclusive or of acc with the entries of s. */
  function XorScan(acc: nat, s: seq<nat>): (r: seq<nat>)
    ensures |r| == |s| + 1
    decreases |s|
  {
    if s == [] then [acc] else [acc] + XorScan(Xor(acc, s[0]), s[1..])
  }

  /** Exclusive or of all entries of s. */
  function XorAll(s: seq<nat>): nat
    decreases |s|
  {
    if s == [] then 0 else Xor(XorAll(s[..|s| - 1]), s[|s| - 1])
  }

  /** The base order: [0] followed by the running exclusive or of the base path. */
  function BaseOrder(dim: nat): seq<nat>
  {
    XorScan(0, BasePath(dim))
  }

  lemma {:induction false} XorAllAppend(a: seq<nat>, b: seq<nat>)
    ensures XorAll(a + b) == Xor(XorAll(a), XorAll(b))
    decreases |b|
  {
    if b == [] {
      assert a + b == a;
    } else {
      var b' := b[..|b| - 1];
      var x := b[|b| - 1];
      assert (a + b)[..|a + b| - 1] == a + b';
      XorAllAppend(a, b');
      XorAssociates(XorAll(a), XorAll(b'), x);
    }
  }

  /** Entry j of the scan is acc xor the first j entries. */
  lemma {:induction false} XorScanAt(acc: nat, s: seq<nat>, j: nat)
    requires j <= |s|
    ensures XorScan(acc, s)[j] == Xor(acc, XorAll(s[..j]))
    decreases |s|
  {
    if j == 0 {
      assert s[..0] == [];
    } else {
      XorScanAt(Xor(acc, s[0]), s[1..], j - 1);
      assert s[..j] == [s[0]] + s[1..][..j - 1];
      XorAllAppend([s[0]], s[1..][..j - 1]);
      assert XorAll([s[0]]) == Xor(0, s[0]) by {
        assert [s[0]][..0] == [];
      }
      XorAssociates(acc, s[0], XorAll(s[1..][..j - 1]));
    }
  }

  /** One step of the base order flips the bit of the base path entry. */
  lemma BaseOrderStep(dim: nat, i: nat)
    requires i < Pow2(dim) - 1
    ensures |BaseOrder(dim)| == Pow2(dim)
    ensures BaseOrder(dim)[i + 1] == Xor(BaseOrder(dim)[i], BasePath(dim)[i])
    ensures Popcount(Xor(BaseOrder(dim)[i], BaseOrder(dim)[i + 1])) == 1
  {
    var p := BasePath(dim);
    var o := BaseOrder(dim);
    BaseOrderNext(dim, i);
    assert Xor(o[i], o[i + 1]) == p[i] by {
      XorAssociates(o[i], o[i], p[i]);
      XorSelf(o[i]);
    }
    BasePathEntriesAreAxes(dim, i);
    var k: nat :| k < dim && p[i] == Pow2(k);
    SingleBitHasOneBit(p[i], k);
  }

  /** Entry i + 1 of the scan is entry i exclusive-ored with path entry i. */
  lemma BaseOrderNext(dim: nat, i: nat)
    requires i < Pow2(dim) - 1
    ensures |BaseOrder(dim)| == Pow2(dim)
    ensures BaseOrder(dim)[i + 1] == Xor(BaseOrder(dim)[i], BasePath(dim)[i])
  {
    XorScanNext(BasePath(dim), i);
  }

  /** Entry i + 1 of a scan from 0 is entry i exclusive-ored with s[i]. */
  lemma XorScanNext(s: seq<nat>, i: nat)
    requires i < |s|
    ensures XorScan(0, s)[i + 1] == Xor(XorScan(0, s)[i], s[i])
  {
    XorScanAt(0, s, i);
    XorScanAt(0, s, i + 1);
    var t := s[..i + 1];
    assert t[..|t| - 1] == s[..i];
    assert XorAll(t) == Xor(XorAll(s[..i]), s[i]);
  }

  /**
   * The base order has one entry per corner (the length the source asserts),
   * starts at corner 0, and each step flips exactly the bit of the base path
   * entry, so consecutive corners differ in exactly one bit.
   */
  lemma BaseOrderSteps(dim: nat)
    ensures |BaseOrder(dim)| == Pow2(dim)
    ensures BaseOrder(dim)[0] == 0
    ensures forall i :: 0 <= i < Pow2(dim) - 1 ==>
              BaseOrder(dim)[i + 1] == Xor(BaseOrder(dim)[i], BasePath(dim)[i])
    ensures forall i :: 0 <= i < Pow2(dim) - 1 ==>
              Popcount(Xor(BaseOrder(dim)[i], BaseOrder(dim)[i + 1])) == 1
  {
    forall i | 0 <= i < Pow2(dim) - 1
      ensures BaseOrder(dim)[i + 1] == Xor(BaseOrder(dim)[i], BasePath(dim)[i])
      ensures Popcount(Xor(BaseOrder(dim)[i], BaseOrder(dim)[i + 1])) == 1
    {
      BaseOrderStep(dim, i);
    }
  }

  /** Every corner of the base order lies inside the hypercube. */
  lemma BaseOrderInCube(dim: nat, i: nat)
    requires i < Pow2(dim)
    ensures |BaseOrder(dim)| == Pow2(dim) && BaseOrder(dim)[i] < Pow2(dim)
  {
    var o := BaseOrder(dim);
    XorScanAt(0, BasePath(dim), 0);
    var j := 0;
    while j < i
      invariant j <= i
      invariant o[j] < Pow2(dim)
    {
      BaseOrderStep(dim, j);
      BasePathEntriesAreAxes(dim, j);
      var k: nat :| k < dim && BasePath(dim)[j] == Pow2(k);
      Pow2Monotone(k, dim);
      XorBound(o[j], BasePath(dim)[j], dim);
      j := j + 1;
    }
  }

  /**
   * The order of dimension dim is the lower order followed by the lower order
   * exclusive-ored with c, where c carries the top bit 1 << (dim-1).
   */
  lemma BaseOrderHalves(dim: nat, j: nat)
    requires dim > 0 && j < Pow2(dim - 1)
    ensures |BaseOrder(dim)| == Pow2(dim) && |BaseOrder(dim - 1)| == Pow2(dim - 1)
    ensures BaseOrder(dim)[j] == BaseOrder(dim - 1)[j]
    ensures BaseOrder(dim)[Pow2(dim - 1) + j] ==
              Xor(Xor(XorAll(BasePath(dim - 1)), Pow2(dim - 1)), BaseOrder(dim - 1)[j])
  {
    BaseOrderLowerHalf(dim, j);
    BaseOrderUpperHalf(dim, j);
  }

  lemma BaseOrderLowerHalf(dim: nat, j: nat)
    requires dim > 0 && j < Pow2(dim - 1)
    ensures |BaseOrder(dim)| == Pow2(dim) && |BaseOrder(dim - 1)| == Pow2(dim - 1)
    ensures BaseOrder(dim)[j] == BaseOrder(dim - 1)[j]
  {
    var lower := BasePath(dim - 1);
    var p := BasePath(dim);
    assert p == lower + [Pow2(dim - 1)] + lower;
    XorScanAt(0, p, j);
    XorScanAt(0, lower, j);
    assert p[..j] == lower[..j];
  }

  lemma BaseOrderUpperHalf(dim: nat, j: nat)
    requires dim > 0 && j < Pow2(dim - 1)
    ensures |BaseOrder(dim)| == Pow2(dim) && |BaseOrder(dim - 1)| == Pow2(dim - 1)
    ensures BaseOrder(dim)[Pow2(dim - 1) + j] ==
              Xor(Xor(XorAll(BasePath(dim - 1)), Pow2(dim - 1)), BaseOrder(dim - 1)[j])
  {
    var lower := BasePath(dim - 1);
    var m := Pow2(dim - 1);
    assert BasePath(dim) == (lower + [m]) + lower;
    ScanOfConcat(lower + [m], lower, j);
    XorAllSnoc(lower, m);
  }

  /** The scan of a + b continues, after a, from the exclusive or of all of a. */
  lemma ScanOfConcat(a: seq<nat>, b: seq<nat>, j: nat)
    requires j <= |b|
    ensures |XorScan(0, a + b)| == |a| + |b| + 1
    ensures XorScan(0, a + b)[|a| + j] == Xor(XorAll(a), XorScan(0, b)[j])
  {
    XorScanAt(0, a + b, |a| + j);
    assert (a + b)[..|a| + j] == a + b[..j];
    XorAllAppend(a, b[..j]);
    XorScanAt(0, b, j);
  }

  lemma XorAllSnoc(a: seq<nat>, x: nat)
    ensures XorAll(a + [x]) == Xor(XorAll(a), x)
  {
    assert (a + [x])[..|a|] == a;
  }

  /** The first half of the order avoids the top bit; the second half carries it. */
  lemma BaseOrderTopBit(dim: nat, j: nat)
    requires dim > 0 && j < Pow2(dim - 1)
    ensures |BaseOrder(dim - 1)| == Pow2(dim - 1)
    ensures !Bit(BaseOrder(dim - 1)[j], dim - 1)
    ensures Bit(Xor(Xor(XorAll(BasePath(dim - 1)), Pow2(dim - 1)), BaseOrder(dim - 1)[j]), dim - 1)
  {
    var lo := BaseOrder(dim - 1);
    var c := Xor(XorAll(BasePath(dim - 1)), Pow2(dim - 1));
    BaseOrderInCube(dim - 1, j);
    NoBitsAbove(lo[j], dim - 1, dim - 1);
    assert Bit(c, dim - 1) by {
      PathXorBelowTop(dim);
      BitOfXor(XorAll(BasePath(dim - 1)), Pow2(dim - 1), dim - 1);
      BitOfPow2(dim - 1, dim - 1);
    }
    BitOfXor(c, lo[j], dim - 1);
  }

  /** The exclusive or of the whole lower path, its last corner, avoids the top bit. */
  lemma PathXorBelowTop(dim: nat)
    requires dim > 0
    ensures !Bit(XorAll(BasePath(dim - 1)), dim - 1)
  {
    var lower := BasePath(dim - 1);
    var h := |lower|;
    BaseOrderInCube(dim - 1, h);
    NoBitsAbove(BaseOrder(dim - 1)[h], dim - 1, dim - 1);
    XorScanAt(0, lower, h);
    assert lower[..h] == lower;
  }

  /**
   * The base order is Hamiltonian: its 2^dim corners are pairwise distinct,
   * so every corner of the hypercube is visited exactly once.
   */
  lemma {:induction false} BaseOrderDistinct(dim: nat)
    ensures |BaseOrder(dim)| == Pow2(dim)
    ensures AllDistinct(BaseOrder(dim))
  {
    XorScanAt(0, BasePath(dim), 0);
    if dim > 0 {
      BaseOrderDistinct(dim - 1);
      forall i, j | 0 <= i < j < Pow2(dim)
        ensures BaseOrder(dim)[i] != BaseOrder(dim)[j]
      {
        BaseOrderDistinctPair(dim, i, j);
      }
    }
  }

  /** One pair of corners, given that the lower order has no repeats. */
  lemma BaseOrderDistinctPair(dim: nat, i: nat, j: nat)
    requires dim > 0 && i < j < Pow2(dim)
    requires AllDistinct(BaseOrder(dim - 1))
    ensures |BaseOrder(dim)| == Pow2(dim) && BaseOrder(dim)[i] != BaseOrder(dim)[j]
  {
    var h := Pow2(dim - 1);
    if j < h {
      BaseOrderLowerHalf(dim, i);
      BaseOrderLowerHalf(dim, j);
    } else if i < h {
      BaseOrderAcrossHalves(dim, i, j - h);
    } else {
      BaseOrderUpperDistinct(dim, i - h, j - h);
    }
  }

  /** Two corners of the second half differ. */
  lemma BaseOrderUpperDistinct(dim: nat, i: nat, j: nat)
    requires dim > 0 && i < j < Pow2(dim - 1)
    requires AllDistinct(BaseOrder(dim - 1))
    ensures |BaseOrder(dim)| == Pow2(dim)
    ensures BaseOrder(dim)[Pow2(dim - 1) + i] != BaseOrder(dim)[Pow2(dim - 1) + j]
  {
    BaseOrderUpperHalf(dim, i);
    BaseOrderUpperHalf(dim, j);
    var lo := BaseOrder(dim - 1);
    var c := Xor(XorAll(BasePath(dim - 1)), Pow2(dim - 1));
    if Xor(c, lo[i]) == Xor(c, lo[j]) {
      XorInjective(c, lo[i], lo[j]);
      assert false;
    }
  }

  /** A corner of the first half never equals a corner of the second half. */
  lemma BaseOrderAcrossHalves(dim: nat, i: nat, j: nat)
    requires dim > 0 && i < Pow2(dim - 1) && j < Pow2(dim - 1)
    ensures |BaseOrder(dim)| == Pow2(dim)
    ensures BaseOrder(dim)[i] != BaseOrder(dim)[Pow2(dim - 1) + j]
  {
    BaseOrderLowerHalf(dim, i);
    BaseOrderUpperHalf(dim, j);
    BaseOrderTopBit(dim, i);
    BaseOrderTopBit(dim, j);
  }

  // ---------------------------------------------------------------------------
  // Move generator
  // ---------------------------------------------------------------------------

  /** The single bits 1 << d for d = n-1 down to 0, skipping regionDisp. */
  function DescendingAxesExcept(n: nat, regionDisp: nat): seq<nat>
  {
    if n == 0 then []
    else (if Pow2(n - 1) != regionDisp then [Pow2(n - 1)] else [])
         + DescendingAxesExcept(n - 1, regionDisp)
  }

  /**
   * generate_moves: the forced continuation [regionDisp] when the in-region
   * and out-region positions agree on the regionDisp bits, otherwise every
   * other single-bit displacement in descending order.
   */
  function GenerateMoves(inregionPos: nat, outregionPos: nat, regionDisp: nat, dim: nat): seq<nat>
  {
    if And(inregionPos, regionDisp) == And(outregionPos, regionDisp) then [regionDisp]
    else DescendingAxesExcept(dim, regionDisp)
  }

  /** The masked comparison on a single-bit displacement compares that one bit. */
  lemma AndSingleBitCompares(a: nat, b: nat, k: nat)
    ensures And(a, Pow2(k)) == And(b, Pow2(k)) <==> (Bit(a, k) <==> Bit(b, k))
  {
    forall i: nat
      ensures Bit(And(a, Pow2(k)), i) == (i == k && Bit(a, k))
      ensures Bit(And(b, Pow2(k)), i) == (i == k && Bit(b, k))
    {
      BitOfAnd(a, Pow2(k), i);
      BitOfAnd(b, Pow2(k), i);
      BitOfPow2(k, i);
    }
    if Bit(a, k) == Bit(b, k) {
      BitsExtensional(And(a, Pow2(k)), And(b, Pow2(k)));
    }
  }

  /** Every entry of DescendingAxesExcept is an axis below n other than regionDisp. */
  lemma {:induction false} DescendingAxesEntry(n: nat, regionDisp: nat, i: nat) returns (d: nat)
    requires i < |DescendingAxesExcept(n, regionDisp)|
    ensures d < n && DescendingAxesExcept(n, regionDisp)[i] == Pow2(d) && Pow2(d) != regionDisp
    ensures i > 0 ==> d < n - 1
  {
    var head := if Pow2(n - 1) != regionDisp then [Pow2(n - 1)] else [];
    var rest := DescendingAxesExcept(n - 1, regionDisp);
    assert DescendingAxesExcept(n, regionDisp) == head + rest;
    if i < |head| {
      d := n - 1;
    } else {
      d := DescendingAxesEntry(n - 1, regionDisp, i - |head|);
    }
  }

  /** Every axis below n other than regionDisp occurs in DescendingAxesExcept. */
  lemma {:induction false} DescendingAxesComplete(n: nat, regionDisp: nat, d: nat)
    requires d < n && Pow2(d) != regionDisp
    ensures Pow2(d) in DescendingAxesExcept(n, regionDisp)
  {
    var head := if Pow2(n - 1) != regionDisp then [Pow2(n - 1)] else [];
    var rest := DescendingAxesExcept(n - 1, regionDisp);
    assert DescendingAxesExcept(n, regionDisp) == head + rest;
    if d < n - 1 {
      DescendingAxesComplete(n - 1, regionDisp, d);
    }
  }

  lemma {:induction false} DescendingAxesDecreasing(n: nat, regionDisp: nat)
    ensures forall i, j :: 0 <= i < j < |DescendingAxesExcept(n, regionDisp)| ==>
              DescendingAxesExcept(n, regionDisp)[i] > DescendingAxesExcept(n, regionDisp)[j]
  {
    if n > 0 {
      var r := DescendingAxesExcept(n, regionDisp);
      var head := if Pow2(n - 1) != regionDisp then [Pow2(n - 1)] else [];
      var rest := DescendingAxesExcept(n - 1, regionDisp);
      assert r == head + rest;
      DescendingAxesDecreasing(n - 1, regionDisp);
      forall i, j | 0 <= i < j < |r|
        ensures r[i] > r[j]
      {
        if i < |head| {
          var d := DescendingAxesEntry(n - 1, regionDisp, j - |head|);
          Pow2Monotone(d, n - 1);
        } else {
          assert r[i] == rest[i - |head|] && r[j] == rest[j - |head|];
        }
      }
    }
  }

  lemma {:induction false} DescendingAxesLength(n: nat, k: nat)
    ensures |DescendingAxesExcept(n, Pow2(k))| == if k < n then n - 1 else n
  {
    if n > 0 {
      DescendingAxesLength(n - 1, k);
      if Pow2(n - 1) == Pow2(k) {
        Pow2Injective(n - 1, k);
      }
    }
  }

  /** The axes other than k, each once, in strictly descending order. */
  lemma DescendingAxesSpec(dim: nat, k: nat)
    requires k < dim
    ensures var r := DescendingAxesExcept(dim, Pow2(k));
      && |r| == dim - 1
      && (forall i, j :: 0 <= i < j < |r| ==> r[i] > r[j])
      && (forall x :: x in r ==> IsAxis(x, dim) && x != Pow2(k))
      && (forall d: nat :: d < dim && d != k ==> Pow2(d) in r)
  {
    DescendingAxesLength(dim, k);
    DescendingAxesDecreasing(dim, Pow2(k));
    var r := DescendingAxesExcept(dim, Pow2(k));
    forall x | x in r
      ensures IsAxis(x, dim) && x != Pow2(k)
    {
      var i :| 0 <= i < |r| && r[i] == x;
      var d := DescendingAxesEntry(dim, Pow2(k), i);
    }
    forall d: nat | d < dim && d != k
      ensures Pow2(d) in r
    {
      if Pow2(d) == Pow2(k) {
        Pow2Injective(d, k);
      }
      DescendingAxesComplete(dim, Pow2(k), d);
    }
  }

  /**
   * The move rule at a depth whose scheduled flip is axis k: exactly the
   * forced move when the in-region and out-region positions agree on bit k;
   * otherwise the dim-1 other axes, each once, in strictly descending order.
   */
  lemma GenerateMovesSpec(inregionPos: nat, outregionPos: nat, k: nat, dim: nat)
    requires k < dim
    ensures (Bit(inregionPos, k) <==> Bit(outregionPos, k)) ==>
              GenerateMoves(inregionPos, outregionPos, Pow2(k), dim) == [Pow2(k)]
    ensures !(Bit(inregionPos, k) <==> Bit(outregionPos, k)) ==>
              var r := GenerateMoves(inregionPos, outregionPos, Pow2(k), dim);
              && |r| == dim - 1
              && (forall i, j :: 0 <= i < j < |r| ==> r[i] > r[j])
              && (forall x :: x in r ==> IsAxis(x, dim) && x != Pow2(k))
              && (forall d: nat :: d < dim && d != k ==> Pow2(d) in r)
  {
    AndSingleBitCompares(inregionPos, outregionPos, k);
    DescendingAxesSpec(dim, k);
  }
}
