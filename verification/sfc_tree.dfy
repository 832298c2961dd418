/**
 * `locTreeSort` and `treeBFTNextLevel` of src/SFC_Tree.cpp: a depth-first
 * sort of a range of tree nodes into space-filling-curve order, level by
 * level, and one breadth-first step that refines every bucket of a level
 * into its child buckets.
 *
 * The curve's tables are given decoded: for each orientation, the Morton
 * child number of each child in curve order, and the orientation of each
 * Morton child.
 */
module SfcTree {
  import opened Positions
  import opened SfcBucketing

  /**
   * The tables of a space-filling curve with n children per cell: for each
   * orientation r, rotPerm[r][k] is the Morton child number of the k-th
   * child in curve order, and hilbert[r][m] is the orientation of Morton
   * child m.
   */
  datatype Curve = Curve(n: nat, rotPerm: seq<seq<nat>>, hilbert: seq<seq<nat>>)

  predicate ValidCurve(c: Curve)
  {
    c.n >= 1 && |c.rotPerm| == |c.hilbert| >= 1
    && (forall r :: 0 <= r < |c.rotPerm| ==> IsPerm(c.rotPerm[r], c.n))
    && (forall r :: 0 <= r < |c.hilbert| ==> |c.hilbert[r]| == c.n)
    && forall r, m :: 0 <= r < |c.hilbert| && 0 <= m < c.n ==> c.hilbert[r][m] < |c.hilbert|
  }

  /** A bucket: a range of nodes that share an ancestor at level lev, whose orientation is rot. */
  datatype Bucket = Bucket(rot: nat, lev: nat, begin: nat, end: nat)

  // ---------------------------------------------------------------------------
  // The curve order
  // ---------------------------------------------------------------------------

  /**
   * The sort key of node t for the levels l..eLev, starting in orientation
   * rot: its rank in curve order at each level, from l down to eLev or to
   * its own level, whichever comes first.
   */
  function Key(c: Curve, t: TreeNode, l: nat, eLev: nat, rot: nat): (key: seq<nat>)
    ensures |key| <= if eLev < l then 0 else eLev + 1 - l
    ensures |key| > 0 ==> l <= t.level && rot < |c.rotPerm| && key[0] <= |c.rotPerm[rot]|
    decreases eLev + 1 - l
  {
    if eLev < l || t.level < l || rot >= |c.rotPerm| || rot >= |c.hilbert| then []
    else
      var m := MortonIndex(t, l);
      if m >= |c.hilbert[rot]| then []
      else [IndexOf(c.rotPerm[rot], m)] + Key(c, t, l + 1, eLev, c.hilbert[rot][m])
  }

  /**
   * Key a is strictly before key b: at the first position where they
   * differ, both have a rank and a's is smaller.
   */
  predicate Precedes(a: seq<nat>, b: seq<nat>)
  {
    |a| > 0 && |b| > 0 && (a[0] < b[0] || (a[0] == b[0] && Precedes(a[1..], b[1..])))
  }

  /** No two nodes of s[lo..hi] are out of curve order at the levels l..eLev. */
  ghost predicate SortedByKey(c: Curve, s: seq<TreeNode>, lo: nat, hi: nat, l: nat, eLev: nat, rot: nat)
  {
    forall i, j {:trigger Key(c, s[j], l, eLev, rot), Key(c, s[i], l, eLev, rot)} ::
      lo <= i < j < hi && j < |s| ==> !Precedes(Key(c, s[j], l, eLev, rot), Key(c, s[i], l, eLev, rot))
  }

  /** t is an ancestor at level l, or lies in Morton child m there. */
  predicate InChild(t: TreeNode, l: nat, m: nat)
  {
    t.level < l || MortonIndex(t, l) == m
  }

  /** A node of the k-th child in curve order has rank k at level l. */
  lemma KeyOfChild(c: Curve, t: TreeNode, l: nat, eLev: nat, rot: nat, k: nat)
    requires ValidCurve(c) && rot < |c.rotPerm| && k < c.n && l <= eLev && l <= t.level
    requires MortonIndex(t, l) == c.rotPerm[rot][k]
    ensures Key(c, t, l, eLev, rot) == [k] + Key(c, t, l + 1, eLev, c.hilbert[rot][c.rotPerm[rot][k]])
  {
    IndexOfPerm(c.rotPerm[rot], c.n, k);
  }

  /** A strict precedence survives a common first rank. */
  lemma PrecedesTail(k: nat, a: seq<nat>, b: seq<nat>)
    ensures Precedes([k] + a, [k] + b) == Precedes(a, b)
  {
    assert ([k] + a)[1..] == a && ([k] + b)[1..] == b;
  }

  /** Beyond the ending level every key is empty, so any range is sorted. */
  lemma SortedBeyond(c: Curve, s: seq<TreeNode>, lo: nat, hi: nat, l: nat, eLev: nat, rot: nat)
    requires eLev < l
    ensures SortedByKey(c, s, lo, hi, l, eLev, rot)
  {
  }

  // ---------------------------------------------------------------------------
  // Ranges, permutations and buckets
  // ---------------------------------------------------------------------------

  /** s is s0 with s0[lo..hi] permuted and everything else unchanged. */
  ghost predicate PermutedWithin(s0: seq<TreeNode>, s: seq<TreeNode>, lo: nat, hi: nat)
  {
    |s| == |s0| && lo <= hi <= |s|
    && (forall i :: 0 <= i < |s| && !(lo <= i < hi) ==> s[i] == s0[i])
    && multiset(s[lo..hi]) == multiset(s0[lo..hi])
  }

  /** A permutation of a subrange is a permutation of the enclosing range. */
  lemma PermutedWiden(s0: seq<TreeNode>, s: seq<TreeNode>, a: nat, b: nat, lo: nat, hi: nat)
    requires PermutedWithin(s0, s, a, b) && lo <= a && b <= hi <= |s|
    ensures PermutedWithin(s0, s, lo, hi)
  {
    assert s[lo..hi] == s[lo..a] + s[a..b] + s[b..hi];
    assert s0[lo..hi] == s0[lo..a] + s0[a..b] + s0[b..hi];
    assert s[lo..a] == s0[lo..a];
    assert s[b..hi] == s0[b..hi];
  }

  /** Permutations of a range compose. */
  lemma PermutedTrans(s0: seq<TreeNode>, s1: seq<TreeNode>, s2: seq<TreeNode>, lo: nat, hi: nat)
    requires PermutedWithin(s0, s1, lo, hi) && PermutedWithin(s1, s2, lo, hi)
    ensures PermutedWithin(s0, s2, lo, hi)
  {
  }

  /** Permuting [begin, lo) and then [lo, hi) permutes [begin, hi). */
  lemma PermutedExtend(s0: seq<TreeNode>, s1: seq<TreeNode>, s2: seq<TreeNode>, begin: nat, lo: nat, hi: nat)
    requires PermutedWithin(s0, s1, begin, lo) && PermutedWithin(s1, s2, lo, hi)
    ensures PermutedWithin(s0, s2, begin, hi)
  {
    PermutedWiden(s0, s1, begin, lo, begin, hi);
    PermutedWiden(s1, s2, lo, hi, begin, hi);
  }

  /** What holds of every node of a range holds after the range is permuted. */
  lemma PermutedKeeps(s0: seq<TreeNode>, s: seq<TreeNode>, lo: nat, hi: nat, l: nat, m: nat, n: nat)
    requires PermutedWithin(s0, s, lo, hi)
    requires forall i :: lo <= i < hi ==> InChild(s0[i], l, m) && ValidNode(s0[i], n)
    ensures forall i :: lo <= i < hi ==> InChild(s[i], l, m) && ValidNode(s[i], n)
  {
    forall i | lo <= i < hi
      ensures InChild(s[i], l, m) && ValidNode(s[i], n)
    {
      assert s[i] in multiset(s[lo..hi]) by {
        assert s[lo..hi][i - lo] == s[i];
      }
      var j :| 0 <= j < hi - lo && s0[lo..hi][j] == s[i];
      assert s0[lo + j] == s[i];
    }
  }

  /** bs lists nonempty buckets that cut [lo, hi) into consecutive pieces, in order. */
  ghost predicate Tiles(bs: seq<Bucket>, lo: nat, hi: nat)
    decreases |bs|
  {
    if |bs| == 0 then lo == hi
    else bs[0].begin == lo && bs[0].begin < bs[0].end && Tiles(bs[1..], bs[0].end, hi)
  }

  /** Tilings of adjacent ranges concatenate. */
  lemma {:induction false} TilesAppend(a: seq<Bucket>, b: seq<Bucket>, lo: nat, mid: nat, hi: nat)
    requires Tiles(a, lo, mid) && Tiles(b, mid, hi)
    ensures Tiles(a + b, lo, hi)
    decreases |a|
  {
    if |a| > 0 {
      TilesAppend(a[1..], b, a[0].end, mid, hi);
      assert (a + b)[0] == a[0];
      assert (a + b)[1..] == a[1..] + b;
    } else {
      assert a + b == b;
    }
  }

  /** A tiling covers its range: every position lies in exactly one bucket. */
  lemma {:induction false} TilesCover(bs: seq<Bucket>, lo: nat, hi: nat, i: nat) returns (k: nat)
    requires Tiles(bs, lo, hi) && lo <= i < hi
    ensures k < |bs| && bs[k].begin <= i < bs[k].end
    ensures forall j :: 0 <= j < |bs| && j != k ==> !(bs[j].begin <= i < bs[j].end)
    decreases |bs|
  {
    TilesBounds(bs, lo, hi);
    if i < bs[0].end {
      k := 0;
      TilesBounds(bs[1..], bs[0].end, hi);
    } else {
      var k' := TilesCover(bs[1..], bs[0].end, hi, i);
      k := k' + 1;
    }
  }

  /** The buckets of a tiling lie within its range. */
  lemma {:induction false} TilesBounds(bs: seq<Bucket>, lo: nat, hi: nat)
    requires Tiles(bs, lo, hi)
    ensures lo <= hi
    ensures forall j :: 0 <= j < |bs| ==> lo <= bs[j].begin < bs[j].end <= hi
    decreases |bs|
  {
    if |bs| > 0 {
      TilesBounds(bs[1..], bs[0].end, hi);
      assert forall j :: 1 <= j < |bs| ==> bs[j] == bs[1..][j - 1];
    }
  }

  /** The buckets an ending level produces: a tiling, at level lev, with valid orientations. */
  ghost predicate EndingBuckets(c: Curve, bs: seq<Bucket>, lo: nat, hi: nat, lev: nat)
  {
    Tiles(bs, lo, hi) && forall j :: 0 <= j < |bs| ==> bs[j].lev == lev && bs[j].rot < |c.rotPerm|
  }

  lemma EndingBucketsAppend(c: Curve, a: seq<Bucket>, b: seq<Bucket>, lo: nat, mid: nat, hi: nat, lev: nat)
    requires EndingBuckets(c, a, lo, mid, lev) && EndingBuckets(c, b, mid, hi, lev)
    ensures EndingBuckets(c, a + b, lo, hi, lev)
  {
    TilesAppend(a, b, lo, mid, hi);
  }

  /**
   * The orientation node t reaches from orientation rot at level l by
   * descending through its own cells at the levels l..E.
   */
  function Reach(c: Curve, t: TreeNode, l: nat, E: nat, rot: nat): nat
    decreases E + 1 - l
  {
    if E < l || t.level < l || rot >= |c.hilbert| then rot
    else
      var m := MortonIndex(t, l);
      if m >= |c.hilbert[rot]| then rot else Reach(c, t, l + 1, E, c.hilbert[rot][m])
  }

  /**
   * Bucket b is one cell of level E + 1: its nodes at level E or deeper
   * share their key for the levels l..E, taken from orientation rot, and
   * b's orientation is the one they reach there.
   */
  ghost predicate CellBucket(c: Curve, s: seq<TreeNode>, b: Bucket, l: nat, E: nat, rot: nat)
  {
    forall i, j ::
      b.begin <= i < b.end && b.begin <= j < b.end && i < |s| && j < |s| && E <= s[i].level && E <= s[j].level ==>
        Key(c, s[i], l, E, rot) == Key(c, s[j], l, E, rot) && Reach(c, s[i], l, E, rot) == b.rot
  }

  ghost predicate CellBuckets(c: Curve, s: seq<TreeNode>, bs: seq<Bucket>, l: nat, E: nat, rot: nat)
  {
    forall j :: 0 <= j < |bs| ==> CellBucket(c, s, bs[j], l, E, rot)
  }

  /** A node in the k-th child at the ending level l has key [k] and reaches that child's orientation. */
  lemma CellOfChild(c: Curve, t: TreeNode, l: nat, rot: nat, k: nat)
    requires ValidCurve(c) && rot < |c.rotPerm| && k < c.n && l <= t.level
    requires MortonIndex(t, l) == c.rotPerm[rot][k]
    ensures Key(c, t, l, l, rot) == [k]
    ensures Reach(c, t, l, l, rot) == c.hilbert[rot][c.rotPerm[rot][k]]
  {
    KeyOfChild(c, t, l, l, rot, k);
  }

  /**
   * At the ending level l, a bucket made of the k-th piece, in the k-th
   * child's orientation, is the cell of that child.
   */
  lemma EndingCells(c: Curve, s: seq<TreeNode>, begin: nat, end: nat, l: nat, rot: nat, splitters: seq<nat>,
                    buckets: seq<Bucket>, n0: nat)
    requires ValidCurve(c) && rot < |c.rotPerm| && ChildPieces(c, s, begin, end, l, rot, splitters)
    requires n0 <= |buckets|
    requires forall j :: n0 <= j < |buckets| ==>
      (exists k :: 0 <= k < c.n && buckets[j] == Bucket(c.hilbert[rot][c.rotPerm[rot][k]], l + 1, splitters[k], splitters[k + 1]))
    ensures CellBuckets(c, s, buckets[n0..], l, l, rot)
  {
    forall j | 0 <= j < |buckets| - n0
      ensures CellBucket(c, s, buckets[n0..][j], l, l, rot)
    {
      var b := buckets[n0 + j];
      var k :| 0 <= k < c.n && b == Bucket(c.hilbert[rot][c.rotPerm[rot][k]], l + 1, splitters[k], splitters[k + 1]);
      forall i | b.begin <= i < b.end && i < |s| && l <= s[i].level
        ensures Key(c, s[i], l, l, rot) == [k] && Reach(c, s[i], l, l, rot) == b.rot
      {
        CellOfChild(c, s[i], l, rot, k);
      }
    }
  }

  /**
   * The cells a piece of the k-th child makes from level l + 1, in that
   * child's orientation, are cells from level l in the parent's.
   */
  lemma CellsOfChild(c: Curve, s: seq<TreeNode>, bs: seq<Bucket>, lo: nat, hi: nat, l: nat, E: nat, rot: nat, k: nat)
    requires ValidCurve(c) && rot < |c.rotPerm| && k < c.n && l < E && Tiles(bs, lo, hi)
    requires forall i :: lo <= i < hi && i < |s| ==> InChild(s[i], l, c.rotPerm[rot][k])
    requires CellBuckets(c, s, bs, l + 1, E, c.hilbert[rot][c.rotPerm[rot][k]])
    ensures CellBuckets(c, s, bs, l, E, rot)
  {
    TilesBounds(bs, lo, hi);
    var cRot := c.hilbert[rot][c.rotPerm[rot][k]];
    forall j | 0 <= j < |bs|
      ensures CellBucket(c, s, bs[j], l, E, rot)
    {
      forall i | bs[j].begin <= i < bs[j].end && i < |s| && E <= s[i].level
        ensures Key(c, s[i], l, E, rot) == [k] + Key(c, s[i], l + 1, E, cRot)
        ensures Reach(c, s[i], l, E, rot) == Reach(c, s[i], l + 1, E, cRot)
      {
        KeyOfChild(c, s[i], l, E, rot, k);
      }
    }
  }

  /** Cells depend only on the nodes inside their buckets. */
  lemma CellsFrame(c: Curve, s: seq<TreeNode>, s': seq<TreeNode>, bs: seq<Bucket>, lo: nat, hi: nat,
                   l: nat, E: nat, rot: nat)
    requires Tiles(bs, lo, hi) && hi <= |s| && |s'| == |s|
    requires forall i :: lo <= i < hi ==> s'[i] == s[i]
    requires CellBuckets(c, s, bs, l, E, rot)
    ensures CellBuckets(c, s', bs, l, E, rot)
  {
    TilesBounds(bs, lo, hi);
    forall j | 0 <= j < |bs|
      ensures CellBucket(c, s', bs[j], l, E, rot)
    {
      assert forall i :: bs[j].begin <= i < bs[j].end ==> s'[i] == s[i];
    }
  }

  lemma CellsAppend(c: Curve, s: seq<TreeNode>, a: seq<Bucket>, b: seq<Bucket>, l: nat, E: nat, rot: nat)
    requires CellBuckets(c, s, a, l, E, rot) && CellBuckets(c, s, b, l, E, rot)
    ensures CellBuckets(c, s, a + b, l, E, rot)
  {
    forall j | 0 <= j < |a + b|
      ensures CellBucket(c, s, (a + b)[j], l, E, rot)
    {
      if j >= |a| {
        assert (a + b)[j] == b[j - |a|];
      }
    }
  }


  /** The splitters cut [begin, end) into n ordered pieces. */
  ghost predicate Splits(splitters: seq<nat>, begin: nat, end: nat, n: nat)
  {
    |splitters| == n + 1 && splitters[0] == begin && splitters[n] == end
    && forall j, k :: 0 <= j <= k <= n ==> splitters[j] <= splitters[k]
  }

  /** The splitters of `SFC_bucketing` are ordered. */
  lemma BucketedSplits(s: seq<TreeNode>, begin: nat, end: nat, lev: nat, perm: seq<nat>,
                       census: multiset<nat>, splitters: seq<nat>)
    requires Bucketed(s, begin, end, lev, perm, census, splitters)
    ensures Splits(splitters, begin, end, |perm|)
  {
    var n := |perm|;
    forall j, k | 0 <= j <= k <= n
      ensures splitters[j] <= splitters[k]
    {
      var m := j;
      while m < k
        invariant j <= m <= k && splitters[j] <= splitters[m]
      {
        m := m + 1;
      }
    }
  }

  /** A position of the range lies in one piece. */
  lemma {:induction false} FindPiece(splitters: seq<nat>, begin: nat, end: nat, n: nat, i: nat, m: nat) returns (k: nat)
    requires Splits(splitters, begin, end, n) && m <= n && begin <= i < splitters[m]
    ensures k < m && splitters[k] <= i < splitters[k + 1]
    decreases m
  {
    if splitters[m - 1] <= i {
      k := m - 1;
    } else {
      k := FindPiece(splitters, begin, end, n, i, m - 1);
    }
  }

  // ---------------------------------------------------------------------------
  // locTreeSort
  // ---------------------------------------------------------------------------

  /**
   * The layout after bucketing at level l: the k-th piece holds ancestors
   * and nodes of the k-th child in curve order.
   */
  ghost predicate ChildPieces(c: Curve, s: seq<TreeNode>, begin: nat, end: nat, l: nat, rot: nat, splitters: seq<nat>)
    requires ValidCurve(c) && rot < |c.rotPerm|
  {
    end <= |s| && Splits(splitters, begin, end, c.n)
    && (forall k, i :: 0 <= k < c.n && splitters[k] <= i < splitters[k + 1] ==> InChild(s[i], l, c.rotPerm[rot][k]))
    && ValidRange(s, begin, end, c.n)
  }

  /** The first m pieces are each sorted from level l + 1 in their child's orientation. */
  ghost predicate SortedPieces(c: Curve, s: seq<TreeNode>, l: nat, eLev: nat, rot: nat, splitters: seq<nat>, m: nat)
    requires ValidCurve(c) && rot < |c.rotPerm| && m <= c.n && |splitters| == c.n + 1
  {
    forall k :: 0 <= k < m ==>
      SortedByKey(c, s, splitters[k], splitters[k + 1], l + 1, eLev, c.hilbert[rot][c.rotPerm[rot][k]])
  }

  /**
   * Pieces in curve order, each sorted one level further down in its own
   * orientation, make a range sorted from level l.
   */
  lemma PiecesSorted(c: Curve, s: seq<TreeNode>, begin: nat, end: nat, l: nat, eLev: nat, rot: nat, splitters: seq<nat>)
    requires ValidCurve(c) && rot < |c.rotPerm| && ChildPieces(c, s, begin, end, l, rot, splitters)
    requires SortedPieces(c, s, l, eLev, rot, splitters, c.n)
    ensures SortedByKey(c, s, begin, end, l, eLev, rot)
  {
    forall i, j | begin <= i < j < end && j < |s|
      ensures !Precedes(Key(c, s[j], l, eLev, rot), Key(c, s[i], l, eLev, rot))
    {
      var ki := FindPiece(splitters, begin, end, c.n, i, c.n);
      var kj := FindPiece(splitters, begin, end, c.n, j, c.n);
      assert ki <= kj;
      if l <= eLev && l <= s[i].level && l <= s[j].level {
        var perm := c.rotPerm[rot];
        KeyOfChild(c, s[i], l, eLev, rot, ki);
        KeyOfChild(c, s[j], l, eLev, rot, kj);
        if ki == kj {
          PrecedesTail(ki, Key(c, s[j], l + 1, eLev, c.hilbert[rot][perm[ki]]),
                           Key(c, s[i], l + 1, eLev, c.hilbert[rot][perm[ki]]));
        }
      }
    }
  }

  /**
   * `locTreeSort`: sorts points[begin..end) into curve order at the levels
   * sLev..eLev, starting in orientation pRot, by bucketing at sLev and
   * recursing into every child bucket; at the ending level it appends the
   * nonempty child buckets to the bucket list when makeBuckets is set.
   */
  method LocTreeSort(points: array<TreeNode>, begin: nat, end: nat, sLev: nat, eLev: nat, pRot: nat,
                     c: Curve, buckets0: seq<Bucket>, makeBuckets: bool)
    returns (buckets: seq<Bucket>)
    modifies points
    requires ValidCurve(c) && pRot < |c.rotPerm|
    requires begin < end ==> end <= points.Length && ValidRange(points[..], begin, end, c.n)
    ensures end <= begin ==> points[..] == old(points[..])
    ensures begin < end ==> PermutedWithin(old(points[..]), points[..], begin, end)
    ensures begin < end ==> ValidRange(points[..], begin, end, c.n)
    ensures SortedByKey(c, points[..], begin, end, sLev, eLev, pRot)
    ensures |buckets| >= |buckets0| && buckets[..|buckets0|] == buckets0
    ensures makeBuckets && begin < end ==>
      EndingBuckets(c, buckets[|buckets0|..], begin, end, (if sLev < eLev then eLev else sLev) + 1)
    ensures makeBuckets && begin < end ==>
      CellBuckets(c, points[..], buckets[|buckets0|..], sLev, if sLev < eLev then eLev else sLev, pRot)
    ensures !(makeBuckets && begin < end) ==> buckets == buckets0
    decreases eLev - sLev, 3
  {
    buckets := buckets0;
    if end <= begin {
      return;
    }
    var perm := c.rotPerm[pRot];
    ghost var s0 := points[..];
    var tempSplitters := SFCBucketing(points, begin, end, sLev, perm);
    ghost var s1 := points[..];
    BucketedSplits(s1, begin, end, sLev, perm, multiset(Buckets(s0[begin..end], sLev, c.n)), tempSplitters);
    assert PermutedWithin(s0, s1, begin, end) by {
      assert s0[begin..end] == old(points[begin..end]);
    }
    if sLev < eLev {
      buckets := SortChildren(points, begin, end, sLev, eLev, pRot, c, tempSplitters, buckets0, makeBuckets);
      PermutedTrans(s0, s1, points[..], begin, end);
    } else {
      if makeBuckets {
        buckets := AppendEndingBuckets(c, pRot, sLev, begin, end, tempSplitters, buckets0);
        EndingCells(c, s1, begin, end, sLev, pRot, tempSplitters, buckets, |buckets0|);
      }
      forall k | 0 <= k < c.n
        ensures SortedByKey(c, s1, tempSplitters[k], tempSplitters[k + 1], sLev + 1, eLev,
                            c.hilbert[pRot][perm[k]])
      {
        SortedBeyond(c, s1, tempSplitters[k], tempSplitters[k + 1], sLev + 1, eLev, c.hilbert[pRot][perm[k]]);
      }
      assert SortedPieces(c, s1, sLev, eLev, pRot, tempSplitters, c.n);
      PiecesSorted(c, s1, begin, end, sLev, eLev, pRot, tempSplitters);
    }
  }

  /**
   * The ending level of `locTreeSort`: one bucket for each nonempty child,
   * in curve order, one level down, in the child's orientation.
   */
  method AppendEndingBuckets(c: Curve, pRot: nat, sLev: nat, begin: nat, end: nat, splitters: seq<nat>,
                             buckets0: seq<Bucket>)
    returns (buckets: seq<Bucket>)
    requires ValidCurve(c) && pRot < |c.rotPerm| && Splits(splitters, begin, end, c.n)
    ensures |buckets| >= |buckets0| && buckets[..|buckets0|] == buckets0
    ensures EndingBuckets(c, buckets[|buckets0|..], begin, end, sLev + 1)
    ensures forall j :: |buckets0| <= j < |buckets| ==>
      (exists k :: 0 <= k < c.n && buckets[j] == Bucket(c.hilbert[pRot][c.rotPerm[pRot][k]], sLev + 1, splitters[k], splitters[k + 1]))
  {
    var perm := c.rotPerm[pRot];
    buckets := buckets0;
    var childSfc := 0;
    while childSfc < c.n
      invariant childSfc <= c.n
      invariant |buckets| >= |buckets0| && buckets[..|buckets0|] == buckets0
      invariant EndingBuckets(c, buckets[|buckets0|..], begin, splitters[childSfc], sLev + 1)
      invariant forall j :: |buckets0| <= j < |buckets| ==>
        (exists k :: 0 <= k < c.n && buckets[j] == Bucket(c.hilbert[pRot][perm[k]], sLev + 1, splitters[k], splitters[k + 1]))
    {
      var child := perm[childSfc];
      var cRot := c.hilbert[pRot][child];
      if splitters[childSfc + 1] - splitters[childSfc] != 0 {
        var b := Bucket(cRot, sLev + 1, splitters[childSfc], splitters[childSfc + 1]);
        assert Tiles([b], splitters[childSfc], splitters[childSfc + 1]) by {
          assert [b][1..] == [];
        }
        EndingBucketsAppend(c, buckets[|buckets0|..], [b], begin, splitters[childSfc], splitters[childSfc + 1], sLev + 1);
        assert (buckets + [b])[|buckets0|..] == buckets[|buckets0|..] + [b];
        buckets := buckets + [b];
      }
      childSfc := childSfc + 1;
    }
  }

  /**
   * The state of `locTreeSort`'s loop over the children after k of them:
   * s is s1 with [begin, splitters[k]) permuted, the pieces are still in
   * place, the first k are sorted, and the buckets of the first k children
   * follow buckets0.
   */
  ghost predicate ChildrenDone(c: Curve, s1: seq<TreeNode>, s: seq<TreeNode>, begin: nat, end: nat, sLev: nat,
                               eLev: nat, pRot: nat, splitters: seq<nat>, k: nat,
                               buckets0: seq<Bucket>, buckets: seq<Bucket>, makeBuckets: bool)
    requires ValidCurve(c) && pRot < |c.rotPerm| && k <= c.n
  {
    ChildPieces(c, s, begin, end, sLev, pRot, splitters)
    && PermutedWithin(s1, s, begin, splitters[k])
    && SortedPieces(c, s, sLev, eLev, pRot, splitters, k)
    && |buckets| >= |buckets0| && buckets[..|buckets0|] == buckets0
    && (makeBuckets ==> EndingBuckets(c, buckets[|buckets0|..], begin, splitters[k], eLev + 1))
    && (makeBuckets ==> CellBuckets(c, s, buckets[|buckets0|..], sLev, eLev, pRot))
    && (!makeBuckets ==> buckets == buckets0)
  }

  /**
   * The recursive part of `locTreeSort`: every child piece bigger than the
   * threshold is sorted from the next level, in the child's orientation.
   */
  method SortChildren(points: array<TreeNode>, begin: nat, end: nat, sLev: nat, eLev: nat, pRot: nat,
                      c: Curve, splitters: seq<nat>, buckets0: seq<Bucket>, makeBuckets: bool)
    returns (buckets: seq<Bucket>)
    modifies points
    requires ValidCurve(c) && pRot < |c.rotPerm| && sLev < eLev && end <= points.Length
    requires ChildPieces(c, points[..], begin, end, sLev, pRot, splitters)
    ensures PermutedWithin(old(points[..]), points[..], begin, end)
    ensures ValidRange(points[..], begin, end, c.n)
    ensures SortedByKey(c, points[..], begin, end, sLev, eLev, pRot)
    ensures |buckets| >= |buckets0| && buckets[..|buckets0|] == buckets0
    ensures makeBuckets ==> EndingBuckets(c, buckets[|buckets0|..], begin, end, eLev + 1)
    ensures makeBuckets ==> CellBuckets(c, points[..], buckets[|buckets0|..], sLev, eLev, pRot)
    ensures !makeBuckets ==> buckets == buckets0
    decreases eLev - sLev, 2
  {
    ghost var s1 := points[..];
    buckets := buckets0;
    ChildrenStart(c, s1, begin, end, sLev, eLev, pRot, splitters, buckets0, makeBuckets);
    for childSfc := 0 to c.n
      invariant ChildrenDone(c, s1, points[..], begin, end, sLev, eLev, pRot, splitters, childSfc,
                             buckets0, buckets, makeBuckets)
    {
      buckets := SortNextChild(points, begin, end, sLev, eLev, pRot, c, splitters, childSfc,
                               s1, buckets0, buckets, makeBuckets);
    }
    ChildrenFinish(c, s1, points[..], begin, end, sLev, eLev, pRot, splitters, buckets0, buckets, makeBuckets);
  }

  /** Before the first child nothing is sorted yet and no bucket is appended. */
  lemma ChildrenStart(c: Curve, s1: seq<TreeNode>, begin: nat, end: nat, sLev: nat, eLev: nat, pRot: nat,
                      splitters: seq<nat>, buckets0: seq<Bucket>, makeBuckets: bool)
    requires ValidCurve(c) && pRot < |c.rotPerm|
    requires ChildPieces(c, s1, begin, end, sLev, pRot, splitters)
    ensures ChildrenDone(c, s1, s1, begin, end, sLev, eLev, pRot, splitters, 0, buckets0, buckets0, makeBuckets)
  {
    assert buckets0[|buckets0|..] == [];
  }

  /** After the last child the whole range is sorted and tiled by the appended buckets. */
  lemma ChildrenFinish(c: Curve, s1: seq<TreeNode>, s: seq<TreeNode>, begin: nat, end: nat, sLev: nat, eLev: nat,
                       pRot: nat, splitters: seq<nat>, buckets0: seq<Bucket>, buckets: seq<Bucket>, makeBuckets: bool)
    requires ValidCurve(c) && pRot < |c.rotPerm|
    requires ChildrenDone(c, s1, s, begin, end, sLev, eLev, pRot, splitters, c.n, buckets0, buckets, makeBuckets)
    ensures PermutedWithin(s1, s, begin, end)
    ensures ValidRange(s, begin, end, c.n)
    ensures SortedByKey(c, s, begin, end, sLev, eLev, pRot)
    ensures |buckets| >= |buckets0| && buckets[..|buckets0|] == buckets0
    ensures makeBuckets ==> EndingBuckets(c, buckets[|buckets0|..], begin, end, eLev + 1)
    ensures makeBuckets ==> CellBuckets(c, s, buckets[|buckets0|..], sLev, eLev, pRot)
    ensures !makeBuckets ==> buckets == buckets0
  {
    PiecesSorted(c, s, begin, end, sLev, eLev, pRot, splitters);
  }

  /** The k-th turn of the loop over the children, in curve order. */
  method SortNextChild(points: array<TreeNode>, begin: nat, end: nat, sLev: nat, eLev: nat, pRot: nat,
                       c: Curve, splitters: seq<nat>, k: nat, ghost s1: seq<TreeNode>,
                       ghost buckets0: seq<Bucket>, before: seq<Bucket>, makeBuckets: bool)
    returns (buckets: seq<Bucket>)
    modifies points
    requires ValidCurve(c) && pRot < |c.rotPerm| && sLev < eLev && k < c.n
    requires ChildrenDone(c, s1, points[..], begin, end, sLev, eLev, pRot, splitters, k, buckets0, before, makeBuckets)
    ensures ChildrenDone(c, s1, points[..], begin, end, sLev, eLev, pRot, splitters, k + 1, buckets0, buckets, makeBuckets)
    decreases eLev - sLev, 1
  {
    ghost var s := points[..];
    ChildPiece(c, s, begin, end, sLev, pRot, splitters, k);
    var child := c.rotPerm[pRot][k];
    buckets := SortChild(points, splitters[k], splitters[k + 1], sLev, eLev, c.hilbert[pRot][child], c, before, makeBuckets);
    ChildDone(c, s1, s, points[..], begin, end, sLev, eLev, pRot, splitters, k, buckets0, before, buckets, makeBuckets);
  }

  /**
   * One turn of `locTreeSort`'s loop over the children: the piece [lo, hi)
   * of a child is sorted from the next level, in the child's orientation
   * cRot, when it holds more nodes than the threshold (none when buckets
   * are wanted, one otherwise), and its buckets are appended.
   */
  method SortChild(points: array<TreeNode>, lo: nat, hi: nat, sLev: nat, eLev: nat, cRot: nat,
                   c: Curve, before: seq<Bucket>, makeBuckets: bool)
    returns (buckets: seq<Bucket>)
    modifies points
    requires ValidCurve(c) && cRot < |c.rotPerm| && sLev < eLev
    requires lo <= hi <= points.Length && ValidRange(points[..], lo, hi, c.n)
    ensures PermutedWithin(old(points[..]), points[..], lo, hi)
    ensures SortedByKey(c, points[..], lo, hi, sLev + 1, eLev, cRot)
    ensures |buckets| >= |before| && buckets[..|before|] == before
    ensures makeBuckets ==> EndingBuckets(c, buckets[|before|..], lo, hi, eLev + 1)
    ensures makeBuckets ==> CellBuckets(c, points[..], buckets[|before|..], sLev + 1, eLev, cRot)
    ensures !makeBuckets ==> buckets == before
    decreases eLev - sLev, 0
  {
    var continueThresh := if makeBuckets then 0 else 1;
    if hi - lo > continueThresh {
      assert lo < hi && (if sLev + 1 < eLev then eLev else sLev + 1) == eLev;
      buckets := LocTreeSort(points, lo, hi, sLev + 1, eLev, cRot, c, before, makeBuckets);
    } else {
      buckets := before;
      ShortRange(c, points[..], lo, hi, sLev + 1, eLev, cRot, before, makeBuckets);
    }
  }

  /** A range of at most one node is sorted, and is a permutation of itself. */
  lemma ShortRange(c: Curve, s: seq<TreeNode>, lo: nat, hi: nat, l: nat, eLev: nat, rot: nat,
                   before: seq<Bucket>, makeBuckets: bool)
    requires lo <= hi <= lo + (if makeBuckets then 0 else 1) && hi <= |s|
    ensures SortedByKey(c, s, lo, hi, l, eLev, rot) && PermutedWithin(s, s, lo, hi)
    ensures before[..|before|] == before
    ensures makeBuckets ==> EndingBuckets(c, before[|before|..], lo, hi, eLev + 1)
    ensures makeBuckets ==> CellBuckets(c, s, before[|before|..], l, eLev, rot)
  {
    assert before[|before|..] == [];
  }

  /** Sorting the k-th piece and appending its buckets completes the k-th turn. */
  lemma ChildDone(c: Curve, s1: seq<TreeNode>, s: seq<TreeNode>, s': seq<TreeNode>, begin: nat, end: nat,
                  sLev: nat, eLev: nat, pRot: nat, splitters: seq<nat>, k: nat,
                  buckets0: seq<Bucket>, before: seq<Bucket>, buckets: seq<Bucket>, makeBuckets: bool)
    requires ValidCurve(c) && pRot < |c.rotPerm| && k < c.n && sLev < eLev
    requires ChildrenDone(c, s1, s, begin, end, sLev, eLev, pRot, splitters, k, buckets0, before, makeBuckets)
    requires PermutedWithin(s, s', splitters[k], splitters[k + 1])
    requires SortedByKey(c, s', splitters[k], splitters[k + 1], sLev + 1, eLev, c.hilbert[pRot][c.rotPerm[pRot][k]])
    requires |buckets| >= |before| && buckets[..|before|] == before
    requires makeBuckets ==> EndingBuckets(c, buckets[|before|..], splitters[k], splitters[k + 1], eLev + 1)
    requires makeBuckets ==>
      CellBuckets(c, s', buckets[|before|..], sLev + 1, eLev, c.hilbert[pRot][c.rotPerm[pRot][k]])
    requires !makeBuckets ==> buckets == before
    ensures ChildrenDone(c, s1, s', begin, end, sLev, eLev, pRot, splitters, k + 1, buckets0, buckets, makeBuckets)
  {
    ChildSorted(c, s, s', begin, end, sLev, eLev, pRot, splitters, k);
    PermutedExtend(s1, s, s', begin, splitters[k], splitters[k + 1]);
    if makeBuckets {
      BucketsGrow(c, buckets0, before, buckets, begin, splitters[k], splitters[k + 1], eLev + 1);
      ChildCells(c, s, s', begin, end, sLev, eLev, pRot, splitters, k, buckets0, before, buckets);
    }
  }

  /** The cells of the first k pieces and those of the k-th piece are the cells of the first k + 1. */
  lemma ChildCells(c: Curve, s: seq<TreeNode>, s': seq<TreeNode>, begin: nat, end: nat, sLev: nat, eLev: nat,
                   pRot: nat, splitters: seq<nat>, k: nat, buckets0: seq<Bucket>, before: seq<Bucket>,
                   buckets: seq<Bucket>)
    requires ValidCurve(c) && pRot < |c.rotPerm| && k < c.n && sLev < eLev
    requires ChildPieces(c, s', begin, end, sLev, pRot, splitters)
    requires PermutedWithin(s, s', splitters[k], splitters[k + 1])
    requires |before| >= |buckets0| && |buckets| >= |before| && buckets[..|before|] == before
    requires Tiles(before[|buckets0|..], begin, splitters[k])
    requires Tiles(buckets[|before|..], splitters[k], splitters[k + 1])
    requires CellBuckets(c, s, before[|buckets0|..], sLev, eLev, pRot)
    requires CellBuckets(c, s', buckets[|before|..], sLev + 1, eLev, c.hilbert[pRot][c.rotPerm[pRot][k]])
    ensures CellBuckets(c, s', buckets[|buckets0|..], sLev, eLev, pRot)
  {
    CellsFrame(c, s, s', before[|buckets0|..], begin, splitters[k], sLev, eLev, pRot);
    ChildPiece(c, s', begin, end, sLev, pRot, splitters, k);
    CellsOfChild(c, s', buckets[|before|..], splitters[k], splitters[k + 1], sLev, eLev, pRot, k);
    assert buckets[|buckets0|..] == before[|buckets0|..] + buckets[|before|..];
    CellsAppend(c, s', before[|buckets0|..], buckets[|before|..], sLev, eLev, pRot);
  }

  /** The k-th piece satisfies what `LocTreeSort` requires of its range. */
  lemma ChildPiece(c: Curve, s: seq<TreeNode>, begin: nat, end: nat, l: nat, rot: nat, splitters: seq<nat>, k: nat)
    requires ValidCurve(c) && rot < |c.rotPerm| && ChildPieces(c, s, begin, end, l, rot, splitters) && k < c.n
    ensures splitters[k] <= splitters[k + 1] <= end <= |s|
    ensures ValidRange(s, splitters[k], splitters[k + 1], c.n)
    ensures forall i :: splitters[k] <= i < splitters[k + 1] ==> InChild(s[i], l, c.rotPerm[rot][k]) && ValidNode(s[i], c.n)
  {
  }

  /**
   * Sorting the k-th piece in place keeps the layout of the pieces, and the
   * pieces before it stay sorted.
   */
  lemma ChildSorted(c: Curve, s: seq<TreeNode>, s': seq<TreeNode>, begin: nat, end: nat, l: nat, eLev: nat, rot: nat,
                    splitters: seq<nat>, k: nat)
    requires ValidCurve(c) && rot < |c.rotPerm| && ChildPieces(c, s, begin, end, l, rot, splitters) && k < c.n
    requires PermutedWithin(s, s', splitters[k], splitters[k + 1])
    requires SortedPieces(c, s, l, eLev, rot, splitters, k)
    requires SortedByKey(c, s', splitters[k], splitters[k + 1], l + 1, eLev, c.hilbert[rot][c.rotPerm[rot][k]])
    ensures ChildPieces(c, s', begin, end, l, rot, splitters)
    ensures SortedPieces(c, s', l, eLev, rot, splitters, k + 1)
  {
    ChildPiece(c, s, begin, end, l, rot, splitters, k);
    PermutedKeeps(s, s', splitters[k], splitters[k + 1], l, c.rotPerm[rot][k], c.n);
    forall j | 0 <= j < k
      ensures forall i :: splitters[j] <= i < splitters[j + 1] ==> s'[i] == s[i]
    {
      assert splitters[j + 1] <= splitters[k];
    }
    forall j, i | 0 <= j < c.n && j != k && splitters[j] <= i < splitters[j + 1]
      ensures s'[i] == s[i]
    {
      if j < k {
        assert splitters[j + 1] <= splitters[k];
      } else {
        assert splitters[k + 1] <= splitters[j];
      }
    }
  }

  /** A further sorted piece extends the sorted prefix of pieces. */
  lemma SortedPiecesNext(c: Curve, s: seq<TreeNode>, l: nat, eLev: nat, rot: nat, splitters: seq<nat>, k: nat)
    requires ValidCurve(c) && rot < |c.rotPerm| && k < c.n && |splitters| == c.n + 1
    requires SortedPieces(c, s, l, eLev, rot, splitters, k)
    requires SortedByKey(c, s, splitters[k], splitters[k + 1], l + 1, eLev, c.hilbert[rot][c.rotPerm[rot][k]])
    ensures SortedPieces(c, s, l, eLev, rot, splitters, k + 1)
  {
  }

  /**
   * Bucket lists only grow at the end: appending the tiling of [lo, hi) to a
   * list that tiles [begin, lo) after its first |buckets0| entries gives one
   * that tiles [begin, hi).
   */
  lemma BucketsGrow(c: Curve, buckets0: seq<Bucket>, before: seq<Bucket>, buckets: seq<Bucket>,
                    begin: nat, lo: nat, hi: nat, lev: nat)
    requires |before| >= |buckets0| && before[..|buckets0|] == buckets0
    requires |buckets| >= |before| && buckets[..|before|] == before
    requires EndingBuckets(c, before[|buckets0|..], begin, lo, lev)
    requires EndingBuckets(c, buckets[|before|..], lo, hi, lev)
    ensures |buckets| >= |buckets0| && buckets[..|buckets0|] == buckets0
    ensures EndingBuckets(c, buckets[|buckets0|..], begin, hi, lev)
  {
    assert buckets[..|buckets0|] == before[..|buckets0|];
    assert buckets[|buckets0|..] == before[|buckets0|..] + buckets[|before|..];
    EndingBucketsAppend(c, before[|buckets0|..], buckets[|before|..], begin, lo, hi, lev);
  }
}
