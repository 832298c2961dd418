/**
 * `SFC_bucketing` of src/SFC_Tree.cpp: an in-place counting sort that
 * reorders a range of tree nodes by their child number at one level, with
 * the nodes coarser than that level (the ancestors) first and the children
 * in the order of the space-filling curve, and yields the splitters between
 * the child buckets.
 *
 * A tree node is abstracted to its level and its Morton child numbers, one
 * per level; the curve's rotation table is abstracted to the permutation
 * `perm` that maps an SFC rank to a Morton child number.
 */
module SfcBucketing {
  import opened Positions

  /**
   * A tree node: its level, and for each level of the tree the Morton child
   * number of its ancestor at that level.
   */
  datatype TreeNode = TreeNode(level: nat, digits: seq<nat>)

  /** `getMortonIndex(lev)`. */
  function MortonIndex(t: TreeNode, lev: nat): nat
  {
    if lev < |t.digits| then t.digits[lev] else 0
  }

  /** Every child number of t is one of the n children of a cell. */
  predicate ValidNode(t: TreeNode, n: nat)
  {
    forall d :: d in t.digits ==> d < n
  }

  /** The nodes of s[lo..hi] are valid. */
  ghost predicate ValidRange(s: seq<TreeNode>, lo: int, hi: int, n: nat)
  {
    forall i :: lo <= i < hi && 0 <= i < |s| ==> ValidNode(s[i], n)
  }

  /**
   * The bucket of a node at level lev, in Morton order: its child number, or
   * n (the ancestors' bucket) if it is coarser than lev.
   */
  function BucketOf(t: TreeNode, lev: nat, n: nat): nat
  {
    if t.level < lev then n else MortonIndex(t, lev)
  }

  /** The buckets of the nodes of s. */
  function Buckets(s: seq<TreeNode>, lev: nat, n: nat): seq<nat>
  {
    seq(|s|, i requires 0 <= i < |s| => BucketOf(s[i], lev, n))
  }

  /** A valid node lies in one of the buckets 0..n. */
  lemma BucketBound(t: TreeNode, lev: nat, n: nat)
    requires ValidNode(t, n) && n >= 1
    ensures BucketOf(t, lev, n) <= n
    ensures t.level >= lev ==> BucketOf(t, lev, n) < n
  {
    if lev < |t.digits| {
      assert t.digits[lev] in t.digits;
    }
  }

  lemma BucketsAppend(s: seq<TreeNode>, x: TreeNode, lev: nat, n: nat)
    ensures Buckets(s + [x], lev, n) == Buckets(s, lev, n) + [BucketOf(x, lev, n)]
  {
  }

  lemma BucketsUpdate(s: seq<TreeNode>, p: int, x: TreeNode, lev: nat, n: nat)
    requires 0 <= p < |s|
    ensures Buckets(s[p := x], lev, n) == Buckets(s, lev, n)[p := BucketOf(x, lev, n)]
  {
  }

  lemma BucketsSlice(s: seq<TreeNode>, lo: int, hi: int, lev: nat, n: nat)
    requires 0 <= lo <= hi <= |s|
    ensures Buckets(s[lo..hi], lev, n) == Buckets(s, lev, n)[lo..hi]
  {
  }

  // ---------------------------------------------------------------------------
  // Counting
  // ---------------------------------------------------------------------------

  /** counts and countAncestors are the bucket census of s[begin..i]. */
  ghost predicate Counted(s: seq<TreeNode>, begin: nat, i: nat, lev: nat, n: nat, counts: seq<nat>, countAncestors: nat)
  {
    begin <= i <= |s| && |counts| == n
    && (forall b :: 0 <= b < n ==> counts[b] == multiset(Buckets(s[begin..i], lev, n))[b])
    && countAncestors == multiset(Buckets(s[begin..i], lev, n))[n]
  }

  /** Counting one more node adds one to its bucket. */
  lemma CountedStep(s: seq<TreeNode>, begin: nat, i: nat, lev: nat, n: nat, counts: seq<nat>, countAncestors: nat)
    requires Counted(s, begin, i, lev, n, counts, countAncestors) && i < |s| && n >= 1 && ValidNode(s[i], n)
    ensures s[i].level < lev ==> Counted(s, begin, i + 1, lev, n, counts, countAncestors + 1)
    ensures s[i].level >= lev ==>
      var m := MortonIndex(s[i], lev); m < n && Counted(s, begin, i + 1, lev, n, counts[m := counts[m] + 1], countAncestors)
  {
    assert s[begin..i + 1] == s[begin..i] + [s[i]];
    BucketsAppend(s[begin..i], s[i], lev, n);
    BucketBound(s[i], lev, n);
  }

  /**
   * The counting pass: the number of nodes of points[begin..end) in each
   * child bucket, and the number of ancestors.
   */
  method CountBuckets(points: array<TreeNode>, begin: nat, end: nat, lev: nat, n: nat)
    returns (counts: seq<nat>, countAncestors: nat)
    requires begin <= end <= points.Length && n >= 1
    requires ValidRange(points[..], begin, end, n)
    ensures |counts| == n
    ensures forall b :: 0 <= b < n ==> counts[b] == multiset(Buckets(points[begin..end], lev, n))[b]
    ensures countAncestors == multiset(Buckets(points[begin..end], lev, n))[n]
  {
    counts := seq(n, _ => 0);
    countAncestors := 0;
    var i := begin;
    assert points[..][begin..i] == [];
    while i < end
      invariant i <= end && Counted(points[..], begin, i, lev, n, counts, countAncestors)
    {
      CountedStep(points[..], begin, i, lev, n, counts, countAncestors);
      if points[i].level < lev {
        countAncestors := countAncestors + 1;
      } else {
        var m := MortonIndex(points[i], lev);
        counts := counts[m := counts[m] + 1];
      }
      i := i + 1;
    }
    assert points[..][begin..end] == points[begin..end];
  }

  // ---------------------------------------------------------------------------
  // Offsets: a scan of the counts in SFC order
  // ---------------------------------------------------------------------------

  /** The total count of the first k buckets in SFC order. */
  function Scan(counts: seq<nat>, perm: seq<nat>, k: nat): nat
    requires k <= |perm|
  {
    if k == 0 then 0 else Scan(counts, perm, k - 1) + (if perm[k - 1] < |counts| then counts[perm[k - 1]] else 0)
  }

  lemma ScanNext(counts: seq<nat>, perm: seq<nat>, j: nat)
    requires j < |perm| && perm[j] < |counts|
    ensures Scan(counts, perm, j + 1) == Scan(counts, perm, j) + counts[perm[j]]
  {
  }

  lemma {:induction false} ScanMonotone(counts: seq<nat>, perm: seq<nat>, j: nat, k: nat)
    requires j <= k <= |perm| && forall i :: 0 <= i < |perm| ==> perm[i] < |counts|
    ensures Scan(counts, perm, j) <= Scan(counts, perm, k)
    decreases k
  {
    if j < k {
      ScanMonotone(counts, perm, j, k - 1);
    }
  }

  /**
   * The region of each bucket: it starts at `offsets` and ends at
   * `bucketEnds`; ancestors first, then the children in SFC order. Only the
   * first k children in SFC order are laid out so far.
   */
  ghost predicate ScannedUpTo(counts: seq<nat>, countAncestors: nat, perm: seq<nat>, begin: nat, k: nat,
                              offsets: seq<nat>, bucketEnds: seq<nat>)
  {
    var n := |counts|;
    k <= n && |perm| == n && |offsets| == n + 1 && |bucketEnds| == n + 1
    && offsets[n] == begin && bucketEnds[n] == begin + countAncestors
    && forall j :: 0 <= j < k ==>
         perm[j] < n
         && offsets[perm[j]] == begin + countAncestors + Scan(counts, perm, j)
         && bucketEnds[perm[j]] == offsets[perm[j]] + counts[perm[j]]
  }

  /** The layout of all the buckets. */
  ghost predicate Scanned(counts: seq<nat>, countAncestors: nat, perm: seq<nat>, begin: nat,
                          offsets: seq<nat>, bucketEnds: seq<nat>)
  {
    ScannedUpTo(counts, countAncestors, perm, begin, |counts|, offsets, bucketEnds)
  }

  /** The splitters: the start of each SFC bucket, the first moved back to `begin`. */
  ghost predicate Splitters(counts: seq<nat>, countAncestors: nat, perm: seq<nat>, begin: nat, k: nat,
                            splitters: seq<nat>)
  {
    |perm| == |counts| && k <= |counts| && |splitters| == |counts| + 1
    && forall j :: 0 < j < k ==> splitters[j] == begin + countAncestors + Scan(counts, perm, j)
  }

  /** The state of the scan loop after k children in SFC order. */
  ghost predicate ScanProgress(counts: seq<nat>, countAncestors: nat, perm: seq<nat>, begin: nat, k: nat,
                               accum: nat, splitters: seq<nat>, offsets: seq<nat>, bucketEnds: seq<nat>)
  {
    IsPerm(perm, |counts|) && k <= |counts|
    && accum == begin + countAncestors + Scan(counts, perm, k)
    && ScannedUpTo(counts, countAncestors, perm, begin, k, offsets, bucketEnds)
    && Splitters(counts, countAncestors, perm, begin, k, splitters)
  }

  /** One turn of the scan loop lays out the next child in SFC order. */
  lemma ScanStep(counts: seq<nat>, countAncestors: nat, perm: seq<nat>, begin: nat, k: nat,
                 accum: nat, splitters: seq<nat>, offsets: seq<nat>, bucketEnds: seq<nat>)
    requires ScanProgress(counts, countAncestors, perm, begin, k, accum, splitters, offsets, bucketEnds)
    requires k < |counts|
    ensures perm[k] < |counts|
    ensures var child := perm[k];
      ScanProgress(counts, countAncestors, perm, begin, k + 1, accum + counts[child], splitters[k := accum],
                   offsets[child := accum], bucketEnds[child := accum + counts[child]])
  {
    assert forall j :: 0 <= j < k ==> perm[j] != perm[k];
    ScanNext(counts, perm, k);
  }

  /** Before the scan only the ancestors' region is laid out. */
  lemma ScanStart(counts: seq<nat>, countAncestors: nat, perm: seq<nat>, begin: nat, fill: seq<nat>)
    requires IsPerm(perm, |counts|)
    requires |fill| == |counts| + 1 && forall i :: 0 <= i < |fill| ==> fill[i] == begin
    ensures ScanProgress(counts, countAncestors, perm, begin, 0, begin + countAncestors,
                         fill, fill, fill[|counts| := begin + countAncestors])
  {
  }

  /**
   * After the scan every child is laid out; the last splitter closes the
   * range and the first is moved back to `begin`.
   */
  lemma ScanDone(counts: seq<nat>, countAncestors: nat, perm: seq<nat>, begin: nat, k: nat,
                 accum: nat, splitters: seq<nat>, offsets: seq<nat>, bucketEnds: seq<nat>)
    requires ScanProgress(counts, countAncestors, perm, begin, k, accum, splitters, offsets, bucketEnds)
    requires k >= |counts|
    ensures Scanned(counts, countAncestors, perm, begin, offsets, bucketEnds)
    ensures var t := splitters[|counts| := accum][0 := begin];
      |t| == |counts| + 1 && t[0] == begin
      && forall j :: 0 < j <= |counts| ==> t[j] == begin + countAncestors + Scan(counts, perm, j)
  {
  }

  /**
   * The scan pass: bucket regions in SFC order after the ancestors, and the
   * splitters, whose first entry is moved back to `begin` so that the first
   * bucket in SFC order also holds the ancestors.
   */
  method BucketOffsets(counts: seq<nat>, countAncestors: nat, perm: seq<nat>, begin: nat)
    returns (splitters: seq<nat>, offsets: seq<nat>, bucketEnds: seq<nat>)
    requires IsPerm(perm, |counts|) && |counts| >= 1
    ensures Scanned(counts, countAncestors, perm, begin, offsets, bucketEnds)
    ensures |splitters| == |counts| + 1 && splitters[0] == begin
    ensures forall k :: 0 < k <= |counts| ==>
      splitters[k] == begin + countAncestors + Scan(counts, perm, k)
  {
    var n := |counts|;
    var fill := seq(n + 1, _ => begin);
    ScanStart(counts, countAncestors, perm, begin, fill);
    splitters, offsets, bucketEnds := fill, fill, fill[n := begin + countAncestors];
    var accum: nat := begin + countAncestors;
    var childSfc := 0;
    while childSfc < n
      invariant ScanProgress(counts, countAncestors, perm, begin, childSfc, accum, splitters, offsets, bucketEnds)
    {
      var child := perm[childSfc];
      ScanStep(counts, countAncestors, perm, begin, childSfc, accum, splitters, offsets, bucketEnds);
      splitters := splitters[childSfc := accum];
      offsets := offsets[child := accum];
      accum := accum + counts[child];
      bucketEnds := bucketEnds[child := accum];
      childSfc := childSfc + 1;
    }
    ScanDone(counts, countAncestors, perm, begin, childSfc, accum, splitters, offsets, bucketEnds);
    splitters := splitters[n := accum][0 := begin];
  }

  // ---------------------------------------------------------------------------
  // The regions partition the range
  // ---------------------------------------------------------------------------

  /** The bucket regions lie in [begin, end) and do not overlap. */
  ghost predicate Regions(begin: int, end: int, n: nat, starts: seq<nat>, ends: seq<nat>)
  {
    |starts| == n + 1 && |ends| == n + 1
    && (forall b :: 0 <= b <= n ==> begin <= starts[b] <= ends[b] <= end)
    && forall b, c :: 0 <= b <= n && 0 <= c <= n && b != c ==> ends[b] <= starts[c] || ends[c] <= starts[b]
  }

  /** The sum of the multiplicities in m of the given keys. */
  ghost function SumOver(m: multiset<nat>, keys: seq<nat>): nat
  {
    if keys == [] then 0 else SumOver(m, keys[..|keys| - 1]) + m[keys[|keys| - 1]]
  }

  lemma {:induction false} SumOverAdd(m: multiset<nat>, x: nat, keys: seq<nat>)
    requires AllDistinct(keys)
    ensures SumOver(m + multiset{x}, keys) == SumOver(m, keys) + (if x in keys then 1 else 0)
  {
    if keys != [] {
      var init := keys[..|keys| - 1];
      assert AllDistinct(init);
      SumOverAdd(m, x, init);
      assert x in keys <==> x in init || x == keys[|keys| - 1];
      assert keys[|keys| - 1] !in init;
    }
  }

  /** Summing over distinct keys that cover s counts every entry of s once. */
  lemma {:induction false} SumOverAll(s: seq<nat>, keys: seq<nat>)
    requires AllDistinct(keys) && forall x :: x in s ==> x in keys
    ensures SumOver(multiset(s), keys) == |s|
  {
    if s == [] {
      SumOverEmpty(keys);
    } else {
      var init := s[..|s| - 1];
      assert s == init + [s[|s| - 1]];
      SumOverAll(init, keys);
      SumOverAdd(multiset(init), s[|s| - 1], keys);
    }
  }

  lemma {:induction false} SumOverEmpty(keys: seq<nat>)
    ensures SumOver(multiset{}, keys) == 0
  {
    if keys != [] {
      SumOverEmpty(keys[..|keys| - 1]);
    }
  }

  lemma {:induction false} ScanIsSumOver(counts: seq<nat>, perm: seq<nat>, m: multiset<nat>, k: nat)
    requires k <= |perm| && forall j :: 0 <= j < |perm| ==> perm[j] < |counts|
    requires forall b :: 0 <= b < |counts| ==> counts[b] == m[b]
    ensures Scan(counts, perm, k) == SumOver(m, perm[..k])
  {
    if k > 0 {
      ScanIsSumOver(counts, perm, m, k - 1);
      assert perm[..k][..k - 1] == perm[..k - 1];
    }
  }

  /**
   * When the counts are those of the range, the scan ends exactly at `end`:
   * every node is counted once, in its child bucket or as an ancestor.
   */
  lemma ScanCoversRange(s: seq<nat>, counts: seq<nat>, countAncestors: nat, perm: seq<nat>)
    requires IsPerm(perm, |counts|)
    requires forall b :: 0 <= b < |counts| ==> counts[b] == multiset(s)[b]
    requires countAncestors == multiset(s)[|counts|]
    requires forall x :: x in s ==> x <= |counts|
    ensures countAncestors + Scan(counts, perm, |counts|) == |s|
  {
    var n := |counts|;
    var keys := perm + [n];
    assert AllDistinct(keys);
    forall x | x in s
      ensures x in keys
    {
      if x < n {
        PermCovers(perm, n, x);
      }
    }
    SumOverAll(s, keys);
    assert keys[..|keys| - 1] == perm;
    assert perm[..n] == perm;
    ScanIsSumOver(counts, perm, multiset(s), n);
  }

  /** The scanned regions partition the range: ancestors first, then the children in SFC order. */
  lemma ScannedRegions(counts: seq<nat>, countAncestors: nat, perm: seq<nat>, begin: nat, end: nat,
                       offsets: seq<nat>, bucketEnds: seq<nat>)
    requires IsPerm(perm, |counts|)
    requires Scanned(counts, countAncestors, perm, begin, offsets, bucketEnds)
    requires begin + countAncestors + Scan(counts, perm, |counts|) == end
    ensures Regions(begin, end, |counts|, offsets, bucketEnds)
  {
    var n := |counts|;
    var rank := seq(n + 1, b requires 0 <= b <= n => 0);
    var b := 0;
    while b <= n
      invariant b <= n + 1 && |rank| == n + 1
      invariant forall c :: 0 <= c < b ==> LaidOut(counts, perm, begin, countAncestors, offsets[c], bucketEnds[c], c, rank[c])
    {
      var k := RankOf(counts, countAncestors, perm, begin, offsets, bucketEnds, b);
      rank := rank[b := k];
      b := b + 1;
    }
    RegionsFromLayout(counts, perm, begin, countAncestors, end, offsets, bucketEnds, rank);
  }

  /** Bucket b has layout position k and region [start, end). */
  ghost predicate LaidOut(counts: seq<nat>, perm: seq<nat>, begin: nat, countAncestors: nat,
                          start: nat, end: nat, b: nat, k: nat)
  {
    var n := |counts|;
    |perm| == n && k <= n && (k == 0 <==> b == n)
    && (k == 0 ==> start == begin && end == begin + countAncestors)
    && (k > 0 ==> perm[k - 1] == b && b < n)
    && (forall i :: 0 <= i < n ==> perm[i] < n)
    && (k > 0 ==> start == begin + countAncestors + Scan(counts, perm, k - 1))
    && end == begin + countAncestors + Scan(counts, perm, k)
  }

  lemma RegionsFromLayout(counts: seq<nat>, perm: seq<nat>, begin: nat, countAncestors: nat, end: nat,
                          offsets: seq<nat>, bucketEnds: seq<nat>, rank: seq<nat>)
    requires |offsets| == |bucketEnds| == |rank| == |counts| + 1 && |perm| == |counts|
    requires forall c :: 0 <= c <= |counts| ==>
      LaidOut(counts, perm, begin, countAncestors, offsets[c], bucketEnds[c], c, rank[c])
    requires begin + countAncestors + Scan(counts, perm, |counts|) == end
    ensures Regions(begin, end, |counts|, offsets, bucketEnds)
  {
    var n := |counts|;
    forall b | 0 <= b <= n
      ensures begin <= offsets[b] <= bucketEnds[b] <= end
    {
      RegionWithin(counts, perm, begin, countAncestors, end, offsets[b], bucketEnds[b], b, rank[b]);
    }
    forall b, c | 0 <= b <= n && 0 <= c <= n && b != c
      ensures bucketEnds[b] <= offsets[c] || bucketEnds[c] <= offsets[b]
    {
      RegionsApart(counts, perm, begin + countAncestors, rank[b], rank[c], offsets[b], bucketEnds[b], offsets[c], bucketEnds[c]);
    }
  }

  /** A laid-out region lies within the range. */
  lemma RegionWithin(counts: seq<nat>, perm: seq<nat>, begin: nat, countAncestors: nat, end: nat,
                     start: nat, stop: nat, b: nat, k: nat)
    requires LaidOut(counts, perm, begin, countAncestors, start, stop, b, k)
    requires begin + countAncestors + Scan(counts, perm, |counts|) == end
    ensures begin <= start <= stop <= end
  {
    ScanMonotone(counts, perm, k, |counts|);
    if k > 0 {
      ScanNext(counts, perm, k - 1);
    }
  }

  /** Two buckets of different layout positions j and k occupy disjoint regions. */
  lemma RegionsApart(counts: seq<nat>, perm: seq<nat>, base: nat, j: nat, k: nat,
                     startB: nat, endB: nat, startC: nat, endC: nat)
    requires j <= |perm| && k <= |perm| && j != k
    requires forall i :: 0 <= i < |perm| ==> perm[i] < |counts|
    requires endB == base + Scan(counts, perm, j) && endC == base + Scan(counts, perm, k)
    requires j > 0 ==> startB == base + Scan(counts, perm, j - 1)
    requires k > 0 ==> startC == base + Scan(counts, perm, k - 1)
    requires j == 0 ==> startB <= base
    requires k == 0 ==> startC <= base
    ensures endB <= startC || endC <= startB
  {
    if j < k {
      ScanMonotone(counts, perm, j, k - 1);
    } else {
      ScanMonotone(counts, perm, k, j - 1);
    }
  }

  /**
   * The position of bucket b in the layout: 0 for the ancestors, 1 + the SFC
   * rank for a child. Its region is [base + Scan(k - 1), base + Scan(k)).
   */
  lemma RankOf(counts: seq<nat>, countAncestors: nat, perm: seq<nat>, begin: nat,
               offsets: seq<nat>, bucketEnds: seq<nat>, b: nat) returns (k: nat)
    requires IsPerm(perm, |counts|) && b <= |counts|
    requires Scanned(counts, countAncestors, perm, begin, offsets, bucketEnds)
    ensures LaidOut(counts, perm, begin, countAncestors, offsets[b], bucketEnds[b], b, k)
  {
    if b == |counts| {
      k := 0;
    } else {
      PermCovers(perm, |counts|, b);
      var j :| 0 <= j < |counts| && perm[j] == b;
      k := j + 1;
      RankOfChild(counts, countAncestors, perm, begin, offsets, bucketEnds, j);
    }
  }

  /** The child at SFC rank j has layout position j + 1. */
  lemma RankOfChild(counts: seq<nat>, countAncestors: nat, perm: seq<nat>, begin: nat,
                    offsets: seq<nat>, bucketEnds: seq<nat>, j: nat)
    requires IsPerm(perm, |counts|) && j < |counts|
    requires Scanned(counts, countAncestors, perm, begin, offsets, bucketEnds)
    ensures perm[j] < |counts|
    ensures LaidOut(counts, perm, begin, countAncestors, offsets[perm[j]], bucketEnds[perm[j]], perm[j], j + 1)
  {
    ScanNext(counts, perm, j);
  }

  // ---------------------------------------------------------------------------
  // Moving the nodes into their regions
  // ---------------------------------------------------------------------------

  /**
   * The state of the movement phase, against the range s0 it started from.
   * Bucket b owns the region [starts[b], ends[b]); its write position
   * offsets[b] splits the region into the nodes already placed, which are
   * all in bucket b, and the rest. While the region is not full, its write
   * position is a hole: the node there has been lifted into the buffer.
   * The positions up to the write position have been touched, the rest
   * still hold their original nodes. `pending` is the multiset of buckets
   * of the nodes not yet placed, and bucket b has exactly as many of those
   * as its region has free positions.
   */
  ghost predicate Moving(s: seq<TreeNode>, s0: seq<TreeNode>, begin: nat, end: nat, lev: nat, n: nat,
                         starts: seq<nat>, ends: seq<nat>, offsets: seq<nat>, buffer: seq<TreeNode>,
                         holes: set<int>, touched: set<int>, pending: multiset<nat>)
  {
    Layout(s, s0, begin, end, n, starts, ends, offsets, buffer)
    && Placed(s, lev, n, starts, offsets)
    && Marks(n, starts, ends, offsets, holes, touched)
    && Conserved(s, s0, begin, end, lev, n, ends, offsets, buffer, holes, touched, pending)
  }

  /** The regions, the write positions within them, and the valid nodes. */
  ghost predicate Layout(s: seq<TreeNode>, s0: seq<TreeNode>, begin: nat, end: nat, n: nat,
                         starts: seq<nat>, ends: seq<nat>, offsets: seq<nat>, buffer: seq<TreeNode>)
  {
    |s| == |s0| && begin <= end <= |s| && n >= 1 && Regions(begin, end, n, starts, ends) && |offsets| == n + 1
    && (forall b :: 0 <= b <= n ==> starts[b] <= offsets[b] <= ends[b])
    && (forall i :: 0 <= i < |s| && !(begin <= i < end) ==> s[i] == s0[i])
    && ValidRange(s, begin, end, n)
    && (forall j :: 0 <= j < |buffer| ==> ValidNode(buffer[j], n))
  }

  /** The nodes before each write position belong to its bucket. */
  ghost predicate Placed(s: seq<TreeNode>, lev: nat, n: nat, starts: seq<nat>, offsets: seq<nat>)
    requires |starts| == |offsets| == n + 1
  {
    forall b, i :: 0 <= b <= n && starts[b] <= i < offsets[b] && i < |s| ==> BucketOf(s[i], lev, n) == b
  }

  /** The holes are the write positions of the open regions; the touched positions are those up to them. */
  ghost predicate Marks(n: nat, starts: seq<nat>, ends: seq<nat>, offsets: seq<nat>, holes: set<int>, touched: set<int>)
    requires |starts| == |ends| == |offsets| == n + 1
  {
    (forall b, i :: 0 <= b <= n && starts[b] <= i < ends[b] ==> (i in holes <==> i == offsets[b]))
    && (forall b, i :: 0 <= b <= n && starts[b] <= i < ends[b] ==> (i in touched <==> i <= offsets[b]))
  }

  /** No node is lost: the range without its holes, plus the buffer, is the original range. */
  ghost predicate Conserved(s: seq<TreeNode>, s0: seq<TreeNode>, begin: nat, end: nat, lev: nat, n: nat,
                            ends: seq<nat>, offsets: seq<nat>, buffer: seq<TreeNode>,
                            holes: set<int>, touched: set<int>, pending: multiset<nat>)
    requires begin <= end <= |s| == |s0| && |ends| == |offsets| == n + 1
  {
    |holes| == |buffer|
    && Except(s, begin, end, holes) + multiset(buffer) == multiset(s0[begin..end])
    && pending == Except(Buckets(s, lev, n), begin, end, touched) + multiset(Buckets(buffer, lev, n))
    && (forall b :: 0 <= b <= n ==> offsets[b] + pending[b] == ends[b])
  }

  /**
   * Buckets below k have a hole exactly at the start of their region, the
   * others have none.
   */
  ghost predicate HolesAtStarts(n: nat, starts: seq<nat>, ends: seq<nat>, holes: set<int>, k: nat)
    requires |starts| == |ends| == n + 1
  {
    (forall b, i :: 0 <= b < k && b <= n && starts[b] <= i < ends[b] ==> (i in holes <==> i == starts[b]))
    && forall b, i :: k <= b <= n && starts[b] <= i < ends[b] ==> i !in holes
  }

  /** Lifting the first node of region k keeps `HolesAtStarts`. */
  lemma LiftFirst(begin: nat, end: nat, n: nat, starts: seq<nat>, ends: seq<nat>, holes: set<int>, k: nat)
    requires Regions(begin, end, n, starts, ends) && k <= n
    requires HolesAtStarts(n, starts, ends, holes, k)
    ensures starts[k] < ends[k] ==> starts[k] !in holes
    ensures HolesAtStarts(n, starts, ends, if starts[k] < ends[k] then holes + {starts[k]} else holes, k + 1)
  {
    var h := starts[k];
    if h < ends[k] {
      assert forall b :: 0 <= b <= n && b != k ==> ends[b] <= h || ends[k] <= starts[b];
    }
  }

  /**
   * The first phase of the movement: the first node of every nonempty
   * region is lifted into the buffer, in bucket order, leaving a hole.
   */
  method FillBuffer(points: array<TreeNode>, begin: nat, end: nat, lev: nat, n: nat,
                    starts: seq<nat>, ends: seq<nat>)
    returns (buffer: seq<TreeNode>, ghost holes: set<int>)
    requires begin <= end <= points.Length && n >= 1 && Regions(begin, end, n, starts, ends)
    requires ValidRange(points[..], begin, end, n)
    requires forall b :: 0 <= b <= n ==>
      starts[b] + multiset(Buckets(points[begin..end], lev, n))[b] == ends[b]
    ensures Moving(points[..], points[..], begin, end, lev, n, starts, ends, starts, buffer,
                   holes, holes, multiset(Buckets(points[begin..end], lev, n)))
  {
    ghost var s := points[..];
    ghost var bs := Buckets(s, lev, n);
    buffer := [];
    holes := {};
    ExceptNone(s, begin, end, holes);
    ExceptNone(bs, begin, end, holes);
    var bucketId := 0;
    while bucketId <= n
      invariant bucketId <= n + 1
      invariant HolesAtStarts(n, starts, ends, holes, bucketId)
      invariant |holes| == |buffer|
      invariant forall j :: 0 <= j < |buffer| ==> ValidNode(buffer[j], n)
      invariant Except(s, begin, end, holes) + multiset(buffer) == multiset(s[begin..end])
      invariant Except(bs, begin, end, holes) + multiset(Buckets(buffer, lev, n)) == multiset(bs[begin..end])
    {
      LiftFirst(begin, end, n, starts, ends, holes, bucketId);
      if starts[bucketId] < ends[bucketId] {
        var h := starts[bucketId];
        Lift(s, begin, end, lev, n, buffer, holes, h);
        buffer := buffer + [points[h]];
        holes := holes + {h};
      }
      bucketId := bucketId + 1;
    }
    BucketsSlice(s, begin, end, lev, n);
    FillDone(s, begin, end, lev, n, starts, ends, buffer, holes);
    assert points[begin..end] == s[begin..end];
  }

  /** Lifting the node at h into the buffer keeps the bookkeeping of `FillBuffer`. */
  lemma Lift(s: seq<TreeNode>, begin: nat, end: nat, lev: nat, n: nat, buffer: seq<TreeNode>, holes: set<int>, h: nat)
    requires begin <= h < end <= |s| && h !in holes && ValidRange(s, begin, end, n)
    requires |holes| == |buffer| && forall j :: 0 <= j < |buffer| ==> ValidNode(buffer[j], n)
    requires Except(s, begin, end, holes) + multiset(buffer) == multiset(s[begin..end])
    requires Except(Buckets(s, lev, n), begin, end, holes) + multiset(Buckets(buffer, lev, n))
      == multiset(Buckets(s, lev, n)[begin..end])
    ensures |holes + {h}| == |buffer + [s[h]]|
    ensures forall j :: 0 <= j < |buffer + [s[h]]| ==> ValidNode((buffer + [s[h]])[j], n)
    ensures Except(s, begin, end, holes + {h}) + multiset(buffer + [s[h]]) == multiset(s[begin..end])
    ensures Except(Buckets(s, lev, n), begin, end, holes + {h}) + multiset(Buckets(buffer + [s[h]], lev, n))
      == multiset(Buckets(s, lev, n)[begin..end])
  {
    var bs := Buckets(s, lev, n);
    ExceptAdd(s, begin, end, holes, h);
    ExceptAdd(bs, begin, end, holes, h);
    BucketsAppend(buffer, s[h], lev, n);
    assert multiset(buffer + [s[h]]) == multiset(buffer) + multiset{s[h]};
    assert multiset(Buckets(buffer + [s[h]], lev, n)) == multiset(Buckets(buffer, lev, n)) + multiset{bs[h]};
  }

  /** The buffer filled, the movement phase starts in a `Moving` state. */
  lemma FillDone(s: seq<TreeNode>, begin: nat, end: nat, lev: nat, n: nat, starts: seq<nat>, ends: seq<nat>,
                 buffer: seq<TreeNode>, holes: set<int>)
    requires begin <= end <= |s| && n >= 1 && Regions(begin, end, n, starts, ends)
    requires ValidRange(s, begin, end, n)
    requires HolesAtStarts(n, starts, ends, holes, n + 1)
    requires |holes| == |buffer| && forall j :: 0 <= j < |buffer| ==> ValidNode(buffer[j], n)
    requires Except(s, begin, end, holes) + multiset(buffer) == multiset(s[begin..end])
    requires Except(Buckets(s, lev, n), begin, end, holes) + multiset(Buckets(buffer, lev, n))
      == multiset(Buckets(s[begin..end], lev, n))
    requires forall b :: 0 <= b <= n ==> starts[b] + multiset(Buckets(s[begin..end], lev, n))[b] == ends[b]
    ensures Moving(s, s, begin, end, lev, n, starts, ends, starts, buffer,
                   holes, holes, multiset(Buckets(s[begin..end], lev, n)))
  {
  }

  /** The node on top of the buffer has a free position in its bucket's region. */
  lemma TopHasRoom(s: seq<TreeNode>, s0: seq<TreeNode>, begin: nat, end: nat, lev: nat, n: nat,
                   starts: seq<nat>, ends: seq<nat>, offsets: seq<nat>, buffer: seq<TreeNode>,
                   holes: set<int>, touched: set<int>, pending: multiset<nat>)
    requires Moving(s, s0, begin, end, lev, n, starts, ends, offsets, buffer, holes, touched, pending)
    requires |buffer| > 0
    ensures var d := BucketOf(buffer[|buffer| - 1], lev, n); d <= n && offsets[d] < ends[d]
    ensures BucketOf(buffer[|buffer| - 1], lev, n) in pending
  {
    var x := buffer[|buffer| - 1];
    BucketBound(x, lev, n);
    var d := BucketOf(x, lev, n);
    var bb := Buckets(buffer, lev, n);
    assert bb[|buffer| - 1] == d;
    assert d in multiset(bb);
    assert pending[d] >= 1;
  }

  /** A move keeps the layout: only a position of the range is written. */
  lemma StepLayout(s: seq<TreeNode>, s0: seq<TreeNode>, begin: nat, end: nat, n: nat,
                   starts: seq<nat>, ends: seq<nat>, offsets: seq<nat>, buffer: seq<TreeNode>,
                   d: nat, x: TreeNode, buffer': seq<TreeNode>)
    requires Layout(s, s0, begin, end, n, starts, ends, offsets, buffer)
    requires d <= n && offsets[d] < ends[d] && ValidNode(x, n)
    requires forall j :: 0 <= j < |buffer'| ==> ValidNode(buffer'[j], n)
    ensures Layout(s[offsets[d] := x], s0, begin, end, n, starts, ends, offsets[d := offsets[d] + 1], buffer')
  {
  }

  /** A node written at its own bucket's write position extends the placed part. */
  lemma StepPlaced(begin: nat, end: nat, s: seq<TreeNode>, lev: nat, n: nat,
                   starts: seq<nat>, ends: seq<nat>, offsets: seq<nat>, d: nat, x: TreeNode)
    requires Regions(begin, end, n, starts, ends) && |offsets| == n + 1 && end <= |s|
    requires forall b :: 0 <= b <= n ==> offsets[b] <= ends[b]
    requires Placed(s, lev, n, starts, offsets)
    requires d <= n && starts[d] <= offsets[d] < ends[d] && BucketOf(x, lev, n) == d
    ensures Placed(s[offsets[d] := x], lev, n, starts, offsets[d := offsets[d] + 1])
  {
    assert forall b :: 0 <= b <= n && b != d ==> ends[b] <= starts[d] || ends[d] <= starts[b];
  }

  /** Moving the hole of an open region one position on. */
  lemma StepMarksOn(begin: nat, end: nat, n: nat, starts: seq<nat>, ends: seq<nat>, offsets: seq<nat>,
                    holes: set<int>, touched: set<int>, d: nat)
    requires Regions(begin, end, n, starts, ends) && |offsets| == n + 1
    requires Marks(n, starts, ends, offsets, holes, touched)
    requires d <= n && starts[d] <= offsets[d] && offsets[d] + 1 < ends[d]
    ensures var p := offsets[d];
      Marks(n, starts, ends, offsets[d := p + 1], holes - {p} + {p + 1}, touched + {p + 1})
  {
    assert forall b :: 0 <= b <= n && b != d ==> ends[b] <= starts[d] || ends[d] <= starts[b];
  }

  /** Closing a region: its hole is filled and no new one is opened. */
  lemma StepMarksClose(begin: nat, end: nat, n: nat, starts: seq<nat>, ends: seq<nat>, offsets: seq<nat>,
                       holes: set<int>, touched: set<int>, d: nat)
    requires Regions(begin, end, n, starts, ends) && |offsets| == n + 1
    requires Marks(n, starts, ends, offsets, holes, touched)
    requires d <= n && starts[d] <= offsets[d] && offsets[d] + 1 == ends[d]
    ensures var p := offsets[d];
      Marks(n, starts, ends, offsets[d := p + 1], holes - {p}, touched)
  {
    assert forall b :: 0 <= b <= n && b != d ==> ends[b] <= starts[d] || ends[d] <= starts[b];
  }

  /** Moving the hole of an open region one position on loses no node. */
  lemma StepConservedOn(s: seq<TreeNode>, s0: seq<TreeNode>, begin: nat, end: nat, lev: nat, n: nat,
                        ends: seq<nat>, offsets: seq<nat>, buffer: seq<TreeNode>,
                        holes: set<int>, touched: set<int>, pending: multiset<nat>, d: nat)
    requires begin <= end <= |s| == |s0| && |ends| == |offsets| == n + 1
    requires Conserved(s, s0, begin, end, lev, n, ends, offsets, buffer, holes, touched, pending)
    requires |buffer| > 0 && d == BucketOf(buffer[|buffer| - 1], lev, n) && d <= n
    requires begin <= offsets[d] && offsets[d] + 1 < ends[d] <= end
    requires offsets[d] in holes && offsets[d] + 1 !in holes
    requires offsets[d] in touched && offsets[d] + 1 !in touched
    ensures var p := offsets[d]; var x := buffer[|buffer| - 1];
      Conserved(s[p := x], s0, begin, end, lev, n, ends, offsets[d := p + 1], buffer[|buffer| - 1 := s[p + 1]],
                holes - {p} + {p + 1}, touched + {p + 1}, pending - multiset{d})
  {
    var p := offsets[d];
    var x := buffer[|buffer| - 1];
    var s', buffer' := s[p := x], buffer[|buffer| - 1 := s[p + 1]];
    var holes', touched' := holes - {p} + {p + 1}, touched + {p + 1};
    assert |holes'| == |buffer'| by {
      assert |holes - {p}| == |holes| - 1;
    }
    assert Except(s', begin, end, holes') + multiset(buffer') == multiset(s0[begin..end]) by {
      SetDownAndPickUp(s, begin, end, holes, buffer, p, p + 1);
    }
    NodesPendingOn(s, buffer, begin, end, lev, n, touched, pending, p, d);
    PendingCounts(n, ends, offsets, pending, d);
  }

  /** `PendingOn` for the nodes: their buckets follow the nodes as they move. */
  lemma NodesPendingOn(s: seq<TreeNode>, buffer: seq<TreeNode>, begin: nat, end: nat, lev: nat, n: nat,
                       touched: set<int>, pending: multiset<nat>, p: nat, d: nat)
    requires begin <= p && p + 1 < end <= |s| && |buffer| > 0 && d == BucketOf(buffer[|buffer| - 1], lev, n)
    requires p in touched && p + 1 !in touched
    requires pending == Except(Buckets(s, lev, n), begin, end, touched) + multiset(Buckets(buffer, lev, n))
    ensures pending - multiset{d} == Except(Buckets(s[p := buffer[|buffer| - 1]], lev, n), begin, end, touched + {p + 1})
                                     + multiset(Buckets(buffer[|buffer| - 1 := s[p + 1]], lev, n))
  {
    var bs, bb := Buckets(s, lev, n), Buckets(buffer, lev, n);
    BucketsUpdate(s, p, buffer[|buffer| - 1], lev, n);
    BucketsUpdate(buffer, |buffer| - 1, s[p + 1], lev, n);
    assert Buckets(s[p := buffer[|buffer| - 1]], lev, n) == bs[p := d];
    assert Buckets(buffer[|buffer| - 1 := s[p + 1]], lev, n) == bb[|bb| - 1 := bs[p + 1]];
    PendingOn(bs, bb, begin, end, touched, pending, p, d);
  }

  /** Placing one node of bucket d takes one free position from d's region. */
  lemma PendingCounts(n: nat, ends: seq<nat>, offsets: seq<nat>, pending: multiset<nat>, d: nat)
    requires |ends| == |offsets| == n + 1 && d <= n && offsets[d] < ends[d]
    requires forall b :: 0 <= b <= n ==> offsets[b] + pending[b] == ends[b]
    ensures forall b :: 0 <= b <= n ==> offsets[d := offsets[d] + 1][b] + (pending - multiset{d})[b] == ends[b]
  {
  }

  /** `StepConservedOn` on the buckets of the nodes. */
  lemma PendingOn(bs: seq<nat>, bb: seq<nat>, begin: nat, end: nat, touched: set<int>, pending: multiset<nat>,
                  p: nat, d: nat)
    requires begin <= p && p + 1 < end <= |bs| && |bb| > 0 && bb[|bb| - 1] == d
    requires p in touched && p + 1 !in touched
    requires pending == Except(bs, begin, end, touched) + multiset(bb)
    ensures Except(bs[p := d], begin, end, touched + {p + 1}) + multiset(bb[|bb| - 1 := bs[p + 1]])
      == pending - multiset{d}
  {
    SetDownAndPickUpPending(bs, begin, end, touched, bb, p, p + 1);
    var pending' := Except(bs[p := d], begin, end, touched + {p + 1}) + multiset(bb[|bb| - 1 := bs[p + 1]]);
    assert pending' + multiset{d} == pending;
  }

  /** Closing a region loses no node. */
  lemma StepConservedClose(s: seq<TreeNode>, s0: seq<TreeNode>, begin: nat, end: nat, lev: nat, n: nat,
                           ends: seq<nat>, offsets: seq<nat>, buffer: seq<TreeNode>,
                           holes: set<int>, touched: set<int>, pending: multiset<nat>, d: nat)
    requires begin <= end <= |s| == |s0| && |ends| == |offsets| == n + 1
    requires Conserved(s, s0, begin, end, lev, n, ends, offsets, buffer, holes, touched, pending)
    requires |buffer| > 0 && d == BucketOf(buffer[|buffer| - 1], lev, n) && d <= n
    requires begin <= offsets[d] && offsets[d] + 1 == ends[d] <= end
    requires offsets[d] in holes && offsets[d] in touched
    ensures var p := offsets[d]; var x := buffer[|buffer| - 1];
      Conserved(s[p := x], s0, begin, end, lev, n, ends, offsets[d := p + 1], buffer[..|buffer| - 1],
                holes - {p}, touched, pending - multiset{d})
  {
    var p := offsets[d];
    var x := buffer[|buffer| - 1];
    var s', buffer' := s[p := x], buffer[..|buffer| - 1];
    assert |holes - {p}| == |buffer'|;
    assert Except(s', begin, end, holes - {p}) + multiset(buffer') == multiset(s0[begin..end]) by {
      SetDownAndPop(s, begin, end, holes, buffer, p);
    }
    NodesPendingClose(s, buffer, begin, end, lev, n, touched, pending, p, d);
    PendingCounts(n, ends, offsets, pending, d);
  }

  /** `PendingClose` for the nodes. */
  lemma NodesPendingClose(s: seq<TreeNode>, buffer: seq<TreeNode>, begin: nat, end: nat, lev: nat, n: nat,
                          touched: set<int>, pending: multiset<nat>, p: nat, d: nat)
    requires begin <= p < end <= |s| && |buffer| > 0 && d == BucketOf(buffer[|buffer| - 1], lev, n)
    requires p in touched
    requires pending == Except(Buckets(s, lev, n), begin, end, touched) + multiset(Buckets(buffer, lev, n))
    ensures pending - multiset{d} == Except(Buckets(s[p := buffer[|buffer| - 1]], lev, n), begin, end, touched)
                                     + multiset(Buckets(buffer[..|buffer| - 1], lev, n))
  {
    var bs, bb := Buckets(s, lev, n), Buckets(buffer, lev, n);
    BucketsUpdate(s, p, buffer[|buffer| - 1], lev, n);
    BucketsSlice(buffer, 0, |buffer| - 1, lev, n);
    assert buffer[0..|buffer| - 1] == buffer[..|buffer| - 1];
    assert Buckets(s[p := buffer[|buffer| - 1]], lev, n) == bs[p := d];
    assert Buckets(buffer[..|buffer| - 1], lev, n) == bb[..|bb| - 1];
    PendingClose(bs, bb, begin, end, touched, pending, p, d);
  }

  /** `StepConservedClose` on the buckets of the nodes. */
  lemma PendingClose(bs: seq<nat>, bb: seq<nat>, begin: nat, end: nat, touched: set<int>, pending: multiset<nat>,
                     p: nat, d: nat)
    requires begin <= p < end <= |bs| && |bb| > 0 && bb[|bb| - 1] == d
    requires p in touched
    requires pending == Except(bs, begin, end, touched) + multiset(bb)
    ensures Except(bs[p := d], begin, end, touched) + multiset(bb[..|bb| - 1]) == pending - multiset{d}
  {
    SetDownAndPopPending(bs, begin, end, touched, bb, p);
    var pending' := Except(bs[p := d], begin, end, touched) + multiset(bb[..|bb| - 1]);
    assert pending' + multiset{d} == pending;
  }

  /** A move that leaves its region open keeps the `Moving` state. */
  lemma MoveOn(s: seq<TreeNode>, s0: seq<TreeNode>, begin: nat, end: nat, lev: nat, n: nat,
               starts: seq<nat>, ends: seq<nat>, offsets: seq<nat>, buffer: seq<TreeNode>,
               holes: set<int>, touched: set<int>, pending: multiset<nat>, d: nat,
               s': seq<TreeNode>, offsets': seq<nat>, buffer': seq<TreeNode>,
               holes': set<int>, touched': set<int>, pending': multiset<nat>)
    requires Moving(s, s0, begin, end, lev, n, starts, ends, offsets, buffer, holes, touched, pending)
    requires |buffer| > 0 && d == BucketOf(buffer[|buffer| - 1], lev, n) && d <= n
    requires offsets[d] + 1 < ends[d]
    requires s' == s[offsets[d] := buffer[|buffer| - 1]] && offsets' == offsets[d := offsets[d] + 1]
    requires buffer' == buffer[|buffer| - 1 := s[offsets[d] + 1]]
    requires holes' == holes - {offsets[d]} + {offsets[d] + 1} && touched' == touched + {offsets[d] + 1}
    requires pending' == pending - multiset{d}
    ensures Moving(s', s0, begin, end, lev, n, starts, ends, offsets', buffer', holes', touched', pending')
    ensures |pending'| < |pending|
  {
    TopHasRoom(s, s0, begin, end, lev, n, starts, ends, offsets, buffer, holes, touched, pending);
    assert pending == pending' + multiset{d};
    var x := buffer[|buffer| - 1];
    assert ValidNode(x, n);
    assert forall j :: 0 <= j < |buffer'| ==> ValidNode(buffer'[j], n);
    StepLayout(s, s0, begin, end, n, starts, ends, offsets, buffer, d, x, buffer');
    StepPlaced(begin, end, s, lev, n, starts, ends, offsets, d, x);
    StepMarksOn(begin, end, n, starts, ends, offsets, holes, touched, d);
    StepConservedOn(s, s0, begin, end, lev, n, ends, offsets, buffer, holes, touched, pending, d);
  }

  /** A move that fills its region keeps the `Moving` state. */
  lemma MoveClose(s: seq<TreeNode>, s0: seq<TreeNode>, begin: nat, end: nat, lev: nat, n: nat,
                  starts: seq<nat>, ends: seq<nat>, offsets: seq<nat>, buffer: seq<TreeNode>,
                  holes: set<int>, touched: set<int>, pending: multiset<nat>, d: nat,
                  s': seq<TreeNode>, offsets': seq<nat>, buffer': seq<TreeNode>,
                  holes': set<int>, pending': multiset<nat>)
    requires Moving(s, s0, begin, end, lev, n, starts, ends, offsets, buffer, holes, touched, pending)
    requires |buffer| > 0 && d == BucketOf(buffer[|buffer| - 1], lev, n) && d <= n
    requires offsets[d] < ends[d] <= offsets[d] + 1
    requires s' == s[offsets[d] := buffer[|buffer| - 1]] && offsets' == offsets[d := offsets[d] + 1]
    requires buffer' == buffer[..|buffer| - 1] && holes' == holes - {offsets[d]}
    requires pending' == pending - multiset{d}
    ensures Moving(s', s0, begin, end, lev, n, starts, ends, offsets', buffer', holes', touched, pending')
    ensures |pending'| < |pending|
  {
    TopHasRoom(s, s0, begin, end, lev, n, starts, ends, offsets, buffer, holes, touched, pending);
    assert pending == pending' + multiset{d};
    var x := buffer[|buffer| - 1];
    assert ValidNode(x, n);
    StepLayout(s, s0, begin, end, n, starts, ends, offsets, buffer, d, x, buffer');
    StepPlaced(begin, end, s, lev, n, starts, ends, offsets, d, x);
    StepMarksClose(begin, end, n, starts, ends, offsets, holes, touched, d);
    StepConservedClose(s, s0, begin, end, lev, n, ends, offsets, buffer, holes, touched, pending, d);
  }

  /** With the buffer empty every region is full: the range is bucketed and still holds its nodes. */
  lemma MovedAll(s: seq<TreeNode>, s0: seq<TreeNode>, begin: nat, end: nat, lev: nat, n: nat,
                 starts: seq<nat>, ends: seq<nat>, offsets: seq<nat>,
                 holes: set<int>, touched: set<int>, pending: multiset<nat>)
    requires Moving(s, s0, begin, end, lev, n, starts, ends, offsets, [], holes, touched, pending)
    ensures multiset(s[begin..end]) == multiset(s0[begin..end])
    ensures ValidRange(s, begin, end, n)
    ensures forall b, i :: 0 <= b <= n && starts[b] <= i < ends[b] ==> BucketOf(s[i], lev, n) == b
  {
    assert holes == {};
    forall b | 0 <= b <= n
      ensures offsets[b] == ends[b]
    {
      assert offsets[b] !in holes;
    }
    ExceptNone(s, begin, end, holes);
  }

  /**
   * The second phase of the movement, cycle following: the top node of the
   * buffer is set down at its bucket's write position, which advances; the
   * node found at the new write position, if the region is still open,
   * becomes the new top, otherwise the buffer shrinks.
   */
  method MoveNodes(points: array<TreeNode>, begin: nat, end: nat, lev: nat, n: nat,
                   starts: seq<nat>, ends: seq<nat>, buffer0: seq<TreeNode>, ghost holes0: set<int>)
    modifies points
    requires begin <= end <= points.Length
    requires Moving(points[..], points[..], begin, end, lev, n, starts, ends, starts, buffer0,
                    holes0, holes0, multiset(Buckets(points[begin..end], lev, n)))
    ensures forall i :: 0 <= i < points.Length && !(begin <= i < end) ==> points[i] == old(points[i])
    ensures multiset(points[begin..end]) == multiset(old(points[begin..end]))
    ensures ValidRange(points[..], begin, end, n)
    ensures forall b, i :: 0 <= b <= n && starts[b] <= i < ends[b] ==> BucketOf(points[i], lev, n) == b
  {
    ghost var s0 := points[..];
    var offsets: seq<nat> := starts;
    var buffer := buffer0;
    ghost var holes := holes0;
    ghost var touched := holes0;
    ghost var pending := multiset(Buckets(points[begin..end], lev, n));
    while |buffer| > 0
      invariant Moving(points[..], s0, begin, end, lev, n, starts, ends, offsets, buffer, holes, touched, pending)
      decreases |pending|
    {
      offsets, buffer, holes, touched, pending :=
        MoveTop(points, s0, begin, end, lev, n, starts, ends, offsets, buffer, holes, touched, pending);
    }
    MovedAll(points[..], s0, begin, end, lev, n, starts, ends, offsets, holes, touched, pending);
  }

  /**
   * One turn of the movement loop: the node on top of the buffer is written
   * at the write position of its bucket; the node it displaces becomes the
   * new top, unless the bucket's region is now full, in which case the top
   * is popped.
   */
  method MoveTop(points: array<TreeNode>, ghost s0: seq<TreeNode>, begin: nat, end: nat, lev: nat, n: nat,
                 starts: seq<nat>, ends: seq<nat>, offsets: seq<nat>, buffer: seq<TreeNode>,
                 ghost holes: set<int>, ghost touched: set<int>, ghost pending: multiset<nat>)
    returns (offsets': seq<nat>, buffer': seq<TreeNode>,
             ghost holes': set<int>, ghost touched': set<int>, ghost pending': multiset<nat>)
    modifies points
    requires |buffer| > 0
    requires Moving(points[..], s0, begin, end, lev, n, starts, ends, offsets, buffer, holes, touched, pending)
    ensures Moving(points[..], s0, begin, end, lev, n, starts, ends, offsets', buffer', holes', touched', pending')
    ensures |pending'| < |pending|
  {
    TopHasRoom(points[..], s0, begin, end, lev, n, starts, ends, offsets, buffer, holes, touched, pending);
    var top := buffer[|buffer| - 1];
    var destBucket := if top.level < lev then n else MortonIndex(top, lev);
    if offsets[destBucket] + 1 < ends[destBucket] {
      offsets', buffer', holes', touched', pending' :=
        PlaceAndPickUp(points, s0, begin, end, lev, n, starts, ends, offsets, buffer, holes, touched, pending, destBucket);
    } else {
      offsets', buffer', holes', pending' :=
        PlaceAndPop(points, s0, begin, end, lev, n, starts, ends, offsets, buffer, holes, touched, pending, destBucket);
      touched' := touched;
    }
  }

  /** The top is written into its bucket, and the node it displaces becomes the new top. */
  method PlaceAndPickUp(points: array<TreeNode>, ghost s0: seq<TreeNode>, begin: nat, end: nat, lev: nat, n: nat,
                        starts: seq<nat>, ends: seq<nat>, offsets: seq<nat>, buffer: seq<TreeNode>,
                        ghost holes: set<int>, ghost touched: set<int>, ghost pending: multiset<nat>, d: nat)
    returns (offsets': seq<nat>, buffer': seq<TreeNode>,
             ghost holes': set<int>, ghost touched': set<int>, ghost pending': multiset<nat>)
    modifies points
    requires Moving(points[..], s0, begin, end, lev, n, starts, ends, offsets, buffer, holes, touched, pending)
    requires |buffer| > 0 && d == BucketOf(buffer[|buffer| - 1], lev, n) && d <= n
    requires offsets[d] + 1 < ends[d]
    ensures Moving(points[..], s0, begin, end, lev, n, starts, ends, offsets', buffer', holes', touched', pending')
    ensures |pending'| < |pending|
  {
    ghost var s := points[..];
    var p := offsets[d];
    points[p] := buffer[|buffer| - 1];
    assert points[..] == s[p := buffer[|buffer| - 1]];
    offsets' := offsets[d := p + 1];
    pending' := pending - multiset{d};
    buffer' := buffer[|buffer| - 1 := points[p + 1]];
    holes' := holes - {p} + {p + 1};
    touched' := touched + {p + 1};
    MoveOn(s, s0, begin, end, lev, n, starts, ends, offsets, buffer, holes, touched, pending, d,
           points[..], offsets', buffer', holes', touched', pending');
  }

  /** The top is written into its bucket, which is now full, and leaves the buffer. */
  method PlaceAndPop(points: array<TreeNode>, ghost s0: seq<TreeNode>, begin: nat, end: nat, lev: nat, n: nat,
                     starts: seq<nat>, ends: seq<nat>, offsets: seq<nat>, buffer: seq<TreeNode>,
                     ghost holes: set<int>, ghost touched: set<int>, ghost pending: multiset<nat>, d: nat)
    returns (offsets': seq<nat>, buffer': seq<TreeNode>, ghost holes': set<int>, ghost pending': multiset<nat>)
    modifies points
    requires Moving(points[..], s0, begin, end, lev, n, starts, ends, offsets, buffer, holes, touched, pending)
    requires |buffer| > 0 && d == BucketOf(buffer[|buffer| - 1], lev, n) && d <= n
    requires offsets[d] < ends[d] <= offsets[d] + 1
    ensures Moving(points[..], s0, begin, end, lev, n, starts, ends, offsets', buffer', holes', touched, pending')
    ensures |pending'| < |pending|
  {
    ghost var s := points[..];
    var p := offsets[d];
    points[p] := buffer[|buffer| - 1];
    assert points[..] == s[p := buffer[|buffer| - 1]];
    offsets' := offsets[d := p + 1];
    pending' := pending - multiset{d};
    buffer' := buffer[..|buffer| - 1];
    holes' := holes - {p};
    MoveClose(s, s0, begin, end, lev, n, starts, ends, offsets, buffer, holes, touched, pending, d,
              points[..], offsets', buffer', holes', pending');
  }

  // ---------------------------------------------------------------------------
  // SFC_bucketing
  // ---------------------------------------------------------------------------

  /**
   * The result of bucketing s[begin..end] at level lev in the curve order
   * perm, against the bucket census of the original range: the splitters
   * cut the range into n buckets in curve order; bucket k holds the nodes
   * whose child number at lev is perm[k], as many as the census counts, and
   * bucket 0 also holds all the ancestors, at the front of the range.
   */
  ghost predicate Bucketed(s: seq<TreeNode>, begin: nat, end: nat, lev: nat, perm: seq<nat>,
                           census: multiset<nat>, splitters: seq<nat>)
  {
    var n := |perm|;
    begin <= end <= |s| && n >= 1 && |splitters| == n + 1
    && splitters[0] == begin && splitters[n] == end
    && (forall k :: 0 <= k < n ==>
          splitters[k] + census[perm[k]] + (if k == 0 then census[n] else 0) == splitters[k + 1])
    && (forall k :: 0 <= k <= n ==> begin <= splitters[k] <= end)
    && (forall k, i :: 0 <= k < n && splitters[k] <= i < splitters[k + 1] && lev <= s[i].level ==>
          MortonIndex(s[i], lev) == perm[k])
    && (forall i :: begin <= i < end ==> (s[i].level < lev <==> i < begin + census[n]))
  }

  /** A valid range has its buckets among 0..n. */
  lemma BucketsBounded(s: seq<TreeNode>, begin: nat, end: nat, lev: nat, n: nat)
    requires begin <= end <= |s| && n >= 1 && ValidRange(s, begin, end, n)
    ensures forall x :: x in Buckets(s[begin..end], lev, n) ==> x <= n
  {
    forall x | x in Buckets(s[begin..end], lev, n)
      ensures x <= n
    {
      var j :| 0 <= j < end - begin && Buckets(s[begin..end], lev, n)[j] == x;
      BucketBound(s[begin + j], lev, n);
    }
  }

  /** Each region is as long as its bucket's count. */
  lemma ScannedSizes(counts: seq<nat>, countAncestors: nat, perm: seq<nat>, begin: nat,
                     offsets: seq<nat>, bucketEnds: seq<nat>)
    requires IsPerm(perm, |counts|)
    requires Scanned(counts, countAncestors, perm, begin, offsets, bucketEnds)
    ensures forall b :: 0 <= b < |counts| ==> offsets[b] + counts[b] == bucketEnds[b]
  {
    forall b | 0 <= b < |counts|
      ensures offsets[b] + counts[b] == bucketEnds[b]
    {
      PermCovers(perm, |counts|, b);
      var j :| 0 <= j < |perm| && perm[j] == b;
    }
  }

  /** The k-th child in curve order owns [base + Scan(k), base + Scan(k + 1)). */
  lemma SfcRegion(counts: seq<nat>, countAncestors: nat, perm: seq<nat>, begin: nat,
                  offsets: seq<nat>, bucketEnds: seq<nat>, k: nat)
    requires Scanned(counts, countAncestors, perm, begin, offsets, bucketEnds) && k < |counts|
    ensures perm[k] < |counts|
    ensures offsets[perm[k]] == begin + countAncestors + Scan(counts, perm, k)
    ensures bucketEnds[perm[k]] == begin + countAncestors + Scan(counts, perm, k + 1)
  {
    ScanNext(counts, perm, k);
  }

  /** A position below the total of the first m buckets lies in one of them. */
  lemma {:induction false} Locate(counts: seq<nat>, perm: seq<nat>, m: nat, v: nat) returns (k: nat)
    requires m <= |perm| && v < Scan(counts, perm, m)
    ensures k < m && Scan(counts, perm, k) <= v < Scan(counts, perm, k + 1)
    decreases m
  {
    if v >= Scan(counts, perm, m - 1) {
      k := m - 1;
    } else {
      k := Locate(counts, perm, m - 1, v);
    }
  }

  /**
   * After the movement, what is known of the range: the layout of the
   * regions from the scan, and every node in the region of its bucket.
   */
  ghost predicate Moved(s: seq<TreeNode>, begin: nat, end: nat, lev: nat, perm: seq<nat>,
                        counts: seq<nat>, countAncestors: nat, offsets: seq<nat>, bucketEnds: seq<nat>)
  {
    var n := |counts|;
    n >= 1 && IsPerm(perm, n) && begin <= end <= |s| && ValidRange(s, begin, end, n)
    && Scanned(counts, countAncestors, perm, begin, offsets, bucketEnds)
    && begin + countAncestors + Scan(counts, perm, n) == end
    && Regions(begin, end, n, offsets, bucketEnds)
    && forall b, i :: 0 <= b <= n && offsets[b] <= i < bucketEnds[b] ==> BucketOf(s[i], lev, n) == b
  }

  /** A non-ancestor in the k-th bucket has child number perm[k]. */
  lemma BucketContents(s: seq<TreeNode>, begin: nat, end: nat, lev: nat, perm: seq<nat>,
                       counts: seq<nat>, countAncestors: nat, offsets: seq<nat>, bucketEnds: seq<nat>,
                       splitters: seq<nat>, k: nat, i: nat)
    requires Moved(s, begin, end, lev, perm, counts, countAncestors, offsets, bucketEnds)
    requires |splitters| == |counts| + 1 && splitters[0] == begin
    requires forall j :: 0 < j <= |counts| ==> splitters[j] == begin + countAncestors + Scan(counts, perm, j)
    requires k < |counts| && splitters[k] <= i < splitters[k + 1] && i < end && lev <= s[i].level
    ensures MortonIndex(s[i], lev) == perm[k]
  {
    var n := |counts|;
    SfcRegion(counts, countAncestors, perm, begin, offsets, bucketEnds, k);
    BucketBound(s[i], lev, n);
    if k == 0 {
      assert begin + countAncestors <= i;
    }
  }

  /** The ancestors are exactly the first countAncestors nodes of the range. */
  lemma AncestorsFirst(s: seq<TreeNode>, begin: nat, end: nat, lev: nat, perm: seq<nat>,
                       counts: seq<nat>, countAncestors: nat, offsets: seq<nat>, bucketEnds: seq<nat>, i: nat)
    requires Moved(s, begin, end, lev, perm, counts, countAncestors, offsets, bucketEnds)
    requires begin <= i < end
    ensures s[i].level < lev <==> i < begin + countAncestors
  {
    var n := |counts|;
    BucketBound(s[i], lev, n);
    if begin + countAncestors <= i {
      var k := Locate(counts, perm, n, i - begin - countAncestors);
      SfcRegion(counts, countAncestors, perm, begin, offsets, bucketEnds, k);
      assert BucketOf(s[i], lev, n) == perm[k];
    } else {
      assert BucketOf(s[i], lev, n) == n;
    }
  }

  /** After the movement the range is bucketed. */
  lemma BucketedWhenMoved(s: seq<TreeNode>, begin: nat, end: nat, lev: nat, perm: seq<nat>, census: multiset<nat>,
                          counts: seq<nat>, countAncestors: nat, offsets: seq<nat>, bucketEnds: seq<nat>,
                          splitters: seq<nat>)
    requires Moved(s, begin, end, lev, perm, counts, countAncestors, offsets, bucketEnds)
    requires (forall b :: 0 <= b < |counts| ==> counts[b] == census[b]) && countAncestors == census[|counts|]
    requires |splitters| == |counts| + 1 && splitters[0] == begin
    requires forall j :: 0 < j <= |counts| ==> splitters[j] == begin + countAncestors + Scan(counts, perm, j)
    ensures Bucketed(s, begin, end, lev, perm, census, splitters)
  {
    var n := |counts|;
    SplitterSizes(begin, end, perm, census, counts, countAncestors, splitters);
    forall k, i | 0 <= k < n && splitters[k] <= i < splitters[k + 1] && lev <= s[i].level
      ensures MortonIndex(s[i], lev) == perm[k]
    {
      BucketContents(s, begin, end, lev, perm, counts, countAncestors, offsets, bucketEnds, splitters, k, i);
    }
    forall i | begin <= i < end
      ensures s[i].level < lev <==> i < begin + census[n]
    {
      AncestorsFirst(s, begin, end, lev, perm, counts, countAncestors, offsets, bucketEnds, i);
    }
  }

  /** The splitters from the scan: each bucket as wide as its census, all within the range. */
  lemma SplitterSizes(begin: nat, end: nat, perm: seq<nat>, census: multiset<nat>, counts: seq<nat>,
                      countAncestors: nat, splitters: seq<nat>)
    requires IsPerm(perm, |counts|) && begin + countAncestors + Scan(counts, perm, |counts|) == end
    requires (forall b :: 0 <= b < |counts| ==> counts[b] == census[b]) && countAncestors == census[|counts|]
    requires |splitters| == |counts| + 1 && splitters[0] == begin
    requires forall j :: 0 < j <= |counts| ==> splitters[j] == begin + countAncestors + Scan(counts, perm, j)
    ensures forall k :: 0 <= k < |perm| ==>
              splitters[k] + census[perm[k]] + (if k == 0 then census[|perm|] else 0) == splitters[k + 1]
    ensures forall k :: 0 <= k <= |perm| ==> begin <= splitters[k] <= end
  {
    var n := |counts|;
    forall k | 0 <= k < n
      ensures splitters[k] + census[perm[k]] + (if k == 0 then census[n] else 0) == splitters[k + 1]
    {
      ScanNext(counts, perm, k);
    }
    forall k | 0 <= k <= n
      ensures begin <= splitters[k] <= end
    {
      ScanMonotone(counts, perm, k, n);
    }
  }

  /**
   * `SFC_bucketing`: reorders points[begin..end) in place so that the
   * ancestors of level lev come first and then the nodes of each child in
   * the curve order perm, and returns the splitters between the child
   * buckets. Nothing outside the range changes and no node is lost.
   */
  method SFCBucketing(points: array<TreeNode>, begin: nat, end: nat, lev: nat, perm: seq<nat>)
    returns (splitters: seq<nat>)
    modifies points
    requires begin <= end <= points.Length && |perm| >= 1 && IsPerm(perm, |perm|)
    requires ValidRange(points[..], begin, end, |perm|)
    ensures forall i :: 0 <= i < points.Length && !(begin <= i < end) ==> points[i] == old(points[i])
    ensures multiset(points[begin..end]) == multiset(old(points[begin..end]))
    ensures ValidRange(points[..], begin, end, |perm|)
    ensures Bucketed(points[..], begin, end, lev, perm, multiset(Buckets(old(points[begin..end]), lev, |perm|)), splitters)
  {
    var n := |perm|;
    ghost var bs := Buckets(points[begin..end], lev, n);
    var counts, countAncestors := CountBuckets(points, begin, end, lev, n);
    var offsets, bucketEnds;
    splitters, offsets, bucketEnds := BucketOffsets(counts, countAncestors, perm, begin);
    BucketsBounded(points[..], begin, end, lev, n);
    assert points[..][begin..end] == points[begin..end];
    ScanCoversRange(bs, counts, countAncestors, perm);
    ScannedRegions(counts, countAncestors, perm, begin, end, offsets, bucketEnds);
    ScannedSizes(counts, countAncestors, perm, begin, offsets, bucketEnds);
    var buffer, holes := FillBuffer(points, begin, end, lev, n, offsets, bucketEnds);
    MoveNodes(points, begin, end, lev, n, offsets, bucketEnds, buffer, holes);
    BucketedWhenMoved(points[..], begin, end, lev, perm, multiset(bs), counts, countAncestors,
                      offsets, bucketEnds, splitters);
  }
}
