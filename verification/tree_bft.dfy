/**
 * `treeBFTNextLevel` of src/SFC_Tree.cpp: one step of a breadth-first
 * traversal of the tree. The queue holds buckets; every bucket at the level
 * of the front is taken off the front, its range of nodes is bucketed into
 * its children in curve order, and the child buckets are appended at the
 * back, one level down.
 */
module TreeBft {
  import opened SfcBucketing
  import opened SfcTree

  /** The buckets of the children of parent, in curve order, cut at the splitters. */
  function ChildBuckets(c: Curve, parent: Bucket, splitters: seq<nat>): (kids: seq<Bucket>)
    requires ValidCurve(c) && parent.rot < |c.rotPerm| && |splitters| == c.n + 1
    ensures |kids| == c.n
  {
    seq(c.n, k requires 0 <= k < c.n =>
      Bucket(c.hilbert[parent.rot][c.rotPerm[parent.rot][k]], parent.lev + 1, splitters[k], splitters[k + 1]))
  }

  /**
   * kids are the children of parent: one per child in curve order, one level
   * down, in the child's orientation, consecutive, and together covering the
   * parent's range (an empty or reversed range gives empty children at its
   * beginning).
   */
  ghost predicate RefinedInto(c: Curve, parent: Bucket, kids: seq<Bucket>)
    requires ValidCurve(c)
  {
    parent.rot < |c.rotPerm| && |kids| == c.n
    && (forall k :: 0 <= k < c.n ==>
          kids[k].rot == c.hilbert[parent.rot][c.rotPerm[parent.rot][k]] && kids[k].lev == parent.lev + 1
          && kids[k].begin <= kids[k].end)
    && (forall k :: 0 <= k < c.n - 1 ==> kids[k].end == kids[k + 1].begin)
    && kids[0].begin == parent.begin
    && kids[c.n - 1].end == (if parent.begin <= parent.end then parent.end else parent.begin)
  }

  /** The nodes in each child bucket lie in that child, or are ancestors at the parent's level. */
  ghost predicate ChildrenHold(c: Curve, s: seq<TreeNode>, parent: Bucket, kids: seq<Bucket>)
    requires ValidCurve(c) && parent.rot < |c.rotPerm| && |kids| == c.n
  {
    forall k, i :: 0 <= k < c.n && kids[k].begin <= i < kids[k].end && i < |s| ==>
      InChild(s[i], parent.lev, c.rotPerm[parent.rot][k])
  }

  /** Children further along the curve lie further along the range. */
  lemma {:induction false} RefinedOrdered(c: Curve, parent: Bucket, kids: seq<Bucket>, j: nat, k: nat)
    requires ValidCurve(c) && RefinedInto(c, parent, kids) && j <= k < c.n
    ensures kids[j].begin <= kids[k].begin && kids[j].end <= kids[k].end
    ensures j < k ==> kids[j].end <= kids[k].begin
    decreases k - j
  {
    if j < k {
      RefinedOrdered(c, parent, kids, j + 1, k);
      assert kids[j].end == kids[j + 1].begin;
    }
  }

  /** The children lie within the parent's range. */
  lemma RefinedBounds(c: Curve, parent: Bucket, kids: seq<Bucket>, k: nat)
    requires ValidCurve(c) && RefinedInto(c, parent, kids) && k < c.n
    ensures parent.begin <= kids[k].begin
    ensures kids[k].end <= if parent.begin <= parent.end then parent.end else parent.begin
  {
    RefinedOrdered(c, parent, kids, 0, k);
    RefinedOrdered(c, parent, kids, k, c.n - 1);
  }

  /** Every position of the parent's range lies in exactly one child bucket. */
  lemma {:induction false} RefinedCovers(c: Curve, parent: Bucket, kids: seq<Bucket>, i: nat) returns (k: nat)
    requires ValidCurve(c) && RefinedInto(c, parent, kids) && parent.begin <= i < parent.end
    ensures k < c.n && kids[k].begin <= i < kids[k].end
    ensures forall j :: 0 <= j < c.n && j != k ==> !(kids[j].begin <= i < kids[j].end)
  {
    k := 0;
    assert kids[c.n - 1].end == parent.end;
    while kids[k].end <= i
      invariant k < c.n && kids[k].begin <= i
      decreases c.n - k
    {
      k := k + 1;
    }
    forall j | 0 <= j < c.n && j != k
      ensures !(kids[j].begin <= i < kids[j].end)
    {
      if j < k {
        RefinedOrdered(c, parent, kids, j, k);
        RefinedOrdered(c, parent, kids, j + 1, k);
        assert kids[j].end == kids[j + 1].begin;
      } else {
        RefinedOrdered(c, parent, kids, k, j);
      }
    }
  }

  /** Splitters of a nonempty range, or all at the beginning of an empty one, give its children. */
  lemma ChildBucketsRefine(c: Curve, parent: Bucket, splitters: seq<nat>)
    requires ValidCurve(c) && parent.rot < |c.rotPerm| && |splitters| == c.n + 1
    requires parent.begin < parent.end ==> Splits(splitters, parent.begin, parent.end, c.n)
    requires !(parent.begin < parent.end) ==> forall k :: 0 <= k <= c.n ==> splitters[k] == parent.begin
    ensures RefinedInto(c, parent, ChildBuckets(c, parent, splitters))
  {
    var kids := ChildBuckets(c, parent, splitters);
    assert kids[c.n - 1].end == splitters[c.n];
  }

  /**
   * The refinement of one bucket: a nonempty range is bucketed at the
   * bucket's level in its orientation; an empty one is left alone and its
   * splitters all sit at its beginning.
   */
  method RefineBucket(points: array<TreeNode>, c: Curve, front: Bucket) returns (splitters: seq<nat>)
    modifies points
    requires ValidCurve(c) && front.rot < |c.rotPerm|
    requires front.begin < front.end ==> front.end <= points.Length
    requires ValidRange(points[..], 0, points.Length, c.n)
    ensures |splitters| == c.n + 1
    ensures front.begin < front.end ==>
      Bucketed(points[..], front.begin, front.end, front.lev, c.rotPerm[front.rot],
               multiset(Buckets(old(points[front.begin..front.end]), front.lev, c.n)), splitters)
    ensures Outside(old(points[..]), points[..], front.begin, front.end)
    ensures multiset(points[..]) == multiset(old(points[..]))
    ensures ValidRange(points[..], 0, points.Length, c.n)
    ensures RefinedInto(c, front, ChildBuckets(c, front, splitters))
    ensures ChildrenHold(c, points[..], front, ChildBuckets(c, front, splitters))
  {
    if front.begin < front.end {
      ghost var s0 := points[..];
      splitters := SFCBucketing(points, front.begin, front.end, front.lev, c.rotPerm[front.rot]);
      BucketedSplits(points[..], front.begin, front.end, front.lev, c.rotPerm[front.rot],
                     multiset(Buckets(s0[front.begin..front.end], front.lev, c.n)), splitters);
      assert s0[front.begin..front.end] == old(points[front.begin..front.end]);
      WholeMultiset(s0, points[..], front.begin, front.end);
      assert ValidRange(points[..], 0, points.Length, c.n) by {
        forall i | 0 <= i < points.Length
          ensures ValidNode(points[i], c.n)
        {
          if !(front.begin <= i < front.end) {
            assert points[i] == s0[i];
          }
        }
      }
    } else {
      splitters := seq(c.n + 1, _ => front.begin);
    }
    ChildBucketsRefine(c, front, splitters);
  }

  /** s agrees with s0 outside [lo, hi). */
  ghost predicate Outside(s0: seq<TreeNode>, s: seq<TreeNode>, lo: nat, hi: nat)
  {
    |s| == |s0| && forall i :: 0 <= i < |s| && !(lo <= i < hi) ==> s[i] == s0[i]
  }

  /** Permuting a range permutes the whole sequence. */
  lemma WholeMultiset(s0: seq<TreeNode>, s: seq<TreeNode>, lo: nat, hi: nat)
    requires |s| == |s0| && lo <= hi <= |s|
    requires forall i :: 0 <= i < |s| && !(lo <= i < hi) ==> s[i] == s0[i]
    requires multiset(s[lo..hi]) == multiset(s0[lo..hi])
    ensures multiset(s) == multiset(s0)
  {
    assert s == s[..lo] + s[lo..hi] + s[hi..];
    assert s0 == s0[..lo] + s0[lo..hi] + s0[hi..];
    assert s[..lo] == s0[..lo];
    assert s[hi..] == s0[hi..];
  }

  /** The children of front are pushed at the back of the queue, in curve order. */
  method EnqueueChildren(c: Curve, front: Bucket, splitters: seq<nat>, queue0: seq<Bucket>)
    returns (queue: seq<Bucket>)
    requires ValidCurve(c) && front.rot < |c.rotPerm| && |splitters| == c.n + 1
    ensures queue == queue0 + ChildBuckets(c, front, splitters)
  {
    var kids := ChildBuckets(c, front, splitters);
    queue := queue0;
    var childSfc := 0;
    while childSfc < c.n
      invariant childSfc <= c.n
      invariant queue == queue0 + kids[..childSfc]
    {
      var child := c.rotPerm[front.rot][childSfc];
      var cRot := c.hilbert[front.rot][child];
      var childBucket := Bucket(cRot, front.lev + 1, splitters[childSfc], splitters[childSfc + 1]);
      assert kids[..childSfc + 1] == kids[..childSfc] + [childBucket];
      queue := queue + [childBucket];
      childSfc := childSfc + 1;
    }
    assert kids[..c.n] == kids;
  }

  // ---------------------------------------------------------------------------
  // The breadth-first step
  // ---------------------------------------------------------------------------

  /** How many buckets at the front of q are at level lev. */
  function LeadingRun(q: seq<Bucket>, lev: nat): (r: nat)
    ensures r <= |q|
    ensures forall t :: 0 <= t < r ==> q[t].lev == lev
    ensures r < |q| ==> q[r].lev != lev
  {
    if |q| == 0 || q[0].lev != lev then 0 else 1 + LeadingRun(q[1..], lev)
  }

  /** The concatenation of a sequence of bucket lists. */
  function Flatten(kids: seq<seq<Bucket>>): (q: seq<Bucket>)
    ensures |kids| > 0 && |kids[0]| > 0 ==> |q| > 0 && q[0] == kids[0][0]
  {
    if |kids| == 0 then [] else kids[0] + Flatten(kids[1..])
  }

  lemma {:induction false} FlattenAppend(kids: seq<seq<Bucket>>, more: seq<Bucket>)
    ensures Flatten(kids + [more]) == Flatten(kids) + more
  {
    if |kids| == 0 {
      assert kids + [more] == [more];
      assert Flatten([more]) == more + Flatten([]);
    } else {
      assert (kids + [more])[1..] == kids[1..] + [more];
      FlattenAppend(kids[1..], more);
    }
  }

  /** Every bucket has a known orientation, and a nonempty one lies within the array. */
  ghost predicate QueueOk(c: Curve, q: seq<Bucket>, len: nat)
  {
    forall t :: 0 <= t < |q| ==> q[t].rot < |c.rotPerm| && (q[t].begin < q[t].end ==> q[t].end <= len)
  }

  /** The ranges of the first L buckets of q do not overlap, apart from empty ones. */
  ghost predicate DisjointRun(q: seq<Bucket>, L: nat)
  {
    L <= |q|
    && forall a, b :: 0 <= a < b < L ==>
         q[a].end <= q[a].begin || q[b].end <= q[b].begin || q[a].end <= q[b].begin || q[b].end <= q[a].begin
  }

  /** Position i lies in the range of one of the first j buckets of q. */
  ghost predicate Refined(q: seq<Bucket>, j: nat, i: int)
  {
    exists t :: 0 <= t < j && t < |q| && q[t].begin <= i < q[t].end
  }

  /**
   * The state of `treeBFTNextLevel` after refining the first j buckets of
   * queue0: they are gone from the front, their children kids are at the
   * back, the array s is a permutation of s0 that differs only inside the
   * refined ranges, and when those ranges do not overlap each bucket's
   * children still hold their nodes.
   */
  ghost predicate Progress(c: Curve, queue0: seq<Bucket>, L: nat, s0: seq<TreeNode>, s: seq<TreeNode>,
                           j: nat, kids: seq<seq<Bucket>>, queue: seq<Bucket>)
    requires ValidCurve(c)
  {
    j <= L <= |queue0| && |kids| == j && queue == queue0[j..] + Flatten(kids)
    && QueueOk(c, queue, |s|)
    && (forall t :: 0 <= t < j ==> RefinedInto(c, queue0[t], kids[t]))
    && |s| == |s0| && multiset(s) == multiset(s0) && ValidRange(s, 0, |s|, c.n)
    && (forall i :: 0 <= i < |s| && !Refined(queue0, j, i) ==> s[i] == s0[i])
    && (DisjointRun(queue0, L) ==> forall t :: 0 <= t < j ==> ChildrenHold(c, s, queue0[t], kids[t]))
  }

  /**
   * `treeBFTNextLevel`: while the front of the queue is at the level the
   * front had on entry, the front bucket is taken off, refined, and its
   * children are appended. kids[t] are the children of the t-th bucket.
   */
  method TreeBFTNextLevel(points: array<TreeNode>, c: Curve, queue0: seq<Bucket>)
    returns (queue: seq<Bucket>, ghost kids: seq<seq<Bucket>>)
    modifies points
    requires ValidCurve(c) && QueueOk(c, queue0, points.Length)
    requires ValidRange(points[..], 0, points.Length, c.n)
    ensures |queue0| == 0 ==> queue == queue0 && kids == [] && points[..] == old(points[..])
    ensures |queue0| > 0 ==>
      var L := LeadingRun(queue0, queue0[0].lev);
      L >= 1 && |kids| == L && queue == queue0[L..] + Flatten(kids)
      && (forall t :: 0 <= t < L ==> RefinedInto(c, queue0[t], kids[t]))
      && (DisjointRun(queue0, L) ==> forall t :: 0 <= t < L ==> ChildrenHold(c, points[..], queue0[t], kids[t]))
      && forall i :: 0 <= i < points.Length && !Refined(queue0, L, i) ==> points[i] == old(points[i])
    ensures multiset(points[..]) == multiset(old(points[..]))
    ensures QueueOk(c, queue, points.Length) && ValidRange(points[..], 0, points.Length, c.n)
  {
    queue := queue0;
    kids := [];
    if |queue| == 0 {
      return;
    }
    var startLev := queue[0].lev;
    ghost var L := LeadingRun(queue0, startLev);
    ghost var s0 := points[..];
    ghost var j := 0;
    assert queue0[0..] == queue0;
    while queue[0].lev == startLev
      invariant |queue| > 0
      invariant Progress(c, queue0, L, s0, points[..], j, kids, queue)
      decreases L - j
    {
      ghost var s := points[..];
      var front := queue[0];
      NextFront(c, queue0, L, s0, s, j, kids, queue, startLev);
      queue := queue[1..];
      var splitters := RefineBucket(points, c, front);
      queue := EnqueueChildren(c, front, splitters, queue);
      ghost var more := ChildBuckets(c, front, splitters);
      ProgressStep(c, queue0, L, s0, s, points[..], j, kids, queue0[j..] + Flatten(kids), more, startLev);
      kids := kids + [more];
      j := j + 1;
    }
    RunDone(c, queue0, L, s0, points[..], j, kids, queue, startLev);
  }

  /** While the loop goes on, the front is the next bucket of the leading run. */
  lemma NextFront(c: Curve, queue0: seq<Bucket>, L: nat, s0: seq<TreeNode>, s: seq<TreeNode>,
                  j: nat, kids: seq<seq<Bucket>>, queue: seq<Bucket>, startLev: nat)
    requires ValidCurve(c) && |queue0| > 0 && startLev == queue0[0].lev && L == LeadingRun(queue0, startLev)
    requires Progress(c, queue0, L, s0, s, j, kids, queue)
    requires |queue| > 0 && queue[0].lev == startLev
    ensures j < L && queue[0] == queue0[j]
  {
    QueueHead(c, queue0, L, s0, s, j, kids, queue);
  }

  /** The front of the queue: the next unrefined bucket, or else the first child of the first one. */
  lemma QueueHead(c: Curve, queue0: seq<Bucket>, L: nat, s0: seq<TreeNode>, s: seq<TreeNode>,
                  j: nat, kids: seq<seq<Bucket>>, queue: seq<Bucket>)
    requires ValidCurve(c) && Progress(c, queue0, L, s0, s, j, kids, queue) && |queue| > 0
    ensures j < |queue0| ==> queue[0] == queue0[j]
    ensures j == |queue0| && j > 0 ==> queue[0].lev == queue0[0].lev + 1
  {
    if j == |queue0| && j > 0 {
      assert queue0[j..] == [] && RefinedInto(c, queue0[0], kids[0]);
      assert queue[0] == kids[0][0];
    }
  }

  /** When the loop stops, the whole leading run has been refined. */
  lemma RunDone(c: Curve, queue0: seq<Bucket>, L: nat, s0: seq<TreeNode>, s: seq<TreeNode>,
                j: nat, kids: seq<seq<Bucket>>, queue: seq<Bucket>, startLev: nat)
    requires ValidCurve(c) && |queue0| > 0 && startLev == queue0[0].lev && L == LeadingRun(queue0, startLev)
    requires Progress(c, queue0, L, s0, s, j, kids, queue)
    requires |queue| > 0 && queue[0].lev != startLev
    ensures j == L >= 1
  {
    assert j < |queue0| ==> queue[0] == queue0[j];
  }

  /** The children of a bucket lie within its range. */
  lemma ChildrenWithin(c: Curve, parent: Bucket, kids: seq<Bucket>, k: nat)
    requires ValidCurve(c) && RefinedInto(c, parent, kids) && k < c.n
    ensures kids[k].begin < kids[k].end ==> parent.begin <= kids[k].begin && kids[k].end <= parent.end
  {
    RefinedBounds(c, parent, kids, k);
  }

  /** Changing the array outside a bucket's range keeps its children's contents. */
  lemma HoldKept(c: Curve, s: seq<TreeNode>, s': seq<TreeNode>, parent: Bucket, kids: seq<Bucket>, lo: nat, hi: nat)
    requires ValidCurve(c) && RefinedInto(c, parent, kids) && ChildrenHold(c, s, parent, kids)
    requires Outside(s, s', lo, hi)
    requires parent.end <= parent.begin || hi <= lo || parent.end <= lo || hi <= parent.begin
    ensures ChildrenHold(c, s', parent, kids)
  {
    forall k, i | 0 <= k < c.n && kids[k].begin <= i < kids[k].end && i < |s'|
      ensures InChild(s'[i], parent.lev, c.rotPerm[parent.rot][k])
    {
      ChildrenWithin(c, parent, kids, k);
      assert s'[i] == s[i];
    }
  }

  /** The queue after one turn: the front's children take its place at the back. */
  lemma QueueStep(c: Curve, queue0: seq<Bucket>, j: nat, kids: seq<seq<Bucket>>, queue: seq<Bucket>,
                  more: seq<Bucket>, len: nat)
    requires ValidCurve(c) && j < |queue0| && queue == queue0[j..] + Flatten(kids) && QueueOk(c, queue, len)
    requires RefinedInto(c, queue0[j], more)
    ensures queue[1..] + more == queue0[j + 1..] + Flatten(kids + [more])
    ensures QueueOk(c, queue[1..] + more, len)
  {
    FlattenAppend(kids, more);
    assert queue[1..] == queue0[j + 1..] + Flatten(kids);
    var front := queue0[j];
    assert front == queue[0];
    forall k | 0 <= k < c.n
      ensures more[k].rot < |c.rotPerm| && (more[k].begin < more[k].end ==> more[k].end <= len)
    {
      ChildrenWithin(c, front, more, k);
    }
  }

  /** One turn of the loop keeps `Progress`. */
  lemma ProgressStep(c: Curve, queue0: seq<Bucket>, L: nat, s0: seq<TreeNode>, s: seq<TreeNode>, s': seq<TreeNode>,
                     j: nat, kids: seq<seq<Bucket>>, queue: seq<Bucket>, more: seq<Bucket>, startLev: nat)
    requires ValidCurve(c) && Progress(c, queue0, L, s0, s, j, kids, queue) && j < L
    requires Outside(s, s', queue0[j].begin, queue0[j].end) && multiset(s') == multiset(s)
    requires ValidRange(s', 0, |s'|, c.n)
    requires RefinedInto(c, queue0[j], more) && ChildrenHold(c, s', queue0[j], more)
    ensures Progress(c, queue0, L, s0, s', j + 1, kids + [more], queue[1..] + more)
  {
    var front := queue0[j];
    QueueStep(c, queue0, j, kids, queue, more, |s|);
    var kids' := kids + [more];
    forall i | 0 <= i < |s'| && !Refined(queue0, j + 1, i)
      ensures s'[i] == s0[i]
    {
      assert !(front.begin <= i < front.end);
      assert !Refined(queue0, j, i);
    }
    if DisjointRun(queue0, L) {
      HoldsKept(c, queue0, L, s, s', j, kids, more);
    }
  }

  /** With disjoint ranges, refining bucket j leaves the earlier buckets' children holding. */
  lemma HoldsKept(c: Curve, queue0: seq<Bucket>, L: nat, s: seq<TreeNode>, s': seq<TreeNode>,
                  j: nat, kids: seq<seq<Bucket>>, more: seq<Bucket>)
    requires ValidCurve(c) && DisjointRun(queue0, L) && j < L && |kids| == j
    requires forall t :: 0 <= t < j ==> RefinedInto(c, queue0[t], kids[t]) && ChildrenHold(c, s, queue0[t], kids[t])
    requires Outside(s, s', queue0[j].begin, queue0[j].end)
    requires RefinedInto(c, queue0[j], more) && ChildrenHold(c, s', queue0[j], more)
    ensures forall t :: 0 <= t < j + 1 ==>
              RefinedInto(c, queue0[t], (kids + [more])[t]) && ChildrenHold(c, s', queue0[t], (kids + [more])[t])
  {
    forall t | 0 <= t < j + 1
      ensures RefinedInto(c, queue0[t], (kids + [more])[t]) && ChildrenHold(c, s', queue0[t], (kids + [more])[t])
    {
      if t < j {
        HoldKept(c, s, s', queue0[t], kids[t], queue0[j].begin, queue0[j].end);
      }
    }
  }
}
