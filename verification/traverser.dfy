/**
 * The orientation-enumeration search of masado/traversal.py (`traverse`).
 *
 * The outer region walks the base order of the reflected-binary Gray code.
 * Inside it, the in-region corner starts at 0 and must end at
 * (1 << (dim-1)) ^ last flip of the base path. At each depth the move rule
 * (GenerateMoves) offers the displacements that may be used; a move m at
 * depth d takes corner q to q ^ m ^ basePath[d]. The search is a depth-first
 * backtracking loop with an explicit stack of frames (corner, move, depth)
 * and move/corner histories truncated on backtrack.
 *
 * The loop is proved against the recursive function Explore, which lists the
 * solutions in exactly the order the stack discovers them; Explore is in turn
 * characterised by the declarative predicate IsSolution.
 */
module Traverser {
  import opened Bits
  import opened GrayPath
  import opened Wrappers

  /** An orientation (in-region corner, displacement) used by a sub-region. */
  datatype Orientation = Orientation(corner: nat, disp: nat)

  /** A complete displacement sequence: move_hist and inregion_hist. */
  datatype Solution = Solution(moves: seq<nat>, corners: seq<nat>)

  /** A pending choice on the search stack: from `corner` at `depth`, try `move`. */
  datatype Frame = Frame(corner: nat, move: nat, depth: nat)

  /** The statistics `traverse` returns. */
  datatype Summary = Summary(
    numSolutions: nat,
    minNumRepl: Option<nat>,
    minLines: seq<nat>,
    maxNumRepl: Option<nat>,
    maxLines: seq<nat>,
    ssRepl: set<set<Orientation>>)

  // ---------------------------------------------------------------------------
  // The search tree
  // ---------------------------------------------------------------------------

  /** Depth of the terminal region: the number of flips in the base path. */
  function Terminal(dim: nat): nat
  {
    Pow2(dim) - 1
  }

  /** Corner the in-region walk must end on before the final flip is applied. */
  function Goal(dim: nat): nat
    requires dim >= 1
  {
    Xor(Pow2(dim - 1), BasePath(dim)[Terminal(dim) - 1])
  }

  /** The moves offered at depth d from in-region corner pos. */
  function Moves(dim: nat, pos: nat, d: nat): seq<nat>
    requires d < Terminal(dim)
  {
    GenerateMoves(pos, BaseOrder(dim)[d], BasePath(dim)[d], dim)
  }

  /** The in-region corner after applying move m at depth d. */
  function Child(dim: nat, pos: nat, m: nat, d: nat): nat
    requires d < Terminal(dim)
  {
    Xor(Xor(pos, m), BasePath(dim)[d])
  }

  /**
   * The solutions found below the node (pos, d) reached with histories mh
   * and ih, in the order the depth-first search records them.
   */
  function Explore(dim: nat, pos: nat, d: nat, mh: seq<nat>, ih: seq<nat>): seq<Solution>
    requires dim >= 1 && d <= Terminal(dim)
    decreases Terminal(dim) - d, 1, 0
  {
    if d == Terminal(dim) then
      var finalMove := BasePath(dim)[d - 1];
      if pos == Xor(Pow2(dim - 1), finalMove) then [Solution(mh + [finalMove], ih + [pos])] else []
    else
      ExploreMoves(dim, pos, d, mh, ih, Moves(dim, pos, d))
  }

  /** The moves ms are pushed in order and popped last first. */
  function ExploreMoves(dim: nat, pos: nat, d: nat, mh: seq<nat>, ih: seq<nat>, ms: seq<nat>): seq<Solution>
    requires dim >= 1 && d < Terminal(dim)
    decreases Terminal(dim) - d, 0, |ms|
  {
    if ms == [] then []
    else
      var m := ms[|ms| - 1];
      Explore(dim, Child(dim, pos, m, d), d + 1, mh + [m], ih + [pos])
        + ExploreMoves(dim, pos, d, mh, ih, ms[..|ms| - 1])
  }

  /** All solutions of dimension dim, in the order `traverse` numbers them. */
  function Solutions(dim: nat): seq<Solution>
    requires dim >= 1
  {
    Explore(dim, 0, 0, [], [])
  }

  /** Number of search nodes below (pos, d); the loop's termination measure. */
  function NodeCount(dim: nat, pos: nat, d: nat): nat
    requires d <= Terminal(dim)
    decreases Terminal(dim) - d, 1, 0
  {
    if d == Terminal(dim) then 1 else 1 + NodeCountMoves(dim, pos, d, Moves(dim, pos, d))
  }

  function NodeCountMoves(dim: nat, pos: nat, d: nat, ms: seq<nat>): nat
    requires d < Terminal(dim)
    decreases Terminal(dim) - d, 0, |ms|
  {
    if ms == [] then 0
    else NodeCount(dim, Child(dim, pos, ms[|ms| - 1], d), d + 1) + NodeCountMoves(dim, pos, d, ms[..|ms| - 1])
  }

  // ---------------------------------------------------------------------------
  // The stack
  // ---------------------------------------------------------------------------

  /** The frames `for m in new_moves: moves.append((pos, m, d))` pushes. */
  function Frames(pos: nat, ms: seq<nat>, d: nat): (r: seq<Frame>)
    ensures |r| == |ms|
    ensures forall i :: 0 <= i < |ms| ==> r[i] == Frame(pos, ms[i], d)
  {
    if ms == [] then [] else Frames(pos, ms[..|ms| - 1], d) + [Frame(pos, ms[|ms| - 1], d)]
  }

  /** Every frame is below the terminal depth and at most `bound` deep. */
  predicate FramesBelow(dim: nat, stack: seq<Frame>, bound: nat)
  {
    forall i :: 0 <= i < |stack| ==> stack[i].depth < Terminal(dim) && stack[i].depth <= bound
  }

  /** Frame depths never decrease from the bottom of the stack to its top. */
  predicate DepthsSorted(stack: seq<Frame>)
  {
    forall i, j :: 0 <= i < j < |stack| ==> stack[i].depth <= stack[j].depth
  }

  /** The solutions still to be found from the frames of the stack, top first. */
  function Pending(dim: nat, stack: seq<Frame>, mh: seq<nat>, ih: seq<nat>): seq<Solution>
    requires dim >= 1
    requires FramesBelow(dim, stack, |mh|) && FramesBelow(dim, stack, |ih|)
    decreases |stack|
  {
    if stack == [] then []
    else
      var f := stack[|stack| - 1];
      Explore(dim, Child(dim, f.corner, f.move, f.depth), f.depth + 1,
              mh[..f.depth] + [f.move], ih[..f.depth] + [f.corner])
        + Pending(dim, stack[..|stack| - 1], mh, ih)
  }

  function PendingNodes(dim: nat, stack: seq<Frame>): nat
    requires FramesBelow(dim, stack, Terminal(dim))
    decreases |stack|
  {
    if stack == [] then 0
    else
      var f := stack[|stack| - 1];
      NodeCount(dim, Child(dim, f.corner, f.move, f.depth), f.depth + 1)
        + PendingNodes(dim, stack[..|stack| - 1])
  }

  lemma FramesPushBelow(dim: nat, stack: seq<Frame>, pos: nat, d: nat, ms: seq<nat>)
    requires d < Terminal(dim) && FramesBelow(dim, stack, d)
    ensures FramesBelow(dim, stack + Frames(pos, ms, d), d)
  {
    var s := stack + Frames(pos, ms, d);
    forall i | 0 <= i < |s|
      ensures s[i].depth < Terminal(dim) && s[i].depth <= d
    {
      if i >= |stack| {
        assert s[i] == Frames(pos, ms, d)[i - |stack|];
      } else {
        assert s[i] == stack[i];
      }
    }
  }

  lemma FramesSplitLast(stack: seq<Frame>, pos: nat, d: nat, ms: seq<nat>)
    requires ms != []
    ensures (stack + Frames(pos, ms, d))[..|stack| + |ms| - 1] == stack + Frames(pos, ms[..|ms| - 1], d)
    ensures (stack + Frames(pos, ms, d))[|stack| + |ms| - 1] == Frame(pos, ms[|ms| - 1], d)
  {
    assert Frames(pos, ms, d) == Frames(pos, ms[..|ms| - 1], d) + [Frame(pos, ms[|ms| - 1], d)];
  }

  /** Pushing the frames of one node puts that node's subtrees on top of the pending work. */
  lemma {:induction false} PendingPush(dim: nat, stack: seq<Frame>, pos: nat, d: nat, mh: seq<nat>, ih: seq<nat>, ms: seq<nat>)
    requires dim >= 1 && d < Terminal(dim) && |mh| == d && |ih| == d
    requires FramesBelow(dim, stack, d)
    ensures FramesBelow(dim, stack + Frames(pos, ms, d), d)
    ensures Pending(dim, stack + Frames(pos, ms, d), mh, ih)
            == ExploreMoves(dim, pos, d, mh, ih, ms) + Pending(dim, stack, mh, ih)
    decreases |ms|
  {
    FramesPushBelow(dim, stack, pos, d, ms);
    var s := stack + Frames(pos, ms, d);
    if ms == [] {
      assert s == stack;
    } else {
      var ms' := ms[..|ms| - 1];
      var m := ms[|ms| - 1];
      PendingPush(dim, stack, pos, d, mh, ih, ms');
      FramesSplitLast(stack, pos, d, ms);
      assert mh[..d] == mh && ih[..d] == ih;
      var e := Explore(dim, Child(dim, pos, m, d), d + 1, mh + [m], ih + [pos]);
      calc {
        Pending(dim, s, mh, ih);
        e + Pending(dim, stack + Frames(pos, ms', d), mh, ih);
        e + (ExploreMoves(dim, pos, d, mh, ih, ms') + Pending(dim, stack, mh, ih));
        (e + ExploreMoves(dim, pos, d, mh, ih, ms')) + Pending(dim, stack, mh, ih);
      }
    }
  }

  /** The same for the node counts of the termination measure. */
  lemma {:induction false} PendingNodesPush(dim: nat, stack: seq<Frame>, pos: nat, d: nat, ms: seq<nat>)
    requires d < Terminal(dim) && FramesBelow(dim, stack, d)
    ensures FramesBelow(dim, stack + Frames(pos, ms, d), Terminal(dim))
    ensures PendingNodes(dim, stack + Frames(pos, ms, d))
            == NodeCountMoves(dim, pos, d, ms) + PendingNodes(dim, stack)
    decreases |ms|
  {
    FramesPushBelow(dim, stack, pos, d, ms);
    if ms == [] {
      assert stack + Frames(pos, ms, d) == stack;
    } else {
      PendingNodesPush(dim, stack, pos, d, ms[..|ms| - 1]);
      PendingNodesSnoc(dim, stack, pos, d, ms);
    }
  }

  /** The last frame pushed is the first whose subtree is counted. */
  lemma PendingNodesSnoc(dim: nat, stack: seq<Frame>, pos: nat, d: nat, ms: seq<nat>)
    requires d < Terminal(dim) && FramesBelow(dim, stack, d) && ms != []
    ensures FramesBelow(dim, stack + Frames(pos, ms, d), Terminal(dim))
    ensures FramesBelow(dim, stack + Frames(pos, ms[..|ms| - 1], d), Terminal(dim))
    ensures PendingNodes(dim, stack + Frames(pos, ms, d))
            == NodeCount(dim, Child(dim, pos, ms[|ms| - 1], d), d + 1)
               + PendingNodes(dim, stack + Frames(pos, ms[..|ms| - 1], d))
  {
    var init := Frames(pos, ms[..|ms| - 1], d);
    var f := Frame(pos, ms[|ms| - 1], d);
    FramesPushBelow(dim, stack, pos, d, ms[..|ms| - 1]);
    FramesBelowWeaken(dim, stack + init, d, Terminal(dim));
    AppendLast(stack, init, f);
    PendingNodesLast(dim, stack + init, f);
  }

  /** A frame bound can always be raised. */
  lemma FramesBelowWeaken(dim: nat, stack: seq<Frame>, a: nat, b: nat)
    requires FramesBelow(dim, stack, a) && a <= b
    ensures FramesBelow(dim, stack, b)
  {
  }

  lemma AppendLast<T>(a: seq<T>, b: seq<T>, x: T)
    ensures a + (b + [x]) == (a + b) + [x]
  {
  }

  /** Unfolding PendingNodes once at the top of the stack. */
  lemma PendingNodesLast(dim: nat, t: seq<Frame>, f: Frame)
    requires FramesBelow(dim, t, Terminal(dim)) && f.depth < Terminal(dim)
    ensures FramesBelow(dim, t + [f], Terminal(dim))
    ensures PendingNodes(dim, t + [f])
            == NodeCount(dim, Child(dim, f.corner, f.move, f.depth), f.depth + 1) + PendingNodes(dim, t)
  {
    assert (t + [f])[..|t|] == t;
    assert forall i :: 0 <= i < |t| ==> (t + [f])[i] == t[i];
  }

  /** Pending work depends only on the history entries below the deepest frame. */
  lemma {:induction false} PendingHistories(dim: nat, stack: seq<Frame>, bound: nat,
                                            mh1: seq<nat>, ih1: seq<nat>, mh2: seq<nat>, ih2: seq<nat>)
    requires dim >= 1 && FramesBelow(dim, stack, bound)
    requires bound <= |mh1| && bound <= |ih1| && bound <= |mh2| && bound <= |ih2|
    requires mh1[..bound] == mh2[..bound] && ih1[..bound] == ih2[..bound]
    ensures FramesBelow(dim, stack, |mh1|) && FramesBelow(dim, stack, |ih1|)
    ensures FramesBelow(dim, stack, |mh2|) && FramesBelow(dim, stack, |ih2|)
    ensures Pending(dim, stack, mh1, ih1) == Pending(dim, stack, mh2, ih2)
    decreases |stack|
  {
    if stack != [] {
      var f := stack[|stack| - 1];
      PendingHistories(dim, stack[..|stack| - 1], bound, mh1, ih1, mh2, ih2);
      assert mh1[..f.depth] == mh1[..bound][..f.depth];
      assert mh2[..f.depth] == mh2[..bound][..f.depth];
      assert ih1[..f.depth] == ih1[..bound][..f.depth];
      assert ih2[..f.depth] == ih2[..bound][..f.depth];
    }
  }

  /** Expanding a non-terminal node replaces it by the frames of its moves. */
  lemma PushStep(dim: nat, all: seq<Solution>, found: seq<Solution>, stack: seq<Frame>, pos: nat, d: nat, mh: seq<nat>, ih: seq<nat>)
    requires dim >= 1 && d < Terminal(dim) && |mh| == d && |ih| == d
    requires FramesBelow(dim, stack, d) && DepthsSorted(stack)
    requires found + Explore(dim, pos, d, mh, ih) + Pending(dim, stack, mh, ih) == all
    ensures var s := stack + Frames(pos, Moves(dim, pos, d), d);
      && FramesBelow(dim, s, d) && DepthsSorted(s)
      && found + Pending(dim, s, mh, ih) == all
      && FramesBelow(dim, stack, Terminal(dim)) && FramesBelow(dim, s, Terminal(dim))
      && PendingNodes(dim, s) + 1 == NodeCount(dim, pos, d) + PendingNodes(dim, stack)
  {
    var ms := Moves(dim, pos, d);
    PushNode(dim, stack, pos, d, mh, ih);
    PendingNodesPush(dim, stack, pos, d, ms);
    FramesPushSorted(dim, stack, pos, d, ms);
    ConcatAssociates(found, Explore(dim, pos, d, mh, ih), Pending(dim, stack, mh, ih));
  }

  lemma PushNode(dim: nat, stack: seq<Frame>, pos: nat, d: nat, mh: seq<nat>, ih: seq<nat>)
    requires dim >= 1 && d < Terminal(dim) && |mh| == d && |ih| == d
    requires FramesBelow(dim, stack, d)
    ensures FramesBelow(dim, stack + Frames(pos, Moves(dim, pos, d), d), d)
    ensures Pending(dim, stack + Frames(pos, Moves(dim, pos, d), d), mh, ih)
            == Explore(dim, pos, d, mh, ih) + Pending(dim, stack, mh, ih)
  {
    PendingPush(dim, stack, pos, d, mh, ih, Moves(dim, pos, d));
  }

  lemma ConcatAssociates<T>(a: seq<T>, b: seq<T>, c: seq<T>)
    ensures a + (b + c) == a + b + c
  {
  }

  lemma FramesPushSorted(dim: nat, stack: seq<Frame>, pos: nat, d: nat, ms: seq<nat>)
    requires FramesBelow(dim, stack, d) && DepthsSorted(stack)
    ensures DepthsSorted(stack + Frames(pos, ms, d))
  {
    var s := stack + Frames(pos, ms, d);
    forall a, b | 0 <= a < b < |s|
      ensures s[a].depth <= s[b].depth
    {
      if b >= |stack| {
        assert s[b] == Frames(pos, ms, d)[b - |stack|];
        if a < |stack| {
          assert s[a] == stack[a];
        } else {
          assert s[a] == Frames(pos, ms, d)[a - |stack|];
        }
      } else {
        assert s[a] == stack[a] && s[b] == stack[b];
      }
    }
  }

  /**
   * At the terminal depth the node either contributes its one solution,
   * with the final flip appended to both histories, or nothing.
   */
  lemma TerminalStep(dim: nat, all: seq<Solution>, found: seq<Solution>, stack: seq<Frame>, pos: nat, mh: seq<nat>, ih: seq<nat>)
    requires dim >= 1 && |mh| == Terminal(dim) && |ih| == Terminal(dim)
    requires FramesBelow(dim, stack, Terminal(dim))
    requires found + Explore(dim, pos, Terminal(dim), mh, ih) + Pending(dim, stack, mh, ih) == all
    ensures var finalMove := BasePath(dim)[Terminal(dim) - 1];
      && FramesBelow(dim, stack, |mh| + 1)
      && (pos == Xor(Pow2(dim - 1), finalMove) ==>
            found + [Solution(mh + [finalMove], ih + [pos])] + Pending(dim, stack, mh + [finalMove], ih + [pos]) == all)
      && (pos != Xor(Pow2(dim - 1), finalMove) ==> found + Pending(dim, stack, mh, ih) == all)
      && NodeCount(dim, pos, Terminal(dim)) == 1
  {
    var finalMove := BasePath(dim)[Terminal(dim) - 1];
    if pos == Xor(Pow2(dim - 1), finalMove) {
      assert (mh + [finalMove])[..|mh|] == mh && (ih + [pos])[..|ih|] == ih;
      PendingHistories(dim, stack, |mh|, mh, ih, mh + [finalMove], ih + [pos]);
    }
  }

  /**
   * Popping the top frame (pos, m, d) and moving to its child with histories
   * truncated to d and extended by m and pos keeps the remaining solutions.
   */
  lemma PopStep(dim: nat, all: seq<Solution>, found: seq<Solution>, stack: seq<Frame>, bound: nat, mh: seq<nat>, ih: seq<nat>)
    requires dim >= 1 && stack != [] && FramesBelow(dim, stack, bound) && DepthsSorted(stack)
    requires bound <= |mh| && bound <= |ih|
    requires FramesBelow(dim, stack, |mh|) && FramesBelow(dim, stack, |ih|)
    requires found + Pending(dim, stack, mh, ih) == all
    ensures var f := stack[|stack| - 1];
      var rest := stack[..|stack| - 1];
      var mh' := mh[..f.depth] + [f.move];
      var ih' := ih[..f.depth] + [f.corner];
      var pos' := Child(dim, f.corner, f.move, f.depth);
      && |mh'| == f.depth + 1 && |ih'| == f.depth + 1 && f.depth < Terminal(dim)
      && FramesBelow(dim, rest, f.depth + 1)
      && DepthsSorted(rest)
      && found + Explore(dim, pos', f.depth + 1, mh', ih') + Pending(dim, rest, mh', ih') == all
      && FramesBelow(dim, stack, Terminal(dim)) && FramesBelow(dim, rest, Terminal(dim))
      && PendingNodes(dim, stack) == NodeCount(dim, pos', f.depth + 1) + PendingNodes(dim, rest)
  {
    PopFrames(dim, stack, bound);
    PopPending(dim, all, found, stack, bound, mh, ih);
  }

  /** The frames left after popping the top one are no deeper than it. */
  lemma PopFrames(dim: nat, stack: seq<Frame>, bound: nat)
    requires stack != [] && FramesBelow(dim, stack, bound) && DepthsSorted(stack)
    ensures var f := stack[|stack| - 1];
      var rest := stack[..|stack| - 1];
      && f.depth < Terminal(dim) && f.depth <= bound
      && FramesBelow(dim, rest, f.depth) && FramesBelow(dim, rest, f.depth + 1)
      && DepthsSorted(rest)
      && FramesBelow(dim, stack, Terminal(dim)) && FramesBelow(dim, rest, Terminal(dim))
  {
  }

  /** Popping the top frame moves its subtree's solutions in front of the rest. */
  lemma PopPending(dim: nat, all: seq<Solution>, found: seq<Solution>, stack: seq<Frame>, bound: nat, mh: seq<nat>, ih: seq<nat>)
    requires dim >= 1 && stack != [] && FramesBelow(dim, stack, bound) && DepthsSorted(stack)
    requires bound <= |mh| && bound <= |ih|
    requires FramesBelow(dim, stack, |mh|) && FramesBelow(dim, stack, |ih|)
    requires found + Pending(dim, stack, mh, ih) == all
    ensures var f := stack[|stack| - 1];
      var rest := stack[..|stack| - 1];
      var mh' := mh[..f.depth] + [f.move];
      var ih' := ih[..f.depth] + [f.corner];
      && f.depth < Terminal(dim) && FramesBelow(dim, rest, |mh'|) && FramesBelow(dim, rest, |ih'|)
      && found + Explore(dim, Child(dim, f.corner, f.move, f.depth), f.depth + 1, mh', ih') + Pending(dim, rest, mh', ih') == all
  {
    var f := stack[|stack| - 1];
    var rest := stack[..|stack| - 1];
    var mh' := mh[..f.depth] + [f.move];
    var ih' := ih[..f.depth] + [f.corner];
    PopFrames(dim, stack, bound);
    var e := Explore(dim, Child(dim, f.corner, f.move, f.depth), f.depth + 1, mh', ih');
    assert Pending(dim, stack, mh, ih) == e + Pending(dim, rest, mh, ih);
    assert mh'[..f.depth] == mh[..f.depth] && ih'[..f.depth] == ih[..f.depth];
    PendingHistories(dim, rest, f.depth, mh, ih, mh', ih');
  }

  lemma GenerateMovesAtMost(inregionPos: nat, outregionPos: nat, regionDisp: nat, dim: nat)
    requires dim >= 1
    ensures |GenerateMoves(inregionPos, outregionPos, regionDisp, dim)| <= dim
  {
    DescendingAxesAtMost(dim, regionDisp);
  }

  lemma {:induction false} DescendingAxesAtMost(n: nat, regionDisp: nat)
    ensures |DescendingAxesExcept(n, regionDisp)| <= n
  {
    if n > 0 {
      DescendingAxesAtMost(n - 1, regionDisp);
    }
  }

  // ---------------------------------------------------------------------------
  // Statistics
  // ---------------------------------------------------------------------------

  /** frozenset(zip(inregion_hist, move_hist)). */
  function OrientationSet(s: Solution): set<Orientation>
  {
    set i | 0 <= i < |s.moves| && i < |s.corners| :: Orientation(s.corners[i], s.moves[i])
  }

  /** Number of distinct orientations a solution uses. */
  function ReplCount(s: Solution): nat
  {
    |OrientationSet(s)|
  }

  const NoSolutions := Summary(0, None, [], None, [], {})

  /** Recording one more solution whose orientation set is sRepl. */
  function Record(st: Summary, sRepl: set<Orientation>): Summary
  {
    var n := |sRepl|;
    var line := st.numSolutions;
    var minNum := if st.minNumRepl.None? || n < st.minNumRepl.value then Some(n) else st.minNumRepl;
    var minLines :=
      if st.minNumRepl.None? || n < st.minNumRepl.value then [line]
      else if n == st.minNumRepl.value then st.minLines + [line]
      else st.minLines;
    var maxNum := if st.maxNumRepl.None? || n > st.maxNumRepl.value then Some(n) else st.maxNumRepl;
    var maxLines :=
      if st.maxNumRepl.None? || n > st.maxNumRepl.value then [line]
      else if n == st.maxNumRepl.value then st.maxLines + [line]
      else st.maxLines;
    Summary(line + 1, minNum, minLines, maxNum, maxLines, st.ssRepl + {sRepl})
  }

  /** The statistics after recording the solutions sols in order. */
  function Summarize(sols: seq<Solution>): Summary
  {
    if sols == [] then NoSolutions
    else Record(Summarize(sols[..|sols| - 1]), OrientationSet(sols[|sols| - 1]))
  }

  lemma SummarizeSnoc(sols: seq<Solution>, s: Solution)
    ensures Summarize(sols + [s]) == Record(Summarize(sols), OrientationSet(s))
  {
    assert (sols + [s])[..|sols|] == sols;
  }

  /** num_solutions counts the solutions and ss_repl holds exactly their orientation sets. */
  lemma {:induction false} SummarizeCounts(sols: seq<Solution>)
    ensures Summarize(sols).numSolutions == |sols|
    ensures forall o :: o in Summarize(sols).ssRepl <==>
              exists i :: 0 <= i < |sols| && OrientationSet(sols[i]) == o
  {
    if sols != [] {
      var init := sols[..|sols| - 1];
      SummarizeCounts(init);
      assert Summarize(sols).ssRepl == Summarize(init).ssRepl + {OrientationSet(sols[|sols| - 1])};
      forall o
        ensures o in Summarize(sols).ssRepl <==> exists i :: 0 <= i < |sols| && OrientationSet(sols[i]) == o
      {
        UsedBySnoc(sols, o);
      }
    }
  }

  /** Some solution of sols has orientation set o. */
  predicate UsedBy(sols: seq<Solution>, o: set<Orientation>)
  {
    exists i :: 0 <= i < |sols| && OrientationSet(sols[i]) == o
  }

  lemma UsedBySnoc(sols: seq<Solution>, o: set<Orientation>)
    requires sols != []
    ensures UsedBy(sols, o) <==> UsedBy(sols[..|sols| - 1], o) || OrientationSet(sols[|sols| - 1]) == o
  {
    var init := sols[..|sols| - 1];
    if UsedBy(init, o) {
      var i :| 0 <= i < |init| && OrientationSet(init[i]) == o;
      assert sols[i] == init[i];
    }
    if UsedBy(sols, o) {
      var i :| 0 <= i < |sols| && OrientationSet(sols[i]) == o;
      if i < |init| {
        assert sols[i] == init[i];
      }
    }
  }

  /** The number of distinct orientations of each solution, in order. */
  function ReplCounts(sols: seq<Solution>): (r: seq<nat>)
    ensures |r| == |sols| && forall i :: 0 <= i < |sols| ==> r[i] == ReplCount(sols[i])
  {
    seq(|sols|, i requires 0 <= i < |sols| => ReplCount(sols[i]))
  }

  /**
   * num is None exactly when counts is empty; otherwise it is a lower bound
   * on every count, and lines lists, in increasing order, exactly the
   * positions whose count attains it.
   */
  ghost predicate LeastOf(num: Option<nat>, lines: seq<nat>, counts: seq<nat>)
  {
    && (num.None? <==> counts == [])
    && (num.None? ==> lines == [])
    && (num.Some? ==>
          && |lines| > 0
          && (forall i :: 0 <= i < |counts| ==> num.value <= counts[i])
          && (forall i :: 0 <= i < |counts| ==> (i in lines <==> counts[i] == num.value))
          && (forall j :: 0 <= j < |lines| ==> lines[j] < |counts|)
          && (forall j, k :: 0 <= j < k < |lines| ==> lines[j] < lines[k]))
  }

  /** The mirror image of LeastOf: an upper bound and the positions attaining it. */
  ghost predicate GreatestOf(num: Option<nat>, lines: seq<nat>, counts: seq<nat>)
  {
    && (num.None? <==> counts == [])
    && (num.None? ==> lines == [])
    && (num.Some? ==>
          && |lines| > 0
          && (forall i :: 0 <= i < |counts| ==> counts[i] <= num.value)
          && (forall i :: 0 <= i < |counts| ==> (i in lines <==> counts[i] == num.value))
          && (forall j :: 0 <= j < |lines| ==> lines[j] < |counts|)
          && (forall j, k :: 0 <= j < k < |lines| ==> lines[j] < lines[k]))
  }

  /** A count below every earlier one starts a new list of lines. */
  lemma NewExtreme(counts: seq<nat>, n: nat, least: bool)
    requires forall i :: 0 <= i < |counts| ==> if least then n < counts[i] else counts[i] < n
    ensures least ==> LeastOf(Some(n), [|counts|], counts + [n])
    ensures !least ==> GreatestOf(Some(n), [|counts|], counts + [n])
  {
    var c := counts + [n];
    assert forall i :: 0 <= i < |counts| ==> c[i] == counts[i] && i != |counts|;
  }

  /** A count equal to the least so far joins its list of lines. */
  lemma LeastTie(num: Option<nat>, lines: seq<nat>, counts: seq<nat>, n: nat)
    requires LeastOf(num, lines, counts) && num == Some(n)
    ensures LeastOf(num, lines + [|counts|], counts + [n])
  {
    var c := counts + [n];
    assert forall i :: 0 <= i < |counts| ==> c[i] == counts[i];
  }

  /** A count above the least so far changes nothing. */
  lemma LeastAbove(num: Option<nat>, lines: seq<nat>, counts: seq<nat>, n: nat)
    requires LeastOf(num, lines, counts) && num.Some? && num.value < n
    ensures LeastOf(num, lines, counts + [n])
  {
    var c := counts + [n];
    assert forall i :: 0 <= i < |counts| ==> c[i] == counts[i];
    assert |counts| !in lines;
  }

  lemma GreatestTie(num: Option<nat>, lines: seq<nat>, counts: seq<nat>, n: nat)
    requires GreatestOf(num, lines, counts) && num == Some(n)
    ensures GreatestOf(num, lines + [|counts|], counts + [n])
  {
    var c := counts + [n];
    assert forall i :: 0 <= i < |counts| ==> c[i] == counts[i];
  }

  lemma GreatestBelow(num: Option<nat>, lines: seq<nat>, counts: seq<nat>, n: nat)
    requires GreatestOf(num, lines, counts) && num.Some? && n < num.value
    ensures GreatestOf(num, lines, counts + [n])
  {
    var c := counts + [n];
    assert forall i :: 0 <= i < |counts| ==> c[i] == counts[i];
    assert |counts| !in lines;
  }

  /**
   * min_num_repl and min_lines: the fewest distinct orientations of any
   * recorded solution, and exactly the numbers of the solutions attaining it.
   */
  lemma {:induction false} SummarizeMin(sols: seq<Solution>)
    ensures LeastOf(Summarize(sols).minNumRepl, Summarize(sols).minLines, ReplCounts(sols))
  {
    if sols != [] {
      var last := |sols| - 1;
      var init := sols[..last];
      SummarizeMin(init);
      SummarizeCounts(init);
      var st0 := Summarize(init);
      var counts := ReplCounts(init);
      var n := ReplCount(sols[last]);
      assert ReplCounts(sols) == counts + [n];
      if st0.minNumRepl.None? || n < st0.minNumRepl.value {
        NewExtreme(counts, n, true);
      } else if n == st0.minNumRepl.value {
        LeastTie(st0.minNumRepl, st0.minLines, counts, n);
      } else {
        LeastAbove(st0.minNumRepl, st0.minLines, counts, n);
      }
    }
  }

  /**
   * max_num_repl and max_lines: the most distinct orientations of any
   * recorded solution, and exactly the numbers of the solutions attaining it.
   */
  lemma {:induction false} SummarizeMax(sols: seq<Solution>)
    ensures GreatestOf(Summarize(sols).maxNumRepl, Summarize(sols).maxLines, ReplCounts(sols))
  {
    if sols != [] {
      var last := |sols| - 1;
      var init := sols[..last];
      SummarizeMax(init);
      SummarizeCounts(init);
      var st0 := Summarize(init);
      var counts := ReplCounts(init);
      var n := ReplCount(sols[last]);
      assert ReplCounts(sols) == counts + [n];
      if st0.maxNumRepl.None? || n > st0.maxNumRepl.value {
        NewExtreme(counts, n, false);
      } else if n == st0.maxNumRepl.value {
        GreatestTie(st0.maxNumRepl, st0.maxLines, counts, n);
      } else {
        GreatestBelow(st0.maxNumRepl, st0.maxLines, counts, n);
      }
    }
  }

  // ---------------------------------------------------------------------------
  // The search loop
  // ---------------------------------------------------------------------------

  /**
   * The state at the head of the search loop: the node (pos, distance) with
   * its histories is about to be visited, and the solutions found so far,
   * then those below the node, then those below the stacked frames, are all
   * the solutions in order.
   */
  ghost predicate Searching(dim: nat, all: seq<Solution>, found: seq<Solution>, stats: Summary,
                            moves: seq<Frame>, mh: seq<nat>, ih: seq<nat>, pos: nat, distance: nat)
  {
    && dim >= 1 && distance <= Terminal(dim) && |mh| == distance && |ih| == distance
    && FramesBelow(dim, moves, distance) && DepthsSorted(moves) && FramesBelow(dim, moves, Terminal(dim))
    && found + Explore(dim, pos, distance, mh, ih) + Pending(dim, moves, mh, ih) == all
    && stats == Summarize(found)
  }

  /** The state after a visit: only the stacked frames are left to explore. */
  ghost predicate Visited(dim: nat, all: seq<Solution>, found: seq<Solution>, stats: Summary,
                          moves: seq<Frame>, mh: seq<nat>, ih: seq<nat>, bound: nat)
  {
    && dim >= 1 && bound <= |mh| && bound <= |ih|
    && FramesBelow(dim, moves, bound) && DepthsSorted(moves) && FramesBelow(dim, moves, Terminal(dim))
    && FramesBelow(dim, moves, |mh|) && FramesBelow(dim, moves, |ih|)
    && found + Pending(dim, moves, mh, ih) == all
    && stats == Summarize(found)
  }

  /** Visiting a terminal node records its solution, if the goal corner is reached. */
  lemma VisitTerminal(dim: nat, all: seq<Solution>, found: seq<Solution>, stats: Summary,
                      moves: seq<Frame>, mh: seq<nat>, ih: seq<nat>, pos: nat)
    requires Searching(dim, all, found, stats, moves, mh, ih, pos, Terminal(dim))
    ensures var finalMove := BasePath(dim)[Terminal(dim) - 1];
      var sol := Solution(mh + [finalMove], ih + [pos]);
      && (pos == Xor(Pow2(dim - 1), finalMove) ==>
            Visited(dim, all, found + [sol], Record(stats, OrientationSet(sol)), moves, mh + [finalMove], ih + [pos], Terminal(dim)))
      && (pos != Xor(Pow2(dim - 1), finalMove) ==> Visited(dim, all, found, stats, moves, mh, ih, Terminal(dim)))
      && NodeCount(dim, pos, Terminal(dim)) == 1
  {
    var finalMove := BasePath(dim)[Terminal(dim) - 1];
    var sol := Solution(mh + [finalMove], ih + [pos]);
    TerminalStep(dim, all, found, moves, pos, mh, ih);
    SummarizeSnoc(found, sol);
  }

  /** Visiting an inner node stacks one frame per offered move. */
  lemma VisitInner(dim: nat, all: seq<Solution>, found: seq<Solution>, stats: Summary,
                   moves: seq<Frame>, mh: seq<nat>, ih: seq<nat>, pos: nat, distance: nat)
    requires Searching(dim, all, found, stats, moves, mh, ih, pos, distance) && distance < Terminal(dim)
    ensures var s := moves + Frames(pos, Moves(dim, pos, distance), distance);
      && Visited(dim, all, found, stats, s, mh, ih, distance)
      && PendingNodes(dim, s) + 1 == NodeCount(dim, pos, distance) + PendingNodes(dim, moves)
  {
    PushStep(dim, all, found, moves, pos, distance, mh, ih);
  }

  /** Popping the top frame moves to the next node to visit. */
  lemma VisitNext(dim: nat, all: seq<Solution>, found: seq<Solution>, stats: Summary,
                  moves: seq<Frame>, mh: seq<nat>, ih: seq<nat>, bound: nat)
    requires Visited(dim, all, found, stats, moves, mh, ih, bound) && moves != []
    ensures var f := moves[|moves| - 1];
      var rest := moves[..|moves| - 1];
      && f.depth < Terminal(dim)
      && Searching(dim, all, found, stats, rest, mh[..f.depth] + [f.move], ih[..f.depth] + [f.corner],
                   Child(dim, f.corner, f.move, f.depth), f.depth + 1)
      && PendingNodes(dim, moves) == NodeCount(dim, Child(dim, f.corner, f.move, f.depth), f.depth + 1) + PendingNodes(dim, rest)
  {
    PopStep(dim, all, found, moves, bound, mh, ih);
  }

  /** When no frame is left, everything has been found. */
  lemma VisitedAll(dim: nat, all: seq<Solution>, found: seq<Solution>, stats: Summary,
                   mh: seq<nat>, ih: seq<nat>, bound: nat)
    requires Visited(dim, all, found, stats, [], mh, ih, bound)
    ensures found == all
  {
    assert found + [] == found;
  }

  /** `for m in new_moves: moves.append((pos, m, d))`. */
  method PushMoves(stack: seq<Frame>, pos: nat, newMoves: seq<nat>, d: nat) returns (r: seq<Frame>)
    ensures r == stack + Frames(pos, newMoves, d)
  {
    r := stack;
    for i := 0 to |newMoves|
      invariant r == stack + Frames(pos, newMoves[..i], d)
    {
      assert newMoves[..i + 1][..i] == newMoves[..i];
      r := r + [Frame(pos, newMoves[i], d)];
    }
    assert newMoves[..|newMoves|] == newMoves;
  }

  /**
   * traverse(dim): fails for dim == 0 (the source shifts by dim-1 = -1);
   * otherwise returns the statistics of all solutions, recorded in
   * depth-first order.
   */
  method Traverse(dim: nat) returns (r: Result<Summary>)
    ensures dim == 0 <==> r.Failure?
    ensures dim >= 1 ==> r == Success(Summarize(Solutions(dim)))
  {
    var basePath := BasePath(dim);
    var baseOrder := BaseOrder(dim);
    var numRegions := Pow2(dim);
    assert numRegions == |baseOrder|;
    if dim == 0 {
      return Failure("negative shift count");
    }
    var inregionStart := 0;
    var inregionEnd := Pow2(dim - 1);
    var stats := NoSolutions;
    var moveHist: seq<nat> := [];
    var moves: seq<Frame> := [];
    var inregionHist: seq<nat> := [];
    var distance: nat := 0;
    var inregionPos: nat := inregionStart;
    ghost var found: seq<Solution> := [];
    ghost var all := Solutions(dim);

    while true
      invariant Searching(dim, all, found, stats, moves, moveHist, inregionHist, inregionPos, distance)
      decreases NodeCount(dim, inregionPos, distance) + PendingNodes(dim, moves)
    {
      found, stats, moves, moveHist, inregionHist :=
        VisitNode(dim, basePath, baseOrder, numRegions, inregionEnd, all, found, stats, moves, moveHist, inregionHist, inregionPos, distance);

      // Apply the next move.
      if moves == [] {
        break;
      }
      var f := moves[|moves| - 1];
      VisitNext(dim, all, found, stats, moves, moveHist, inregionHist, distance);
      moves := moves[..|moves| - 1];
      moveHist := moveHist[..f.depth] + [f.move];
      inregionHist := inregionHist[..f.depth] + [f.corner];
      inregionPos := Xor(f.corner, f.move);
      inregionPos := Xor(inregionPos, basePath[f.depth]);
      distance := f.depth + 1;
    }
    VisitedAll(dim, all, found, stats, moveHist, inregionHist, distance);
    r := Success(stats);
  }

  /**
   * The body of the search loop up to the pop: a terminal node records its
   * solution if the goal corner is reached, any other node stacks one frame
   * per offered move.
   */
  method VisitNode(dim: nat, basePath: seq<nat>, baseOrder: seq<nat>, numRegions: nat, inregionEnd: nat, ghost all: seq<Solution>,
                   ghost found: seq<Solution>, stats: Summary, moves: seq<Frame>, moveHist: seq<nat>, inregionHist: seq<nat>,
                   inregionPos: nat, distance: nat)
    returns (ghost found': seq<Solution>, stats': Summary, moves': seq<Frame>, moveHist': seq<nat>, inregionHist': seq<nat>)
    requires basePath == BasePath(dim) && baseOrder == BaseOrder(dim) && numRegions == Pow2(dim)
    requires dim >= 1 && inregionEnd == Pow2(dim - 1)
    requires Searching(dim, all, found, stats, moves, moveHist, inregionHist, inregionPos, distance)
    ensures Visited(dim, all, found', stats', moves', moveHist', inregionHist', distance)
    ensures PendingNodes(dim, moves') < NodeCount(dim, inregionPos, distance) + PendingNodes(dim, moves)
  {
    found', stats', moves', moveHist', inregionHist' := found, stats, moves, moveHist, inregionHist;
    if distance == numRegions - 1 {
      // Terminal region: record a solution if the goal corner is reached.
      var finalMove := basePath[|basePath| - 1];
      VisitTerminal(dim, all, found, stats, moves, moveHist, inregionHist, inregionPos);
      if inregionPos == Xor(inregionEnd, finalMove) {
        moveHist' := moveHist + [finalMove];
        inregionHist' := inregionHist + [inregionPos];
        var sRepl := OrientationSet(Solution(moveHist', inregionHist'));
        stats' := Record(stats, sRepl);
        found' := found + [Solution(moveHist', inregionHist')];
      }
    } else {
      // Otherwise push one frame per offered move.
      var newMoves := GenerateMoves(inregionPos, baseOrder[distance], basePath[distance], dim);
      VisitInner(dim, all, found, stats, moves, moveHist, inregionHist, inregionPos, distance);
      moves' := PushMoves(moves, inregionPos, newMoves, distance);
    }
  }

  // ---------------------------------------------------------------------------
  // What the search finds
  // ---------------------------------------------------------------------------

  /** Every step from depth `from` on uses an offered move and lands on its child corner. */
  predicate StepsValid(dim: nat, s: Solution, from: nat)
    requires |s.moves| == Pow2(dim) && |s.corners| == Pow2(dim)
  {
    forall i :: from <= i < Terminal(dim) ==>
      s.moves[i] in Moves(dim, s.corners[i], i) && s.corners[i + 1] == Child(dim, s.corners[i], s.moves[i], i)
  }

  /** s extends the histories mh and ih of node (pos, d) to a complete valid walk. */
  predicate Completes(dim: nat, pos: nat, d: nat, mh: seq<nat>, ih: seq<nat>, s: Solution)
    requires dim >= 1 && d <= Terminal(dim)
  {
    && |s.moves| == Pow2(dim) && |s.corners| == Pow2(dim)
    && s.moves[..d] == mh && s.corners[..d] == ih && s.corners[d] == pos
    && StepsValid(dim, s, d)
    && s.corners[Terminal(dim)] == Goal(dim)
    && s.moves[Terminal(dim)] == BasePath(dim)[Terminal(dim) - 1]
  }

  /**
   * A valid displacement sequence: 2^dim moves and in-region corners, starting
   * at corner 0, each move offered by the move rule and applied together with
   * the base path flip, ending on the goal corner with the final flip.
   */
  predicate IsSolution(dim: nat, s: Solution)
    requires dim >= 1
  {
    && |s.moves| == Pow2(dim) && |s.corners| == Pow2(dim)
    && s.corners[0] == 0
    && StepsValid(dim, s, 0)
    && s.corners[Terminal(dim)] == Goal(dim)
    && s.moves[Terminal(dim)] == BasePath(dim)[Terminal(dim) - 1]
  }

  /** s is listed below the child that one of the moves ms reaches. */
  predicate InSomeChild(dim: nat, pos: nat, d: nat, mh: seq<nat>, ih: seq<nat>, ms: seq<nat>, s: Solution)
    requires dim >= 1 && d < Terminal(dim)
  {
    exists j :: 0 <= j < |ms| && s in Explore(dim, Child(dim, pos, ms[j], d), d + 1, mh + [ms[j]], ih + [pos])
  }

  lemma InSomeChildSnoc(dim: nat, pos: nat, d: nat, mh: seq<nat>, ih: seq<nat>, ms: seq<nat>, s: Solution)
    requires dim >= 1 && d < Terminal(dim) && ms != []
    ensures var m := ms[|ms| - 1];
      InSomeChild(dim, pos, d, mh, ih, ms, s) <==>
        InSomeChild(dim, pos, d, mh, ih, ms[..|ms| - 1], s)
        || s in Explore(dim, Child(dim, pos, m, d), d + 1, mh + [m], ih + [pos])
  {
    var ms' := ms[..|ms| - 1];
    if InSomeChild(dim, pos, d, mh, ih, ms', s) {
      var j :| 0 <= j < |ms'| && s in Explore(dim, Child(dim, pos, ms'[j], d), d + 1, mh + [ms'[j]], ih + [pos]);
      assert ms[j] == ms'[j];
    }
    if InSomeChild(dim, pos, d, mh, ih, ms, s) {
      var j :| 0 <= j < |ms| && s in Explore(dim, Child(dim, pos, ms[j], d), d + 1, mh + [ms[j]], ih + [pos]);
      if j < |ms'| {
        assert ms[j] == ms'[j];
      }
    }
  }

  lemma {:induction false} ExploreMovesMembers(dim: nat, pos: nat, d: nat, mh: seq<nat>, ih: seq<nat>, ms: seq<nat>, s: Solution)
    requires dim >= 1 && d < Terminal(dim)
    ensures s in ExploreMoves(dim, pos, d, mh, ih, ms) <==>
              exists j :: 0 <= j < |ms| && s in Explore(dim, Child(dim, pos, ms[j], d), d + 1, mh + [ms[j]], ih + [pos])
    decreases |ms|
  {
    if ms != [] {
      ExploreMovesMembers(dim, pos, d, mh, ih, ms[..|ms| - 1], s);
      InSomeChildSnoc(dim, pos, d, mh, ih, ms, s);
    }
  }

  /** At the terminal depth, the one candidate solution. */
  lemma LeafMembers(dim: nat, pos: nat, mh: seq<nat>, ih: seq<nat>, s: Solution)
    requires dim >= 1 && |mh| == Terminal(dim) && |ih| == Terminal(dim)
    ensures s in Explore(dim, pos, Terminal(dim), mh, ih) <==> Completes(dim, pos, Terminal(dim), mh, ih, s)
  {
    var t := Terminal(dim);
    var finalMove := BasePath(dim)[t - 1];
    if Completes(dim, pos, t, mh, ih, s) {
      assert s.moves == s.moves[..t] + [s.moves[t]];
      assert s.corners == s.corners[..t] + [s.corners[t]];
    }
    if s in Explore(dim, pos, t, mh, ih) {
      assert s == Solution(mh + [finalMove], ih + [pos]);
      assert s.moves[..t] == mh && s.corners[..t] == ih;
    }
  }

  /** One step down the tree: completing the child with move m is completing the parent via m. */
  lemma StepMembers(dim: nat, pos: nat, d: nat, mh: seq<nat>, ih: seq<nat>, m: nat, s: Solution)
    requires dim >= 1 && d < Terminal(dim) && |mh| == d && |ih| == d
    ensures Completes(dim, Child(dim, pos, m, d), d + 1, mh + [m], ih + [pos], s) && m in Moves(dim, pos, d)
            <==> Completes(dim, pos, d, mh, ih, s) && s.moves[d] == m
  {
    if Completes(dim, Child(dim, pos, m, d), d + 1, mh + [m], ih + [pos], s) && m in Moves(dim, pos, d) {
      StepUp(dim, pos, d, mh, ih, m, s);
    }
    if Completes(dim, pos, d, mh, ih, s) && s.moves[d] == m {
      StepDown(dim, pos, d, mh, ih, m, s);
    }
  }

  /** A completion of the child via an offered move completes the parent. */
  lemma StepUp(dim: nat, pos: nat, d: nat, mh: seq<nat>, ih: seq<nat>, m: nat, s: Solution)
    requires dim >= 1 && d < Terminal(dim) && |mh| == d && |ih| == d
    requires Completes(dim, Child(dim, pos, m, d), d + 1, mh + [m], ih + [pos], s) && m in Moves(dim, pos, d)
    ensures Completes(dim, pos, d, mh, ih, s) && s.moves[d] == m
  {
    assert s.moves[..d] == s.moves[..d + 1][..d];
    assert s.corners[..d] == s.corners[..d + 1][..d];
    assert s.moves[d] == s.moves[..d + 1][d];
    assert s.corners[d] == s.corners[..d + 1][d];
  }

  /** A completion of the parent whose next move is m completes the child via m. */
  lemma StepDown(dim: nat, pos: nat, d: nat, mh: seq<nat>, ih: seq<nat>, m: nat, s: Solution)
    requires dim >= 1 && d < Terminal(dim) && |mh| == d && |ih| == d
    requires Completes(dim, pos, d, mh, ih, s) && s.moves[d] == m
    ensures Completes(dim, Child(dim, pos, m, d), d + 1, mh + [m], ih + [pos], s) && m in Moves(dim, pos, d)
  {
    assert s.moves[..d + 1] == mh + [m] by {
      assert s.moves[..d + 1] == s.moves[..d] + [s.moves[d]];
    }
    assert s.corners[..d + 1] == ih + [pos] by {
      assert s.corners[..d + 1] == s.corners[..d] + [s.corners[d]];
    }
    assert m in Moves(dim, pos, d) && s.corners[d + 1] == Child(dim, pos, m, d);
  }

  /**
   * Soundness and completeness of the search below one node: the solutions
   * it lists are exactly the valid completions of the node's histories.
   */
  lemma {:induction false} ExploreMembers(dim: nat, pos: nat, d: nat, mh: seq<nat>, ih: seq<nat>, s: Solution)
    requires dim >= 1 && d <= Terminal(dim) && |mh| == d && |ih| == d
    ensures s in Explore(dim, pos, d, mh, ih) <==> Completes(dim, pos, d, mh, ih, s)
    decreases Terminal(dim) - d
  {
    if d == Terminal(dim) {
      LeafMembers(dim, pos, mh, ih, s);
    } else {
      var ms := Moves(dim, pos, d);
      ExploreMovesMembers(dim, pos, d, mh, ih, ms, s);
      forall j | 0 <= j < |ms|
        ensures s in Explore(dim, Child(dim, pos, ms[j], d), d + 1, mh + [ms[j]], ih + [pos])
                <==> Completes(dim, pos, d, mh, ih, s) && s.moves[d] == ms[j]
      {
        ExploreMembers(dim, Child(dim, pos, ms[j], d), d + 1, mh + [ms[j]], ih + [pos], s);
        StepMembers(dim, pos, d, mh, ih, ms[j], s);
      }
      if Completes(dim, pos, d, mh, ih, s) {
        assert s.moves[d] in ms;
        var j :| 0 <= j < |ms| && ms[j] == s.moves[d];
      }
    }
  }

  /** `traverse` records exactly the valid displacement sequences. */
  lemma SolutionsAreValid(dim: nat, s: Solution)
    requires dim >= 1
    ensures s in Solutions(dim) <==> IsSolution(dim, s)
  {
    ExploreMembers(dim, 0, 0, [], [], s);
    if |s.moves| == Pow2(dim) && |s.corners| == Pow2(dim) {
      assert s.moves[..0] == [] && s.corners[..0] == [];
    }
  }

  /** No solution is listed twice. */
  predicate NoDuplicates(sols: seq<Solution>)
  {
    forall i, j :: 0 <= i < j < |sols| ==> sols[i] != sols[j]
  }

  lemma NoDuplicatesConcat(a: seq<Solution>, b: seq<Solution>)
    requires NoDuplicates(a) && NoDuplicates(b)
    requires forall x :: x in a ==> x !in b
    ensures NoDuplicates(a + b)
  {
    var c := a + b;
    forall i, j | 0 <= i < j < |c|
      ensures c[i] != c[j]
    {
      if j < |a| {
        assert c[i] == a[i] && c[j] == a[j];
      } else if i >= |a| {
        assert c[i] == b[i - |a|] && c[j] == b[j - |a|];
      } else {
        assert c[i] == a[i] && c[j] == b[j - |a|];
        assert c[i] in a && c[j] in b;
      }
    }
  }

  /** The move rule never offers the same displacement twice. */
  lemma MovesDistinct(dim: nat, pos: nat, d: nat)
    requires d < Terminal(dim)
    ensures var ms := Moves(dim, pos, d);
      forall i, j :: 0 <= i < j < |ms| ==> ms[i] != ms[j]
  {
    var ms := Moves(dim, pos, d);
    if ms != [BasePath(dim)[d]] {
      assert ms == DescendingAxesExcept(dim, BasePath(dim)[d]);
      DescendingAxesDecreasing(dim, BasePath(dim)[d]);
      var r := DescendingAxesExcept(dim, BasePath(dim)[d]);
      assert forall i, j :: 0 <= i < j < |r| ==> r[i] > r[j];
    }
  }

  lemma {:induction false} ExploreMovesDistinct(dim: nat, pos: nat, d: nat, mh: seq<nat>, ih: seq<nat>, ms: seq<nat>)
    requires dim >= 1 && d < Terminal(dim) && |mh| == d && |ih| == d
    requires forall i, j :: 0 <= i < j < |ms| ==> ms[i] != ms[j]
    ensures NoDuplicates(ExploreMoves(dim, pos, d, mh, ih, ms))
    ensures forall s :: s in ExploreMoves(dim, pos, d, mh, ih, ms) ==> d < |s.moves| && s.moves[d] in ms
    decreases Terminal(dim) - d, 0, |ms|
  {
    if ms != [] {
      var m := ms[|ms| - 1];
      var ms' := ms[..|ms| - 1];
      var a := Explore(dim, Child(dim, pos, m, d), d + 1, mh + [m], ih + [pos]);
      var b := ExploreMoves(dim, pos, d, mh, ih, ms');
      ExploreDistinct(dim, Child(dim, pos, m, d), d + 1, mh + [m], ih + [pos]);
      ExploreMovesDistinct(dim, pos, d, mh, ih, ms');
      forall s | s in a
        ensures d < |s.moves| && s.moves[d] == m
      {
        ExploreMembers(dim, Child(dim, pos, m, d), d + 1, mh + [m], ih + [pos], s);
        assert s.moves[..d + 1][d] == m;
      }
      forall s | s in b
        ensures s.moves[d] in ms && s.moves[d] != m
      {
        var j :| 0 <= j < |ms'| && ms'[j] == s.moves[d];
        assert ms[j] == ms'[j];
      }
      NoDuplicatesConcat(a, b);
    }
  }

  /** The search below one node never records the same solution twice. */
  lemma {:induction false} ExploreDistinct(dim: nat, pos: nat, d: nat, mh: seq<nat>, ih: seq<nat>)
    requires dim >= 1 && d <= Terminal(dim) && |mh| == d && |ih| == d
    ensures NoDuplicates(Explore(dim, pos, d, mh, ih))
    decreases Terminal(dim) - d, 1, 0
  {
    if d < Terminal(dim) {
      MovesDistinct(dim, pos, d);
      ExploreMovesDistinct(dim, pos, d, mh, ih, Moves(dim, pos, d));
    }
  }

  /**
   * num_solutions is the number of distinct valid displacement sequences:
   * the recorded solutions are pairwise distinct and are exactly the valid ones.
   */
  lemma SolutionsCounted(dim: nat)
    requires dim >= 1
    ensures NoDuplicates(Solutions(dim))
    ensures forall s :: s in Solutions(dim) <==> IsSolution(dim, s)
    ensures Summarize(Solutions(dim)).numSolutions == |Solutions(dim)|
  {
    ExploreDistinct(dim, 0, 0, [], []);
    forall s
      ensures s in Solutions(dim) <==> IsSolution(dim, s)
    {
      SolutionsAreValid(dim, s);
    }
    SummarizeCounts(Solutions(dim));
  }

  /** The base path and base order of dimension 2. */
  lemma Dimension2Tables()
    ensures Pow2(2) == 4 && Terminal(2) == 3 && Pow2(1) == 2
    ensures BasePath(2) == [1, 2, 1]
    ensures BaseOrder(2) == [0, 1, 3, 2]
  {
    assert BasePath(1) == [1];
    assert XorScan(2, []) == [2];
    assert XorScan(3, [1]) == [3, 2];
    assert XorScan(1, [2, 1]) == [1, 3, 2];
  }

  /** The one path through the dimension-2 search tree: one move offered at each depth. */
  lemma Dimension2Moves()
    ensures Moves(2, 0, 0) == [1] && Child(2, 0, 1, 0) == 0
    ensures Moves(2, 0, 1) == [2] && Child(2, 0, 2, 1) == 0
    ensures Moves(2, 0, 2) == [2] && Child(2, 0, 2, 2) == 3
  {
    Dimension2Tables();
    assert And(3, 1) == 1;
    assert DescendingAxesExcept(2, 1) == [2];
  }

  /** In dimension 2 the search finds exactly one solution, using three orientations. */
  lemma Dimension2()
    ensures Solutions(2) == [Solution([1, 2, 2, 1], [0, 0, 0, 3])]
  {
    Dimension2Tables();
    Dimension2Moves();
    assert Xor(2, 1) == 3;
    assert [1, 2, 2] + [1] == [1, 2, 2, 1] && [0, 0, 0] + [3] == [0, 0, 0, 3];
    assert [1, 2] + [2] == [1, 2, 2] && [0, 0] + [0] == [0, 0, 0];
    assert [1] + [2] == [1, 2] && [0] + [0] == [0, 0];
    assert [] + [1] == [1] && [] + [0] == [0];
    assert Explore(2, 3, 3, [1, 2, 2], [0, 0, 0]) == [Solution([1, 2, 2, 1], [0, 0, 0, 3])];
    assert Explore(2, 0, 2, [1, 2], [0, 0]) == [Solution([1, 2, 2, 1], [0, 0, 0, 3])];
    assert Explore(2, 0, 1, [1], [0]) == [Solution([1, 2, 2, 1], [0, 0, 0, 3])];
  }
}
