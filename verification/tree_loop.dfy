/**
 * `SFC_TreeLoop` of include/sfcTreeLoop.h: a depth-first traversal of a
 * 2^dim-ary tree in space-filling-curve order, turned inside out into a
 * stack of frames that `step` and `next` advance one event at a time.
 *
 * The four user callbacks are abstracted: `topDownNodes` is a function that
 * gives the extant-children mask of a subtree, and each callback call is
 * recorded in an event trace. The curve tables are functions of a rotation:
 * `rotPerm(rot, sfcRank)` is the Morton child at that rank, and
 * `hilbert(rot, child)` is that child's rotation.
 */
module TreeLoop {
  import opened Bits
  import opened BinUtils

  /** The curve tables and the traversal callback the loop is built on. */
  datatype Config = Config(
    dim: nat,
    rotPerm: (nat, nat) -> nat,
    hilbert: (nat, nat) -> nat,
    topDown: seq<nat> -> nat)

  /**
   * A stack frame: the pre/post flag, the rotation, the extant-children mask
   * and count, the parent frame (as a stack position, -1 for the root), the
   * SFC rank it has among its siblings, and its subtree as the Morton path
   * from the root.
   */
  datatype Frame = Frame(
    isPre: bool,
    pRot: nat,
    extantChildren: nat,
    numExtantChildren: nat,
    parent: int,
    childSfc: nat,
    subtree: seq<nat>)

  /** The callbacks, in the order the loop calls them; frames are named by stack position. */
  datatype Event =
    | TopDownNodes(frame: nat)
    | BottomUpNodes(frame: nat, extantChildren: nat)
    | Parent2Child(parent: int, child: nat)
    | Child2Parent(parent: int, child: nat)

  /** The frame built from the root data: pre, rotation 0, no extant children. */
  const RootFrame := Frame(true, 0, 0, 0, -1, 0, [])

  function NumChildren(cfg: Config): nat
  {
    Pow2(cfg.dim)
  }

  /** The new frame for the child of `top` at SFC rank `sfc`, with parent at position p. */
  function ChildFrame(cfg: Config, top: Frame, p: nat, sfc: nat): Frame
  {
    var m := cfg.rotPerm(top.pRot, sfc);
    Frame(true, cfg.hilbert(top.pRot, m), 0, 0, p, sfc, top.subtree + [m])
  }

  /** Child m of `top` is extant under the mask. */
  predicate Extant(cfg: Config, top: Frame, extant: nat, sfc: nat)
  {
    Bit(extant, cfg.rotPerm(top.pRot, sfc))
  }

  /** The frames pushed by the first `rev` rounds of the reversed child loop. */
  function Children(cfg: Config, top: Frame, p: nat, extant: nat, rev: nat): (r: seq<Frame>)
    requires rev <= NumChildren(cfg)
    ensures |r| <= rev
  {
    if rev == 0 then []
    else
      var sfc := NumChildren(cfg) - rev;
      Children(cfg, top, p, extant, rev - 1)
        + (if Extant(cfg, top, extant, sfc) then [ChildFrame(cfg, top, p, sfc)] else [])
  }

  /** The number of SFC ranks at or above `NumChildren - rev` whose child is extant. */
  function CountExtant(cfg: Config, top: Frame, extant: nat, rev: nat): nat
    requires rev <= NumChildren(cfg)
  {
    if rev == 0 then 0
    else CountExtant(cfg, top, extant, rev - 1) + (if Extant(cfg, top, extant, NumChildren(cfg) - rev) then 1 else 0)
  }

  /** The stack after `next()`. */
  function NextStack(s: seq<Frame>): (r: seq<Frame>)
    requires |s| >= 1
  {
    if |s| > 1 then s[..|s| - 1]
    else [s[0].(isPre := false)]
  }

  /** The callbacks `next()` makes. */
  function NextEvents(s: seq<Frame>): seq<Event>
    requires |s| >= 1
  {
    if |s| > 1 then
      var top := s[|s| - 2];
      [Child2Parent(s[|s| - 1].parent, |s| - 1)]
        + (if top.isPre then [Parent2Child(top.parent, |s| - 2)]
           else [BottomUpNodes(|s| - 2, top.extantChildren)])
    else []
  }

  /** The mask topDownNodes leaves for the top frame. */
  function ExtantOf(cfg: Config, s: seq<Frame>): nat
    requires |s| >= 1
  {
    cfg.topDown(s[|s| - 1].subtree)
  }

  /** The stack after `step()`. */
  function StepStack(cfg: Config, s: seq<Frame>): (r: seq<Frame>)
    requires |s| >= 1
  {
    var n := |s|;
    var top := s[n - 1];
    if top.isPre then
      var extant := ExtantOf(cfg, s);
      var kids := Children(cfg, top, n - 1, extant, NumChildren(cfg));
      s[..n - 1] + [top.(isPre := false, extantChildren := extant, numExtantChildren := |kids|)] + kids
    else NextStack(s)
  }

  /** The callbacks `step()` makes. */
  function StepEvents(cfg: Config, s: seq<Frame>): seq<Event>
    requires |s| >= 1
  {
    var n := |s|;
    var top := s[n - 1];
    if top.isPre then
      var extant := ExtantOf(cfg, s);
      var kids := Children(cfg, top, n - 1, extant, NumChildren(cfg));
      [TopDownNodes(n - 1)]
        + (if |kids| > 0 then [Parent2Child(n - 1, n + |kids| - 1)] else [BottomUpNodes(n - 1, extant)])
    else NextEvents(s)
  }

  /**
   * The shape the loop keeps: a root frame at the bottom, and every other
   * frame's parent sits below it and has already been stepped (is post).
   */
  predicate WellFormed(s: seq<Frame>)
  {
    |s| >= 1 && s[0].parent == -1
    && forall i :: 0 < i < |s| ==> 0 <= s[i].parent < i && !s[s[i].parent].isPre
  }

  /** `isFinished()`: only the root frame is left, and it is post. */
  predicate Finished(s: seq<Frame>)
  {
    |s| == 1 && !s[0].isPre
  }

  class SFCTreeLoop {
    const cfg: Config
    var stack: seq<Frame>
    /** The callbacks made so far. */
    ghost var events: seq<Event>

    ghost predicate Valid()
      reads this
    {
      WellFormed(stack)
    }

    /** `SFC_TreeLoop()`: one root frame. */
    constructor (cfg: Config)
      ensures Valid() && this.cfg == cfg && stack == [RootFrame] && events == []
    {
      this.cfg := cfg;
      stack := [RootFrame];
      events := [];
    }

    /** `reset()`: back to the one root frame. */
    method Reset()
      modifies this
      ensures Valid() && stack == [RootFrame] && events == old(events)
    {
      stack := [];
      stack := stack + [RootFrame];
    }

    /** `isPre()`: the flag of the top frame. */
    function IsPre(): bool
      reads this
      requires |stack| >= 1
    {
      stack[|stack| - 1].isPre
    }

    /** `isFinished()`. */
    function IsFinished(): (r: bool)
      reads this
      requires |stack| >= 1
      ensures r <==> Finished(stack)
    {
      |stack| == 1 && !IsPre()
    }

    /**
     * `next()`: leave the top frame for its parent, or, at the root, mark
     * the root post. Returns `isPre()` of the new top.
     */
    method Next() returns (r: bool)
      requires Valid()
      modifies this
      ensures Valid()
      ensures stack == NextStack(old(stack)) && events == old(events) + NextEvents(old(stack))
      ensures r == IsPre()
    {
      NextKeepsWellFormed(stack);
      if |stack| > 1 {
        var n := |stack|;
        events := events + [Child2Parent(stack[n - 1].parent, n - 1)];
        stack := stack[..n - 1];
        if stack[n - 2].isPre {
          events := events + [Parent2Child(stack[n - 2].parent, n - 2)];
        } else {
          events := events + [BottomUpNodes(n - 2, stack[n - 2].extantChildren)];
        }
      } else {
        stack := stack[0 := stack[0].(isPre := false)];
      }
      r := IsPre();
    }

    /**
     * `step()`: on a pre frame, mark it post, ask topDownNodes for its
     * extant children and push one pre frame per extant child, in reverse
     * SFC order; then enter the first child, or go back up if there is none.
     * On a post frame it is `next()`.
     */
    method Step() returns (r: bool)
      requires Valid()
      modifies this
      ensures Valid()
      ensures stack == StepStack(cfg, old(stack)) && events == old(events) + StepEvents(cfg, old(stack))
      ensures r == IsPre()
    {
      StepKeepsWellFormed(cfg, stack);
      if stack[|stack| - 1].isPre {
        Descend();
        r := IsPre();
      } else {
        r := Next();
      }
    }

    /**
     * The pre branch of `step()`: mark the top frame post, ask topDownNodes
     * for its mask, push its extant children, then call parent2Child for the
     * new top or bottomUpNodes for the stepped frame.
     */
    method Descend()
      requires |stack| >= 1 && stack[|stack| - 1].isPre
      modifies this
      ensures stack == StepStack(cfg, old(stack)) && events == old(events) + StepEvents(cfg, old(stack))
    {
      var n := |stack|;
      ghost var s0 := stack;
      ghost var top := s0[n - 1];
      stack := stack[n - 1 := stack[n - 1].(isPre := false)];
      stack := stack[n - 1 := stack[n - 1].(extantChildren := 0)];
      var extant := cfg.topDown(stack[n - 1].subtree);
      stack := stack[n - 1 := stack[n - 1].(extantChildren := extant)];
      events := events + [TopDownNodes(n - 1)];
      stack := stack[n - 1 := stack[n - 1].(numExtantChildren := 0)];
      ghost var prefix := s0[..n - 1];
      ghost var parent := top.(isPre := false, extantChildren := extant);
      assert stack == prefix + [parent.(numExtantChildren := 0)];
      PushChildren(prefix, parent, top);
      ghost var kids := Children(cfg, top, n - 1, extant, NumChildren(cfg));
      ChildrenFrames(cfg, top, n - 1, extant, NumChildren(cfg));
      assert extant == ExtantOf(cfg, s0);
      assert |stack| == n + |kids| && stack[n - 1].numExtantChildren == |kids|;
      assert |kids| > 0 ==> stack[|stack| - 1] == kids[|kids| - 1];
      if stack[n - 1].numExtantChildren > 0 {
        events := events + [Parent2Child(stack[|stack| - 1].parent, |stack| - 1)];
      } else {
        events := events + [BottomUpNodes(n - 1, stack[n - 1].extantChildren)];
      }
      assert parent.(numExtantChildren := |kids|)
        == top.(isPre := false, extantChildren := extant, numExtantChildren := |kids|);
      assert stack == StepStack(cfg, s0);
      assert events == old(events) + StepEvents(cfg, s0);
    }

    /**
     * The child loop of `step()`: for each SFC rank from last to first, push a
     * pre frame for the child if its bit is set in the mask, and count it in
     * the stepped frame (at position n - 1).
     */
    method PushChildren(ghost prefix: seq<Frame>, ghost parent: Frame, ghost top: Frame)
      requires parent.pRot == top.pRot && parent.subtree == top.subtree
      requires stack == prefix + [parent.(numExtantChildren := 0)]
      modifies this
      ensures stack == prefix + [parent.(numExtantChildren := |Children(cfg, top, |prefix|, parent.extantChildren, NumChildren(cfg))|)]
        + Children(cfg, top, |prefix|, parent.extantChildren, NumChildren(cfg))
      ensures events == old(events)
    {
      var n := |stack|;
      ghost var extant := parent.extantChildren;
      assert stack == prefix + [parent.(numExtantChildren := 0)] + [];
      var rev := 0;
      while rev < NumChildren(cfg)
        invariant rev <= NumChildren(cfg)
        invariant stack == prefix + [parent.(numExtantChildren := |Children(cfg, top, n - 1, extant, rev)|)]
          + Children(cfg, top, n - 1, extant, rev)
        invariant events == old(events)
      {
        ghost var kids := Children(cfg, top, n - 1, extant, rev);
        var childSfc := NumChildren(cfg) - 1 - rev;
        var pRot := stack[n - 1].pRot;
        var childM := cfg.rotPerm(pRot, childSfc);
        var cRot := cfg.hilbert(pRot, childM);
        AndBitNonzero(stack[n - 1].extantChildren, childM);
        if And(stack[n - 1].extantChildren, Pow2(childM)) != 0 {
          var child := Frame(true, cRot, 0, 0, n - 1, childSfc, stack[n - 1].subtree + [childM]);
          assert child == ChildFrame(cfg, top, n - 1, childSfc);
          PushChild(prefix, parent, kids, child);
          stack := stack + [child];
          stack := stack[n - 1 := stack[n - 1].(numExtantChildren := stack[n - 1].numExtantChildren + 1)];
        }
        rev := rev + 1;
      }
    }
  }

  /** Pushing a child frame and then counting it in its parent. */
  lemma PushChild(prefix: seq<Frame>, parent: Frame, kids: seq<Frame>, child: Frame)
    ensures var s := prefix + [parent.(numExtantChildren := |kids|)] + kids + [child];
      s[|prefix| := s[|prefix|].(numExtantChildren := s[|prefix|].numExtantChildren + 1)]
        == prefix + [parent.(numExtantChildren := |kids + [child]|)] + (kids + [child])
  {
    var s := prefix + [parent.(numExtantChildren := |kids|)] + kids + [child];
    var t := prefix + [parent.(numExtantChildren := |kids + [child]|)] + (kids + [child]);
    assert s[|prefix|] == parent.(numExtantChildren := |kids|);
    var u := s[|prefix| := s[|prefix|].(numExtantChildren := s[|prefix|].numExtantChildren + 1)];
    assert |u| == |t|;
    forall i | 0 <= i < |u|
      ensures u[i] == t[i]
    {
      if i < |prefix| {
      } else if i == |prefix| {
      } else if i < |prefix| + 1 + |kids| {
        assert u[i] == kids[i - |prefix| - 1];
      }
    }
  }

  // ---------------------------------------------------------------------------
  // Properties of step and next
  // ---------------------------------------------------------------------------

  /** The children pushed are pre frames whose parent is the stepped frame, rotated by the table. */
  lemma {:induction false} ChildrenFrames(cfg: Config, top: Frame, p: nat, extant: nat, rev: nat)
    requires rev <= NumChildren(cfg)
    ensures |Children(cfg, top, p, extant, rev)| == CountExtant(cfg, top, extant, rev)
    ensures forall i :: 0 <= i < |Children(cfg, top, p, extant, rev)| ==>
      var c := Children(cfg, top, p, extant, rev)[i];
      c.isPre && c.parent == p && c.extantChildren == 0 && c.numExtantChildren == 0
      && NumChildren(cfg) - rev <= c.childSfc < NumChildren(cfg)
      && Extant(cfg, top, extant, c.childSfc)
      && c == ChildFrame(cfg, top, p, c.childSfc)
  {
    if rev > 0 {
      ChildrenFrames(cfg, top, p, extant, rev - 1);
    }
  }

  /**
   * Children are pushed in reverse SFC order, one for each extant child, so
   * the last one pushed (the new top) is the extant child first in SFC order.
   */
  lemma {:induction false} ChildrenOrder(cfg: Config, top: Frame, p: nat, extant: nat, rev: nat)
    requires rev <= NumChildren(cfg)
    ensures forall i, j :: 0 <= i < j < |Children(cfg, top, p, extant, rev)| ==>
      Children(cfg, top, p, extant, rev)[i].childSfc > Children(cfg, top, p, extant, rev)[j].childSfc
    ensures forall sfc :: NumChildren(cfg) - rev <= sfc < NumChildren(cfg) && Extant(cfg, top, extant, sfc) ==>
      exists i :: 0 <= i < |Children(cfg, top, p, extant, rev)| && Children(cfg, top, p, extant, rev)[i].childSfc == sfc
  {
    if rev > 0 {
      ChildrenOrder(cfg, top, p, extant, rev - 1);
      ChildrenFrames(cfg, top, p, extant, rev - 1);
      var sfc := NumChildren(cfg) - rev;
      var prev := Children(cfg, top, p, extant, rev - 1);
      var cur := Children(cfg, top, p, extant, rev);
      assert cur[..|prev|] == prev;
      forall s' | NumChildren(cfg) - rev <= s' < NumChildren(cfg) && Extant(cfg, top, extant, s')
        ensures exists i :: 0 <= i < |cur| && cur[i].childSfc == s'
      {
        if s' == sfc {
          assert cur[|prev|].childSfc == sfc;
        } else {
          var i :| 0 <= i < |prev| && prev[i].childSfc == s';
          assert cur[i] == prev[i];
        }
      }
    }
  }

  /** The new top after pushing children is the extant child that comes first on the curve. */
  lemma FirstChildOnTop(cfg: Config, top: Frame, p: nat, extant: nat)
    requires |Children(cfg, top, p, extant, NumChildren(cfg))| > 0
    ensures var kids := Children(cfg, top, p, extant, NumChildren(cfg));
      forall sfc :: 0 <= sfc < NumChildren(cfg) && Extant(cfg, top, extant, sfc) ==>
        kids[|kids| - 1].childSfc <= sfc
  {
    var kids := Children(cfg, top, p, extant, NumChildren(cfg));
    ChildrenOrder(cfg, top, p, extant, NumChildren(cfg));
    forall sfc | 0 <= sfc < NumChildren(cfg) && Extant(cfg, top, extant, sfc)
      ensures kids[|kids| - 1].childSfc <= sfc
    {
      var i :| 0 <= i < |kids| && kids[i].childSfc == sfc;
      if i < |kids| - 1 {
        assert kids[i].childSfc > kids[|kids| - 1].childSfc;
      }
    }
  }

  /**
   * step on a pre frame marks it post, records its mask, pushes one pre
   * frame per extant child, and counts them in `numExtantChildren`.
   */
  lemma StepOnPre(cfg: Config, s: seq<Frame>)
    requires |s| >= 1 && s[|s| - 1].isPre
    ensures var t := StepStack(cfg, s); var n := |s|;
      var count := CountExtant(cfg, s[n - 1], ExtantOf(cfg, s), NumChildren(cfg));
      |t| == n + count && t[..n - 1] == s[..n - 1]
      && !t[n - 1].isPre && t[n - 1].numExtantChildren == count
      && t[n - 1].extantChildren == ExtantOf(cfg, s)
      && forall i :: n <= i < |t| ==> t[i].isPre && t[i].parent == n - 1
  {
    var n := |s|;
    var kids := Children(cfg, s[n - 1], n - 1, ExtantOf(cfg, s), NumChildren(cfg));
    ChildrenFrames(cfg, s[n - 1], n - 1, ExtantOf(cfg, s), NumChildren(cfg));
    var t := StepStack(cfg, s);
    assert t[..n - 1] == s[..n - 1];
    forall i | n <= i < |t|
      ensures t[i].isPre && t[i].parent == n - 1
    {
      assert t[i] == kids[i - n];
    }
  }

  /**
   * If step pushes no children the stack keeps its size and bottomUpNodes
   * runs on the stepped frame; otherwise parent2Child runs for the new top.
   */
  lemma StepCallbacks(cfg: Config, s: seq<Frame>)
    requires |s| >= 1 && s[|s| - 1].isPre
    ensures var t := StepStack(cfg, s); var n := |s|;
      (|t| == n <==> StepEvents(cfg, s) == [TopDownNodes(n - 1), BottomUpNodes(n - 1, ExtantOf(cfg, s))])
      && (|t| > n <==> StepEvents(cfg, s) == [TopDownNodes(n - 1), Parent2Child(n - 1, |t| - 1)])
  {
    var n := |s|;
    var extant := ExtantOf(cfg, s);
    var kids := Children(cfg, s[n - 1], n - 1, extant, NumChildren(cfg));
    var t := StepStack(cfg, s);
    assert |t| == n + |kids|;
    if |kids| == 0 {
      assert StepEvents(cfg, s) == [TopDownNodes(n - 1), BottomUpNodes(n - 1, extant)];
    } else {
      assert StepEvents(cfg, s) == [TopDownNodes(n - 1), Parent2Child(n - 1, |t| - 1)];
    }
  }

  /** next pops exactly one frame, and at the root only clears the flag: at least one frame is left. */
  lemma NextPops(s: seq<Frame>)
    requires |s| >= 1
    ensures |s| > 1 ==> NextStack(s) == s[..|s| - 1]
    ensures |s| == 1 ==> NextStack(s) == [s[0].(isPre := false)] && !NextStack(s)[0].isPre
    ensures |NextStack(s)| >= 1
  {
  }

  /** Once finished, step and next leave the stack as it is. */
  lemma FinishedIsFinal(cfg: Config, s: seq<Frame>)
    requires Finished(s)
    ensures NextStack(s) == s && StepStack(cfg, s) == s && Finished(StepStack(cfg, s))
  {
    assert s[0].(isPre := false) == s[0];
  }

  /** next keeps the shape of the stack. */
  lemma NextKeepsWellFormed(s: seq<Frame>)
    requires WellFormed(s)
    ensures WellFormed(NextStack(s))
  {
    var t := NextStack(s);
    if |s| > 1 {
      forall i | 0 < i < |t|
        ensures 0 <= t[i].parent < i && !t[t[i].parent].isPre
      {
        assert t[i] == s[i] && t[t[i].parent] == s[s[i].parent];
      }
    }
  }

  /** step keeps the shape of the stack: the pushed children hang off the frame just made post. */
  lemma StepKeepsWellFormed(cfg: Config, s: seq<Frame>)
    requires WellFormed(s)
    ensures WellFormed(StepStack(cfg, s))
  {
    var n := |s|;
    if s[n - 1].isPre {
      var t := StepStack(cfg, s);
      StepOnPre(cfg, s);
      forall i | 0 < i < |t|
        ensures 0 <= t[i].parent < i && !t[t[i].parent].isPre
      {
        if i < n - 1 {
          assert t[i] == s[i] && t[t[i].parent] == s[s[i].parent];
        } else if i == n - 1 {
          assert t[i].parent == s[i].parent && t[t[i].parent] == s[s[i].parent];
        }
      }
    } else {
      NextKeepsWellFormed(s);
    }
  }
}
