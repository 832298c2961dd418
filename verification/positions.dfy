/**
 * Multisets of the entries of a sequence at chosen positions. An in-place
 * algorithm that lifts some entries out of an array into a side buffer is
 * specified by "the entries not lifted, plus the buffer, are the original
 * entries"; `Except` is the first half of that sum.
 */
module Positions {

  /** No entry of s occurs twice. */
  predicate AllDistinct(s: seq<nat>)
  {
    forall i, j :: 0 <= i < j < |s| ==> s[i] != s[j]
  }

  /** p lists every number below n exactly once: a permutation of range(n). */
  predicate IsPerm(p: seq<nat>, n: nat)
  {
    |p| == n && (forall k :: 0 <= k < n ==> p[k] < n) && AllDistinct(p)
  }

  /** Distinct numbers below m are at most m many. */
  lemma {:induction false} Pigeonhole(p: seq<nat>, m: nat)
    requires AllDistinct(p) && forall k :: 0 <= k < |p| ==> p[k] < m
    ensures |p| <= m
  {
    assert |p| > 0 ==> p[0] < m;
    if m == 0 {
    } else if j :| 0 <= j < |p| && p[j] == m - 1 {
      var q := p[..j] + p[j + 1..];
      assert forall k :: 0 <= k < |q| ==> q[k] == (if k < j then p[k] else p[k + 1]);
      Pigeonhole(q, m - 1);
    } else {
      Pigeonhole(p, m - 1);
    }
  }

  /** A permutation of range(n) contains every number below n. */
  lemma {:induction false} PermCovers(p: seq<nat>, n: nat, b: nat)
    requires IsPerm(p, n) && b < n
    ensures b in p
  {
    if j :| 0 <= j < n && p[j] == n - 1 {
      if b < n - 1 {
        var q := p[..j] + p[j + 1..];
        assert forall k :: 0 <= k < |q| ==> q[k] == (if k < j then p[k] else p[k + 1]);
        PermCovers(q, n - 1, b);
        var k :| 0 <= k < |q| && q[k] == b;
      }
    } else {
      Pigeonhole(p, n - 1);
    }
  }

  /** The position of m in p, or |p| if absent. */
  function IndexOf(p: seq<nat>, m: nat): (k: nat)
    ensures k <= |p| && (k < |p| ==> p[k] == m)
    ensures forall j :: 0 <= j < k ==> p[j] != m
  {
    if |p| == 0 then 0
    else if p[0] == m then 0
    else 1 + IndexOf(p[1..], m)
  }

  /** In a permutation the position of the k-th entry is k. */
  lemma IndexOfPerm(p: seq<nat>, n: nat, k: nat)
    requires IsPerm(p, n) && k < n
    ensures IndexOf(p, p[k]) == k
  {
    var r := IndexOf(p, p[k]);
    assert r <= k;
  }

  /** The multiset of s[i] for lo <= i < hi and i not in X. */
  ghost function Except<T>(s: seq<T>, lo: int, hi: int, X: set<int>): multiset<T>
    requires 0 <= lo <= hi <= |s|
    decreases hi - lo
  {
    if lo == hi then multiset{}
    else Except(s, lo, hi - 1, X) + (if hi - 1 in X then multiset{} else multiset{s[hi - 1]})
  }

  /** With no position excluded, `Except` is the multiset of the slice. */
  lemma {:induction false} ExceptNone<T>(s: seq<T>, lo: int, hi: int, X: set<int>)
    requires 0 <= lo <= hi <= |s|
    requires forall i :: lo <= i < hi ==> i !in X
    ensures Except(s, lo, hi, X) == multiset(s[lo..hi])
    decreases hi - lo
  {
    if lo < hi {
      ExceptNone(s, lo, hi - 1, X);
      assert hi - 1 !in X;
      assert s[lo..hi] == s[lo..hi - 1] + [s[hi - 1]];
    }
  }

  /** Writing at an excluded position, or outside the window, changes nothing. */
  lemma {:induction false} ExceptWrite<T>(s: seq<T>, lo: int, hi: int, X: set<int>, p: int, v: T)
    requires 0 <= lo <= hi <= |s| && 0 <= p < |s|
    requires p in X || p < lo || hi <= p
    ensures Except(s[p := v], lo, hi, X) == Except(s, lo, hi, X)
    decreases hi - lo
  {
    if lo < hi {
      var t := s[p := v];
      ExceptWrite(s, lo, hi - 1, X, p, v);
      if hi - 1 !in X {
        assert t[hi - 1] == s[hi - 1];
      }
      assert Except(t, lo, hi, X) == Except(t, lo, hi - 1, X)
        + (if hi - 1 in X then multiset{} else multiset{t[hi - 1]});
    }
  }

  /** Including an excluded position adds its entry. */
  lemma {:induction false} ExceptInclude<T>(s: seq<T>, lo: int, hi: int, X: set<int>, p: int)
    requires 0 <= lo <= p < hi <= |s| && p in X
    ensures Except(s, lo, hi, X - {p}) == Except(s, lo, hi, X) + multiset{s[p]}
    decreases hi - lo
  {
    if p < hi - 1 {
      ExceptInclude(s, lo, hi - 1, X, p);
      ExceptIncludeBelow(s, lo, hi, X, p);
    } else {
      ExceptIncludeTop(s, lo, hi, X, p);
    }
  }

  /** The base of `ExceptInclude`: the position is the last one of the window. */
  lemma ExceptIncludeTop<T>(s: seq<T>, lo: int, hi: int, X: set<int>, p: int)
    requires 0 <= lo <= p && p == hi - 1 && hi <= |s| && p in X
    ensures Except(s, lo, hi, X - {p}) == Except(s, lo, hi, X) + multiset{s[p]}
  {
    ExceptSame(s, lo, hi - 1, X, X - {p});
    assert p !in X - {p};
  }

  /** The step of `ExceptInclude` for a position below the last one. */
  lemma ExceptIncludeBelow<T>(s: seq<T>, lo: int, hi: int, X: set<int>, p: int)
    requires 0 <= lo <= p < hi - 1 && hi <= |s| && p in X
    requires Except(s, lo, hi - 1, X - {p}) == Except(s, lo, hi - 1, X) + multiset{s[p]}
    ensures Except(s, lo, hi, X - {p}) == Except(s, lo, hi, X) + multiset{s[p]}
  {
    var tail := if hi - 1 in X then multiset{} else multiset{s[hi - 1]};
    assert (hi - 1 in X - {p}) == (hi - 1 in X);
    assert Except(s, lo, hi, X - {p}) == Except(s, lo, hi - 1, X - {p}) + tail;
  }

  /** Only the excluded positions inside the window matter. */
  lemma {:induction false} ExceptSame<T>(s: seq<T>, lo: int, hi: int, X: set<int>, Y: set<int>)
    requires 0 <= lo <= hi <= |s|
    requires forall i :: lo <= i < hi ==> (i in X <==> i in Y)
    ensures Except(s, lo, hi, X) == Except(s, lo, hi, Y)
    decreases hi - lo
  {
    if lo < hi {
      ExceptSame(s, lo, hi - 1, X, Y);
      assert (hi - 1 in X) == (hi - 1 in Y);
    }
  }

  /** Excluding a further position removes its entry. */
  lemma ExceptAdd<T>(s: seq<T>, lo: int, hi: int, X: set<int>, p: int)
    requires 0 <= lo <= p < hi <= |s| && p !in X
    ensures Except(s, lo, hi, X) == Except(s, lo, hi, X + {p}) + multiset{s[p]}
  {
    ExceptInclude(s, lo, hi, X + {p}, p);
    assert X + {p} - {p} == X;
  }

  /**
   * One step of cycle following that goes on: the buffer's top entry x is
   * set down in the hole p, and the entry at q becomes the new hole and the
   * new top. Entries outside the holes plus the buffer are unchanged.
   */
  lemma SetDownAndPickUp<T>(s: seq<T>, lo: int, hi: int, holes: set<int>, buffer: seq<T>, p: int, q: int)
    requires 0 <= lo <= p < hi <= |s| && lo <= q < hi && p != q
    requires p in holes && q !in holes && |buffer| > 0
    ensures var x := buffer[|buffer| - 1];
      Except(s[p := x], lo, hi, holes - {p} + {q}) + multiset(buffer[|buffer| - 1 := s[q]])
        == Except(s, lo, hi, holes) + multiset(buffer)
  {
    var x := buffer[|buffer| - 1];
    var t := s[p := x];
    var rest := buffer[..|buffer| - 1];
    assert buffer == rest + [x];
    assert buffer[|buffer| - 1 := s[q]] == rest + [s[q]];
    ExceptWrite(s, lo, hi, holes, p, x);
    ExceptInclude(t, lo, hi, holes, p);
    ExceptAdd(t, lo, hi, holes - {p}, q);
    assert t[q] == s[q];
    assert Except(t, lo, hi, holes - {p} + {q}) + multiset{s[q]} == Except(s, lo, hi, holes) + multiset{x};
    assert multiset(buffer) == multiset(rest) + multiset{x};
    assert multiset(buffer[|buffer| - 1 := s[q]]) == multiset(rest) + multiset{s[q]};
    calc {
      Except(t, lo, hi, holes - {p} + {q}) + multiset(buffer[|buffer| - 1 := s[q]]);
      (Except(t, lo, hi, holes - {p} + {q}) + multiset{s[q]}) + multiset(rest);
      (Except(s, lo, hi, holes) + multiset{x}) + multiset(rest);
      Except(s, lo, hi, holes) + multiset(buffer);
    }
  }

  /**
   * One step of cycle following that closes a cycle: the top entry is set
   * down in the hole p and leaves the buffer.
   */
  lemma SetDownAndPop<T>(s: seq<T>, lo: int, hi: int, holes: set<int>, buffer: seq<T>, p: int)
    requires 0 <= lo <= p < hi <= |s| && p in holes && |buffer| > 0
    ensures var x := buffer[|buffer| - 1];
      Except(s[p := x], lo, hi, holes - {p}) + multiset(buffer[..|buffer| - 1])
        == Except(s, lo, hi, holes) + multiset(buffer)
  {
    var x := buffer[|buffer| - 1];
    assert buffer == buffer[..|buffer| - 1] + [x];
    ExceptWrite(s, lo, hi, holes, p, x);
    ExceptInclude(s[p := x], lo, hi, holes, p);
  }

  /**
   * The same steps seen from the entries not yet set down: the touched
   * positions keep p and gain q, and x leaves.
   */
  lemma SetDownAndPickUpPending<T>(s: seq<T>, lo: int, hi: int, touched: set<int>, buffer: seq<T>, p: int, q: int)
    requires 0 <= lo <= p < hi <= |s| && lo <= q < hi && p != q
    requires p in touched && q !in touched && |buffer| > 0
    ensures var x := buffer[|buffer| - 1];
      Except(s[p := x], lo, hi, touched + {q}) + multiset(buffer[|buffer| - 1 := s[q]]) + multiset{x}
        == Except(s, lo, hi, touched) + multiset(buffer)
  {
    var x := buffer[|buffer| - 1];
    var t := s[p := x];
    var rest := buffer[..|buffer| - 1];
    assert buffer == rest + [x];
    assert buffer[|buffer| - 1 := s[q]] == rest + [s[q]];
    ExceptWrite(s, lo, hi, touched, p, x);
    ExceptAdd(t, lo, hi, touched, q);
    assert t[q] == s[q];
  }

  lemma SetDownAndPopPending<T>(s: seq<T>, lo: int, hi: int, touched: set<int>, buffer: seq<T>, p: int)
    requires 0 <= lo <= p < hi <= |s| && p in touched && |buffer| > 0
    ensures var x := buffer[|buffer| - 1];
      Except(s[p := x], lo, hi, touched) + multiset(buffer[..|buffer| - 1]) + multiset{x}
        == Except(s, lo, hi, touched) + multiset(buffer)
  {
    var x := buffer[|buffer| - 1];
    assert buffer == buffer[..|buffer| - 1] + [x];
    ExceptWrite(s, lo, hi, touched, p, x);
  }
}
