/**
 * Step 1 of `solve` in masado/traversal.py: for every transformation of the
 * symmetry group and every satisfying orientation set, record that the
 * transformed set implements the transformed original task. The result maps
 * each transformed orientation set to the set of parent tasks it implements.
 */
module Closure {
  import opened Bits
  import opened Wrappers
  import opened Traverser
  import opened Symmetry

  type Table = map<set<Orientation>, set<Task>>

  /** One record of `solve`: the key `r` implements the parent `t`. */
  datatype Edge = Edge(key: set<Orientation>, parent: Task)

  /** The table that holds exactly the given records, grouped by key. */
  function FromEdges(es: set<Edge>): Table
  {
    var keys := set e | e in es :: e.key;
    map key | key in keys :: (set e | e in es && e.key == key :: e.parent)
  }

  /** The insert-or-extend of `satisfied_parents[r].add(parent)` and its KeyError handler. */
  function Extend(m: Table, key: set<Orientation>, parent: Task): (r: Table)
    ensures r.Keys == m.Keys + {key}
  {
    if key in m then m[key := m[key] + {parent}] else m[key := {parent}]
  }

  /** Adding a record to the table is exactly insert-or-extend. */
  lemma ExtendAddsEdge(es: set<Edge>, e: Edge)
    ensures FromEdges(es + {e}) == Extend(FromEdges(es), e.key, e.parent)
  {
    var a := FromEdges(es + {e});
    var b := Extend(FromEdges(es), e.key, e.parent);
    assert a.Keys == b.Keys;
    forall key | key in a
      ensures a[key] == b[key]
    {
      if key == e.key {
        if key in FromEdges(es) {
          assert b[key] == FromEdges(es)[key] + {e.parent};
        } else {
          assert forall x :: x in es ==> x.key != key;
          assert a[key] == {e.parent};
        }
      }
    }
  }

  /** The records contributed by transformation g. */
  function EdgesOf(g: Transform, orig: Task, ssRepl: set<set<Orientation>>, done: set<set<Orientation>>): set<Edge>
    requires ApplyTask(g, orig).Some?
  {
    set r | r in ssRepl && r in done :: Edge(Image(g, r), ApplyTask(g, orig).value)
  }

  /** The records contributed by the first k transformations of the group. */
  function EdgesUpTo(group: seq<Transform>, k: nat, orig: Task, ssRepl: set<set<Orientation>>): set<Edge>
    requires k <= |group|
  {
    set i, r | 0 <= i < k && r in ssRepl && ApplyTask(group[i], orig).Some?
      :: Edge(Image(group[i], r), ApplyTask(group[i], orig).value)
  }

  /** What step 1 of `solve` builds: every record over the whole group, grouped by key. */
  function SatisfiedParents(dim: nat, orig: Task, ssRepl: set<set<Orientation>>): Table
  {
    FromEdges(EdgesUpTo(Group(dim), |Group(dim)|, orig, ssRepl))
  }

  lemma EdgesOfAdd(g: Transform, orig: Task, ssRepl: set<set<Orientation>>, done: set<set<Orientation>>, r: set<Orientation>)
    requires ApplyTask(g, orig).Some? && r in ssRepl
    ensures EdgesOf(g, orig, ssRepl, done + {r})
      == EdgesOf(g, orig, ssRepl, done) + {Edge(Image(g, r), ApplyTask(g, orig).value)}
  {
  }

  lemma EdgesUpToNext(group: seq<Transform>, k: nat, orig: Task, ssRepl: set<set<Orientation>>)
    requires k < |group| && ApplyTask(group[k], orig).Some?
    ensures EdgesUpTo(group, k + 1, orig, ssRepl)
      == EdgesUpTo(group, k, orig, ssRepl) + EdgesOf(group[k], orig, ssRepl, ssRepl)
  {
    var a := EdgesUpTo(group, k + 1, orig, ssRepl);
    var b := EdgesUpTo(group, k, orig, ssRepl) + EdgesOf(group[k], orig, ssRepl, ssRepl);
    forall e | e in a
      ensures e in b
    {
      var i, r :| 0 <= i < k + 1 && r in ssRepl && ApplyTask(group[i], orig).Some?
        && e == Edge(Image(group[i], r), ApplyTask(group[i], orig).value);
      if i == k {
        assert e in EdgesOf(group[k], orig, ssRepl, ssRepl);
      }
    }
  }

  /**
   * The inner loop of `solve` for one transformation phi: record that each
   * transformed satisfying set implements `parent`, the transformed task.
   */
  method AddRefinements(parents: Table, ghost acc: set<Edge>, phi: Transform, orig: Task, parent: Task,
                        ssRepl: set<set<Orientation>>) returns (r: Table)
    requires ApplyTask(phi, orig) == Some(parent) && parents == FromEdges(acc)
    ensures r == FromEdges(acc + EdgesOf(phi, orig, ssRepl, ssRepl))
  {
    r := parents;
    var rest := ssRepl;
    ghost var done := acc;
    while rest != {}
      invariant rest <= ssRepl
      invariant done == acc + EdgesOf(phi, orig, ssRepl, ssRepl - rest)
      invariant r == FromEdges(done)
      decreases |rest|
    {
      var s :| s in rest;
      var key := Image(phi, s);
      ExtendAddsEdge(done, Edge(key, parent));
      r := Extend(r, key, parent);
      EdgesOfAdd(phi, orig, ssRepl, ssRepl - rest, s);
      assert ssRepl - (rest - {s}) == (ssRepl - rest) + {s};
      done := done + {Edge(key, parent)};
      rest := rest - {s};
    }
    assert ssRepl - rest == ssRepl;
  }

  /**
   * Step 1 of `solve(dim, orig_task, ss_repl)`: loop over the group in the
   * generator's order and over the satisfying sets, inserting or extending
   * the entry for each transformed set. Failure is the IndexError the task
   * action raises when the original task's axis is not below dim.
   */
  method Solve(dim: nat, orig: Task, ssRepl: set<set<Orientation>>) returns (r: Result<Table>)
    ensures r.Failure? <==> orig.axis >= dim
    ensures r.Success? ==> r.value == SatisfiedParents(dim, orig, ssRepl)
  {
    var group := Group(dim);
    if orig.axis >= dim {
      // The first transformation yielded already indexes past the end of p.
      return Failure("tuple index out of range");
    }
    var parents: Table := map[];
    var k := 0;
    assert parents == FromEdges(EdgesUpTo(group, k, orig, ssRepl)) by {
      assert EdgesUpTo(group, k, orig, ssRepl) == {};
    }
    while k < |group|
      invariant 0 <= k <= |group|
      invariant parents == FromEdges(EdgesUpTo(group, k, orig, ssRepl))
    {
      var phi := group[k];
      GroupArity(dim, k);
      var parent := ApplyTask(phi, orig).value;
      parents := AddRefinements(parents, EdgesUpTo(group, k, orig, ssRepl), phi, orig, parent, ssRepl);
      EdgesUpToNext(group, k, orig, ssRepl);
      k := k + 1;
    }
    assert parents == SatisfiedParents(dim, orig, ssRepl) by {
      assert k == |group|;
    }
    return Success(parents);
  }

  /** The key `key` and the parent `t` come from one transformation and one satisfying set. */
  predicate Witnessed(dim: nat, orig: Task, ssRepl: set<set<Orientation>>, key: set<Orientation>, t: Task)
  {
    exists i, r :: 0 <= i < |Group(dim)| && r in ssRepl
      && Image(Group(dim)[i], r) == key && ApplyTask(Group(dim)[i], orig) == Some(t)
  }

  /**
   * Every key of the table has a non-empty set of parents, and a task is a
   * parent of a key exactly when some transformation phi maps some
   * satisfying set to that key and the original task to that parent.
   */
  lemma SatisfiedParentsMembers(dim: nat, orig: Task, ssRepl: set<set<Orientation>>)
    ensures forall key :: key in SatisfiedParents(dim, orig, ssRepl) ==> SatisfiedParents(dim, orig, ssRepl)[key] != {}
    ensures forall key, t ::
      (key in SatisfiedParents(dim, orig, ssRepl) && t in SatisfiedParents(dim, orig, ssRepl)[key])
      <==> Witnessed(dim, orig, ssRepl, key, t)
  {
    var g := Group(dim);
    var es := EdgesUpTo(g, |g|, orig, ssRepl);
    FromEdgesMembers(es);
    forall key, t
      ensures Edge(key, t) in es <==> Witnessed(dim, orig, ssRepl, key, t)
    {
      EdgeWitnessed(dim, orig, ssRepl, key, t);
    }
  }

  /** The table built from some records has no empty entry and holds exactly those records. */
  lemma FromEdgesMembers(es: set<Edge>)
    ensures forall key :: key in FromEdges(es) ==> FromEdges(es)[key] != {}
    ensures forall key, t :: (key in FromEdges(es) && t in FromEdges(es)[key]) <==> Edge(key, t) in es
  {
    var m := FromEdges(es);
    forall key | key in m
      ensures m[key] != {}
    {
      var e :| e in es && e.key == key;
      assert e.parent in m[key];
    }
    forall key, t
      ensures key in m && t in m[key] <==> Edge(key, t) in es
    {
      if key in m && t in m[key] {
        var e :| e in es && e.key == key && e.parent == t;
        assert e == Edge(key, t);
      }
      if Edge(key, t) in es {
        assert key in m;
        assert t in m[key];
      }
    }
  }

  /** A record of the whole group is one transformation applied to one satisfying set and to the task. */
  lemma EdgeWitnessed(dim: nat, orig: Task, ssRepl: set<set<Orientation>>, key: set<Orientation>, t: Task)
    ensures Edge(key, t) in EdgesUpTo(Group(dim), |Group(dim)|, orig, ssRepl) <==> Witnessed(dim, orig, ssRepl, key, t)
  {
    var g := Group(dim);
    if Edge(key, t) in EdgesUpTo(g, |g|, orig, ssRepl) {
      var i, r :| 0 <= i < |g| && r in ssRepl && ApplyTask(g[i], orig).Some?
        && Edge(key, t) == Edge(Image(g[i], r), ApplyTask(g[i], orig).value);
      assert Image(g[i], r) == key && ApplyTask(g[i], orig) == Some(t);
    }
    if Witnessed(dim, orig, ssRepl, key, t) {
      var i, r :| 0 <= i < |g| && r in ssRepl
        && Image(g[i], r) == key && ApplyTask(g[i], orig) == Some(t);
      assert Edge(key, t) == Edge(Image(g[i], r), ApplyTask(g[i], orig).value);
    }
  }

  /**
   * `solve` as written applies the task lambda to each orientation of each
   * satisfying set. For dim = 2 the only satisfying set holds the
   * orientation `(0, 2)`, and every transformation then evaluates `p[2]`
   * on a permutation of length 2: IndexError.
   */
  lemma SolveAsWrittenFailsInDimension2()
    ensures |Solutions(2)| == 1 && Orientation(0, 2) in OrientationSet(Solutions(2)[0])
    ensures forall g :: g in Group(2) ==> ApplyTaskToOrientation(g, Orientation(0, 2)) == None
  {
    Dimension2();
    var s := Solutions(2)[0];
    assert Orientation(s.corners[1], s.moves[1]) == Orientation(0, 2);
    forall g | g in Group(2)
      ensures ApplyTaskToOrientation(g, Orientation(0, 2)) == None
    {
      GroupValid(2, g);
      assert Pow2(1) == 2;
      TaskActionRejectsTopAxis(g, Orientation(0, 2), 2);
    }
  }
}
