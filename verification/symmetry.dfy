/**
 * The hyperoctant symmetry group of masado/traversal.py: permutations of
 * the `dim` axes combined with reflections (flips), acting on tasks
 * `(start, axis)` and on orientations `(corner, displacement)`.
 *
 * A task names its axis by index; an orientation names its displacement
 * by the single bit `1 << axis`. The source applies the task action to
 * orientations too, which indexes the permutation by a bit value; the
 * action on orientations used by the rest of the model permutes the
 * displacement's bits instead (`ApplyOrientation`).
 */
module Symmetry {
  import opened Bits
  import opened GrayPath
  import opened Positions
  import opened Traverser
  import opened Wrappers

  /** A task: start corner `i` and highest axis `hd`. */
  datatype Task = Task(start: nat, axis: nat)

  /** One group element, a permutation `p` of the axes followed by the flip `f`. */
  datatype Transform = Transform(p: seq<nat>, f: nat)

  /** A group element of dimension dim. */
  predicate ValidTransform(g: Transform, dim: nat)
  {
    IsPerm(g.p, dim) && g.f < Pow2(dim)
  }

  function Factorial(n: nat): (r: nat)
    ensures r >= 1
  {
    if n == 0 then 1 else n * Factorial(n - 1)
  }

  // ---------------------------------------------------------------------------
  // binary_decompose and permute_bits
  // ---------------------------------------------------------------------------

  /** `binary_decompose(i)`: the binary digits of i, least significant first. */
  function BinaryDecompose(i: nat): seq<nat>
  {
    if i == 0 then [] else [i % 2] + BinaryDecompose(i / 2)
  }

  /** The generator yields exactly the bits of i, and stops at its highest set bit. */
  lemma {:induction false} BinaryDecomposeBits(i: nat)
    ensures forall k :: 0 <= k < |BinaryDecompose(i)| ==>
      BinaryDecompose(i)[k] == (if Bit(i, k) then 1 else 0)
    ensures i < Pow2(|BinaryDecompose(i)|)
    ensures i > 0 ==> BinaryDecompose(i)[|BinaryDecompose(i)| - 1] == 1
  {
    if i > 0 {
      BinaryDecomposeBits(i / 2);
      var r := BinaryDecompose(i);
      forall k | 0 <= k < |r|
        ensures r[k] == (if Bit(i, k) then 1 else 0)
      {
        if k > 0 {
          assert r[k] == BinaryDecompose(i / 2)[k - 1];
        }
      }
    }
  }

  /** `sum(map(lambda b, d: b << d, bits, p))`: the map stops at the shorter input. */
  function SumShifted(bits: seq<nat>, p: seq<nat>): nat
  {
    if bits == [] || p == [] then 0 else bits[0] * Pow2(p[0]) + SumShifted(bits[1..], p[1..])
  }

  /** `permute_bits(i, p)`: bit k of i is moved to position p[k]. */
  function PermuteBits(i: nat, p: seq<nat>): nat
  {
    SumShifted(BinaryDecompose(i), p)
  }

  /** One step of permute_bits: the low bit of i goes to p[0]. */
  lemma PermuteBitsStep(i: nat, p: seq<nat>)
    requires p != []
    ensures PermuteBits(i, p) == (i % 2) * Pow2(p[0]) + PermuteBits(i / 2, p[1..])
  {
  }

  /** Bit k of i lands on position p[k]. */
  lemma {:induction false} PermuteBitsAtImage(i: nat, p: seq<nat>, k: nat)
    requires AllDistinct(p) && k < |p|
    ensures Bit(PermuteBits(i, p), p[k]) <==> Bit(i, k)
    decreases |p|
  {
    PermuteBitsLow(i, p, p[k]);
    if k > 0 {
      PermuteBitsAtImage(i / 2, p[1..], k - 1);
      assert p[1..][k - 1] == p[k];
    }
  }

  /** No bit is set outside the positions listed in p. */
  lemma {:induction false} PermuteBitsOutside(i: nat, p: seq<nat>, j: nat)
    requires AllDistinct(p) && j !in p
    ensures !Bit(PermuteBits(i, p), j)
    decreases |p|, 1
  {
    if p == [] {
      BitOfZero(j);
    } else {
      PermuteBitsLow(i, p, j);
      PermuteBitsOutside(i / 2, p[1..], j);
    }
  }

  /** Bit j of permute_bits(i, p) is the low bit of i placed at p[0], or a bit of the rest. */
  lemma PermuteBitsLow(i: nat, p: seq<nat>, j: nat)
    requires AllDistinct(p) && p != []
    ensures !Bit(PermuteBits(i / 2, p[1..]), p[0])
    ensures Bit(PermuteBits(i, p), j) <==> (j == p[0] && i % 2 == 1) || Bit(PermuteBits(i / 2, p[1..]), j)
    decreases |p|, 0
  {
    var rest := PermuteBits(i / 2, p[1..]);
    PermuteBitsStep(i, p);
    PermuteBitsOutside(i / 2, p[1..], p[0]);
    if i % 2 == 1 {
      assert PermuteBits(i, p) == Pow2(p[0]) + rest;
      AddMissingBit(rest, p[0]);
      BitOfXor(Pow2(p[0]), rest, j);
      BitOfPow2(p[0], j);
    } else {
      assert PermuteBits(i, p) == rest;
    }
  }

  /** A permutation of the axes keeps a corner of the dim-cube inside it. */
  lemma PermuteBitsBound(i: nat, p: seq<nat>, dim: nat)
    requires IsPerm(p, dim)
    ensures PermuteBits(i, p) < Pow2(dim)
  {
    forall j: nat | j >= dim
      ensures !Bit(PermuteBits(i, p), j)
    {
      PermuteBitsOutside(i, p, j);
    }
    BelowFromBits(PermuteBits(i, p), dim);
  }

  /** Permuting the bits of a number that fits keeps its number of set bits. */
  lemma {:induction false} PermuteBitsPopcount(i: nat, p: seq<nat>)
    requires AllDistinct(p) && i < Pow2(|p|)
    ensures Popcount(PermuteBits(i, p)) == Popcount(i)
    decreases |p|
  {
    if p != [] {
      var rest := PermuteBits(i / 2, p[1..]);
      PermuteBitsStep(i, p);
      assert i / 2 < Pow2(|p| - 1);
      PermuteBitsPopcount(i / 2, p[1..]);
      if i % 2 == 1 {
        assert PermuteBits(i, p) == Pow2(p[0]) + rest;
        PermuteBitsOutside(i / 2, p[1..], p[0]);
        PopcountAddBit(rest, p[0]);
      } else {
        assert PermuteBits(i, p) == rest;
      }
    }
  }

  /** The axis `1 << k` is sent to the axis `1 << p[k]`. */
  lemma PermuteBitsOfAxis(k: nat, p: seq<nat>)
    requires AllDistinct(p) && k < |p|
    ensures PermuteBits(Pow2(k), p) == Pow2(p[k])
  {
    var r := PermuteBits(Pow2(k), p);
    forall j: nat
      ensures Bit(r, j) == Bit(Pow2(p[k]), j)
    {
      BitOfPow2(p[k], j);
      if j in p {
        var m :| 0 <= m < |p| && p[m] == j;
        PermuteBitsAtImage(Pow2(k), p, m);
        BitOfPow2(k, m);
      } else {
        PermuteBitsOutside(Pow2(k), p, j);
      }
    }
    BitsExtensional(r, Pow2(p[k]));
  }

  /** Different corners of the cube stay different. */
  lemma PermuteBitsInjective(a: nat, b: nat, p: seq<nat>, dim: nat)
    requires IsPerm(p, dim) && a < Pow2(dim) && b < Pow2(dim)
    requires PermuteBits(a, p) == PermuteBits(b, p)
    ensures a == b
  {
    forall k: nat
      ensures Bit(a, k) == Bit(b, k)
    {
      if k < dim {
        PermuteBitsAtImage(a, p, k);
        PermuteBitsAtImage(b, p, k);
      } else {
        NoBitsAbove(a, dim, k);
        NoBitsAbove(b, dim, k);
      }
    }
    BitsExtensional(a, b);
  }

  // ---------------------------------------------------------------------------
  // itertools.permutations and the group
  // ---------------------------------------------------------------------------

  /** xs without its entry at i. */
  function Remove(xs: seq<nat>, i: nat): (r: seq<nat>)
    requires i < |xs|
    ensures |r| == |xs| - 1
    ensures forall x :: x in r ==> x in xs
  {
    xs[..i] + xs[i + 1..]
  }

  /** `[x] + q` for each q of qs. */
  function PrependAll(x: nat, qs: seq<seq<nat>>): (r: seq<seq<nat>>)
    ensures |r| == |qs|
  {
    seq(|qs|, j requires 0 <= j < |qs| => [x] + qs[j])
  }

  /** `itertools.permutations(xs)`, in its order: first entry by position, then the rest. */
  function Perms(xs: seq<nat>): seq<seq<nat>>
    decreases |xs|, 1
  {
    if xs == [] then [[]] else PermsFrom(xs, 0)
  }

  /** The permutations of xs whose first entry comes from position i or later. */
  function PermsFrom(xs: seq<nat>, i: nat): seq<seq<nat>>
    requires xs != []
    decreases |xs|, 0, |xs| - i
  {
    if i >= |xs| then [] else PrependAll(xs[i], Perms(Remove(xs, i))) + PermsFrom(xs, i + 1)
  }

  /** There are |xs|! permutations. */
  lemma {:induction false} PermsCount(xs: seq<nat>)
    ensures |Perms(xs)| == Factorial(|xs|)
    decreases |xs|, 1
  {
    if xs != [] {
      PermsFromCount(xs, 0);
    }
  }

  lemma {:induction false} PermsFromCount(xs: seq<nat>, i: nat)
    requires xs != [] && i <= |xs|
    ensures |PermsFrom(xs, i)| == (|xs| - i) * Factorial(|xs| - 1)
    decreases |xs|, 0, |xs| - i
  {
    if i < |xs| {
      var f := Factorial(|xs| - 1);
      assert |Remove(xs, i)| == |xs| - 1;
      PermsCount(Remove(xs, i));
      PermsFromCount(xs, i + 1);
      MulSucc(|xs| - (i + 1), f);
      assert |PermsFrom(xs, i)| == |Perms(Remove(xs, i))| + |PermsFrom(xs, i + 1)|;
    }
  }

  lemma MulSucc(a: nat, f: nat)
    ensures (a + 1) * f == f + a * f
  {
  }

  /** Each permutation of distinct entries lists each of them once. */
  lemma {:induction false} PermsArePermutations(xs: seq<nat>, q: seq<nat>)
    requires AllDistinct(xs) && q in Perms(xs)
    ensures |q| == |xs| && AllDistinct(q) && forall x :: x in q ==> x in xs
    decreases |xs|, 1
  {
    if xs != [] {
      PermsFromArePermutations(xs, 0, q);
    }
  }

  lemma {:induction false} PermsFromArePermutations(xs: seq<nat>, i: nat, q: seq<nat>)
    requires xs != [] && AllDistinct(xs) && q in PermsFrom(xs, i)
    ensures |q| == |xs| && AllDistinct(q) && forall x :: x in q ==> x in xs
    decreases |xs|, 0, |xs| - i
  {
    var head := PrependAll(xs[i], Perms(Remove(xs, i)));
    if q in head {
      var j :| 0 <= j < |head| && head[j] == q;
      var rest := Perms(Remove(xs, i))[j];
      assert q == [xs[i]] + rest;
      RemoveDistinct(xs, i);
      PermsArePermutations(Remove(xs, i), rest);
      forall a, b | 0 <= a < b < |q|
        ensures q[a] != q[b]
      {
        if a == 0 {
          assert q[b] == rest[b - 1];
        } else {
          assert q[a] == rest[a - 1] && q[b] == rest[b - 1];
        }
      }
    } else {
      PermsFromArePermutations(xs, i + 1, q);
    }
  }

  /** Removing an entry keeps the others distinct and drops the removed value. */
  lemma RemoveDistinct(xs: seq<nat>, i: nat)
    requires AllDistinct(xs) && i < |xs|
    ensures AllDistinct(Remove(xs, i)) && xs[i] !in Remove(xs, i)
  {
    var r := Remove(xs, i);
    forall a, b | 0 <= a < b < |r|
      ensures r[a] != r[b]
    {
      var a' := if a < i then a else a + 1;
      var b' := if b < i then b else b + 1;
      assert r[a] == xs[a'] && r[b] == xs[b'];
    }
    forall a | 0 <= a < |r|
      ensures r[a] != xs[i]
    {
      var a' := if a < i then a else a + 1;
      assert r[a] == xs[a'];
    }
  }

  /** `list(range(0, n))`. */
  function Range(n: nat): (r: seq<nat>)
    ensures |r| == n && forall k :: 0 <= k < n ==> r[k] == k
  {
    seq(n, k requires 0 <= k < n => k)
  }

  /** Every flip f of `range(0, n)` combined with each permutation of ps, permutations outermost. */
  function Product(ps: seq<seq<nat>>, n: nat): (r: seq<Transform>)
    ensures |r| == |ps| * n
  {
    if ps == [] then []
    else seq(n, f requires 0 <= f < n => Transform(ps[0], f)) + Product(ps[1..], n)
  }

  /**
   * `get_permute_reflect(dim)`: the transformations in the order the generator
   * yields them, each given by its permutation and flip.
   */
  function Group(dim: nat): seq<Transform>
  {
    Product(Perms(Range(dim)), Pow2(dim))
  }

  /** The generator yields (2^dim)(dim!) transformations. */
  lemma GroupCount(dim: nat)
    ensures |Group(dim)| == Pow2(dim) * Factorial(dim)
  {
    PermsCount(Range(dim));
  }

  /** Every transformation yielded is a permutation of the axes and a flip of the cube. */
  lemma GroupValid(dim: nat, g: Transform)
    requires g in Group(dim)
    ensures ValidTransform(g, dim)
  {
    ProductMember(Perms(Range(dim)), Pow2(dim), g);
    PermsArePermutations(Range(dim), g.p);
    forall k | 0 <= k < dim
      ensures g.p[k] < dim
    {
      assert g.p[k] in Range(dim);
    }
  }

  /** Every transformation yielded permutes exactly dim axes. */
  lemma GroupArity(dim: nat, k: nat)
    requires k < |Group(dim)|
    ensures |Group(dim)[k].p| == dim
  {
    GroupValid(dim, Group(dim)[k]);
  }

  lemma {:induction false} ProductMember(ps: seq<seq<nat>>, n: nat, g: Transform)
    requires g in Product(ps, n)
    ensures g.p in ps && g.f < n
  {
    var front := seq(n, f requires 0 <= f < n => Transform(ps[0], f));
    if g !in front {
      ProductMember(ps[1..], n, g);
    }
  }

  // ---------------------------------------------------------------------------
  // Actions on tasks and orientations
  // ---------------------------------------------------------------------------

  /**
   * The lambda of `get_permute_reflect`, `(f ^ permute_bits(i, p), p[hd])`,
   * applied to the pair `(i, hd)`: None where `p[hd]` raises IndexError.
   */
  function ApplyTask(g: Transform, t: Task): (r: Option<Task>)
    ensures r.Some? <==> t.axis < |g.p|
  {
    if t.axis < |g.p| then Some(Task(Xor(g.f, PermuteBits(t.start, g.p)), g.p[t.axis]))
    else None
  }

  /** A task of the dim-cube is sent to a task of the dim-cube. */
  lemma ApplyTaskInCube(g: Transform, t: Task, dim: nat)
    requires ValidTransform(g, dim) && t.axis < dim
    ensures ApplyTask(g, t).Some?
    ensures ApplyTask(g, t).value.start < Pow2(dim) && ApplyTask(g, t).value.axis < dim
  {
    PermuteBitsBound(t.start, g.p, dim);
    XorBound(g.f, PermuteBits(t.start, g.p), dim);
  }

  // ---------------------------------------------------------------------------
  // The group laws
  // ---------------------------------------------------------------------------

  /** permute_bits is linear: it carries a flip of two corners to the flip of their images. */
  lemma PermuteBitsXor(a: nat, b: nat, p: seq<nat>)
    requires AllDistinct(p)
    ensures PermuteBits(Xor(a, b), p) == Xor(PermuteBits(a, p), PermuteBits(b, p))
  {
    var pa, pb := PermuteBits(a, p), PermuteBits(b, p);
    forall j: nat
      ensures Bit(PermuteBits(Xor(a, b), p), j) == Bit(Xor(pa, pb), j)
    {
      BitOfXor(pa, pb, j);
      if j in p {
        var k :| 0 <= k < |p| && p[k] == j;
        PermuteBitsAtImage(Xor(a, b), p, k);
        PermuteBitsAtImage(a, p, k);
        PermuteBitsAtImage(b, p, k);
        BitOfXor(a, b, k);
      } else {
        PermuteBitsOutside(Xor(a, b), p, j);
        PermuteBitsOutside(a, p, j);
        PermuteBitsOutside(b, p, j);
      }
    }
    BitsExtensional(PermuteBits(Xor(a, b), p), Xor(pa, pb));
  }

  /** p2 after p1: axis k goes to p1[k] and from there to p2[p1[k]]. */
  function ComposePerm(p2: seq<nat>, p1: seq<nat>): (q: seq<nat>)
    ensures |q| == |p1|
  {
    seq(|p1|, k requires 0 <= k < |p1| => if p1[k] < |p2| then p2[p1[k]] else 0)
  }

  /** Two permutations of the axes compose to a permutation of the axes. */
  lemma ComposePermIsPerm(p2: seq<nat>, p1: seq<nat>, n: nat)
    requires IsPerm(p1, n) && IsPerm(p2, n)
    ensures IsPerm(ComposePerm(p2, p1), n)
    ensures forall k :: 0 <= k < n ==> ComposePerm(p2, p1)[k] == p2[p1[k]]
  {
  }

  /** Permuting the bits by p1 and then by p2 is permuting them by p2 after p1. */
  lemma PermuteBitsCompose(x: nat, p2: seq<nat>, p1: seq<nat>, n: nat)
    requires IsPerm(p1, n) && IsPerm(p2, n)
    ensures PermuteBits(PermuteBits(x, p1), p2) == PermuteBits(x, ComposePerm(p2, p1))
  {
    var q := ComposePerm(p2, p1);
    var y := PermuteBits(x, p1);
    ComposePermIsPerm(p2, p1, n);
    forall j: nat
      ensures Bit(PermuteBits(y, p2), j) == Bit(PermuteBits(x, q), j)
    {
      if j < n {
        PermCovers(q, n, j);
        var k :| 0 <= k < n && q[k] == j;
        PermuteBitsAtImage(x, q, k);
        PermuteBitsAtImage(y, p2, p1[k]);
        PermuteBitsAtImage(x, p1, k);
      } else {
        PermuteBitsOutside(y, p2, j);
        PermuteBitsOutside(x, q, j);
      }
    }
    BitsExtensional(PermuteBits(y, p2), PermuteBits(x, q));
  }

  /** `range(dim)` moves no bit of a corner of the dim-cube. */
  lemma PermuteBitsRange(x: nat, dim: nat)
    requires x < Pow2(dim)
    ensures PermuteBits(x, Range(dim)) == x
  {
    forall j: nat
      ensures Bit(PermuteBits(x, Range(dim)), j) == Bit(x, j)
    {
      if j < dim {
        PermuteBitsAtImage(x, Range(dim), j);
      } else {
        PermuteBitsOutside(x, Range(dim), j);
        NoBitsAbove(x, dim, j);
      }
    }
    BitsExtensional(PermuteBits(x, Range(dim)), x);
  }

  /** The identity of the dim-cube: the axes in their own order, no flip. */
  function Identity(dim: nat): Transform
  {
    Transform(Range(dim), 0)
  }

  /** `g2` after `g1`: the semidirect product of the permutations and the flips. */
  function Compose(g2: Transform, g1: Transform): Transform
  {
    Transform(ComposePerm(g2.p, g1.p), Xor(g2.f, PermuteBits(g1.f, g2.p)))
  }

  /** The inverse of a permutation: axis m goes back to the position it is listed at. */
  function Inverse(p: seq<nat>): (q: seq<nat>)
    ensures |q| == |p|
  {
    seq(|p|, m requires 0 <= m < |p| => IndexOf(p, m))
  }

  /** The inverse of a transformation: undo the flip, then undo the permutation. */
  function InverseTransform(g: Transform): Transform
  {
    Transform(Inverse(g.p), PermuteBits(g.f, Inverse(g.p)))
  }

  /** The first transformation the generator yields is the identity. */
  lemma GroupStartsWithIdentity(dim: nat)
    ensures |Group(dim)| > 0 && Group(dim)[0] == Identity(dim)
  {
    PermsStartWithInput(Range(dim));
  }

  /** The first permutation `itertools.permutations` yields is its input's own order. */
  lemma {:induction false} PermsStartWithInput(xs: seq<nat>)
    ensures |Perms(xs)| > 0 && Perms(xs)[0] == xs
    decreases |xs|
  {
    if xs != [] {
      PermsStartWithInput(Remove(xs, 0));
      assert Remove(xs, 0) == xs[1..];
      assert PermsFrom(xs, 0)[0] == [xs[0]] + xs[1..];
    }
  }

  /** Transformations of the dim-cube compose to a transformation of the dim-cube. */
  lemma ComposeValid(g2: Transform, g1: Transform, dim: nat)
    requires ValidTransform(g2, dim) && ValidTransform(g1, dim)
    ensures ValidTransform(Compose(g2, g1), dim)
  {
    ComposePermIsPerm(g2.p, g1.p, dim);
    PermuteBitsBound(g1.f, g2.p, dim);
    XorBound(g2.f, PermuteBits(g1.f, g2.p), dim);
  }

  /** The identity leaves every task of the dim-cube as it is. */
  lemma ApplyIdentity(t: Task, dim: nat)
    requires t.start < Pow2(dim) && t.axis < dim
    ensures ApplyTask(Identity(dim), t) == Some(t)
  {
    PermuteBitsRange(t.start, dim);
  }

  /** Acting by g1 and then by g2 is acting by g2 after g1. */
  lemma ApplyTaskCompose(g2: Transform, g1: Transform, t: Task, dim: nat)
    requires ValidTransform(g2, dim) && ValidTransform(g1, dim) && t.axis < dim
    ensures ApplyTask(g1, t).Some?
    ensures ApplyTask(g2, ApplyTask(g1, t).value) == ApplyTask(Compose(g2, g1), t)
  {
    var y := PermuteBits(t.start, g1.p);
    PermuteBitsXor(g1.f, y, g2.p);
    PermuteBitsCompose(t.start, g2.p, g1.p, dim);
    XorAssociates(g2.f, PermuteBits(g1.f, g2.p), PermuteBits(y, g2.p));
    ComposePermIsPerm(g2.p, g1.p, dim);
  }

  /** Composition is associative. */
  lemma ComposeAssociates(g3: Transform, g2: Transform, g1: Transform, dim: nat)
    requires ValidTransform(g3, dim) && ValidTransform(g2, dim) && ValidTransform(g1, dim)
    ensures Compose(Compose(g3, g2), g1) == Compose(g3, Compose(g2, g1))
  {
    ComposePermIsPerm(g3.p, g2.p, dim);
    ComposePermIsPerm(g2.p, g1.p, dim);
    ComposePermIsPerm(ComposePerm(g3.p, g2.p), g1.p, dim);
    ComposePermIsPerm(g3.p, ComposePerm(g2.p, g1.p), dim);
    assert ComposePerm(ComposePerm(g3.p, g2.p), g1.p) == ComposePerm(g3.p, ComposePerm(g2.p, g1.p));
    var f12 := PermuteBits(g1.f, g2.p);
    PermuteBitsXor(g2.f, f12, g3.p);
    PermuteBitsCompose(g1.f, g3.p, g2.p, dim);
    XorAssociates(g3.f, PermuteBits(g2.f, g3.p), PermuteBits(f12, g3.p));
  }

  /** The inverse of a permutation of the axes is one, and undoes it. */
  lemma InverseIsPerm(p: seq<nat>, n: nat)
    requires IsPerm(p, n)
    ensures IsPerm(Inverse(p), n)
    ensures forall k :: 0 <= k < n ==> Inverse(p)[p[k]] == k
    ensures ComposePerm(Inverse(p), p) == Range(n)
  {
    var q := Inverse(p);
    forall m | 0 <= m < n
      ensures q[m] < n && p[q[m]] == m
    {
      PermCovers(p, n, m);
    }
    forall k | 0 <= k < n
      ensures q[p[k]] == k
    {
      IndexOfPerm(p, n, k);
    }
    ComposePermIsPerm(q, p, n);
  }

  /** `permute_bits(permute_bits(x, p), inverse(p)) == x` for a corner x of the cube. */
  lemma PermuteBitsInverse(x: nat, p: seq<nat>, dim: nat)
    requires IsPerm(p, dim) && x < Pow2(dim)
    ensures PermuteBits(PermuteBits(x, p), Inverse(p)) == x
  {
    InverseIsPerm(p, dim);
    PermuteBitsCompose(x, Inverse(p), p, dim);
    PermuteBitsRange(x, dim);
  }

  /** The inverse transformation is one, and composes with g to the identity. */
  lemma ComposeInverse(g: Transform, dim: nat)
    requires ValidTransform(g, dim)
    ensures ValidTransform(InverseTransform(g), dim)
    ensures Compose(InverseTransform(g), g) == Identity(dim)
  {
    InverseIsPerm(g.p, dim);
    PermuteBitsBound(g.f, Inverse(g.p), dim);
    XorSelf(PermuteBits(g.f, Inverse(g.p)));
  }

  /** Acting by the inverse undoes acting by g on every task of the dim-cube. */
  lemma ApplyTaskInverse(g: Transform, t: Task, dim: nat)
    requires ValidTransform(g, dim) && t.start < Pow2(dim) && t.axis < dim
    ensures ApplyTask(g, t).Some?
    ensures ApplyTask(InverseTransform(g), ApplyTask(g, t).value) == Some(t)
  {
    ComposeInverse(g, dim);
    ApplyTaskCompose(InverseTransform(g), g, t, dim);
    ApplyIdentity(t, dim);
  }

  /**
   * The same lambda applied, as `solve` does, to an orientation `(pos, move)`:
   * the displacement bit `move` is used as an axis index.
   */
  function ApplyTaskToOrientation(g: Transform, o: Orientation): Option<Task>
  {
    ApplyTask(g, Task(o.corner, o.disp))
  }

  /**
   * Any orientation along the highest axis `1 << (dim - 1)` makes that
   * lambda raise IndexError, since the bit value is at least dim.
   */
  lemma TaskActionRejectsTopAxis(g: Transform, o: Orientation, dim: nat)
    requires IsPerm(g.p, dim) && dim >= 1 && o.disp == Pow2(dim - 1)
    ensures ApplyTaskToOrientation(g, o) == None
  {
    Pow2ExceedsExponent(dim - 1);
  }

  /** The action on orientations: flip and permute the corner, permute the displacement. */
  function ApplyOrientation(g: Transform, o: Orientation): Orientation
  {
    Orientation(Xor(g.f, PermuteBits(o.corner, g.p)), PermuteBits(o.disp, g.p))
  }

  /**
   * The orientation action agrees with the task action once an axis index
   * is written as its bit: the task `(i, hd)` and the orientation
   * `(i, 1 << hd)` are carried to the same place.
   */
  lemma ApplyOrientationMatchesTask(g: Transform, i: nat, hd: nat, dim: nat)
    requires ValidTransform(g, dim) && hd < dim
    ensures ApplyTask(g, Task(i, hd)).Some?
    ensures ApplyOrientation(g, Orientation(i, Pow2(hd)))
      == Orientation(ApplyTask(g, Task(i, hd)).value.start, Pow2(ApplyTask(g, Task(i, hd)).value.axis))
  {
    PermuteBitsOfAxis(hd, g.p);
  }

  /** An orientation of the dim-cube: a corner and an axis. */
  predicate ValidOrientation(o: Orientation, dim: nat)
  {
    o.corner < Pow2(dim) && IsAxis(o.disp, dim)
  }

  /** The orientation action maps orientations of the cube to orientations of the cube. */
  lemma ApplyOrientationValid(g: Transform, o: Orientation, dim: nat)
    requires ValidTransform(g, dim) && ValidOrientation(o, dim)
    ensures ValidOrientation(ApplyOrientation(g, o), dim)
  {
    PermuteBitsBound(o.corner, g.p, dim);
    XorBound(g.f, PermuteBits(o.corner, g.p), dim);
    var d: nat :| d < dim && o.disp == Pow2(d);
    PermuteBitsOfAxis(d, g.p);
    assert IsAxis(Pow2(g.p[d]), dim) by {
      assert g.p[d] < dim;
    }
  }

  /** Different orientations of the cube stay different. */
  lemma ApplyOrientationInjective(g: Transform, o1: Orientation, o2: Orientation, dim: nat)
    requires ValidTransform(g, dim) && ValidOrientation(o1, dim) && ValidOrientation(o2, dim)
    requires ApplyOrientation(g, o1) == ApplyOrientation(g, o2)
    ensures o1 == o2
  {
    XorInjective(g.f, PermuteBits(o1.corner, g.p), PermuteBits(o2.corner, g.p));
    PermuteBitsInjective(o1.corner, o2.corner, g.p, dim);
    var d1: nat :| d1 < dim && o1.disp == Pow2(d1);
    var d2: nat :| d2 < dim && o2.disp == Pow2(d2);
    Pow2Monotone(d1, dim);
    Pow2Monotone(d2, dim);
    PermuteBitsInjective(o1.disp, o2.disp, g.p, dim);
  }

  /** The set of orientations a transformation makes of r. */
  function Image(g: Transform, r: set<Orientation>): set<Orientation>
  {
    set o | o in r :: ApplyOrientation(g, o)
  }

  /** A transformation keeps the number of distinct orientations of a set. */
  lemma {:induction false} ImageSize(g: Transform, r: set<Orientation>, dim: nat)
    requires ValidTransform(g, dim) && forall o :: o in r ==> ValidOrientation(o, dim)
    ensures |Image(g, r)| == |r|
    decreases |r|
  {
    if r != {} {
      var x :| x in r;
      var r' := r - {x};
      ImageSize(g, r', dim);
      assert Image(g, r) == Image(g, r') + {ApplyOrientation(g, x)};
      if ApplyOrientation(g, x) in Image(g, r') {
        var y :| y in r' && ApplyOrientation(g, y) == ApplyOrientation(g, x);
        ApplyOrientationInjective(g, x, y, dim);
      }
    }
  }
}
