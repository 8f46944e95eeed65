/**
 Walking down a relation given by its child lists: the paths from an assembly, enumerated, and the
 flow along them (the sum over paths of the product of edge quantities). The child lists are a
 parameter, so nothing here depends on how the edges were selected; a bound on path length makes the
 enumeration total, and `Recipes` shows that on acyclic assemblies the bound is never felt.
 */
module Exploration {
  import opened Sequences
  import opened Bom

  type Path = seq<AssemblyEdge>
  type Kids = Id -> seq<AssemblyEdge>
  type Base = Id -> real

  /** p is a path leading down from x. */
  ghost predicate DownPath(kids: Kids, x: Id, p: Path)
    decreases |p|
  {
    p == [] || (p[0] in kids(x) && DownPath(kids, p[0].child, p[1..]))
  }

  /** The assembly a downward path from x ends at. */
  function PathEnd(x: Id, p: Path): Id
    decreases |p|
  {
    if p == [] then x else PathEnd(p[0].child, p[1..])
  }

  /** The product of the quantities along a path. */
  function Weight(p: Path): real {
    if p == [] then 1.0 else p[0].props.Quantity() * Weight(p[1..])
  }

  function At(a: Id): Base {
    x => if x == a then 1.0 else 0.0
  }

  function PathTerm(base: Base, x: Id): Path -> real {
    p => TermAt(base, x, p)
  }

  function TermAt(base: Base, x: Id, p: Path): real {
    Weight(p) * base(PathEnd(x, p))
  }

  function Prefixed(e: AssemblyEdge, ps: seq<Path>): (qs: seq<Path>)
    ensures |qs| == |ps| && forall k :: 0 <= k < |ps| ==> qs[k] == [e] + ps[k]
  {
    seq(|ps|, k requires 0 <= k < |ps| => [e] + ps[k])
  }

  /** The downward paths from x of at most n edges. */
  ghost function PathsWithin(kids: Kids, x: Id, n: nat): seq<Path>
    decreases n, 0
  {
    [[]] + if n == 0 then [] else PathsOver(kids, kids(x), n - 1)
  }

  /** The paths that start with one of the edges es and go on for at most n more. */
  ghost function PathsOver(kids: Kids, es: seq<AssemblyEdge>, n: nat): seq<Path>
    decreases n, |es| + 1
  {
    if es == [] then [] else Prefixed(es[0], PathsWithin(kids, es[0].child, n)) + PathsOver(kids, es[1..], n)
  }

  /** The sum, over downward paths of at most n edges, of the path's quantities times base at its end. */
  ghost function FlowWithin(kids: Kids, base: Base, x: Id, n: nat): real
    decreases n, 0
  {
    base(x) + if n == 0 then 0.0 else FlowOver(kids, base, kids(x), n - 1)
  }

  ghost function FlowOver(kids: Kids, base: Base, es: seq<AssemblyEdge>, n: nat): real
    decreases n, |es| + 1
  {
    if es == [] then 0.0
    else es[0].props.Quantity() * FlowWithin(kids, base, es[0].child, n) + FlowOver(kids, base, es[1..], n)
  }

  // ---- the enumeration of paths ----

  lemma PrefixedExact(e: AssemblyEdge, ps: seq<Path>)
    ensures forall p: Path :: p in Prefixed(e, ps) <==> p != [] && p[0] == e && p[1..] in ps
    ensures Distinct(ps) ==> Distinct(Prefixed(e, ps))
  {
    var qs := Prefixed(e, ps);
    forall p: Path ensures p in qs <==> p != [] && p[0] == e && p[1..] in ps {
      if p in qs {
        var k :| 0 <= k < |qs| && qs[k] == p;
        assert p == [e] + ps[k] && p[1..] == ps[k];
      }
      if p != [] && p[0] == e && p[1..] in ps {
        var k :| 0 <= k < |ps| && ps[k] == p[1..];
        assert p == [e] + ps[k] == qs[k];
      }
    }
    if Distinct(ps) {
      forall i, j | 0 <= i < j < |qs| ensures qs[i] != qs[j] {
        assert qs[i][1..] == ps[i] && qs[j][1..] == ps[j];
      }
    }
  }

  lemma {:induction false} PathsWithinMember(kids: Kids, x: Id, n: nat, p: Path)
    ensures p in PathsWithin(kids, x, n) <==> DownPath(kids, x, p) && |p| <= n
    decreases n, 0
  {
    if n > 0 {
      PathsOverMember(kids, kids(x), n - 1, p);
    }
  }

  lemma {:induction false} PathsOverMember(kids: Kids, es: seq<AssemblyEdge>, n: nat, p: Path)
    ensures p in PathsOver(kids, es, n) <==>
            p != [] && p[0] in es && DownPath(kids, p[0].child, p[1..]) && |p| <= n + 1
    decreases n, |es| + 1
  {
    if es != [] {
      PathsOverMember(kids, es[1..], n, p);
      PrefixedExact(es[0], PathsWithin(kids, es[0].child, n));
      if p != [] {
        PathsWithinMember(kids, es[0].child, n, p[1..]);
      }
    }
  }

  lemma {:induction false} PathsWithinDistinct(kids: Kids, x: Id, n: nat)
    requires forall y :: Distinct(kids(y))
    ensures Distinct(PathsWithin(kids, x, n))
    decreases n, 0
  {
    if n > 0 {
      PathsOverDistinct(kids, kids(x), n - 1);
      PathsOverMember(kids, kids(x), n - 1, []);
      DistinctAppend([[]], PathsOver(kids, kids(x), n - 1));
    }
  }

  lemma {:induction false} PathsOverDistinct(kids: Kids, es: seq<AssemblyEdge>, n: nat)
    requires Distinct(es) && forall y :: Distinct(kids(y))
    ensures Distinct(PathsOver(kids, es, n))
    decreases n, |es| + 1
  {
    if es == [] {
    } else {
      var head, tail := Prefixed(es[0], PathsWithin(kids, es[0].child, n)), PathsOver(kids, es[1..], n);
      PathsWithinDistinct(kids, es[0].child, n);
      PrefixedExact(es[0], PathsWithin(kids, es[0].child, n));
      PathsOverDistinct(kids, es[1..], n);
      forall p | p in head ensures p !in tail {
        PathsOverMember(kids, es[1..], n, p);
      }
      DistinctAppend(head, tail);
    }
  }

  // ---- flow is the sum over paths ----

  lemma {:induction false} PrefixedSum(base: Base, x: Id, e: AssemblyEdge, ps: seq<Path>)
    ensures SumBy(PathTerm(base, x), Prefixed(e, ps)) == e.props.Quantity() * SumBy(PathTerm(base, e.child), ps)
  {
    if ps == [] {
      assert Prefixed(e, ps) == [];
    } else {
      var p := [e] + ps[0];
      assert Prefixed(e, ps)[0] == p && Prefixed(e, ps)[1..] == Prefixed(e, ps[1..]);
      PrefixedSum(base, x, e, ps[1..]);
      Distribute(e.props.Quantity(), PathTerm(base, e.child)(ps[0]), 1.0, SumBy(PathTerm(base, e.child), ps[1..]));
    }
  }

  lemma Associate(a: real, b: real, c: real)
    ensures (a * b) * c == a * (b * c)
  {
  }

  lemma Distribute(q: real, a: real, s: real, b: real)
    ensures q * (a + s * b) == q * a + s * (q * b)
    ensures s * (a + b) == s * a + s * b
  {
  }

  /** Flow is the sum, over all listed downward paths, of the product of quantities times base at the end. */
  lemma {:induction false} FlowIsPathSum(kids: Kids, base: Base, x: Id, n: nat)
    ensures FlowWithin(kids, base, x, n) == SumBy(PathTerm(base, x), PathsWithin(kids, x, n))
    decreases n, 0
  {
    var term := PathTerm(base, x);
    var root: Path := [];
    assert Weight(root) == 1.0 && PathEnd(x, root) == x;
    assert SumBy(term, [root]) == term(root) + SumBy(term, []);
    assert term(root) == base(x);
    if n == 0 {
      assert PathsWithin(kids, x, n) == [root];
    } else {
      FlowOverIsPathSum(kids, base, x, kids(x), n - 1);
      SumByAppend(term, [root], PathsOver(kids, kids(x), n - 1));
    }
  }

  lemma {:induction false} FlowOverIsPathSum(kids: Kids, base: Base, x: Id, es: seq<AssemblyEdge>, n: nat)
    ensures FlowOver(kids, base, es, n) == SumBy(PathTerm(base, x), PathsOver(kids, es, n))
    decreases n, |es| + 1
  {
    if es == [] {
    } else {
      var ps := PathsWithin(kids, es[0].child, n);
      FlowIsPathSum(kids, base, es[0].child, n);
      PrefixedSum(base, x, es[0], ps);
      FlowOverIsPathSum(kids, base, x, es[1..], n);
      SumByAppend(PathTerm(base, x), Prefixed(es[0], ps), PathsOver(kids, es[1..], n));
    }
  }

  // ---- flow is linear in what an assembly itself counts ----

  lemma {:induction false} FlowLinear(kids: Kids, f: Base, g: Base, s: real, h: Base, x: Id, n: nat)
    requires forall y :: h(y) == f(y) + s * g(y)
    ensures FlowWithin(kids, h, x, n) == FlowWithin(kids, f, x, n) + s * FlowWithin(kids, g, x, n)
    decreases n, 0
  {
    if n == 0 {
    } else {
      FlowOverLinear(kids, f, g, s, h, kids(x), n - 1);
      Distribute(1.0, 0.0, s, FlowOver(kids, g, kids(x), n - 1));
      Distribute(1.0, 0.0, s, g(x));
    }
  }

  lemma {:induction false} FlowOverLinear(kids: Kids, f: Base, g: Base, s: real, h: Base, es: seq<AssemblyEdge>, n: nat)
    requires forall y :: h(y) == f(y) + s * g(y)
    ensures FlowOver(kids, h, es, n) == FlowOver(kids, f, es, n) + s * FlowOver(kids, g, es, n)
    decreases n, |es| + 1
  {
    if es == [] {
    } else {
      var q, x := es[0].props.Quantity(), es[0].child;
      FlowLinear(kids, f, g, s, h, x, n);
      FlowOverLinear(kids, f, g, s, h, es[1..], n);
      Distribute(q, FlowWithin(kids, f, x, n), s, FlowWithin(kids, g, x, n));
      Distribute(1.0, q * FlowWithin(kids, g, x, n), s, FlowOver(kids, g, es[1..], n));
    }
  }

  // ---- when no path is longer than n ----

  ghost predicate Bounded(kids: Kids, x: Id, n: nat) {
    forall p: Path :: DownPath(kids, x, p) ==> |p| <= n
  }

  lemma BoundedChild(kids: Kids, x: Id, n: nat, e: AssemblyEdge)
    requires Bounded(kids, x, n) && e in kids(x)
    ensures n > 0 && Bounded(kids, e.child, n - 1)
  {
    forall p: Path | DownPath(kids, e.child, p) ensures |p| <= n - 1 {
      var q := [e] + p;
      assert q[1..] == p && DownPath(kids, x, q);
    }
    assert DownPath(kids, e.child, []);
  }

  /** Beyond the longest path, exploring deeper adds nothing. */
  lemma {:induction false} PathsSettled(kids: Kids, x: Id, n: nat)
    requires Bounded(kids, x, n)
    ensures PathsWithin(kids, x, n + 1) == PathsWithin(kids, x, n)
    decreases n, 0
  {
    if kids(x) != [] {
      BoundedChildren(kids, x, n);
      PathsOverSettled(kids, kids(x), n - 1);
    }
  }

  lemma {:induction false} PathsOverSettled(kids: Kids, es: seq<AssemblyEdge>, n: nat)
    requires forall e :: e in es ==> Bounded(kids, e.child, n)
    ensures PathsOver(kids, es, n + 1) == PathsOver(kids, es, n)
    decreases n, |es| + 1
  {
    if es == [] {
    } else {
      PathsSettled(kids, es[0].child, n);
      PathsOverSettled(kids, es[1..], n);
    }
  }

  lemma {:induction false} FlowSettled(kids: Kids, base: Base, x: Id, n: nat)
    requires Bounded(kids, x, n)
    ensures FlowWithin(kids, base, x, n + 1) == FlowWithin(kids, base, x, n)
    decreases n, 0
  {
    if kids(x) != [] {
      BoundedChildren(kids, x, n);
      FlowOverSettled(kids, base, kids(x), n - 1);
    }
  }

  lemma {:induction false} FlowOverSettled(kids: Kids, base: Base, es: seq<AssemblyEdge>, n: nat)
    requires forall e :: e in es ==> Bounded(kids, e.child, n)
    ensures FlowOver(kids, base, es, n + 1) == FlowOver(kids, base, es, n)
    decreases n, |es| + 1
  {
    if es == [] {
    } else {
      FlowSettled(kids, base, es[0].child, n);
      FlowOverSettled(kids, base, es[1..], n);
    }
  }

  lemma BoundedChildren(kids: Kids, x: Id, n: nat)
    requires Bounded(kids, x, n) && kids(x) != []
    ensures n > 0 && forall e :: e in kids(x) ==> Bounded(kids, e.child, n - 1)
  {
    BoundedChild(kids, x, n, kids(x)[0]);
    forall e | e in kids(x) ensures Bounded(kids, e.child, n - 1) {
      BoundedChild(kids, x, n, e);
    }
  }
}
