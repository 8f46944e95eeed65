/**
 Flow through an acyclic part of the bill of materials: the recursion equations of the path sums, with
 a single bound on path length that an acyclic assembly never reaches. A recipe packages what one walk
 down consults, so that the walk's laws can be proved without looking at how a plan selects its edges.
 */
module Recipes {
  import opened Sequences
  import opened Graphs
  import opened Bom
  import opened Exploration
  import opened WorkQueue

  type PartLists = Id -> seq<ComponentEdge>

  /**
   One walk down, reduced to what its proofs use: the edges followed from an assembly, the component
   edges counted at it, the followed parent-child links and a bound on the length of paths.
   */
  datatype Recipe = Recipe(kids: Kids, parts: PartLists, links: set<(Id, Id)>, depth: nat) {
    ghost predicate Sound() {
      && (forall x :: Successors(links, x, kids(x)))
      && (forall x :: Distinct(kids(x)))
      && |links| <= depth
    }

    /** No cycle of followed edges can be reached from x. */
    ghost predicate Acyclic(x: Id) { Grounded(links, x) }

    ghost function DownPaths(x: Id): seq<Path> { PathsWithin(kids, x, depth) }

    /** The sum over all downward paths from x of the path's quantities times base at the path's end. */
    ghost function Flow(base: Base, x: Id): real { FlowWithin(kids, base, x, depth) }

    ghost function FlowOf(base: Base): Id -> real { x => Flow(base, x) }

    ghost function CostOf(): Id -> nat { x => |DownPaths(x)| }
  }

  lemma ChildLink(r: Recipe, x: Id, e: AssemblyEdge)
    requires r.Sound() && e in r.kids(x)
    ensures (x, e.child) in r.links
  {
    assert Successors(r.links, x, r.kids(x));
    var k :| 0 <= k < |r.kids(x)| && r.kids(x)[k] == e;
  }

  // ---- acyclic assemblies: the bound on path length is never felt ----

  lemma {:induction false} PathIsWalk(r: Recipe, x: Id, p: Path) returns (w: seq<Id>)
    requires r.Sound() && DownPath(r.kids, x, p)
    ensures WalkFrom(r.links, x, w) && |w| == |p| + 1 && w[|p|] == PathEnd(x, p)
    decreases |p|
  {
    if p == [] {
      w := [x];
    } else {
      var v := PathIsWalk(r, p[0].child, p[1..]);
      ChildLink(r, x, p[0]);
      WalkCons(r.links, x, v);
      w := [x] + v;
    }
  }

  lemma AcyclicBounded(r: Recipe, x: Id)
    requires r.Sound() && r.Acyclic(x)
    ensures Bounded(r.kids, x, r.depth)
  {
    forall p: Path | DownPath(r.kids, x, p) ensures |p| <= r.depth {
      var w := PathIsWalk(r, x, p);
      GroundedWalkBound(r.links, x, w);
    }
  }

  /** DownPaths lists exactly the downward paths of an acyclic assembly, each once. */
  lemma DownPathsExact(r: Recipe, x: Id)
    requires r.Sound() && r.Acyclic(x)
    ensures forall p: Path :: p in r.DownPaths(x) <==> DownPath(r.kids, x, p)
    ensures Distinct(r.DownPaths(x))
  {
    PathsWithinDistinct(r.kids, x, r.depth);
    AcyclicBounded(r, x);
    forall p: Path ensures p in r.DownPaths(x) <==> DownPath(r.kids, x, p) {
      PathsWithinMember(r.kids, x, r.depth, p);
    }
  }

  lemma FlowIsSumOverDownPaths(r: Recipe, base: Base, x: Id)
    ensures r.Flow(base, x) == SumBy(PathTerm(base, x), r.DownPaths(x))
  {
    FlowIsPathSum(r.kids, base, x, r.depth);
  }

  /** The flow of an acyclic assembly: itself, plus the quantity-weighted flow of its children. */
  lemma FlowUnfold(r: Recipe, base: Base, x: Id)
    requires r.Sound() && r.Acyclic(x)
    ensures r.Flow(base, x) == base(x) + EdgeSum(r.FlowOf(base), r.kids(x))
  {
    AcyclicBounded(r, x);
    FlowSettled(r.kids, base, x, r.depth);
    FlowOverIsEdgeSum(r, base, r.kids(x));
  }

  lemma {:induction false} FlowOverIsEdgeSum(r: Recipe, base: Base, es: seq<AssemblyEdge>)
    ensures FlowOver(r.kids, base, es, r.depth) == EdgeSum(r.FlowOf(base), es)
  {
    if es != [] {
      FlowOverIsEdgeSum(r, base, es[1..]);
    }
  }

  /** How many downward paths start at an acyclic assembly: itself, plus those of its children. */
  lemma CostUnfold(r: Recipe, x: Id)
    requires r.Sound() && r.Acyclic(x)
    ensures |r.DownPaths(x)| == 1 + EdgeCost(r.CostOf(), r.kids(x))
  {
    AcyclicBounded(r, x);
    PathsSettled(r.kids, x, r.depth);
    PathsOverIsEdgeCost(r, r.kids(x));
  }

  lemma {:induction false} PathsOverIsEdgeCost(r: Recipe, es: seq<AssemblyEdge>)
    ensures |PathsOver(r.kids, es, r.depth)| == EdgeCost(r.CostOf(), es)
  {
    if es != [] {
      PathsOverIsEdgeCost(r, es[1..]);
    }
  }
}
