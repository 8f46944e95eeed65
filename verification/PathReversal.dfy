/**
 A climbing path read backwards is a downward path: on mirrored relations the weighted climbs from an
 assembly are the flow down to it.

 The relation to climb and the relation to descend are both parameters, each given by its edge lists; all
 that is asked of them is that they list the same edges from opposite ends. The weight of a path is the
 product of its edge quantities, which does not depend on the direction it is read in.
 */
module PathReversal {
  import opened Sequences
  import opened Graphs
  import opened Bom
  import opened Exploration
  import opened Recipes
  import opened ExposurePaths

  // ---- reading a path backwards ----

  function Reverse<T>(p: seq<T>): (q: seq<T>)
    ensures |q| == |p| && forall k :: 0 <= k < |p| ==> q[k] == p[|p| - 1 - k]
  {
    seq(|p|, k requires 0 <= k < |p| => p[|p| - 1 - k])
  }

  lemma ReverseLaws<T>(p: seq<T>, e: T)
    ensures Reverse(p + [e]) == [e] + Reverse(p)
    ensures Reverse([e] + p) == Reverse(p) + [e]
  {
  }

  lemma ReverseTwice<T>(p: seq<T>)
    ensures Reverse(Reverse(p)) == p
  {
  }

  lemma {:induction false} WeightSnoc(p: Path, e: AssemblyEdge)
    ensures Weight(p + [e]) == Weight(p) * e.props.Quantity()
  {
    if p == [] {
      assert p + [e] == [e] && [e][1..] == [];
      assert Weight([e]) == e.props.Quantity() * Weight([]);
    } else {
      var q := p + [e];
      assert q[0] == p[0] && q[1..] == p[1..] + [e];
      WeightSnoc(p[1..], e);
      Associate(p[0].props.Quantity(), Weight(p[1..]), e.props.Quantity());
    }
  }

  lemma {:induction false} WeightReverse(p: Path)
    ensures Weight(Reverse(p)) == Weight(p)
  {
    if p != [] {
      assert p == [p[0]] + p[1..];
      ReverseLaws(p[1..], p[0]);
      WeightSnoc(Reverse(p[1..]), p[0]);
      WeightReverse(p[1..]);
    }
  }

  /** The climb and the walk down use the same edges, seen from their two ends. */
  ghost predicate Mirror(c: Climb, kids: Kids) {
    && (forall x, e :: e in c.up(x) ==> e.child == x && e in kids(e.parent))
    && (forall x, e :: e in kids(x) ==> e.parent == x && e in c.up(e.child))
  }

  lemma {:induction false} ClimbIsDescent(c: Climb, kids: Kids, start: Id, p: Path)
    requires Mirror(c, kids) && Climbs(c, start, p)
    ensures DownPath(kids, Top(start, p), Reverse(p)) && PathEnd(Top(start, p), Reverse(p)) == start
  {
    if p != [] {
      var init, e := p[..|p| - 1], p[|p| - 1];
      assert p == init + [e];
      forall k | 0 <= k < |init| ensures init[k] in c.up(Top(start, init[..k])) {
        assert p[k] in c.up(Top(start, p[..k])) && init[..k] == p[..k];
      }
      assert p[|p| - 1] in c.up(Top(start, p[..|p| - 1]));
      ClimbIsDescent(c, kids, start, init);
      ReverseLaws(init, e);
      assert ([e] + Reverse(init))[1..] == Reverse(init);
    }
  }

  function DownVertices(x: Id, d: Path): seq<Id>
    decreases |d|
  {
    if d == [] then [x] else [x] + DownVertices(d[0].child, d[1..])
  }

  lemma {:induction false} DescentIsClimb(c: Climb, kids: Kids, x: Id, d: Path)
    requires Mirror(c, kids) && DownPath(kids, x, d)
    ensures Climbs(c, PathEnd(x, d), Reverse(d)) && Top(PathEnd(x, d), Reverse(d)) == x
    ensures Vertices(PathEnd(x, d), Reverse(d)) == Reverse(DownVertices(x, d))
    decreases |d|
  {
    if d == [] {
      assert Reverse(d) == [] && Reverse([x]) == [x];
    } else {
      var e, tail, start := d[0], d[1..], PathEnd(x, d);
      assert d == [e] + tail;
      DescentIsClimb(c, kids, e.child, tail);
      ReverseLaws(tail, e);
      var p, q := Reverse(tail), Reverse(d);
      AppendInit(p, e);
      assert q == p + [e];
      forall k | 0 <= k < |q| ensures q[k] in c.up(Top(start, q[..k])) {
        if k < |p| {
          assert p[k] in c.up(Top(start, p[..k])) && q[..k] == p[..k];
        }
      }
      ReverseLaws(DownVertices(e.child, tail), x);
    }
  }

  lemma {:induction false} DownVerticesWalk(r: Recipe, x: Id, d: Path)
    requires r.Sound() && DownPath(r.kids, x, d)
    ensures WalkFrom(r.links, x, DownVertices(x, d))
    decreases |d|
  {
    if d != [] {
      DownVerticesWalk(r, d[0].child, d[1..]);
      ChildLink(r, x, d[0]);
      WalkCons(r.links, x, DownVertices(d[0].child, d[1..]));
    }
  }

  // ---- one component edge and one product edge ----

  predicate EndsAt(x: Id, a: Id, d: Path) { PathEnd(x, d) == a }

  function EndFilter(x: Id, a: Id): Path -> bool { (d: Path) => EndsAt(x, a, d) }

  function ViaFilter(e: ProductEdge): Choice -> bool { (choice: Choice) => choice.1 == e }

  function WeightOf(): Path -> real { (p: Path) => Weighs(p) }

  function Weighs(p: Path): real { Weight(p) }

  function ChoiceWeight(): Choice -> real { (choice: Choice) => Weighs(choice.0) }

  function Backwards(): Choice -> Path { (choice: Choice) => Reverse(choice.0) }

  function ViaWeight(e: ProductEdge): Choice -> real {
    (choice: Choice) => if choice.1 == e then Weighs(choice.0) else 0.0
  }

  /** The weighted climbs from start that leave through e are the flow from e's assembly down to start. */
  lemma ClimbsAreFlow(c: Climb, r: Recipe, start: Id, e: ProductEdge)
    requires c.Sound() && r.Sound() && Mirror(c, r.kids) && r.Acyclic(e.assembly)
    requires forall x :: e in c.exits(x) <==> x == e.assembly
    ensures SumBy(ViaWeight(e), UpChoices(c, start)) == r.Flow(At(start), e.assembly)
  {
    var top := e.assembly;
    var ups, downs := Filter(ViaFilter(e), UpChoices(c, start)), Filter(EndFilter(top, start), r.DownPaths(top));
    SumByFilter(ViaWeight(e), ChoiceWeight(), ViaFilter(e), UpChoices(c, start));
    FlowIsSumOverDownPaths(r, At(start), top);
    SumByFilter(PathTerm(At(start), top), WeightOf(), EndFilter(top, start), r.DownPaths(top));
    MatchedLists(c, r, start, e);
    SumByBijection(ChoiceWeight(), ups, WeightOf(), downs, Backwards());
  }

  lemma ClimbMatched(c: Climb, r: Recipe, start: Id, e: ProductEdge, x: Choice)
    requires c.Sound() && r.Sound() && Mirror(c, r.kids) && r.Acyclic(e.assembly)
    requires forall x :: e in c.exits(x) <==> x == e.assembly
    requires x in Filter(ViaFilter(e), UpChoices(c, start))
    ensures x.1 == e && Backwards()(x) in Filter(EndFilter(e.assembly, start), r.DownPaths(e.assembly))
    ensures WeightOf()(Backwards()(x)) == ChoiceWeight()(x)
  {
    UpChoicesExact(c, start);
    DownPathsExact(r, e.assembly);
    FilterMember(ViaFilter(e), UpChoices(c, start), x);
    ClimbIsDescent(c, r.kids, start, x.0);
    FilterMember(EndFilter(e.assembly, start), r.DownPaths(e.assembly), Reverse(x.0));
    WeightReverse(x.0);
  }

  lemma DescentReversed(c: Climb, r: Recipe, e: ProductEdge, start: Id, y: Path)
    requires c.Sound() && r.Sound() && Mirror(c, r.kids) && r.Acyclic(e.assembly)
    requires DownPath(r.kids, e.assembly, y) && PathEnd(e.assembly, y) == start
    ensures SimplePath(c, start, Reverse(y)) && Top(start, Reverse(y)) == e.assembly
  {
    DescentIsClimb(c, r.kids, e.assembly, y);
    DownVerticesWalk(r, e.assembly, y);
  }

  lemma DescentMatched(c: Climb, r: Recipe, start: Id, e: ProductEdge, y: Path)
    requires c.Sound() && r.Sound() && Mirror(c, r.kids) && r.Acyclic(e.assembly)
    requires forall x :: e in c.exits(x) <==> x == e.assembly
    requires y in Filter(EndFilter(e.assembly, start), r.DownPaths(e.assembly))
    ensures (Reverse(y), e) in Filter(ViaFilter(e), UpChoices(c, start)) && Backwards()((Reverse(y), e)) == y
  {
    UpChoicesExact(c, start);
    DownPathsExact(r, e.assembly);
    FilterMember(EndFilter(e.assembly, start), r.DownPaths(e.assembly), y);
    DescentReversed(c, r, e, start, y);
    FilterMember(ViaFilter(e), UpChoices(c, start), (Reverse(y), e));
    ReverseTwice(y);
  }

  lemma MatchedLists(c: Climb, r: Recipe, start: Id, e: ProductEdge)
    requires c.Sound() && r.Sound() && Mirror(c, r.kids) && r.Acyclic(e.assembly)
    requires forall x :: e in c.exits(x) <==> x == e.assembly
    ensures var ups := Filter(ViaFilter(e), UpChoices(c, start));
            var downs := Filter(EndFilter(e.assembly, start), r.DownPaths(e.assembly));
            && Distinct(ups) && Distinct(downs)
            && (forall x :: x in ups ==> Backwards()(x) in downs && WeightOf()(Backwards()(x)) == ChoiceWeight()(x))
            && (forall x, x' :: x in ups && x' in ups && Backwards()(x) == Backwards()(x') ==> x == x')
            && (forall y :: y in downs ==> exists x :: x in ups && Backwards()(x) == y)
  {
    var top := e.assembly;
    var ups, downs := Filter(ViaFilter(e), UpChoices(c, start)), Filter(EndFilter(top, start), r.DownPaths(top));
    UpChoicesExact(c, start);
    DownPathsExact(r, top);
    FilterDistinct(ViaFilter(e), UpChoices(c, start));
    FilterDistinct(EndFilter(top, start), r.DownPaths(top));
    forall x | x in ups ensures x.1 == e && Backwards()(x) in downs && WeightOf()(Backwards()(x)) == ChoiceWeight()(x) {
      ClimbMatched(c, r, start, e, x);
    }
    forall x, x' | x in ups && x' in ups && Backwards()(x) == Backwards()(x') ensures x == x' {
      ReverseTwice(x.0);
      ReverseTwice(x'.0);
    }
    forall y | y in downs ensures exists x :: x in ups && Backwards()(x) == y {
      DescentMatched(c, r, start, e, y);
    }
  }
}
