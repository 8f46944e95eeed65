/**
 The explosion in terms of the payload's own fields: which labels let an edge in, what an edge counts, and
 what a part used directly by a product's root assembly contributes.
 */
module DirectParts {
  import opened Sequences
  import opened Graphs
  import opened Bom
  import opened Exploration
  import opened Recipes
  import opened Requirements
  import opened PairSums

  /** What an edge of this quantity counts: an absent or zero quantity is one. */
  predicate Units(quantity: Option<real>, units: real) {
    (quantity in {None, Some(0.0)} && units == 1.0) || (quantity == Some(units) && units != 0.0)
  }

  /** Product edge e's walk goes from x to y along this edge. */
  predicate GoesAlong(plan: Plan, e: ProductEdge, x: Id, y: Id, d: AssemblyEdge) {
    && d in plan.bom.assemblies && d.parent == x && d.child == y
    && y in plan.knownAssemblies && LabelSuits(d.props.variant, e.props.variant)
  }

  lemma LinksByLabels(plan: Plan, e: ProductEdge, x: Id, y: Id)
    ensures (x, y) in plan.Recipes()(e).links <==> exists d :: GoesAlong(plan, e, x, y, d)
  {
    forall d | d in plan.bom.assemblies
      ensures plan.Followed(d, e.props.Variant()) <==>
              d.child in plan.knownAssemblies && LabelSuits(d.props.variant, e.props.variant)
    {
      LabelsMatch(d.props, e.props);
    }
    if (x, y) in plan.Recipes()(e).links {
      var d :| d in plan.bom.assemblies && plan.Followed(d, e.props.Variant()) && (d.parent, d.child) == (x, y);
      assert GoesAlong(plan, e, x, y, d);
    }
    if d :| GoesAlong(plan, e, x, y, d) {
      assert plan.Followed(d, e.props.Variant());
    }
  }

  /** Product edge e's walk counts component edge j, once it is at j's assembly. */
  predicate CountsPart(plan: Plan, e: ProductEdge, j: ComponentEdge) {
    j in plan.bom.components && j.component in plan.knownComponents && LabelSuits(j.props.variant, e.props.variant)
  }

  lemma PartsByLabels(plan: Plan, e: ProductEdge, x: Id, j: ComponentEdge)
    ensures j in plan.Recipes()(e).parts(x) <==> CountsPart(plan, e, j) && j.assembly == x
  {
    PartsExact(plan, e.props.Variant(), x, j);
    LabelsMatch(j.props, e.props);
  }

  /** e leads down to j's assembly, and counts j there. */
  ghost predicate Lists(plan: Plan, p: Id, c: Id, e: ProductEdge, j: ComponentEdge) {
    && e in plan.bom.products && e.product == p && j.component == c && CountsPart(plan, e, j)
    && Reaches(plan.Recipes()(e).links, e.assembly, j.assembly)
  }

  /** The row of p lists component c exactly when some walk down from p comes to an edge of c that it counts. */
  lemma ListedByLabels(plan: Plan, p: Id, c: Id)
    ensures NeedsComponent(plan.Recipes(), plan.bom.products, p, c) <==> exists e, j :: Lists(plan, p, c, e, j)
  {
    if e, j :| Lists(plan, p, c, e, j) {
      PartsByLabels(plan, e, j.assembly, j);
      assert Mentions(plan.Recipes()(e).parts(j.assembly), c);
    }
    if NeedsComponent(plan.Recipes(), plan.bom.products, p, c) {
      var e :| e in plan.bom.products && e.product == p && UsedBelow(plan.Recipes()(e), e.assembly, c);
      var r := plan.Recipes()(e);
      var a :| Reaches(r.links, e.assembly, a) && Mentions(r.parts(a), c);
      var j :| j in r.parts(a) && j.component == c;
      PartsByLabels(plan, e, a, j);
      assert Lists(plan, p, c, e, j);
    }
  }

  // ---- a part used directly ----

  lemma NoWayBack(r: Recipe, x: Id, p: Path)
    requires r.Sound() && r.Acyclic(x) && DownPath(r.kids, x, p) && PathEnd(x, p) == x
    ensures p == []
  {
    var w := PathIsWalk(r, x, p);
    assert Distinct(w) && w[0] == w[|p|];
  }

  lemma FlowToSelf(r: Recipe, x: Id)
    requires r.Sound() && r.Acyclic(x)
    ensures r.Flow(At(x), x) == 1.0
  {
    FlowIsSumOverDownPaths(r, At(x), x);
    DownPathsExact(r, x);
    var f := PathTerm(At(x), x);
    assert DownPath(r.kids, x, []);
    forall p | p in r.DownPaths(x) && p != [] ensures f(p) == 0.0 {
      if PathEnd(x, p) == x {
        NoWayBack(r, x, p);
      }
    }
    SingleSum(f, r.DownPaths(x), []);
  }

  lemma UnitsAreQuantity(props: BomProps, units: real)
    requires Units(props.quantity, units)
    ensures props.Quantity() == units
  {
  }

  lemma DirectFlow(plan: Plan, j: ComponentEdge, e: ProductEdge)
    requires plan.bom.Numbered() && plan.Acyclic() && j in plan.bom.components && e in plan.bom.products
    requires j.assembly == e.assembly
    ensures FlowVia(plan, j, e) == if CountsPart(plan, e, j) then 1.0 else 0.0
  {
    RecipeSound(plan, e.props.Variant());
    LabelsMatch(j.props, e.props);
    FlowToSelf(plan.Recipes()(e), e.assembly);
  }

  /**
   A component edge at a product edge's own root is listed if its label suits the product edge's and it is
   known; its term in the requirement is then the product of the two quantities, and otherwise nothing.
   */
  lemma DirectPartCounted(plan: Plan, p: Id, c: Id, j: ComponentEdge, e: ProductEdge, units: real, times: real)
    requires plan.bom.Numbered() && plan.Acyclic() && Relevant(plan.bom, p, c, j, e) && j.assembly == e.assembly
    requires Units(j.props.quantity, units) && Units(e.props.quantity, times)
    ensures CountsPart(plan, e, j) ==> Lists(plan, p, c, e, j)
    ensures PairTerm(FlowVias(plan), p, c, j, e) == if CountsPart(plan, e, j) then units * times else 0.0
  {
    ReachesSelf(plan.Recipes()(e).links, e.assembly);
    UnitsAreQuantity(j.props, units);
    UnitsAreQuantity(e.props, times);
    DirectFlow(plan, j, e);
    TermOf(FlowVias(plan), p, c, j, e, units, times);
  }

  lemma TermOf(via: ViaTable, p: Id, c: Id, j: ComponentEdge, e: ProductEdge, units: real, times: real)
    requires j.component == c && e.product == p && j.props.Quantity() == units && e.props.Quantity() == times
    requires via(j, e) in {0.0, 1.0}
    ensures PairTerm(via, p, c, j, e) == if via(j, e) == 1.0 then units * times else 0.0
  {
  }
}
