/**
 Requirements and exposure paths as the same kind of double sum: over a component's BOM edges and a
 product's edges, quantity times quantity times what connects the two.

 What connects a pair is a parameter, a table of reals; the walk down and the walk up each have one. So the
 two walks can be compared pair by pair, and where the tables agree on all relevant pairs, or one lies below
 the other, so do the sums.
 */
module PairSums {
  import opened Sequences
  import opened Bom
  import opened Exploration
  import opened Recipes
  import opened Requirements
  import opened BalanceEquation
  import opened ExposurePaths
  import opened PathReversal

  /** For each component edge, the choices above it. */
  type Above = ComponentEdge -> seq<Choice>

  /** The weighted number of paths above j that leave through e. */
  function Via(above: Above, j: ComponentEdge, e: ProductEdge): real {
    SumBy(ViaWeight(e), above(j))
  }

  ghost predicate LeaveThroughProducts(bom: Bom, above: Above) {
    forall j, x {:trigger x in above(j)} :: j in bom.components && x in above(j) ==> x.1 in bom.products
  }

  type ViaTable = (ComponentEdge, ProductEdge) -> real

  function Vias(above: Above): ViaTable { (j: ComponentEdge, e: ProductEdge) => ViaAt(above, j, e) }

  function ViaAt(above: Above, j: ComponentEdge, e: ProductEdge): real { Via(above, j, e) }

  /** The contribution of component edge j and product edge e to what p requires of c. */
  function PairTerm(via: ViaTable, p: Id, c: Id, j: ComponentEdge, e: ProductEdge): real {
    if j.component == c && e.product == p
    then j.props.Quantity() * (e.props.Quantity() * via(j, e))
    else 0.0
  }

  function PairTerms(via: ViaTable, p: Id, c: Id): (ComponentEdge, ProductEdge) -> real {
    (j: ComponentEdge, e: ProductEdge) => PairTerm(via, p, c, j, e)
  }

  ghost predicate TermMatches(via: ViaTable, c: Id, e: ProductEdge, f: Id -> real, w: ComponentEdge -> real,
                              j: ComponentEdge)
  {
    w(j) * f(j.assembly) == if j.component == c then j.props.Quantity() * via(j, e) else 0.0
  }

  function WeightTermAt(f: Id -> real, w: ComponentEdge -> real, j: ComponentEdge): real { w(j) * f(j.assembly) }

  function WeightTerm(f: Id -> real, w: ComponentEdge -> real): ComponentEdge -> real { j => WeightTermAt(f, w, j) }

  function PairColumn(via: ViaTable, p: Id, c: Id, e: ProductEdge): ComponentEdge -> real {
    j => PairTerm(via, p, c, j, e)
  }

  function Nothing(): ComponentEdge -> real { (j: ComponentEdge) => 0.0 }

  lemma {:induction false} WeightedIsSum(f: Id -> real, w: ComponentEdge -> real, js: seq<ComponentEdge>)
    ensures Weighted(f, AssemblyOf(), w, js) == SumBy(WeightTerm(f, w), js)
  {
    if js != [] {
      WeightedIsSum(f, w, js[1..]);
    }
  }

  lemma {:induction false} ColumnIsSum(via: ViaTable, p: Id, c: Id, e: ProductEdge, js: seq<ComponentEdge>)
    ensures ColumnSum(PairTerms(via, p, c), js, e) == SumBy(PairColumn(via, p, c, e), js)
  {
    if js != [] {
      ColumnIsSum(via, p, c, e, js[1..]);
    }
  }

  lemma TermsScale(via: ViaTable, p: Id, c: Id, e: ProductEdge, f: Id -> real, w: ComponentEdge -> real,
                   js: seq<ComponentEdge>)
    requires e.product == p && AllTermsMatch(via, c, e, f, w, js)
    ensures SumBy(PairColumn(via, p, c, e), js) == e.props.Quantity() * SumBy(WeightTerm(f, w), js)
  {
    forall j | j in js ensures PairColumn(via, p, c, e)(j) == Nothing()(j) + e.props.Quantity() * WeightTerm(f, w)(j) {
      assert TermMatches(via, c, e, f, w, j);
      TermOfColumn(via, p, c, e, f, w, j);
    }
    SumByLinear(Nothing(), WeightTerm(f, w), e.props.Quantity(), PairColumn(via, p, c, e), js);
    ZeroSum(Nothing(), js);
  }

  lemma WeightedIsColumn(
    via: ViaTable, p: Id, c: Id, e: ProductEdge, f: Id -> real, w: ComponentEdge -> real, js: seq<ComponentEdge>)
    requires e.product == p && AllTermsMatch(via, c, e, f, w, js)
    ensures e.props.Quantity() * Weighted(f, AssemblyOf(), w, js) == ColumnSum(PairTerms(via, p, c), js, e)
  {
    WeightedIsSum(f, w, js);
    ColumnIsSum(via, p, c, e, js);
    TermsScale(via, p, c, e, f, w, js);
  }

  lemma TermOfColumn(via: ViaTable, p: Id, c: Id, e: ProductEdge, f: Id -> real, w: ComponentEdge -> real,
                     j: ComponentEdge)
    requires e.product == p && TermMatches(via, c, e, f, w, j)
    ensures e.props.Quantity() * (w(j) * f(j.assembly)) == PairTerm(via, p, c, j, e)
  {
    Commute(e.props.Quantity(), j.props.Quantity(), via(j, e));
  }

  lemma Commute(a: real, b: real, v: real)
    ensures a * (b * v) == b * (a * v)
  {
    Associate(a, b, v);
    Associate(b, a, v);
  }

  ghost predicate AllTermsMatch(via: ViaTable, c: Id, e: ProductEdge, f: Id -> real, w: ComponentEdge -> real,
                                js: seq<ComponentEdge>)
  {
    forall j {:trigger j in js} :: j in js ==> TermMatches(via, c, e, f, w, j)
  }

  lemma TakesIsWeighted(plan: Plan, c: Id, e: ProductEdge)
    ensures var r := plan.Recipes()(e);
            r.Flow(Takes(r, c), e.assembly) ==
            Weighted(FlowTo(r, e.assembly), AssemblyOf(), UseWeight(plan, e.props.Variant(), c), plan.bom.components)
  {
    var js, r, variant := plan.bom.components, plan.Recipes()(e), e.props.Variant();
    TakesIsKeyed(plan, variant, c);
    FlowSameBase(r, Takes(r, c), KeyedBase(AssemblyOf(), UseWeight(plan, variant, c), js), e.assembly);
    FlowOfKeyed(r, AssemblyOf(), UseWeight(plan, variant, c), js, e.assembly);
  }

  /** What e's walk takes of c is a weighted sum over the component edges, with the terms the upward paths give. */
  ghost predicate Splits(recipes: RecipeTable, via: ViaTable, c: Id, js: seq<ComponentEdge>, e: ProductEdge) {
    exists f, w {:trigger AllTermsMatch(via, c, e, f, w, js)} ::
      AllTermsMatch(via, c, e, f, w, js) &&
        recipes(e).Flow(Takes(recipes(e), c), e.assembly) == Weighted(f, AssemblyOf(), w, js)
  }

  /** One product edge's share of a component requirement, component edge by component edge. */
  lemma ShareIsColumn(recipes: RecipeTable, via: ViaTable, p: Id, c: Id, js: seq<ComponentEdge>, e: ProductEdge)
    requires Splits(recipes, via, c, js, e)
    ensures ComponentShare(recipes, p, c)(e) == ColumnSum(PairTerms(via, p, c), js, e)
  {
    if e.product == p {
      var f, w :| AllTermsMatch(via, c, e, f, w, js) &&
                  recipes(e).Flow(Takes(recipes(e), c), e.assembly) == Weighted(f, AssemblyOf(), w, js);
      WeightedIsColumn(via, p, c, e, f, w, js);
    } else {
      ColumnOfOtherProduct(via, p, c, e, js);
    }
  }

  lemma {:induction false} ColumnOfOtherProduct(via: ViaTable, p: Id, c: Id, e: ProductEdge, js: seq<ComponentEdge>)
    requires e.product != p
    ensures ColumnSum(PairTerms(via, p, c), js, e) == 0.0
  {
    if js != [] {
      ColumnOfOtherProduct(via, p, c, e, js[1..]);
    }
  }

  // ---- the paths above one component edge, grouped by the product edge they leave through ----

  /** The weight of a returned path that reaches product p, its product edge included. */
  function ReachWeight(p: Id): Choice -> real {
    (choice: Choice) => if choice.1.product == p then choice.1.props.Quantity() * Weighs(choice.0) else 0.0
  }

  function ViaTotal(xs: seq<Choice>, e: ProductEdge): real { SumBy(ViaWeight(e), xs) }

  function ViaShare(p: Id, xs: seq<Choice>): ProductEdge -> real {
    (e: ProductEdge) => if e.product == p then e.props.Quantity() * ViaTotal(xs, e) else 0.0
  }

  lemma ViaShareOne(p: Id, x: Choice, e: ProductEdge)
    ensures ViaShare(p, [x])(e) == if e == x.1 then ReachWeight(p)(x) else 0.0
  {
    SumByOne(ViaWeight(e), x);
  }

  lemma ViaShareCons(p: Id, xs: seq<Choice>, e: ProductEdge)
    requires xs != []
    ensures ViaShare(p, xs)(e) == ViaShare(p, xs[1..])(e) + 1.0 * ViaShare(p, [xs[0]])(e)
  {
    SumByOne(ViaWeight(e), xs[0]);
    MulAdd(e.props.Quantity(), ViaTotal(xs[1..], e), ViaTotal([xs[0]], e));
  }

  lemma {:induction false} ReachByEdge(p: Id, xs: seq<Choice>, es: seq<ProductEdge>)
    requires Distinct(es) && forall x :: x in xs ==> x.1 in es
    ensures SumBy(ReachWeight(p), xs) == SumBy(ViaShare(p, xs), es)
  {
    if xs == [] {
      ZeroSum(ViaShare(p, xs), es);
    } else {
      var x, one := xs[0], [xs[0]];
      assert x in xs;
      ReachByEdge(p, xs[1..], es);
      forall e | e in es
        ensures ViaShare(p, one)(e) == if e == x.1 then ReachWeight(p)(x) else 0.0
        ensures ViaShare(p, xs)(e) == ViaShare(p, xs[1..])(e) + 1.0 * ViaShare(p, one)(e)
      {
        ViaShareOne(p, x, e);
        ViaShareCons(p, xs, e);
      }
      SingleSum(ViaShare(p, one), es, x.1);
      SumByLinear(ViaShare(p, xs[1..]), ViaShare(p, one), 1.0, ViaShare(p, xs), es);
    }
  }

  /** The weighted number of returned paths from component edge j to product p. */
  function PathsTo(above: Above, p: Id, j: ComponentEdge): real {
    SumBy(ReachWeight(p), above(j))
  }

  function PathsFrom(above: Above, p: Id, c: Id): ComponentEdge -> real {
    (j: ComponentEdge) => PathsFromEdge(above, p, c, j)
  }

  function PathsFromEdge(above: Above, p: Id, c: Id, j: ComponentEdge): real {
    if j.component == c then j.props.Quantity() * PathsTo(above, p, j) else 0.0
  }

  lemma PathsAreRow(bom: Bom, above: Above, p: Id, c: Id, j: ComponentEdge)
    requires bom.Numbered() && LeaveThroughProducts(bom, above) && j in bom.components
    ensures PathsFrom(above, p, c)(j) == RowSums(PairTerms(Vias(above), p, c), bom.products)(j)
  {
    PathsAreRowOver(Vias(above), p, c, j, above(j), bom.products);
  }

  lemma PathsAreRowOver(via: ViaTable, p: Id, c: Id, j: ComponentEdge, xs: seq<Choice>, es: seq<ProductEdge>)
    requires Distinct(es) && forall x :: x in xs ==> x.1 in es
    requires forall e {:trigger e in es} :: e in es ==> via(j, e) == ViaTotal(xs, e)
    ensures RowSum(PairTerms(via, p, c), j, es) == if j.component == c then
            j.props.Quantity() * SumBy(ReachWeight(p), xs) else 0.0
  {
    ReachByEdge(p, xs, es);
    RowIsScaled(via, p, c, j, ViaShare(p, xs), es);
  }

  lemma {:induction false} RowIsScaled(via: ViaTable, p: Id, c: Id, j: ComponentEdge, share: ProductEdge -> real,
                                       es: seq<ProductEdge>)
    requires forall e :: e in es ==> share(e) == if e.product == p then e.props.Quantity() * via(j, e) else 0.0
    ensures RowSum(PairTerms(via, p, c), j, es) == if j.component == c then j.props.Quantity() * SumBy(share, es)
            else 0.0
  {
    if es != [] {
      assert es[0] in es;
      RowIsScaled(via, p, c, j, share, es[1..]);
      MulAdd(j.props.Quantity(), share(es[0]), SumBy(share, es[1..]));
    }
  }

  lemma SharesAreColumns(recipes: RecipeTable, via: ViaTable, p: Id, c: Id, bom: Bom)
    requires forall e {:trigger e in bom.products} :: e in bom.products ==> Splits(recipes, via, c, bom.components, e)
    ensures SumBy(ComponentShare(recipes, p, c), bom.products) ==
            SumBy(ColumnSums(PairTerms(via, p, c), bom.components), bom.products)
  {
    forall e | e in bom.products
      ensures ComponentShare(recipes, p, c)(e) == ColumnSums(PairTerms(via, p, c), bom.components)(e)
    {
      ShareIsColumn(recipes, via, p, c, bom.components, e);
    }
    SumByEqual(ComponentShare(recipes, p, c), ColumnSums(PairTerms(via, p, c), bom.components), bom.products);
  }

  /** All contributions to what p requires of c, over component edges and product edges. */
  function PairSum(via: ViaTable, p: Id, c: Id, bom: Bom): real {
    SumBy(RowSums(PairTerms(via, p, c), bom.products), bom.components)
  }

  // ---- the requirement as a double sum ----

  /** The flow from product edge e's root down to component edge j's assembly, if e's walk counts j. */
  ghost function FlowVia(plan: Plan, j: ComponentEdge, e: ProductEdge): real {
    if plan.Counted(j, e.props.Variant()) then plan.Recipes()(e).Flow(At(j.assembly), e.assembly) else 0.0
  }

  ghost function FlowVias(plan: Plan): ViaTable { (j: ComponentEdge, e: ProductEdge) => FlowVia(plan, j, e) }

  lemma WeightsMatch(plan: Plan, c: Id, e: ProductEdge)
    ensures AllTermsMatch(FlowVias(plan), c, e, FlowTo(plan.Recipes()(e), e.assembly),
                          UseWeight(plan, e.props.Variant(), c), plan.bom.components)
  {
    forall j | j in plan.bom.components
      ensures TermMatches(FlowVias(plan), c, e, FlowTo(plan.Recipes()(e), e.assembly),
                          UseWeight(plan, e.props.Variant(), c), j)
    {
    }
  }

  lemma WalksSplit(plan: Plan, c: Id)
    ensures forall e {:trigger e in plan.bom.products} :: e in plan.bom.products ==>
              Splits(plan.Recipes(), FlowVias(plan), c, plan.bom.components, e)
  {
    forall e | e in plan.bom.products ensures Splits(plan.Recipes(), FlowVias(plan), c, plan.bom.components, e) {
      WeightsMatch(plan, c, e);
      TakesIsWeighted(plan, c, e);
    }
  }

  /** What p requires of c is the double sum of the flows. */
  lemma RequirementIsPairSum(plan: Plan, p: Id, c: Id)
    ensures plan.ComponentRequirement(p, c) == PairSum(FlowVias(plan), p, c, plan.bom)
  {
    WalksSplit(plan, c);
    SharesAreColumns(plan.Recipes(), FlowVias(plan), p, c, plan.bom);
    SwapSums(PairTerms(FlowVias(plan), p, c), plan.bom.components, plan.bom.products);
  }

  /** The weights of the returned paths are the double sum of the weighted climbs. */
  lemma PathsArePairSum(bom: Bom, above: Above, p: Id, c: Id)
    requires bom.Numbered() && LeaveThroughProducts(bom, above)
    ensures SumBy(PathsFrom(above, p, c), bom.components) == PairSum(Vias(above), p, c, bom)
  {
    forall j | j in bom.components
      ensures PathsFrom(above, p, c)(j) == RowSums(PairTerms(Vias(above), p, c), bom.products)(j)
    {
      PathsAreRow(bom, above, p, c, j);
    }
    SumByEqual(PathsFrom(above, p, c), RowSums(PairTerms(Vias(above), p, c), bom.products), bom.components);
  }

  // ---- comparing double sums ----

  /** The pairs of edges that connect component c with product p. */
  ghost predicate Relevant(bom: Bom, p: Id, c: Id, j: ComponentEdge, e: ProductEdge) {
    j in bom.components && e in bom.products && j.component == c && e.product == p
  }

  ghost predicate PositiveQuantities(bom: Bom) {
    && (forall e {:trigger e in bom.components} :: e in bom.components ==> e.props.Quantity() > 0.0)
    && (forall e {:trigger e in bom.assemblies} :: e in bom.assemblies ==> e.props.Quantity() > 0.0)
    && (forall e {:trigger e in bom.products} :: e in bom.products ==> e.props.Quantity() > 0.0)
  }

  lemma PositiveScale(a: real, b: real, x: real, y: real)
    requires a > 0.0 && b > 0.0 && x <= y
    ensures a * (b * x) <= a * (b * y)
    ensures a * (b * x) == a * (b * y) <==> x == y
  {
    var d := y - x;
    MulAdd(b, x, d);
    MulAdd(a, b * x, b * d);
    assert b * d >= 0.0 && (b * d == 0.0 <==> d == 0.0);
    assert a * (b * d) >= 0.0 && (a * (b * d) == 0.0 <==> b * d == 0.0);
  }

  /** Pointwise smaller terms have the smaller sum, and the same sum only if they are the same. */
  lemma {:induction false} SumsCompare<T(!new)>(f: T -> real, g: T -> real, xs: seq<T>)
    requires forall x :: x in xs ==> f(x) <= g(x)
    ensures SumBy(f, xs) <= SumBy(g, xs)
    ensures SumBy(f, xs) == SumBy(g, xs) <==> forall x :: x in xs ==> f(x) == g(x)
  {
    if xs != [] {
      SumsCompare(f, g, xs[1..]);
      assert forall x :: x in xs <==> x == xs[0] || x in xs[1..];
    }
  }

  ghost predicate AtMostOn(small: ViaTable, large: ViaTable, bom: Bom, p: Id, c: Id) {
    forall j, e {:trigger small(j, e)} {:trigger large(j, e)} :: Relevant(bom, p, c, j, e) ==>
      small(j, e) <= large(j, e)
  }

  ghost predicate SameOn(small: ViaTable, large: ViaTable, bom: Bom, p: Id, c: Id) {
    forall j, e {:trigger small(j, e)} {:trigger large(j, e)} :: Relevant(bom, p, c, j, e) ==>
      small(j, e) == large(j, e)
  }

  ghost predicate SameRow(small: ViaTable, large: ViaTable, bom: Bom, p: Id, c: Id, j: ComponentEdge) {
    forall e {:trigger small(j, e)} {:trigger large(j, e)} :: Relevant(bom, p, c, j, e) ==> small(j, e) == large(j, e)
  }

  lemma TermsCompare(bom: Bom, p: Id, c: Id, small: ViaTable, large: ViaTable, j: ComponentEdge, e: ProductEdge)
    requires PositiveQuantities(bom) && j in bom.components && e in bom.products
    requires Relevant(bom, p, c, j, e) ==> small(j, e) <= large(j, e)
    ensures PairTerm(small, p, c, j, e) <= PairTerm(large, p, c, j, e)
    ensures PairTerm(small, p, c, j, e) == PairTerm(large, p, c, j, e) <==>
            (Relevant(bom, p, c, j, e) ==> small(j, e) == large(j, e))
  {
    if Relevant(bom, p, c, j, e) {
      PositiveScale(j.props.Quantity(), e.props.Quantity(), small(j, e), large(j, e));
    }
  }

  lemma RowsCompare(bom: Bom, p: Id, c: Id, small: ViaTable, large: ViaTable, j: ComponentEdge)
    requires PositiveQuantities(bom) && AtMostOn(small, large, bom, p, c) && j in bom.components
    ensures RowSums(PairTerms(small, p, c), bom.products)(j) <= RowSums(PairTerms(large, p, c), bom.products)(j)
    ensures RowSums(PairTerms(small, p, c), bom.products)(j) == RowSums(PairTerms(large, p, c), bom.products)(j) <==>
            SameRow(small, large, bom, p, c, j)
  {
    var f, g := Fix(PairTerms(small, p, c), j), Fix(PairTerms(large, p, c), j);
    forall e | e in bom.products
      ensures f(e) <= g(e)
      ensures f(e) == g(e) <==> (Relevant(bom, p, c, j, e) ==> small(j, e) == large(j, e))
    {
      TermsCompare(bom, p, c, small, large, j, e);
    }
    SumsCompare(f, g, bom.products);
  }

  /** With positive quantities double sums compare as their tables do on the relevant pairs, equality included. */
  lemma PairSumsCompare(bom: Bom, p: Id, c: Id, small: ViaTable, large: ViaTable)
    requires PositiveQuantities(bom) && AtMostOn(small, large, bom, p, c)
    ensures PairSum(small, p, c, bom) <= PairSum(large, p, c, bom)
    ensures PairSum(small, p, c, bom) == PairSum(large, p, c, bom) <==> SameOn(small, large, bom, p, c)
  {
    var f, g := RowSums(PairTerms(small, p, c), bom.products), RowSums(PairTerms(large, p, c), bom.products);
    forall j | j in bom.components
      ensures f(j) <= g(j)
      ensures f(j) == g(j) <==> SameRow(small, large, bom, p, c, j)
    {
      RowsCompare(bom, p, c, small, large, j);
    }
    SumsCompare(f, g, bom.components);
    if forall j :: j in bom.components ==> SameRow(small, large, bom, p, c, j) {
      forall j, e | Relevant(bom, p, c, j, e) ensures small(j, e) == large(j, e) {
        assert SameRow(small, large, bom, p, c, j);
      }
    }
  }

  /** Tables that are the same on the relevant pairs have the same double sum, whatever the quantities. */
  lemma SamePairSums(bom: Bom, p: Id, c: Id, via: ViaTable, other: ViaTable)
    requires SameOn(via, other, bom, p, c)
    ensures PairSum(via, p, c, bom) == PairSum(other, p, c, bom)
  {
    var f, g := RowSums(PairTerms(via, p, c), bom.products), RowSums(PairTerms(other, p, c), bom.products);
    forall j | j in bom.components ensures f(j) == g(j) {
      SameRowSums(bom, p, c, via, other, j);
    }
    SumByEqual(f, g, bom.components);
  }

  lemma SameRowSums(bom: Bom, p: Id, c: Id, via: ViaTable, other: ViaTable, j: ComponentEdge)
    requires SameOn(via, other, bom, p, c) && j in bom.components
    ensures RowSum(PairTerms(via, p, c), j, bom.products) == RowSum(PairTerms(other, p, c), j, bom.products)
  {
    var f, g := Fix(PairTerms(via, p, c), j), Fix(PairTerms(other, p, c), j);
    forall e | e in bom.products ensures f(e) == g(e) {
      assert Relevant(bom, p, c, j, e) ==> via(j, e) == other(j, e);
    }
    SumByEqual(f, g, bom.products);
  }
}
