/**
 Downward explosion and upward enumeration tell the same story exactly where the variant filters of the
 two walks pass the same paths.
 */
module BomDuality {
  import opened Sequences
  import opened Graphs
  import opened Bom
  import opened Exploration
  import opened Recipes
  import opened Requirements
  import opened ExposurePaths
  import opened UpwardSearch
  import opened PathReversal
  import opened PairSums

  // ---- the climb a component edge gives rise to, and the climb along followed edges ----

  /** The climb for the paths above component edge j. */
  function ClimbAbove(bom: Bom, j: ComponentEdge): Climb { ClimbFor(bom, j.props.Variant()) }

  function ChoicesAbove(bom: Bom, j: ComponentEdge): seq<Choice> { UpChoices(ClimbAbove(bom, j), j.assembly) }

  function AboveIn(bom: Bom): Above { (j: ComponentEdge) => ChoicesAbove(bom, j) }

  predicate FollowedBy(plan: Plan, variant: string, d: AssemblyEdge) { plan.Followed(d, variant) }

  /** The downward walk's filter on assembly edges. */
  function FollowFilter(plan: Plan, variant: string): AssemblyEdge -> bool {
    (d: AssemblyEdge) => FollowedBy(plan, variant, d)
  }

  function FollowedUpAt(plan: Plan, variant: string, x: Id): seq<AssemblyEdge> {
    Filter(FollowFilter(plan, variant), UpAt(plan.bom, "all", x))
  }

  function FollowedUp(plan: Plan, variant: string): Id -> seq<AssemblyEdge> { x => FollowedUpAt(plan, variant, x) }

  /** The climb along the edges the downward walk follows, out through any product edge. */
  function ClimbFollowing(plan: Plan, variant: string): Climb {
    ClimbFor(plan.bom, "all").(up := FollowedUp(plan, variant))
  }

  lemma FollowedUpExact(plan: Plan, variant: string, x: Id, d: AssemblyEdge)
    ensures d in FollowedUpAt(plan, variant, x) <==>
            d in plan.bom.assemblies && d.child == x && plan.Followed(d, variant)
  {
    UpExact(plan.bom, "all", x, d);
    FilterMember(FollowFilter(plan, variant), UpAt(plan.bom, "all", x), d);
  }

  lemma ClimbFollowingSound(plan: Plan, variant: string)
    requires plan.bom.Numbered()
    ensures ClimbFollowing(plan, variant).Sound()
  {
    var all, c := ClimbFor(plan.bom, "all"), ClimbFollowing(plan, variant);
    ClimbSound(plan.bom, "all");
    forall x, d | d in c.up(x) ensures d.parent in c.targets {
      FilterMember(FollowFilter(plan, variant), all.up(x), d);
    }
    forall x ensures Distinct(c.up(x)) {
      FilterDistinct(FollowFilter(plan, variant), all.up(x));
    }
  }

  lemma FollowingMirrors(plan: Plan, variant: string)
    ensures Mirror(ClimbFollowing(plan, variant), plan.RecipeFor(variant).kids)
  {
    var c, r := ClimbFollowing(plan, variant), plan.RecipeFor(variant);
    forall x, d | d in c.up(x) ensures d.child == x && d in r.kids(d.parent) {
      FollowedUpExact(plan, variant, x, d);
      KidsExact(plan, variant, d.parent, d);
    }
    forall x, d | d in r.kids(x) ensures d.parent == x && d in c.up(d.child) {
      KidsExact(plan, variant, x, d);
      FollowedUpExact(plan, variant, d.child, d);
    }
  }

  /** The flow down to an assembly is the weight of the simple climbs along followed edges. */
  lemma FlowIsClimbs(plan: Plan, start: Id, e: ProductEdge)
    requires plan.bom.Numbered() && plan.Acyclic() && e in plan.bom.products
    ensures SumBy(ViaWeight(e), UpChoices(ClimbFollowing(plan, e.props.Variant()), start)) ==
            plan.Recipes()(e).Flow(At(start), e.assembly)
  {
    var c := ClimbFollowing(plan, e.props.Variant());
    ClimbFollowingSound(plan, e.props.Variant());
    FollowingMirrors(plan, e.props.Variant());
    RecipeSound(plan, e.props.Variant());
    forall x ensures e in c.exits(x) <==> x == e.assembly {
      ExitsExact(plan.bom, "all", x, e);
    }
    ClimbsAreFlow(c, plan.Recipes()(e), start, e);
  }

  // ---- the paths both walks choose from ----

  /** p is a simple path of BOM edges, of any variants, climbing from one assembly to another. */
  ghost predicate Between(bom: Bom, start: Id, top: Id, p: Path) {
    SimplePath(ClimbFor(bom, "all"), start, p) && Top(start, p) == top
  }

  ghost predicate Passes(keep: AssemblyEdge -> bool, p: Path) {
    forall k {:trigger p[k]} :: 0 <= k < |p| ==> keep(p[k])
  }

  /** The component edge's variant suits the product edge's. */
  predicate Suits(j: ComponentEdge, e: ProductEdge) { VariantMatches(j.props.Variant(), e.props.Variant()) }

  /** Every simple path between the two passes the upward filter exactly when it passes the downward one. */
  ghost predicate PathsAgree(plan: Plan, j: ComponentEdge, e: ProductEdge) {
    forall p :: Between(plan.bom, j.assembly, e.assembly, p) ==>
                  (Passes(ClimbFilter(j.props.Variant()), p) <==> Passes(FollowFilter(plan, e.props.Variant()), p))
  }

  /** At x the climb c goes along the edges of the other one that are kept. */
  ghost predicate Restricts(all: Climb, c: Climb, keep: AssemblyEdge -> bool, x: Id, d: AssemblyEdge) {
    d in c.up(x) <==> d in all.up(x) && keep(d)
  }

  /** Restricting a climb to some of its edges restricts its simple paths. */
  lemma RestrictedPaths(all: Climb, c: Climb, keep: AssemblyEdge -> bool, start: Id, p: Path)
    requires forall x, d :: Restricts(all, c, keep, x, d)
    ensures SimplePath(c, start, p) <==> SimplePath(all, start, p) && Passes(keep, p)
  {
    forall k | 0 <= k < |p|
      ensures p[k] in c.up(Top(start, p[..k])) <==> p[k] in all.up(Top(start, p[..k])) && keep(p[k])
    {
      assert Restricts(all, c, keep, Top(start, p[..k]), p[k]);
    }
  }

  lemma ClimbPaths(bom: Bom, v: string, start: Id, p: Path)
    ensures SimplePath(ClimbFor(bom, v), start, p) <==>
            SimplePath(ClimbFor(bom, "all"), start, p) && Passes(ClimbFilter(v), p)
  {
    forall x, d ensures Restricts(ClimbFor(bom, "all"), ClimbFor(bom, v), ClimbFilter(v), x, d) {
      UpExact(bom, v, x, d);
      UpExact(bom, "all", x, d);
    }
    RestrictedPaths(ClimbFor(bom, "all"), ClimbFor(bom, v), ClimbFilter(v), start, p);
  }

  lemma FollowedPaths(plan: Plan, v: string, start: Id, p: Path)
    ensures SimplePath(ClimbFollowing(plan, v), start, p) <==>
            SimplePath(ClimbFor(plan.bom, "all"), start, p) && Passes(FollowFilter(plan, v), p)
  {
    var all, c := ClimbFor(plan.bom, "all"), ClimbFollowing(plan, v);
    forall x, d ensures Restricts(all, c, FollowFilter(plan, v), x, d) {
      FilterMember(FollowFilter(plan, v), UpAt(plan.bom, "all", x), d);
    }
    RestrictedPaths(all, c, FollowFilter(plan, v), start, p);
  }

  /** The climbs above j that leave through e. */
  function ClimbsVia(bom: Bom, j: ComponentEdge, e: ProductEdge): seq<Choice> {
    Filter(ViaFilter(e), ChoicesAbove(bom, j))
  }

  /** The climbs from j's assembly along edges followed for e that leave through e. */
  function DescentsVia(plan: Plan, j: ComponentEdge, e: ProductEdge): seq<Choice> {
    Filter(ViaFilter(e), UpChoices(ClimbFollowing(plan, e.props.Variant()), j.assembly))
  }

  lemma ClimbsViaExact(bom: Bom, j: ComponentEdge, e: ProductEdge, x: Choice)
    requires bom.Numbered() && e in bom.products
    ensures x in ClimbsVia(bom, j, e) <==>
            (x.1 == e && Suits(j, e) && Between(bom, j.assembly, e.assembly, x.0) &&
              Passes(ClimbFilter(j.props.Variant()), x.0))
  {
    ClimbSound(bom, j.props.Variant());
    UpChoicesExact(ClimbAbove(bom, j), j.assembly);
    FilterMember(ViaFilter(e), ChoicesAbove(bom, j), x);
    ExitsExact(bom, j.props.Variant(), Top(j.assembly, x.0), e);
    ClimbPaths(bom, j.props.Variant(), j.assembly, x.0);
  }

  lemma DescentsViaExact(plan: Plan, j: ComponentEdge, e: ProductEdge, x: Choice)
    requires plan.bom.Numbered() && e in plan.bom.products
    ensures x in DescentsVia(plan, j, e) <==>
            (x.1 == e && Between(plan.bom, j.assembly, e.assembly, x.0) &&
              Passes(FollowFilter(plan, e.props.Variant()), x.0))
  {
    var c := ClimbFollowing(plan, e.props.Variant());
    ClimbFollowingSound(plan, e.props.Variant());
    UpChoicesExact(c, j.assembly);
    FilterMember(ViaFilter(e), UpChoices(c, j.assembly), x);
    ExitsExact(plan.bom, "all", Top(j.assembly, x.0), e);
    FollowedPaths(plan, e.props.Variant(), j.assembly, x.0);
  }

  lemma BothDistinct(plan: Plan, j: ComponentEdge, e: ProductEdge)
    requires plan.bom.Numbered()
    ensures Distinct(ClimbsVia(plan.bom, j, e)) && Distinct(DescentsVia(plan, j, e))
  {
    ClimbSound(plan.bom, j.props.Variant());
    UpChoicesExact(ClimbAbove(plan.bom, j), j.assembly);
    FilterDistinct(ViaFilter(e), ChoicesAbove(plan.bom, j));
    ClimbFollowingSound(plan, e.props.Variant());
    UpChoicesExact(ClimbFollowing(plan, e.props.Variant()), j.assembly);
    FilterDistinct(ViaFilter(e), UpChoices(ClimbFollowing(plan, e.props.Variant()), j.assembly));
  }

  /** What connects a pair in the two double sums, as sums of path weights. */
  lemma TablesAreWeights(plan: Plan, j: ComponentEdge, e: ProductEdge)
    requires plan.bom.Numbered() && plan.Acyclic() && e in plan.bom.products && j.component in plan.knownComponents
    ensures Via(AboveIn(plan.bom), j, e) == SumBy(ChoiceWeight(), ClimbsVia(plan.bom, j, e))
    ensures FlowVia(plan, j, e) == if Suits(j, e) then SumBy(ChoiceWeight(), DescentsVia(plan, j, e)) else 0.0
  {
    SumByFilter(ViaWeight(e), ChoiceWeight(), ViaFilter(e), ChoicesAbove(plan.bom, j));
    var choices := UpChoices(ClimbFollowing(plan, e.props.Variant()), j.assembly);
    SumByFilter(ViaWeight(e), ChoiceWeight(), ViaFilter(e), choices);
    FlowIsClimbs(plan, j.assembly, e);
  }

  lemma NoClimbsUnsuited(plan: Plan, j: ComponentEdge, e: ProductEdge)
    requires plan.bom.Numbered() && e in plan.bom.products && !Suits(j, e)
    ensures ClimbsVia(plan.bom, j, e) == []
  {
    var xs := ClimbsVia(plan.bom, j, e);
    if xs != [] {
      ClimbsViaExact(plan.bom, j, e, xs[0]);
    }
  }

  // ---- where the filters agree the walks agree ----

  /** A pair whose paths agree is connected by the same weight in both walks. */
  lemma PairDuality(plan: Plan, j: ComponentEdge, e: ProductEdge)
    requires plan.bom.Numbered() && plan.Acyclic() && e in plan.bom.products && j.component in plan.knownComponents
    requires Suits(j, e) ==> PathsAgree(plan, j, e)
    ensures Via(AboveIn(plan.bom), j, e) == FlowVia(plan, j, e)
  {
    TablesAreWeights(plan, j, e);
    if Suits(j, e) {
      var ups, downs := ClimbsVia(plan.bom, j, e), DescentsVia(plan, j, e);
      forall x ensures x in ups <==> x in downs {
        ClimbsViaExact(plan.bom, j, e, x);
        DescentsViaExact(plan, j, e, x);
      }
      BothDistinct(plan, j, e);
      SumBySameMembers(ChoiceWeight(), ups, downs);
    } else {
      NoClimbsUnsuited(plan, j, e);
    }
  }

  lemma ChoicesLeaveThroughProducts(bom: Bom, j: ComponentEdge)
    requires bom.Numbered()
    ensures forall x :: x in ChoicesAbove(bom, j) ==> x.1 in bom.products
  {
    ClimbSound(bom, j.props.Variant());
    UpChoicesExact(ClimbAbove(bom, j), j.assembly);
    forall x | x in ChoicesAbove(bom, j) ensures x.1 in bom.products {
      ExitsExact(bom, j.props.Variant(), Top(j.assembly, x.0), x.1);
    }
  }

  lemma AllLeaveThroughProducts(bom: Bom)
    requires bom.Numbered()
    ensures LeaveThroughProducts(bom, AboveIn(bom))
  {
    forall j, x | j in bom.components && x in AboveIn(bom)(j) ensures x.1 in bom.products {
      ChoicesLeaveThroughProducts(bom, j);
    }
  }

  /** On every suiting pair that connects component c with product p, the paths agree. */
  ghost predicate AllPathsAgree(plan: Plan, p: Id, c: Id) {
    forall j, e {:trigger Suits(j, e)} :: Relevant(plan.bom, p, c, j, e) && Suits(j, e) ==> PathsAgree(plan, j, e)
  }

  /** The upward side of the duality: quantities and path weights over all BOM edges of the component. */
  function PathTotal(bom: Bom, p: Id, c: Id): real { SumBy(PathsFrom(AboveIn(bom), p, c), bom.components) }

  /**
   Duality: what one unit of product p requires of component c, computed by the downward queue, is the
   sum over the component's BOM edges of the edge quantity times the weights of the upward paths.
   */
  lemma Duality(plan: Plan, p: Id, c: Id)
    requires plan.bom.Numbered() && plan.Acyclic() && c in plan.knownComponents && AllPathsAgree(plan, p, c)
    ensures plan.ComponentRequirement(p, c) == PathTotal(plan.bom, p, c)
  {
    forall j, e | Relevant(plan.bom, p, c, j, e) ensures Vias(AboveIn(plan.bom))(j, e) == FlowVias(plan)(j, e) {
      PairDuality(plan, j, e);
    }
    RequirementIsPairSum(plan, p, c);
    AllLeaveThroughProducts(plan.bom);
    PathsArePairSum(plan.bom, AboveIn(plan.bom), p, c);
    SamePairSums(plan.bom, p, c, Vias(AboveIn(plan.bom)), FlowVias(plan));
  }

  // ---- and only there ----

  /** Every component and every child assembly of the BOM is known. */
  ghost predicate AllKnown(plan: Plan) {
    && (forall e {:trigger e in plan.bom.components} :: e in plan.bom.components ==>
        e.component in plan.knownComponents)
    && (forall e {:trigger e in plan.bom.assemblies} :: e in plan.bom.assemblies ==> e.child in plan.knownAssemblies)
  }

  lemma PathEdgesKnown(bom: Bom, start: Id, top: Id, p: Path, k: nat)
    requires Between(bom, start, top, p) && k < |p|
    ensures p[k] in bom.assemblies
  {
    assert p[k] in ClimbFor(bom, "all").up(Top(start, p[..k]));
    UpExact(bom, "all", Top(start, p[..k]), p[k]);
  }

  /** Matching composes through a variant that is no wildcard. */
  lemma MatchComposes(inner: string, middle: string, outer: string)
    requires !Wildcard(middle) && VariantMatches(inner, middle) && VariantMatches(middle, outer)
    ensures VariantMatches(inner, outer)
  {
  }

  /** A component edge with a variant of its own climbs only along followed edges. */
  lemma SpecificClimbsFollowed(plan: Plan, j: ComponentEdge, e: ProductEdge, p: Path)
    requires AllKnown(plan) && Suits(j, e) && !Wildcard(j.props.Variant())
    requires Between(plan.bom, j.assembly, e.assembly, p) && Passes(ClimbFilter(j.props.Variant()), p)
    ensures Passes(FollowFilter(plan, e.props.Variant()), p)
  {
    forall k | 0 <= k < |p| ensures FollowFilter(plan, e.props.Variant())(p[k]) {
      PathEdgesKnown(plan.bom, j.assembly, e.assembly, p, k);
      assert ClimbFilter(j.props.Variant())(p[k]);
      MatchComposes(p[k].props.Variant(), j.props.Variant(), e.props.Variant());
    }
  }

  /** A wildcard component edge climbs along every edge. */
  lemma WildcardClimbsAll(v: string, p: Path)
    requires Wildcard(v)
    ensures Passes(ClimbFilter(v), p)
  {
  }

  /** One list of climbs is contained in the other: which one, the component edge's variant decides. */
  lemma OneContained(plan: Plan, j: ComponentEdge, e: ProductEdge)
    requires plan.bom.Numbered() && AllKnown(plan) && e in plan.bom.products && Suits(j, e)
    ensures !Wildcard(j.props.Variant()) ==> forall x :: x in ClimbsVia(plan.bom, j, e) ==> x in DescentsVia(plan, j, e)
    ensures Wildcard(j.props.Variant()) ==> forall x :: x in DescentsVia(plan, j, e) ==> x in ClimbsVia(plan.bom, j, e)
  {
    forall x
      ensures !Wildcard(j.props.Variant()) && x in ClimbsVia(plan.bom, j, e) ==> x in DescentsVia(plan, j, e)
      ensures Wildcard(j.props.Variant()) && x in DescentsVia(plan, j, e) ==> x in ClimbsVia(plan.bom, j, e)
    {
      ClimbsViaExact(plan.bom, j, e, x);
      DescentsViaExact(plan, j, e, x);
      if Wildcard(j.props.Variant()) {
        WildcardClimbsAll(j.props.Variant(), x.0);
      } else if x in ClimbsVia(plan.bom, j, e) {
        SpecificClimbsFollowed(plan, j, e, x.0);
      }
    }
  }

  lemma {:induction false} PositiveWeight(p: Path)
    requires forall k {:trigger p[k]} :: 0 <= k < |p| ==> p[k].props.Quantity() > 0.0
    ensures Weight(p) > 0.0
  {
    if p != [] {
      PositiveWeight(p[1..]);
      assert p[0].props.Quantity() > 0.0;
    }
  }

  lemma PathWeightPositive(bom: Bom, start: Id, top: Id, p: Path)
    requires PositiveQuantities(bom) && Between(bom, start, top, p)
    ensures Weight(p) > 0.0
  {
    forall k | 0 <= k < |p| ensures p[k].props.Quantity() > 0.0 {
      PathEdgesKnown(bom, start, top, p, k);
    }
    PositiveWeight(p);
  }

  lemma WeightsPositive(plan: Plan, j: ComponentEdge, e: ProductEdge)
    requires plan.bom.Numbered() && PositiveQuantities(plan.bom) && e in plan.bom.products
    ensures forall x :: x in ClimbsVia(plan.bom, j, e) ==> ChoiceWeight()(x) > 0.0
    ensures forall x :: x in DescentsVia(plan, j, e) ==> ChoiceWeight()(x) > 0.0
  {
    forall x | x in ClimbsVia(plan.bom, j, e) ensures ChoiceWeight()(x) > 0.0 {
      ClimbsViaExact(plan.bom, j, e, x);
      PathWeightPositive(plan.bom, j.assembly, e.assembly, x.0);
    }
    forall x | x in DescentsVia(plan, j, e) ensures ChoiceWeight()(x) > 0.0 {
      DescentsViaExact(plan, j, e, x);
      PathWeightPositive(plan.bom, j.assembly, e.assembly, x.0);
    }
  }

  /** The two lists have the same members exactly when the paths agree. */
  lemma SameClimbsExactly(plan: Plan, j: ComponentEdge, e: ProductEdge)
    requires plan.bom.Numbered() && e in plan.bom.products && Suits(j, e)
    ensures (forall x :: x in ClimbsVia(plan.bom, j, e) <==> x in DescentsVia(plan, j, e)) <==> PathsAgree(plan, j, e)
  {
    forall x ensures x in ClimbsVia(plan.bom, j, e) <==>
                     (x.1 == e && Between(plan.bom, j.assembly, e.assembly, x.0) &&
                       Passes(ClimbFilter(j.props.Variant()), x.0)) {
      ClimbsViaExact(plan.bom, j, e, x);
    }
    forall x ensures x in DescentsVia(plan, j, e) <==>
                     (x.1 == e && Between(plan.bom, j.assembly, e.assembly, x.0) &&
                       Passes(FollowFilter(plan, e.props.Variant()), x.0)) {
      DescentsViaExact(plan, j, e, x);
    }
    if forall x :: x in ClimbsVia(plan.bom, j, e) <==> x in DescentsVia(plan, j, e) {
      forall p | Between(plan.bom, j.assembly, e.assembly, p)
        ensures Passes(ClimbFilter(j.props.Variant()), p) <==> Passes(FollowFilter(plan, e.props.Variant()), p)
      {
        var x: Choice := (p, e);
        assert x in ClimbsVia(plan.bom, j, e) <==> x in DescentsVia(plan, j, e);
      }
    }
  }

  /**
   One suiting pair: a component edge with its own variant never over-reports what the walk down takes, a
   wildcard one never under-reports it, and both report it exactly if and only if every simple path between
   the two passes both filters or neither.
   */
  lemma PairAgreesExactly(plan: Plan, j: ComponentEdge, e: ProductEdge)
    requires plan.bom.Numbered() && plan.Acyclic() && AllKnown(plan) && PositiveQuantities(plan.bom)
    requires j in plan.bom.components && e in plan.bom.products && Suits(j, e)
    ensures !Wildcard(j.props.Variant()) ==> Via(AboveIn(plan.bom), j, e) <= FlowVia(plan, j, e)
    ensures Wildcard(j.props.Variant()) ==> FlowVia(plan, j, e) <= Via(AboveIn(plan.bom), j, e)
    ensures Via(AboveIn(plan.bom), j, e) == FlowVia(plan, j, e) <==> PathsAgree(plan, j, e)
  {
    var ups, downs := ClimbsVia(plan.bom, j, e), DescentsVia(plan, j, e);
    TablesAreWeights(plan, j, e);
    BothDistinct(plan, j, e);
    OneContained(plan, j, e);
    WeightsPositive(plan, j, e);
    SameClimbsExactly(plan, j, e);
    if Wildcard(j.props.Variant()) {
      SumByInclusion(ChoiceWeight(), downs, ups);
    } else {
      SumByInclusion(ChoiceWeight(), ups, downs);
    }
  }

  /** All BOM edges of the component carry variants of their own, or all of them wildcards. */
  ghost predicate AllSpecific(bom: Bom, c: Id) {
    forall j {:trigger j in bom.components} :: j in bom.components && j.component == c ==> !Wildcard(j.props.Variant())
  }

  ghost predicate AllWildcard(bom: Bom, c: Id) {
    forall j {:trigger j in bom.components} :: j in bom.components && j.component == c ==> Wildcard(j.props.Variant())
  }

  lemma TablesCompare(plan: Plan, p: Id, c: Id)
    requires plan.bom.Numbered() && plan.Acyclic() && AllKnown(plan) && PositiveQuantities(plan.bom)
    ensures AllSpecific(plan.bom, c) ==> AtMostOn(Vias(AboveIn(plan.bom)), FlowVias(plan), plan.bom, p, c)
    ensures AllWildcard(plan.bom, c) ==> AtMostOn(FlowVias(plan), Vias(AboveIn(plan.bom)), plan.bom, p, c)
    ensures SameOn(Vias(AboveIn(plan.bom)), FlowVias(plan), plan.bom, p, c) <==> AllPathsAgree(plan, p, c)
  {
    var ups, downs := Vias(AboveIn(plan.bom)), FlowVias(plan);
    forall j, e | Relevant(plan.bom, p, c, j, e)
      ensures !Wildcard(j.props.Variant()) ==> ups(j, e) <= downs(j, e)
      ensures Wildcard(j.props.Variant()) ==> downs(j, e) <= ups(j, e)
      ensures ups(j, e) == downs(j, e) <==> (Suits(j, e) ==> PathsAgree(plan, j, e))
    {
      if Suits(j, e) {
        PairAgreesExactly(plan, j, e);
      } else {
        PairDuality(plan, j, e);
      }
    }
  }

  /**
   The walks part only one way per component: with variants of its own a component is never over-reported
   upward, with wildcards never under-reported; and for such a component the duality holds exactly when the
   paths agree on every suiting pair.
   */
  lemma DualityExactly(plan: Plan, p: Id, c: Id)
    requires plan.bom.Numbered() && plan.Acyclic() && AllKnown(plan) && PositiveQuantities(plan.bom)
    ensures AllSpecific(plan.bom, c) ==> PathTotal(plan.bom, p, c) <= plan.ComponentRequirement(p, c)
    ensures AllWildcard(plan.bom, c) ==> plan.ComponentRequirement(p, c) <= PathTotal(plan.bom, p, c)
    ensures AllSpecific(plan.bom, c) || AllWildcard(plan.bom, c) ==>
              (plan.ComponentRequirement(p, c) == PathTotal(plan.bom, p, c) <==> AllPathsAgree(plan, p, c))
  {
    var ups, downs := Vias(AboveIn(plan.bom)), FlowVias(plan);
    TablesCompare(plan, p, c);
    RequirementIsPairSum(plan, p, c);
    AllLeaveThroughProducts(plan.bom);
    PathsArePairSum(plan.bom, AboveIn(plan.bom), p, c);
    if AllSpecific(plan.bom, c) {
      PairSumsCompare(plan.bom, p, c, ups, downs);
    }
    if AllWildcard(plan.bom, c) {
      PairSumsCompare(plan.bom, p, c, downs, ups);
      assert SameOn(downs, ups, plan.bom, p, c) <==> SameOn(ups, downs, plan.bom, p, c);
    }
  }

  /** Wildcard assembly labels alone make all paths agree, whatever the variants of components and products. */
  lemma WildcardsAgree(plan: Plan, p: Id, c: Id)
    requires AllKnown(plan)
    requires forall d {:trigger d in plan.bom.assemblies} :: d in plan.bom.assemblies ==> Wildcard(d.props.Variant())
    ensures AllPathsAgree(plan, p, c)
  {
    forall j: ComponentEdge, e: ProductEdge, q | Between(plan.bom, j.assembly, e.assembly, q)
      ensures Passes(ClimbFilter(j.props.Variant()), q) && Passes(FollowFilter(plan, e.props.Variant()), q)
    {
      forall k | 0 <= k < |q|
        ensures ClimbFilter(j.props.Variant())(q[k]) && FollowFilter(plan, e.props.Variant())(q[k])
      {
        PathEdgesKnown(plan.bom, j.assembly, e.assembly, q, k);
      }
    }
  }

  // ---- unit quantities: the requirement counts paths ----

  ghost predicate UnitQuantities(bom: Bom) {
    && (forall e {:trigger e in bom.components} :: e in bom.components ==> e.props.Quantity() == 1.0)
    && (forall e {:trigger e in bom.assemblies} :: e in bom.assemblies ==> e.props.Quantity() == 1.0)
    && (forall e {:trigger e in bom.products} :: e in bom.products ==> e.props.Quantity() == 1.0)
  }

  predicate RowReaches(p: Id, row: UpRow) { row.product == p }

  function RowFilter(p: Id): UpRow -> bool { (row: UpRow) => RowReaches(p, row) }

  /** The rows the upward enumeration returns for component edge j. */
  function RowsAbove(bom: Bom, j: ComponentEdge): seq<UpRow> { DescribeAll(j.assembly, ChoicesAbove(bom, j)) }

  /** How many rows the upward enumeration returns for component edge j and product p. */
  function PathCount(bom: Bom, p: Id, j: ComponentEdge): nat {
    |Filter(RowFilter(p), RowsAbove(bom, j))|
  }

  function CountFrom(bom: Bom, p: Id, c: Id): ComponentEdge -> real {
    (j: ComponentEdge) => if j.component == c then PathCount(bom, p, j) as real else 0.0
  }

  lemma {:induction false} UnitWeight(p: Path)
    requires forall k {:trigger p[k]} :: 0 <= k < |p| ==> p[k].props.Quantity() == 1.0
    ensures Weight(p) == 1.0
  {
    if p != [] {
      UnitWeight(p[1..]);
    }
  }

  lemma {:induction false} CountIsWeight(start: Id, p: Id, xs: seq<Choice>)
    requires forall x :: x in xs ==> ReachWeight(p)(x) == if x.1.product == p then 1.0 else 0.0
    ensures SumBy(ReachWeight(p), xs) == |Filter(RowFilter(p), DescribeAll(start, xs))| as real
  {
    if xs != [] {
      var rows := DescribeAll(start, xs);
      assert xs[0] in xs;
      assert rows[0] == Describe(start, xs[0]) && rows[1..] == DescribeAll(start, xs[1..]);
      CountIsWeight(start, p, xs[1..]);
    }
  }

  lemma UnitPaths(bom: Bom, j: ComponentEdge, p: Id)
    requires bom.Numbered() && UnitQuantities(bom)
    ensures SumBy(ReachWeight(p), ChoicesAbove(bom, j)) == PathCount(bom, p, j) as real
  {
    var c := ClimbAbove(bom, j);
    ClimbSound(bom, j.props.Variant());
    UpChoicesExact(c, j.assembly);
    ChoicesLeaveThroughProducts(bom, j);
    forall x: Choice | x in ChoicesAbove(bom, j) ensures ReachWeight(p)(x) == if x.1.product == p then 1.0 else 0.0 {
      var q: Path := x.0;
      forall k | 0 <= k < |q| ensures q[k].props.Quantity() == 1.0 {
        assert q[k] in c.up(Top(j.assembly, q[..k]));
        UpExact(bom, j.props.Variant(), Top(j.assembly, q[..k]), q[k]);
      }
      UnitWeight(q);
    }
    CountIsWeight(j.assembly, p, ChoicesAbove(bom, j));
  }

  /** With unit quantities the requirement is the number of rows the upward enumeration returns. */
  lemma RequirementCountsPaths(plan: Plan, p: Id, c: Id)
    requires plan.bom.Numbered() && plan.Acyclic() && c in plan.knownComponents && AllPathsAgree(plan, p, c)
    requires UnitQuantities(plan.bom)
    ensures plan.ComponentRequirement(p, c) == SumBy(CountFrom(plan.bom, p, c), plan.bom.components)
  {
    var f, g := PathsFrom(AboveIn(plan.bom), p, c), CountFrom(plan.bom, p, c);
    Duality(plan, p, c);
    forall j | j in plan.bom.components ensures f(j) == g(j) {
      UnitPaths(plan.bom, j, p);
    }
    SumByEqual(f, g, plan.bom.components);
  }

  // ---- required and exposed ----

  ghost predicate Exposed(bom: Bom, p: Id, c: Id) {
    exists j, x {:trigger x in ChoicesAbove(bom, j)} ::
      j in bom.components && j.component == c && x in ChoicesAbove(bom, j) && x.1.product == p
  }

  lemma {:induction false} PositiveSum<T(!new)>(f: T -> real, xs: seq<T>)
    requires forall x :: x in xs ==> f(x) >= 0.0
    ensures SumBy(f, xs) >= 0.0
    ensures SumBy(f, xs) > 0.0 <==> exists x :: x in xs && f(x) > 0.0
  {
    if xs != [] {
      PositiveSum(f, xs[1..]);
      assert xs[0] in xs;
      if x :| x in xs && f(x) > 0.0 {
        assert x == xs[0] || x in xs[1..];
      }
    }
  }

  lemma ReachedWeightPositive(bom: Bom, j: ComponentEdge, x: Choice)
    requires bom.Numbered() && PositiveQuantities(bom) && x in ChoicesAbove(bom, j)
    ensures x.1.props.Quantity() > 0.0 && Weight(x.0) > 0.0
  {
    ChoicesLeaveThroughProducts(bom, j);
    FilterMember(ViaFilter(x.1), ChoicesAbove(bom, j), x);
    ClimbsViaExact(bom, j, x.1, x);
    PathWeightPositive(bom, j.assembly, x.1.assembly, x.0);
  }

  lemma ProductPositive(a: real, b: real)
    requires a > 0.0 && b >= 0.0
    ensures a * b >= 0.0 && (a * b > 0.0 <==> b > 0.0)
  {
  }

  lemma ReachPositive(bom: Bom, p: Id, j: ComponentEdge, x: Choice)
    requires bom.Numbered() && PositiveQuantities(bom) && x in ChoicesAbove(bom, j)
    ensures ReachWeight(p)(x) >= 0.0 && (ReachWeight(p)(x) > 0.0 <==> x.1.product == p)
  {
    ReachedWeightPositive(bom, j, x);
    ProductPositive(x.1.props.Quantity(), Weight(x.0));
  }

  lemma PathsToPositive(bom: Bom, p: Id, c: Id, j: ComponentEdge)
    requires bom.Numbered() && PositiveQuantities(bom) && j in bom.components
    ensures PathsFrom(AboveIn(bom), p, c)(j) >= 0.0
    ensures PathsFrom(AboveIn(bom), p, c)(j) > 0.0 <==>
            j.component == c && exists x :: x in ChoicesAbove(bom, j) && x.1.product == p
  {
    forall x | x in ChoicesAbove(bom, j)
      ensures ReachWeight(p)(x) >= 0.0 && (ReachWeight(p)(x) > 0.0 <==> x.1.product == p)
    {
      ReachPositive(bom, p, j, x);
    }
    PositiveSum(ReachWeight(p), ChoicesAbove(bom, j));
    ProductPositive(j.props.Quantity(), PathsTo(AboveIn(bom), p, j));
  }

  /** With positive quantities the path total is positive exactly when an exposure path exists. */
  lemma ExposedIffPositive(bom: Bom, p: Id, c: Id)
    requires bom.Numbered() && PositiveQuantities(bom)
    ensures PathTotal(bom, p, c) > 0.0 <==> Exposed(bom, p, c)
  {
    var f := PathsFrom(AboveIn(bom), p, c);
    forall j | j in bom.components
      ensures f(j) >= 0.0
      ensures f(j) > 0.0 <==> j.component == c && exists x :: x in ChoicesAbove(bom, j) && x.1.product == p
    {
      PathsToPositive(bom, p, c, j);
    }
    PositiveSum(f, bom.components);
    if Exposed(bom, p, c) {
      var j, x :| j in bom.components && j.component == c && x in ChoicesAbove(bom, j) && x.1.product == p;
      assert f(j) > 0.0;
    }
  }

  /** A component is required exactly when an exposure path leads from it to the product. */
  lemma RequiredIffExposed(plan: Plan, p: Id, c: Id)
    requires plan.bom.Numbered() && plan.Acyclic() && c in plan.knownComponents && AllPathsAgree(plan, p, c)
    requires PositiveQuantities(plan.bom)
    ensures plan.ComponentRequirement(p, c) > 0.0 <==> Exposed(plan.bom, p, c)
  {
    Duality(plan, p, c);
    ExposedIffPositive(plan.bom, p, c);
  }

  /**
   Without agreeing paths one half is left: a product exposed through edges with variants of their own does
   require the component, and a required wildcard component is always exposed.
   */
  lemma OneSidedExposure(plan: Plan, p: Id, c: Id)
    requires plan.bom.Numbered() && plan.Acyclic() && AllKnown(plan) && PositiveQuantities(plan.bom)
    ensures AllSpecific(plan.bom, c) && Exposed(plan.bom, p, c) ==> plan.ComponentRequirement(p, c) > 0.0
    ensures AllWildcard(plan.bom, c) && plan.ComponentRequirement(p, c) > 0.0 ==> Exposed(plan.bom, p, c)
  {
    DualityExactly(plan, p, c);
    ExposedIffPositive(plan.bom, p, c);
  }

  // ---- both ways of parting ----

  const NO_QUANTITY: Option<real> := None

  /** One product p of variant "v-1" over assembly "top", which holds "sub", which holds component "c". */
  function NestedVariants(): Bom {
    Bom([ComponentEdge(0, "c", "sub", BomProps(NO_QUANTITY, Some("v")))],
        [AssemblyEdge(0, "sub", "top", BomProps(NO_QUANTITY, Some("v-1")))],
        [ProductEdge(0, "top", "p", BomProps(NO_QUANTITY, Some("v-1")))])
  }

  lemma NestedVariantsNeeded()
    ensures NeedsComponent(Plan(NestedVariants(), {"c"}, {"sub", "top"}).Recipes(), NestedVariants().products, "p", "c")
  {
    var bom := NestedVariants();
    var plan := Plan(bom, {"c"}, {"sub", "top"});
    var j, d, e := bom.components[0], bom.assemblies[0], bom.products[0];
    var r := plan.RecipeFor("v-1");
    assert VariantMatches("v", "v-1") by { assert "v" + "-" == "v-1"[..2]; }
    assert ("top", "sub") in r.links by { assert d in bom.assemblies && plan.Followed(d, "v-1"); }
    ReachesSelf(r.links, "sub");
    ReachesCons(r.links, "top", "sub", "sub");
    PartsExact(plan, "v-1", "sub", j);
    assert j in r.parts("sub") && Mentions(r.parts("sub"), "c");
    assert UsedBelow(r, "top", "c");
    assert e in bom.products && plan.Recipes()(e) == r;
  }

  /**
   Without agreeing variants the two walks part: the downward walk needs c for p, the upward
   enumeration does not climb the "v-1" edge with the component's variant "v" and returns no path.
   */
  lemma NestedVariantsDisagree()
    ensures var bom := NestedVariants();
            && bom.Numbered()
            && NeedsComponent(Plan(bom, {"c"}, {"sub", "top"}).Recipes(), bom.products, "p", "c")
            && !Exposed(bom, "p", "c")
  {
    NestedVariantsNeeded();
    forall x: Choice ensures x !in ChoicesAbove(NestedVariants(), NestedVariants().components[0]) {
      NoWayUp(NestedVariants(), x);
    }
  }

  lemma NoWayUp(bom: Bom, x: Choice)
    requires bom == NestedVariants()
    ensures x !in ChoicesAbove(bom, bom.components[0])
  {
    var c, p := ClimbFor(bom, "v"), x.0;
    ClimbSound(bom, "v");
    UpChoicesExact(c, "sub");
    ExitsExact(bom, "v", "sub", x.1);
    if p != [] {
      assert Climbs(c, "sub", p) ==> p[0] in c.up(Top("sub", p[..0]));
      NothingToClimb(bom, Top("sub", p[..0]), p[0]);
    }
  }

  lemma NothingToClimb(bom: Bom, y: Id, d: AssemblyEdge)
    requires bom == NestedVariants()
    ensures d !in UpAt(bom, "v", y)
  {
    UpExact(bom, "v", y, d);
    if d in bom.assemblies {
      assert d.props.Variant() == "v-1";
    }
  }

  /**
   One product p of variant "v" over assembly "top", which holds "sub" for variant "w", which holds wildcard
   component "c".
   */
  function ForeignVariant(): Bom {
    Bom([ComponentEdge(0, "c", "sub", BomProps(NO_QUANTITY, None))],
        [AssemblyEdge(0, "sub", "top", BomProps(NO_QUANTITY, Some("w")))],
        [ProductEdge(0, "top", "p", BomProps(NO_QUANTITY, Some("v")))])
  }

  /**
   The other way round: a wildcard component climbs an edge of a variant the product does not take, so the
   product counts as exposed although its walk down never reaches the component.
   */
  lemma ForeignVariantDisagrees()
    ensures var bom := ForeignVariant();
            && bom.Numbered()
            && !NeedsComponent(Plan(bom, {"c"}, {"sub", "top"}).Recipes(), bom.products, "p", "c")
            && Exposed(bom, "p", "c")
  {
    ForeignVariantNotNeeded();
    ForeignVariantExposed();
  }

  lemma ForeignVariantPath()
    ensures var bom := ForeignVariant(); Between(bom, "sub", "top", [bom.assemblies[0]])
  {
    var bom := ForeignVariant();
    var d := bom.assemblies[0];
    assert d in bom.assemblies && [d][..0] == [];
    UpExact(bom, "all", "sub", d);
    assert Vertices("sub", [d]) == Vertices("sub", []) + ["top"] == ["sub", "top"];
  }

  lemma ForeignVariantExposed()
    ensures Exposed(ForeignVariant(), "p", "c")
  {
    var bom := ForeignVariant();
    var j, e := bom.components[0], bom.products[0];
    var x: Choice := ([bom.assemblies[0]], e);
    assert e in bom.products && j in bom.components;
    ForeignVariantPath();
    ClimbsViaExact(bom, j, e, x);
    FilterMember(ViaFilter(e), ChoicesAbove(bom, j), x);
  }

  lemma ForeignVariantNotNeeded()
    ensures !NeedsComponent(Plan(ForeignVariant(), {"c"}, {"sub", "top"}).Recipes(), ForeignVariant().products, "p",
                            "c")
  {
    var bom := ForeignVariant();
    var plan := Plan(bom, {"c"}, {"sub", "top"});
    var r := plan.RecipeFor("v");
    assert forall d :: d in bom.assemblies ==> !plan.Followed(d, "v");
    assert r.links == {};
    forall a ensures Reaches(r.links, "top", a) <==> a == "top" {
      ReachesStep(r.links, "top", a);
    }
    forall j ensures j !in r.parts("top") {
      PartsExact(plan, "v", "top", j);
    }
    assert !UsedBelow(r, "top", "c");
  }
}
