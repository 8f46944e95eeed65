/**
 Laws of the exploded requirements: path sums, the balance equation, component tables from assembly
 tables, and exactly when the work queue empties.
 */
module BalanceEquation {
  import opened Sequences
  import opened Graphs
  import opened Bom
  import opened Exploration
  import opened WorkQueue
  import opened Recipes
  import opened Requirements

  // ---- requirements as path sums ----

  ghost function PathSum(r: Recipe, base: Base, x: Id): real {
    SumBy(PathTerm(base, x), r.DownPaths(x))
  }

  /** What product edge e contributes to its product's requirement of assembly a, read off the paths. */
  ghost function AssemblyPaths(recipes: RecipeTable, p: Id, a: Id): ProductEdge -> real {
    (e: ProductEdge) => if e.product == p then e.props.Quantity() * PathSum(recipes(e), At(a), e.assembly) else 0.0
  }

  ghost function ComponentPaths(recipes: RecipeTable, p: Id, c: Id): ProductEdge -> real {
    (e: ProductEdge) =>
      if e.product == p then e.props.Quantity() * PathSum(recipes(e), Takes(recipes(e), c), e.assembly) else 0.0
  }

  /**
   Each requirement is the sum over all variant-matching downward paths, each listed once, of the product of
   quantities.
   */
  lemma RequirementIsPathSum(plan: Plan, p: Id, i: Id)
    requires plan.bom.Numbered() && plan.Acyclic()
    ensures plan.AssemblyRequirement(p, i) == SumBy(AssemblyPaths(plan.Recipes(), p, i), plan.bom.products)
    ensures plan.ComponentRequirement(p, i) == SumBy(ComponentPaths(plan.Recipes(), p, i), plan.bom.products)
    ensures forall e {:trigger plan.Recipes()(e)} :: e in plan.bom.products ==>
              var r := plan.Recipes()(e);
              && Distinct(r.DownPaths(e.assembly))
              && forall q: Path :: q in r.DownPaths(e.assembly) <==> DownPath(r.kids, e.assembly, q)
  {
    SharesArePaths(plan.Recipes(), p, i, plan.bom.products);
    forall e | e in plan.bom.products
      ensures var r := plan.Recipes()(e);
              && Distinct(r.DownPaths(e.assembly))
              && forall q: Path :: q in r.DownPaths(e.assembly) <==> DownPath(r.kids, e.assembly, q)
    {
      RecipeSound(plan, e.props.Variant());
      DownPathsExact(plan.Recipes()(e), e.assembly);
    }
  }

  lemma SharesArePaths(recipes: RecipeTable, p: Id, i: Id, es: seq<ProductEdge>)
    ensures SumBy(AssemblyShare(recipes, p, i), es) == SumBy(AssemblyPaths(recipes, p, i), es)
    ensures SumBy(ComponentShare(recipes, p, i), es) == SumBy(ComponentPaths(recipes, p, i), es)
  {
    forall e | e in es
      ensures AssemblyShare(recipes, p, i)(e) == AssemblyPaths(recipes, p, i)(e)
      ensures ComponentShare(recipes, p, i)(e) == ComponentPaths(recipes, p, i)(e)
    {
      FlowIsSumOverDownPaths(recipes(e), At(i), e.assembly);
      FlowIsSumOverDownPaths(recipes(e), Takes(recipes(e), i), e.assembly);
    }
    SumByEqual(AssemblyShare(recipes, p, i), AssemblyPaths(recipes, p, i), es);
    SumByEqual(ComponentShare(recipes, p, i), ComponentPaths(recipes, p, i), es);
  }

  // ---- bases given by a list of weighted edges ----

  /** The weights of the edges keyed at y. */
  function KeyedSum<E>(key: E -> Id, w: E -> real, es: seq<E>, y: Id): real {
    if es == [] then 0.0 else (if key(es[0]) == y then w(es[0]) else 0.0) + KeyedSum(key, w, es[1..], y)
  }

  function KeyedBase<E>(key: E -> Id, w: E -> real, es: seq<E>): Base {
    y => KeyedTotal(key, w, es, y)
  }

  function KeyedTotal<E>(key: E -> Id, w: E -> real, es: seq<E>, y: Id): real {
    KeyedSum(key, w, es, y)
  }

  /** The weighted sum over the edges, f being the value of one unit of an edge's key. */
  function Weighted<E>(f: Id -> real, key: E -> Id, w: E -> real, es: seq<E>): real {
    if es == [] then 0.0 else w(es[0]) * f(key(es[0])) + Weighted(f, key, w, es[1..])
  }

  ghost function FlowTo(r: Recipe, x: Id): Id -> real {
    a => r.Flow(At(a), x)
  }

  lemma {:induction false} FlowOfKeyed<E>(r: Recipe, key: E -> Id, w: E -> real, es: seq<E>, x: Id)
    ensures r.Flow(KeyedBase(key, w, es), x) == Weighted(FlowTo(r, x), key, w, es)
  {
    var h := KeyedBase(key, w, es);
    if es == [] {
      FlowLinear(r.kids, h, h, -1.0, h, x, r.depth);
    } else {
      var f, g := KeyedBase(key, w, es[1..]), At(key(es[0]));
      FlowOfKeyed(r, key, w, es[1..], x);
      forall y ensures h(y) == f(y) + w(es[0]) * g(y) {
        assert g(y) == if y == key(es[0]) then 1.0 else 0.0;
      }
      FlowLinear(r.kids, f, g, w(es[0]), h, x, r.depth);
    }
  }

  lemma FlowSameBase(r: Recipe, f: Base, g: Base, x: Id)
    requires forall y :: f(y) == g(y)
    ensures r.Flow(f, x) == r.Flow(g, x)
  {
    FlowLinear(r.kids, g, g, 0.0, f, x, r.depth);
  }

  // ---- the last edge of a path instead of the first ----

  /** What assembly y directly hands to assembly a. */
  function Into(r: Recipe, a: Id): Base {
    y => IntoAt(r, a, y)
  }

  function IntoAt(r: Recipe, a: Id, y: Id): real {
    Hands(a, r.kids(y))
  }

  function Hands(a: Id, es: seq<AssemblyEdge>): real {
    if es == [] then 0.0 else Hand(a, es[0]) + Hands(a, es[1..])
  }

  function Hand(a: Id, e: AssemblyEdge): real { if e.child == a then e.props.Quantity() else 0.0 }

  /** Every nonempty path to a ends with an edge into a. */
  lemma {:induction false} FlowByLastEdge(r: Recipe, a: Id, x: Id, n: nat)
    ensures FlowWithin(r.kids, At(a), x, n + 1) == At(a)(x) + FlowWithin(r.kids, Into(r, a), x, n)
    decreases n, 0
  {
    FlowOverByLastEdge(r, a, r.kids(x), n);
  }

  lemma {:induction false} FlowOverByLastEdge(r: Recipe, a: Id, es: seq<AssemblyEdge>, n: nat)
    ensures FlowOver(r.kids, At(a), es, n) == Hands(a, es) + if n == 0 then 0.0
            else FlowOver(r.kids, Into(r, a), es, n - 1)
    decreases n, 0, |es|
  {
    if es != [] {
      FlowOverByLastEdge(r, a, es[1..], n);
      EdgeByLastEdge(r, a, es[0], n);
      FlowOverCons(r.kids, At(a), es, n);
      if n > 0 {
        FlowOverCons(r.kids, Into(r, a), es, n - 1);
      }
    }
  }

  /** What an edge carries from below it. */
  ghost function Carried(kids: Kids, base: Base, e: AssemblyEdge, n: nat): real {
    e.props.Quantity() * FlowWithin(kids, base, e.child, n)
  }

  lemma FlowOverCons(kids: Kids, base: Base, es: seq<AssemblyEdge>, n: nat)
    requires es != []
    ensures FlowOver(kids, base, es, n) == Carried(kids, base, es[0], n) + FlowOver(kids, base, es[1..], n)
  {
  }

  lemma {:induction false} EdgeByLastEdge(r: Recipe, a: Id, e: AssemblyEdge, n: nat)
    ensures Carried(r.kids, At(a), e, n) == Hand(a, e) + if n == 0 then 0.0 else Carried(r.kids, Into(r, a), e, n - 1)
    decreases n, 0, 0
  {
    var q, here := e.props.Quantity(), At(a)(e.child);
    assert here == if e.child == a then 1.0 else 0.0;
    if n == 0 {
      assert FlowWithin(r.kids, At(a), e.child, 0) == here;
    } else {
      FlowByLastEdge(r, a, e.child, n - 1);
      MulAdd(q, here, FlowWithin(r.kids, Into(r, a), e.child, n - 1));
    }
  }

  lemma FlowBalance(r: Recipe, a: Id, x: Id)
    requires r.Sound() && r.Acyclic(x)
    ensures r.Flow(At(a), x) == At(a)(x) + r.Flow(Into(r, a), x)
  {
    FlowByLastEdge(r, a, x, r.depth);
    AcyclicBounded(r, x);
    FlowSettled(r.kids, At(a), x, r.depth);
  }

  // ---- products with one variant ----

  ghost predicate OneVariant(plan: Plan, p: Id, variant: string) {
    forall e {:trigger e in plan.bom.products} :: e in plan.bom.products && e.product == p ==>
      e.props.Variant() == variant
  }

  /** The quantity an assembly edge hands to assembly a, if the walk follows it. */
  function IntoWeight(plan: Plan, variant: string, a: Id): AssemblyEdge -> real {
    (e: AssemblyEdge) => if plan.Followed(e, variant) && e.child == a then e.props.Quantity() else 0.0
  }

  /** The quantity of component c on a component edge, if the walk counts it. */
  function UseWeight(plan: Plan, variant: string, c: Id): ComponentEdge -> real {
    (e: ComponentEdge) => if plan.Counted(e, variant) && e.component == c then e.props.Quantity() else 0.0
  }

  lemma {:induction false} HandsKeyed(plan: Plan, variant: string, a: Id, y: Id, es: seq<AssemblyEdge>)
    ensures Hands(a, Filter(ChildMatches(variant), Filter(KeyIs(ParentOf(), KnownChild(plan.knownAssemblies), y), es)))
            == KeyedSum(ParentOf(), IntoWeight(plan, variant, a), es, y)
  {
    if es == [] {
    } else {
      var known, matches := KeyIs(ParentOf(), KnownChild(plan.knownAssemblies), y), ChildMatches(variant);
      var tail := Filter(known, es[1..]);
      HandsKeyed(plan, variant, a, y, es[1..]);
      var rest := Filter(matches, tail);
      if known(es[0]) {
        assert Filter(known, es) == [es[0]] + tail && ([es[0]] + tail)[1..] == tail;
        if matches(es[0]) {
          var all := [es[0]] + rest;
          assert Filter(matches, [es[0]] + tail) == all && all[0] == es[0] && all[1..] == rest;
        } else {
          assert Filter(matches, [es[0]] + tail) == rest && IntoWeight(plan, variant, a)(es[0]) == 0.0;
        }
      } else {
        assert Filter(known, es) == tail;
      }
    }
  }

  lemma {:induction false} AmountsKeyed(plan: Plan, variant: string, c: Id, y: Id, es: seq<ComponentEdge>)
    ensures Amounts(c,
                    Filter(PartMatches(variant),
                           Filter(KeyIs(AssemblyOf(), KnownComponent(plan.knownComponents), y), es)))
            == KeyedSum(AssemblyOf(), UseWeight(plan, variant, c), es, y)
  {
    if es == [] {
    } else {
      var known, matches := KeyIs(AssemblyOf(), KnownComponent(plan.knownComponents), y), PartMatches(variant);
      var tail := Filter(known, es[1..]);
      AmountsKeyed(plan, variant, c, y, es[1..]);
      var rest := Filter(matches, tail);
      if known(es[0]) {
        assert Filter(known, es) == [es[0]] + tail && ([es[0]] + tail)[1..] == tail;
        if matches(es[0]) {
          var all := [es[0]] + rest;
          assert Filter(matches, [es[0]] + tail) == all && all[0] == es[0] && all[1..] == rest;
        } else {
          assert Filter(matches, [es[0]] + tail) == rest && UseWeight(plan, variant, c)(es[0]) == 0.0;
        }
      } else {
        assert Filter(known, es) == tail;
      }
    }
  }

  /** One product edge's flow times its quantity, where the flow ends in a keyed base. */
  function EdgeFlow(flow: Id -> real, p: Id, e: ProductEdge): real {
    if e.product == p then e.props.Quantity() * flow(e.assembly) else 0.0
  }

  ghost function KeyedShare<E>(r: Recipe, p: Id, key: E -> Id, w: E -> real, es: seq<E>): ProductEdge -> real {
    (e: ProductEdge) => EdgeFlow(r.FlowOf(KeyedBase(key, w, es)), p, e)
  }

  ghost function AtShare(r: Recipe, p: Id, a: Id): ProductEdge -> real {
    (e: ProductEdge) => EdgeFlow(r.FlowOf(At(a)), p, e)
  }

  ghost function AtTotal(r: Recipe, p: Id, products: seq<ProductEdge>): Id -> real {
    a => AtSum(r, p, products, a)
  }

  ghost function AtSum(r: Recipe, p: Id, products: seq<ProductEdge>, a: Id): real {
    SumBy(AtShare(r, p, a), products)
  }

  lemma KeyedShareNone<E>(r: Recipe, p: Id, key: E -> Id, w: E -> real, products: seq<ProductEdge>)
    ensures SumBy(KeyedShare(r, p, key, w, []), products) == 0.0
  {
    var h := KeyedShare(r, p, key, w, []);
    forall e | e in products ensures h(e) == 0.0 {
      FlowOfKeyed(r, key, w, [], e.assembly);
    }
    ZeroSum(h, products);
  }

  /** h is f plus s times g on all these product edges. */
  ghost predicate Combines(h: ProductEdge -> real, f: ProductEdge -> real, s: real, g: ProductEdge -> real,
                           products: seq<ProductEdge>)
  {
    forall e :: e in products ==> h(e) == f(e) + s * g(e)
  }

  lemma CombinedSums(h: ProductEdge -> real, f: ProductEdge -> real, s: real, g: ProductEdge -> real,
                     products: seq<ProductEdge>)
    requires Combines(h, f, s, g, products)
    ensures SumBy(h, products) == SumBy(f, products) + s * SumBy(g, products)
  {
    SumByLinear(f, g, s, h, products);
  }

  lemma KeyedShareConsAll<E>(r: Recipe, p: Id, key: E -> Id, w: E -> real, es: seq<E>, products: seq<ProductEdge>)
    requires es != []
    ensures Combines(KeyedShare(r, p, key, w, es), KeyedShare(r, p, key, w, es[1..]), w(es[0]),
                     AtShare(r, p, key(es[0])), products)
  {
    var h, f, g := KeyedShare(r, p, key, w, es), KeyedShare(r, p, key, w, es[1..]), AtShare(r, p, key(es[0]));
    forall e | e in products ensures h(e) == f(e) + w(es[0]) * g(e) {
      KeyedShareCons(r, p, key, w, es, e);
    }
  }

  lemma KeyedShareStep<E>(r: Recipe, p: Id, key: E -> Id, w: E -> real, es: seq<E>, products: seq<ProductEdge>)
    requires es != []
    ensures SumBy(KeyedShare(r, p, key, w, es), products) ==
            SumBy(KeyedShare(r, p, key, w, es[1..]), products) + w(es[0]) * AtSum(r, p, products, key(es[0]))
  {
    var h, f, g := KeyedShare(r, p, key, w, es), KeyedShare(r, p, key, w, es[1..]), AtShare(r, p, key(es[0]));
    KeyedShareConsAll(r, p, key, w, es, products);
    CombinedSums(h, f, w(es[0]), g, products);
  }

  /** Summing over product edges commutes with summing over weighted edges. */
  lemma {:induction false} KeyedShareSum<E>(r: Recipe, p: Id, key: E -> Id, w: E -> real, es: seq<E>,
                                            products: seq<ProductEdge>)
    ensures SumBy(KeyedShare(r, p, key, w, es), products) == Weighted(AtTotal(r, p, products), key, w, es)
  {
    if es == [] {
      KeyedShareNone(r, p, key, w, products);
    } else {
      KeyedShareSum(r, p, key, w, es[1..], products);
      KeyedShareStep(r, p, key, w, es, products);
    }
  }

  lemma KeyedShareCons<E>(r: Recipe, p: Id, key: E -> Id, w: E -> real, es: seq<E>, e: ProductEdge)
    requires es != []
    ensures KeyedShare(r, p, key, w, es)(e) ==
            KeyedShare(r, p, key, w, es[1..])(e) + w(es[0]) * AtShare(r, p, key(es[0]))(e)
  {
    FlowOfKeyed(r, key, w, es, e.assembly);
    FlowOfKeyed(r, key, w, es[1..], e.assembly);
    Distribute(e.props.Quantity(), r.Flow(KeyedBase(key, w, es[1..]), e.assembly), w(es[0]),
               r.Flow(At(key(es[0])), e.assembly));
  }

  /** The whole quantity of the product edges that hang assembly a directly under p. */
  function RootShare(p: Id, a: Id): ProductEdge -> real {
    (e: ProductEdge) => if e.product == p && e.assembly == a then e.props.Quantity() else 0.0
  }

  ghost function RequirementOf(plan: Plan, p: Id): Id -> real {
    a => plan.AssemblyRequirement(p, a)
  }

  lemma {:induction false} WeightedEqual<E>(f: Id -> real, g: Id -> real, key: E -> Id, w: E -> real, es: seq<E>)
    requires forall a :: f(a) == g(a)
    ensures Weighted(f, key, w, es) == Weighted(g, key, w, es)
  {
    if es != [] {
      WeightedEqual(f, g, key, w, es[1..]);
    }
  }

  lemma RequirementIsAtTotal(plan: Plan, p: Id, variant: string, a: Id)
    requires OneVariant(plan, p, variant)
    ensures plan.AssemblyRequirement(p, a) == AtTotal(plan.RecipeFor(variant), p, plan.bom.products)(a)
  {
    var f, g := AssemblyShare(plan.Recipes(), p, a), AtShare(plan.RecipeFor(variant), p, a);
    forall e | e in plan.bom.products ensures f(e) == g(e) {
      assert e.product == p ==> plan.Recipes()(e) == plan.RecipeFor(variant);
    }
    SumByEqual(f, g, plan.bom.products);
  }

  lemma KeyedTotalIsRequirement<E>(plan: Plan, p: Id, variant: string, key: E -> Id, w: E -> real, es: seq<E>)
    requires OneVariant(plan, p, variant)
    ensures SumBy(KeyedShare(plan.RecipeFor(variant), p, key, w, es), plan.bom.products)
            == Weighted(RequirementOf(plan, p), key, w, es)
  {
    var r := plan.RecipeFor(variant);
    KeyedShareSum(r, p, key, w, es, plan.bom.products);
    forall a ensures AtTotal(r, p, plan.bom.products)(a) == RequirementOf(plan, p)(a) {
      RequirementIsAtTotal(plan, p, variant, a);
    }
    WeightedEqual(AtTotal(r, p, plan.bom.products), RequirementOf(plan, p), key, w, es);
  }

  lemma FlowAtEdge(plan: Plan, p: Id, variant: string, a: Id, e: ProductEdge)
    requires plan.bom.Numbered() && plan.Acyclic() && OneVariant(plan, p, variant) && e in plan.bom.products &&
             e.product == p
    ensures var r := plan.RecipeFor(variant);
            r.Flow(At(a), e.assembly) == At(a)(e.assembly) +
            r.Flow(KeyedBase(ParentOf(), IntoWeight(plan, variant, a), plan.bom.assemblies), e.assembly)
  {
    var r := plan.RecipeFor(variant);
    assert plan.Recipes()(e) == r;
    RecipeSound(plan, variant);
    FlowBalance(r, a, e.assembly);
    IntoIsKeyed(plan, variant, a);
    FlowSameBase(r, Into(r, a), KeyedBase(ParentOf(), IntoWeight(plan, variant, a), plan.bom.assemblies), e.assembly);
  }

  lemma BalanceAtEdge(plan: Plan, p: Id, variant: string, a: Id, e: ProductEdge)
    requires plan.bom.Numbered() && plan.Acyclic() && OneVariant(plan, p, variant) && e in plan.bom.products
    ensures AtShare(plan.RecipeFor(variant), p, a)(e) == RootShare(p, a)(e) +
            1.0 * KeyedShare(plan.RecipeFor(variant), p, ParentOf(), IntoWeight(plan, variant, a),
                             plan.bom.assemblies)(e)
  {
    if e.product == p {
      FlowAtEdge(plan, p, variant, a, e);
      MulAdd(e.props.Quantity(), At(a)(e.assembly),
             plan.RecipeFor(variant).Flow(KeyedBase(ParentOf(), IntoWeight(plan, variant, a), plan.bom.assemblies),
                                          e.assembly));
    }
  }

  lemma IntoIsKeyed(plan: Plan, variant: string, a: Id)
    ensures var f, g := Into(plan.RecipeFor(variant), a),
            KeyedBase(ParentOf(), IntoWeight(plan, variant, a), plan.bom.assemblies);
            forall y :: f(y) == g(y)
  {
    var f, g := Into(plan.RecipeFor(variant), a),
                KeyedBase(ParentOf(), IntoWeight(plan, variant, a), plan.bom.assemblies);
    forall y ensures f(y) == g(y) {
      HandsKeyed(plan, variant, a, y, plan.bom.assemblies);
    }
  }

  lemma TakesIsKeyed(plan: Plan, variant: string, c: Id)
    ensures var f, g := Takes(plan.RecipeFor(variant), c),
            KeyedBase(AssemblyOf(), UseWeight(plan, variant, c), plan.bom.components);
            forall y :: f(y) == g(y)
  {
    var f, g := Takes(plan.RecipeFor(variant), c),
                KeyedBase(AssemblyOf(), UseWeight(plan, variant, c), plan.bom.components);
    forall y ensures f(y) == g(y) {
      AmountsKeyed(plan, variant, c, y, plan.bom.components);
    }
  }

  lemma BalanceAtEdges(plan: Plan, p: Id, variant: string, a: Id)
    requires plan.bom.Numbered() && plan.Acyclic() && OneVariant(plan, p, variant)
    ensures var r := plan.RecipeFor(variant);
            var rest := KeyedShare(r, p, ParentOf(), IntoWeight(plan, variant, a), plan.bom.assemblies);
            SumBy(AtShare(r, p, a), plan.bom.products) ==
            SumBy(RootShare(p, a), plan.bom.products) + SumBy(rest, plan.bom.products)
  {
    var r := plan.RecipeFor(variant);
    var rest := KeyedShare(r, p, ParentOf(), IntoWeight(plan, variant, a), plan.bom.assemblies);
    forall e | e in plan.bom.products ensures AtShare(r, p, a)(e) == RootShare(p, a)(e) + 1.0 * rest(e) {
      BalanceAtEdge(plan, p, variant, a, e);
    }
    CombinedSums(AtShare(r, p, a), RootShare(p, a), 1.0, rest, plan.bom.products);
  }

  /**
   The balance equation of a product with one variant: what it requires of an assembly is the quantity
   hung directly under the product, plus every parent's requirement times the edge quantity.
   */
  lemma Balance(plan: Plan, p: Id, variant: string, a: Id)
    requires plan.bom.Numbered() && plan.Acyclic() && OneVariant(plan, p, variant)
    ensures plan.AssemblyRequirement(p, a) ==
            SumBy(RootShare(p, a), plan.bom.products) +
            Weighted(RequirementOf(plan, p), ParentOf(), IntoWeight(plan, variant, a), plan.bom.assemblies)
  {
    RequirementIsAtTotal(plan, p, variant, a);
    assert plan.AssemblyRequirement(p, a) == SumBy(AtShare(plan.RecipeFor(variant), p, a), plan.bom.products);
    BalanceAtEdges(plan, p, variant, a);
    KeyedTotalIsRequirement(plan, p, variant, ParentOf(), IntoWeight(plan, variant, a), plan.bom.assemblies);
  }

  /** For a product with one variant the component table is the assembly table times the direct quantities. */
  lemma ComponentsFollowAssemblies(plan: Plan, p: Id, variant: string, c: Id)
    requires OneVariant(plan, p, variant)
    ensures plan.ComponentRequirement(p, c) ==
            Weighted(RequirementOf(plan, p), AssemblyOf(), UseWeight(plan, variant, c), plan.bom.components)
  {
    var r := plan.RecipeFor(variant);
    var f := ComponentShare(plan.Recipes(), p, c);
    var g := KeyedShare(r, p, AssemblyOf(), UseWeight(plan, variant, c), plan.bom.components);
    TakesIsKeyed(plan, variant, c);
    forall e | e in plan.bom.products ensures f(e) == g(e) {
      if e.product == p {
        assert plan.Recipes()(e) == r;
        FlowSameBase(r, Takes(r, c), KeyedBase(AssemblyOf(), UseWeight(plan, variant, c), plan.bom.components),
                     e.assembly);
      }
    }
    SumByEqual(f, g, plan.bom.products);
    KeyedTotalIsRequirement(plan, p, variant, AssemblyOf(), UseWeight(plan, variant, c), plan.bom.components);
  }

  // ---- when the queue loop ends ----

  /** The queue after one iteration: pop the first pair, push its children at the back. */
  function Step(r: Recipe, queue: Queue): Queue {
    if queue == [] then [] else queue[1..] + Pushed(queue[0].1, r.kids(queue[0].0))
  }

  function Run(r: Recipe, queue: Queue, n: nat): Queue
    decreases n
  {
    if n == 0 then queue else Run(r, Step(r, queue), n - 1)
  }

  lemma {:induction false} UngroundedRuns(r: Recipe, queue: Queue, n: nat)
    requires r.Sound() && !AllGrounded(r.links, queue)
    ensures Run(r, queue, n) != []
    decreases n
  {
    if n > 0 {
      var (x, m) := queue[0];
      assert queue == [(x, m)] + queue[1..] && Successors(r.links, x, r.kids(x));
      PopUngrounded(r.links, x, m, queue[1..], r.kids(x));
      UngroundedRuns(r, Step(r, queue), n - 1);
    }
  }

  lemma {:induction false} GroundedEmpties(r: Recipe, queue: Queue)
    requires r.Sound() && AllGrounded(r.links, queue)
    ensures Run(r, queue, QueueCost(r.CostOf(), queue)) == []
    decreases QueueCost(r.CostOf(), queue)
  {
    if queue != [] {
      var (x, m) := queue[0];
      assert queue == [(x, m)] + queue[1..] && Successors(r.links, x, r.kids(x));
      assert Grounded(r.links, queue[0].0);
      CostUnfold(r, x);
      PopCost(r.CostOf(), x, m, queue[1..], r.kids(x));
      PopGrounded(r.links, x, m, queue[1..], r.kids(x));
      GroundedEmpties(r, Step(r, queue));
    }
  }

  /** The queue started at a root empties exactly when no cycle can be reached from the root. */
  lemma EmptiesIffAcyclic(r: Recipe, root: Id, quantity: real)
    requires r.Sound()
    ensures (exists n :: Run(r, [(root, quantity)], n) == []) <==> r.Acyclic(root)
  {
    var queue: Queue := [(root, quantity)];
    assert queue[0].0 == root;
    if r.Acyclic(root) {
      GroundedEmpties(r, queue);
    } else {
      forall n: nat ensures Run(r, queue, n) != [] {
        UngroundedRuns(r, queue, n);
      }
    }
  }
}
