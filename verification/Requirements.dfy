/**
 What one unit of every product requires: the queue loop over product edges, proved against the sum
 over downward paths. The walk of one product edge adds its share to the product's two rows; after all
 edges the tables hold, for every product and item, the sum of the shares, and list an item exactly when
 some walk reaches it. The laws of that sum are proved in `BalanceEquation`.
 */
module Requirements {
  import opened Sequences
  import opened Graphs
  import opened Bom
  import opened Exploration
  import opened WorkQueue
  import opened Recipes

  type Row = map<Id, real>

  function Get(row: Row, k: Id): real { if k in row then row[k] else 0.0 }

  function RowOf(rows: map<Id, Row>, p: Id): Row { if p in rows then rows[p] else map[] }

  function Amount(c: Id, e: ComponentEdge): real {
    if e.component == c then e.props.Quantity() else 0.0
  }

  /** The quantities of component c among es. */
  function Amounts(c: Id, es: seq<ComponentEdge>): real {
    if es == [] then 0.0 else Amount(c, es[0]) + Amounts(c, es[1..])
  }

  function AmountTimes(m: real, c: Id): ComponentEdge -> real {
    (e: ComponentEdge) => if e.component == c then m * e.props.Quantity() else 0.0
  }

  lemma {:induction false} AmountTimesSum(m: real, c: Id, es: seq<ComponentEdge>)
    ensures SumBy(AmountTimes(m, c), es) == m * Amounts(c, es)
  {
    if es != [] {
      AmountTimesSum(m, c, es[1..]);
      MulAdd(m, Amount(c, es[0]), Amounts(c, es[1..]));
    }
  }

  lemma MulAdd(m: real, a: real, b: real)
    ensures m * (a + b) == m * a + m * b
  {
  }

  /** What assembly x directly takes of component c. */
  function Takes(r: Recipe, c: Id): Base {
    x => TakesAt(r, c, x)
  }

  function TakesAt(r: Recipe, c: Id, x: Id): real {
    Amounts(c, r.parts(x))
  }

  ghost predicate Mentions(es: seq<ComponentEdge>, c: Id) {
    exists e {:trigger e in es} :: e in es && e.component == c
  }

  /** Some assembly at or below x takes component c. */
  ghost predicate UsedBelow(r: Recipe, x: Id, c: Id) {
    exists a {:trigger Reaches(r.links, x, a)} {:trigger r.parts(a)} :: Reaches(r.links, x, a) &&
      Mentions(r.parts(a), c)
  }

  ghost predicate QueueUses(r: Recipe, queue: Queue, c: Id) {
    exists a {:trigger QueueReaches(r.links, queue, a)} {:trigger r.parts(a)} :: QueueReaches(r.links, queue, a) &&
      Mentions(r.parts(a), c)
  }

  // ---- which edges a walk follows ----

  function ParentOf(): AssemblyEdge -> Id { (e: AssemblyEdge) => e.parent }
  function AssemblyOf(): ComponentEdge -> Id { (e: ComponentEdge) => e.assembly }
  function KnownChild(known: set<Id>): AssemblyEdge -> bool { (e: AssemblyEdge) => e.child in known }
  function KnownComponent(known: set<Id>): ComponentEdge -> bool { (e: ComponentEdge) => e.component in known }

  function ChildMatches(variant: string): AssemblyEdge -> bool {
    (e: AssemblyEdge) => VariantMatches(e.props.Variant(), variant)
  }

  function PartMatches(variant: string): ComponentEdge -> bool {
    (e: ComponentEdge) => VariantMatches(e.props.Variant(), variant)
  }

  type RecipeTable = ProductEdge -> Recipe

  /** One product edge's part in the requirement: its quantity times the flow below its root. */
  ghost function AssemblyShare(recipes: RecipeTable, p: Id, a: Id): ProductEdge -> real {
    (e: ProductEdge) =>
      if e.product == p
      then e.props.Quantity() * recipes(e).Flow(At(a), e.assembly)
      else 0.0
  }

  ghost function ComponentShare(recipes: RecipeTable, p: Id, c: Id): ProductEdge -> real {
    (e: ProductEdge) =>
      if e.product == p
      then e.props.Quantity() * recipes(e).Flow(Takes(recipes(e), c), e.assembly)
      else 0.0
  }

  ghost predicate NeedsAssembly(recipes: RecipeTable, es: seq<ProductEdge>, p: Id, a: Id) {
    exists e {:trigger e in es} :: e in es && e.product == p && Reaches(recipes(e).links, e.assembly, a)
  }

  ghost predicate NeedsComponent(recipes: RecipeTable, es: seq<ProductEdge>, p: Id, c: Id) {
    exists e {:trigger e in es} :: e in es && e.product == p && UsedBelow(recipes(e), e.assembly, c)
  }

  /** The inputs of the explosion: the BOM, and the components and assemblies that are known. */
  datatype Plan = Plan(bom: Bom, knownComponents: set<Id>, knownAssemblies: set<Id>) {
    function ChildBucket(x: Id): seq<AssemblyEdge> {
      Filter(KeyIs(ParentOf(), KnownChild(knownAssemblies), x), bom.assemblies)
    }

    function PartBucket(x: Id): seq<ComponentEdge> {
      Filter(KeyIs(AssemblyOf(), KnownComponent(knownComponents), x), bom.components)
    }

    predicate Followed(e: AssemblyEdge, variant: string) {
      e.child in knownAssemblies && VariantMatches(e.props.Variant(), variant)
    }

    predicate Counted(e: ComponentEdge, variant: string) {
      e.component in knownComponents && VariantMatches(e.props.Variant(), variant)
    }

    function KidsAt(variant: string, x: Id): seq<AssemblyEdge> {
      Filter(ChildMatches(variant), ChildBucket(x))
    }

    function PartsAt(variant: string, x: Id): seq<ComponentEdge> {
      Filter(PartMatches(variant), PartBucket(x))
    }

    function Kids(variant: string): Kids { x => KidsAt(variant, x) }

    function Parts(variant: string): PartLists { x => PartsAt(variant, x) }

    function Links(variant: string): set<(Id, Id)> {
      set e | e in bom.assemblies && Followed(e, variant) :: (e.parent, e.child)
    }

    /** The walk down for a product edge of the given variant. */
    function RecipeFor(variant: string): Recipe {
      Recipe(Kids(variant), Parts(variant), Links(variant), |bom.assemblies|)
    }

    function Recipes(): RecipeTable { (e: ProductEdge) => RecipeFor(e.props.Variant()) }

    /** No cycle of followed edges can be reached from the root assembly of any product edge. */
    ghost predicate Acyclic() {
      forall e {:trigger e in bom.products} :: e in bom.products ==> Recipes()(e).Acyclic(e.assembly)
    }

    /** What one unit of product p requires of assembly a, and of component c. */
    ghost function AssemblyRequirement(p: Id, a: Id): real { SumBy(AssemblyShare(Recipes(), p, a), bom.products) }

    ghost function ComponentRequirement(p: Id, c: Id): real { SumBy(ComponentShare(Recipes(), p, c), bom.products) }
  }

  lemma KidsExact(plan: Plan, variant: string, x: Id, e: AssemblyEdge)
    ensures e in plan.Kids(variant)(x) <==> e in plan.bom.assemblies && e.parent == x && plan.Followed(e, variant)
  {
    FilterMember(KeyIs(ParentOf(), KnownChild(plan.knownAssemblies), x), plan.bom.assemblies, e);
    FilterMember(ChildMatches(variant), plan.ChildBucket(x), e);
  }

  lemma PartsExact(plan: Plan, variant: string, x: Id, e: ComponentEdge)
    ensures e in plan.Parts(variant)(x) <==> e in plan.bom.components && e.assembly == x && plan.Counted(e, variant)
  {
    FilterMember(KeyIs(AssemblyOf(), KnownComponent(plan.knownComponents), x), plan.bom.components, e);
    FilterMember(PartMatches(variant), plan.PartBucket(x), e);
  }

  lemma {:induction false} LinksSize(plan: Plan, variant: string, es: seq<AssemblyEdge>)
    ensures |set e | e in es && plan.Followed(e, variant) :: (e.parent, e.child)| <= |es|
  {
    var links := set e | e in es && plan.Followed(e, variant) :: (e.parent, e.child);
    if es == [] {
      assert links == {};
    } else {
      LinksSize(plan, variant, es[1..]);
      var rest := set e | e in es[1..] && plan.Followed(e, variant) :: (e.parent, e.child);
      assert links <= rest + {(es[0].parent, es[0].child)};
      SubsetSize(links, rest + {(es[0].parent, es[0].child)});
    }
  }

  lemma RecipeSound(plan: Plan, variant: string)
    requires plan.bom.Numbered()
    ensures plan.RecipeFor(variant).Sound()
  {
    var r := plan.RecipeFor(variant);
    LinksSize(plan, variant, plan.bom.assemblies);
    forall x ensures Successors(r.links, x, r.kids(x)) {
      forall y ensures (x, y) in r.links <==> exists k :: 0 <= k < |r.kids(x)| && r.kids(x)[k].child == y {
        LinkMeansChild(plan, variant, x, y);
      }
    }
    forall x ensures Distinct(r.kids(x)) {
      FilterDistinct(KeyIs(ParentOf(), KnownChild(plan.knownAssemblies), x), plan.bom.assemblies);
      FilterDistinct(ChildMatches(variant), plan.ChildBucket(x));
    }
  }

  lemma LinkMeansChild(plan: Plan, variant: string, x: Id, y: Id)
    ensures var es := plan.Kids(variant)(x);
            (x, y) in plan.Links(variant) <==> exists k :: 0 <= k < |es| && es[k].child == y
  {
    var es := plan.Kids(variant)(x);
    if (x, y) in plan.Links(variant) {
      var e :| e in plan.bom.assemblies && plan.Followed(e, variant) && (e.parent, e.child) == (x, y);
      KidsExact(plan, variant, x, e);
      var k :| 0 <= k < |es| && es[k] == e;
    }
    if k :| 0 <= k < |es| && es[k].child == y {
      KidsExact(plan, variant, x, es[k]);
    }
  }

  // ---- the two inner loops ----

  /** row is before plus m times the given amounts, and has exactly the keys before had or es mentions. */
  ghost predicate Counts(row: Row, before: Row, m: real, es: seq<ComponentEdge>) {
    forall c :: CountsAt(row, before, m, es, c)
  }

  ghost predicate CountsAt(row: Row, before: Row, m: real, es: seq<ComponentEdge>, c: Id) {
    && Get(row, c) == Get(before, c) + SumBy(AmountTimes(m, c), es)
    && (c in row <==> c in before || Mentions(es, c))
  }

  method CountParts(variant: string, bucket: seq<ComponentEdge>, m: real, before: Row) returns (row: Row)
    ensures Counts(row, before, m, Filter(PartMatches(variant), bucket))
  {
    row := before;
    assert bucket[..0] == [];
    for k := 0 to |bucket|
      invariant Counts(row, before, m, Filter(PartMatches(variant), bucket[..k]))
    {
      var e := bucket[k];
      FilterNext(PartMatches(variant), bucket, k);
      if VariantMatches(e.props.Variant(), variant) {
        CountOne(row, before, m, Filter(PartMatches(variant), bucket[..k]), e);
        row := row[e.component := Get(row, e.component) + m * e.props.Quantity()];
      }
    }
    assert bucket[..|bucket|] == bucket;
  }

  lemma CountOne(row: Row, before: Row, m: real, es: seq<ComponentEdge>, e: ComponentEdge)
    requires Counts(row, before, m, es)
    ensures Counts(row[e.component := Get(row, e.component) + m * e.props.Quantity()], before, m, es + [e])
  {
    var next, es' := row[e.component := Get(row, e.component) + m * e.props.Quantity()], es + [e];
    forall c ensures CountsAt(next, before, m, es', c) {
      assert CountsAt(row, before, m, es, c);
      MentionsAppend(es, e, c);
      AmountAppend(m, c, es, e);
    }
  }

  lemma AmountAppend(m: real, c: Id, es: seq<ComponentEdge>, e: ComponentEdge)
    ensures SumBy(AmountTimes(m, c), es + [e]) ==
            SumBy(AmountTimes(m, c), es) + if e.component == c then m * e.props.Quantity() else 0.0
  {
    SumByAppend(AmountTimes(m, c), es, [e]);
    SumByOne(AmountTimes(m, c), e);
  }

  lemma MentionsAppend(es: seq<ComponentEdge>, e: ComponentEdge, c: Id)
    ensures Mentions(es + [e], c) <==> Mentions(es, c) || e.component == c
  {
    assert forall d :: d in es + [e] <==> d in es || d == e;
    if Mentions(es, c) {
      var d :| d in es && d.component == c;
      assert d in es + [e];
    }
    assert e in es + [e];
  }

  lemma SumByOne<T(!new)>(f: T -> real, x: T)
    ensures SumBy(f, [x]) == f(x)
  {
    assert SumBy(f, [x]) == f(x) + SumBy(f, [x][1..]);
  }

  method PushChildren(variant: string, bucket: seq<AssemblyEdge>, m: real, before: Queue) returns (queue: Queue)
    ensures queue == before + Pushed(m, Filter(ChildMatches(variant), bucket))
  {
    queue := before;
    ghost var pushed: seq<AssemblyEdge> := [];
    assert bucket[..0] == [];
    for k := 0 to |bucket|
      invariant pushed == Filter(ChildMatches(variant), bucket[..k])
      invariant queue == before + Pushed(m, pushed)
    {
      var e := bucket[k];
      FilterNext(ChildMatches(variant), bucket, k);
      if VariantMatches(e.props.Variant(), variant) {
        PushedAppend(m, pushed, e);
        queue := queue + [Scaled(m, e)];
        pushed := pushed + [e];
      }
    }
    assert bucket[..|bucket|] == bucket;
  }

  // ---- the queue loop of one product edge ----

  /** How much of a target the popped assembly and the rest of the queue account for. */
  lemma PopFlow(r: Recipe, base: Base, x: Id, m: real, rest: Queue)
    requires r.Sound() && r.Acyclic(x)
    ensures QueueSum(r.FlowOf(base), [(x, m)] + rest) ==
            m * base(x) + QueueSum(r.FlowOf(base), rest + Pushed(m, r.kids(x)))
  {
    FlowUnfold(r, base, x);
    PopSum(r.FlowOf(base), base(x), x, m, rest, r.kids(x));
  }

  lemma PopUses(r: Recipe, x: Id, m: real, rest: Queue, c: Id)
    requires r.Sound()
    ensures QueueUses(r, [(x, m)] + rest, c) <==>
            Mentions(r.parts(x), c) || QueueUses(r, rest + Pushed(m, r.kids(x)), c)
  {
    assert Successors(r.links, x, r.kids(x));
    forall a
      ensures QueueReaches(r.links, [(x, m)] + rest, a) <==>
              a == x || QueueReaches(r.links, rest + Pushed(m, r.kids(x)), a)
    {
      PopReaches(r.links, x, m, rest, r.kids(x), a);
    }
  }

  /** The rows plus what the queue still carries are what the whole queue carried. */
  ghost predicate Tallied(r: Recipe, queue: Queue, asm: Row, comp: Row, queue0: Queue, asm0: Row, comp0: Row) {
    && (forall a :: AssemblyTallied(r, queue, asm, queue0, asm0, a))
    && (forall c :: ComponentTallied(r, queue, comp, queue0, comp0, c))
  }

  ghost predicate AssemblyTallied(r: Recipe, queue: Queue, asm: Row, queue0: Queue, asm0: Row, a: Id) {
    && Get(asm, a) + QueueSum(r.FlowOf(At(a)), queue) == Get(asm0, a) + QueueSum(r.FlowOf(At(a)), queue0)
    && (a in asm || QueueReaches(r.links, queue, a) <==> a in asm0 || QueueReaches(r.links, queue0, a))
  }

  ghost predicate ComponentTallied(r: Recipe, queue: Queue, comp: Row, queue0: Queue, comp0: Row, c: Id) {
    && Get(comp, c) + QueueSum(r.FlowOf(Takes(r, c)), queue) == Get(comp0, c) + QueueSum(r.FlowOf(Takes(r, c)), queue0)
    && (c in comp || QueueUses(r, queue, c) <==> c in comp0 || QueueUses(r, queue0, c))
  }

  lemma AssemblyStep(r: Recipe, x: Id, m: real, rest: Queue, asm: Row, queue0: Queue, asm0: Row, a: Id)
    requires r.Sound() && r.Acyclic(x) && AssemblyTallied(r, [(x, m)] + rest, asm, queue0, asm0, a)
    ensures AssemblyTallied(r, rest + Pushed(m, r.kids(x)), asm[x := Get(asm, x) + m], queue0, asm0, a)
  {
    AssemblyFlowStep(r, x, m, rest, a);
    assert Successors(r.links, x, r.kids(x));
    PopReaches(r.links, x, m, rest, r.kids(x), a);
  }

  lemma AssemblyFlowStep(r: Recipe, x: Id, m: real, rest: Queue, a: Id)
    requires r.Sound() && r.Acyclic(x)
    ensures QueueSum(r.FlowOf(At(a)), [(x, m)] + rest) ==
            (if x == a then m else 0.0) + QueueSum(r.FlowOf(At(a)), rest + Pushed(m, r.kids(x)))
  {
    PopFlow(r, At(a), x, m, rest);
  }

  lemma ComponentStep(r: Recipe, x: Id, m: real, rest: Queue, comp: Row, next: Row, queue0: Queue, comp0: Row, c: Id)
    requires r.Sound() && r.Acyclic(x) && ComponentTallied(r, [(x, m)] + rest, comp, queue0, comp0, c)
    requires CountsAt(next, comp, m, r.parts(x), c)
    ensures ComponentTallied(r, rest + Pushed(m, r.kids(x)), next, queue0, comp0, c)
  {
    ComponentFlowStep(r, x, m, rest, c);
    PopUses(r, x, m, rest, c);
  }

  lemma ComponentFlowStep(r: Recipe, x: Id, m: real, rest: Queue, c: Id)
    requires r.Sound() && r.Acyclic(x)
    ensures QueueSum(r.FlowOf(Takes(r, c)), [(x, m)] + rest) ==
            SumBy(AmountTimes(m, c), r.parts(x)) + QueueSum(r.FlowOf(Takes(r, c)), rest + Pushed(m, r.kids(x)))
  {
    PopFlow(r, Takes(r, c), x, m, rest);
    AmountTimesSum(m, c, r.parts(x));
  }

  /** One iteration of the queue loop keeps the tally. */
  lemma TallyStep(r: Recipe, x: Id, m: real, rest: Queue, asm: Row, comp: Row, next: Row,
                  queue0: Queue, asm0: Row, comp0: Row)
    requires r.Sound() && r.Acyclic(x)
    requires Tallied(r, [(x, m)] + rest, asm, comp, queue0, asm0, comp0)
    requires Counts(next, comp, m, r.parts(x))
    ensures Tallied(r, rest + Pushed(m, r.kids(x)), asm[x := Get(asm, x) + m], next, queue0, asm0, comp0)
  {
    var queue, after := [(x, m)] + rest, rest + Pushed(m, r.kids(x));
    assert Successors(r.links, x, r.kids(x));
    var asm' := asm[x := Get(asm, x) + m];
    forall a ensures AssemblyTallied(r, after, asm', queue0, asm0, a) {
      assert AssemblyTallied(r, queue, asm, queue0, asm0, a);
      AssemblyStep(r, x, m, rest, asm, queue0, asm0, a);
    }
    forall c ensures ComponentTallied(r, after, next, queue0, comp0, c) {
      assert ComponentTallied(r, queue, comp, queue0, comp0, c) && CountsAt(next, comp, m, r.parts(x), c);
      ComponentStep(r, x, m, rest, comp, next, queue0, comp0, c);
    }
  }

  method WalkDown(variant: string, children: map<Id, seq<AssemblyEdge>>, parts: map<Id, seq<ComponentEdge>>,
                  root: Id, quantity: real, asm0: Row, comp0: Row, ghost r: Recipe) returns (asm: Row, comp: Row)
    requires r.Sound() && r.Acyclic(root)
    requires forall x :: Filter(ChildMatches(variant), Bucket(children, x)) == r.kids(x)
    requires forall x :: Filter(PartMatches(variant), Bucket(parts, x)) == r.parts(x)
    ensures Tallied(r, [], asm, comp, [(root, quantity)], asm0, comp0)
  {
    asm, comp := asm0, comp0;
    ghost var links := r.links;
    var queue: Queue := [(root, quantity)];
    ghost var queue0 := queue;
    while queue != []
      invariant AllGrounded(links, queue)
      invariant Tallied(r, queue, asm, comp, queue0, asm0, comp0)
      decreases QueueCost(r.CostOf(), queue)
    {
      var (x, m) := queue[0];
      ghost var rest := queue[1..];
      assert queue == [(x, m)] + rest;
      assert Grounded(links, queue[0].0);
      CostUnfold(r, x);
      PopCost(r.CostOf(), x, m, rest, r.kids(x));
      assert Successors(r.links, x, r.kids(x));
      PopGrounded(links, x, m, rest, r.kids(x));
      queue := queue[1..];
      ghost var asm1, comp1 := asm, comp;
      asm := asm[x := Get(asm, x) + m];
      comp := CountParts(variant, Bucket(parts, x), m, comp);
      queue := PushChildren(variant, Bucket(children, x), m, queue);
      TallyStep(r, x, m, rest, asm1, comp1, comp, queue0, asm0, comp0);
    }
  }

  lemma QueueSumOne(f: Id -> real, x: Id, m: real)
    ensures QueueSum(f, [(x, m)]) == m * f(x)
  {
    assert [(x, m)][1..] == [];
  }

  lemma QueueReachesOne(links: set<(Id, Id)>, x: Id, m: real, a: Id)
    ensures QueueReaches(links, [(x, m)], a) <==> Reaches(links, x, a)
  {
    assert [(x, m)][0].0 == x;
  }

  // ---- all product edges ----

  /** The rows after the first k product edges. */
  ghost predicate AssemblyDone(recipes: RecipeTable, asm: map<Id, Row>, es: seq<ProductEdge>, p: Id, a: Id) {
    && Get(RowOf(asm, p), a) == SumBy(AssemblyShare(recipes, p, a), es)
    && (a in RowOf(asm, p) <==> NeedsAssembly(recipes, es, p, a))
  }

  ghost predicate ComponentDone(recipes: RecipeTable, comp: map<Id, Row>, es: seq<ProductEdge>, p: Id, c: Id) {
    && Get(RowOf(comp, p), c) == SumBy(ComponentShare(recipes, p, c), es)
    && (c in RowOf(comp, p) <==> NeedsComponent(recipes, es, p, c))
  }

  ghost predicate Done(recipes: RecipeTable, asm: map<Id, Row>, comp: map<Id, Row>, es: seq<ProductEdge>) {
    && (forall p, a :: AssemblyDone(recipes, asm, es, p, a))
    && (forall p, c :: ComponentDone(recipes, comp, es, p, c))
  }

  /** What folding product edge e into its product's row does to one entry. */
  lemma EntryStep(share: ProductEdge -> real, rows: map<Id, Row>, es: seq<ProductEdge>, e: ProductEdge, row: Row, p: Id,
                  k: Id)
    requires Get(RowOf(rows, p), k) == SumBy(share, es)
    requires e.product == p ==> Get(row, k) == Get(RowOf(rows, p), k) + share(e)
    requires e.product != p ==> share(e) == 0.0
    ensures Get(RowOf(rows[e.product := row], p), k) == SumBy(share, es + [e])
  {
    SumByAppend(share, es, [e]);
    SumByOne(share, e);
  }

  lemma AssemblyValueStep(recipes: RecipeTable, asm: map<Id, Row>, es: seq<ProductEdge>, e: ProductEdge, row: Row,
                          p: Id, a: Id)
    requires Get(RowOf(asm, p), a) == SumBy(AssemblyShare(recipes, p, a), es)
    requires Get(row, a) == Get(RowOf(asm, e.product), a) + e.props.Quantity() * recipes(e).Flow(At(a), e.assembly)
    ensures Get(RowOf(asm[e.product := row], p), a) == SumBy(AssemblyShare(recipes, p, a), es + [e])
  {
    EntryStep(AssemblyShare(recipes, p, a), asm, es, e, row, p, a);
  }

  lemma AssemblyKeyStep(recipes: RecipeTable, asm: map<Id, Row>, es: seq<ProductEdge>, e: ProductEdge, row: Row, p: Id,
                        a: Id)
    requires a in RowOf(asm, p) <==> NeedsAssembly(recipes, es, p, a)
    requires a in row <==> a in RowOf(asm, e.product) || Reaches(recipes(e).links, e.assembly, a)
    ensures a in RowOf(asm[e.product := row], p) <==> NeedsAssembly(recipes, es + [e], p, a)
  {
    NeedsAssemblyAppend(recipes, es, e, p, a);
  }

  lemma AssemblyDoneStep(recipes: RecipeTable, asm: map<Id, Row>, es: seq<ProductEdge>, e: ProductEdge, row: Row, p: Id,
                         a: Id)
    requires AssemblyDone(recipes, asm, es, p, a)
    requires AssemblyTallied(recipes(e), [], row, [(e.assembly, e.props.Quantity())], RowOf(asm, e.product), a)
    ensures AssemblyDone(recipes, asm[e.product := row], es + [e], p, a)
  {
    AssemblyTalliedOne(recipes(e), row, RowOf(asm, e.product), e.assembly, e.props.Quantity(), a);
    AssemblyValueStep(recipes, asm, es, e, row, p, a);
    AssemblyKeyStep(recipes, asm, es, e, row, p, a);
  }

  lemma AssemblyTalliedOne(r: Recipe, row: Row, row0: Row, x: Id, m: real, a: Id)
    requires AssemblyTallied(r, [], row, [(x, m)], row0, a)
    ensures Get(row, a) == Get(row0, a) + m * r.Flow(At(a), x)
    ensures a in row <==> a in row0 || Reaches(r.links, x, a)
  {
    QueueSumOne(r.FlowOf(At(a)), x, m);
    QueueReachesOne(r.links, x, m, a);
  }

  lemma NeedsAssemblyAppend(recipes: RecipeTable, es: seq<ProductEdge>, e: ProductEdge, p: Id, a: Id)
    ensures NeedsAssembly(recipes, es + [e], p, a) <==>
            NeedsAssembly(recipes, es, p, a) || (e.product == p && Reaches(recipes(e).links, e.assembly, a))
  {
    AppendMember(es, e);
  }

  lemma AppendMember<T(!new)>(xs: seq<T>, x: T)
    ensures forall y {:trigger y in xs} {:trigger y in xs + [x]} :: y in xs + [x] <==> y in xs || y == x
    ensures x in xs + [x]
  {
    assert (xs + [x])[|xs|] == x;
  }

  lemma ComponentValueStep(recipes: RecipeTable, comp: map<Id, Row>, es: seq<ProductEdge>, e: ProductEdge, row: Row,
                           p: Id, c: Id)
    requires Get(RowOf(comp, p), c) == SumBy(ComponentShare(recipes, p, c), es)
    requires Get(row, c) ==
             Get(RowOf(comp, e.product), c) + e.props.Quantity() * recipes(e).Flow(Takes(recipes(e), c), e.assembly)
    ensures Get(RowOf(comp[e.product := row], p), c) == SumBy(ComponentShare(recipes, p, c), es + [e])
  {
    EntryStep(ComponentShare(recipes, p, c), comp, es, e, row, p, c);
  }

  lemma ComponentKeyStep(recipes: RecipeTable, comp: map<Id, Row>, es: seq<ProductEdge>, e: ProductEdge, row: Row,
                         p: Id, c: Id)
    requires c in RowOf(comp, p) <==> NeedsComponent(recipes, es, p, c)
    requires c in row <==> c in RowOf(comp, e.product) || UsedBelow(recipes(e), e.assembly, c)
    ensures c in RowOf(comp[e.product := row], p) <==> NeedsComponent(recipes, es + [e], p, c)
  {
    NeedsComponentAppend(recipes, es, e, p, c);
  }

  lemma ComponentDoneStep(recipes: RecipeTable, comp: map<Id, Row>, es: seq<ProductEdge>, e: ProductEdge, row: Row,
                          p: Id, c: Id)
    requires ComponentDone(recipes, comp, es, p, c)
    requires ComponentTallied(recipes(e), [], row, [(e.assembly, e.props.Quantity())], RowOf(comp, e.product), c)
    ensures ComponentDone(recipes, comp[e.product := row], es + [e], p, c)
  {
    ComponentTalliedOne(recipes(e), row, RowOf(comp, e.product), e.assembly, e.props.Quantity(), c);
    ComponentValueStep(recipes, comp, es, e, row, p, c);
    ComponentKeyStep(recipes, comp, es, e, row, p, c);
  }

  lemma ComponentTalliedOne(r: Recipe, row: Row, row0: Row, x: Id, m: real, c: Id)
    requires ComponentTallied(r, [], row, [(x, m)], row0, c)
    ensures Get(row, c) == Get(row0, c) + m * r.Flow(Takes(r, c), x)
    ensures c in row <==> c in row0 || UsedBelow(r, x, c)
  {
    QueueSumOne(r.FlowOf(Takes(r, c)), x, m);
    QueueUsesOne(r, x, m, c);
  }

  lemma NeedsComponentAppend(recipes: RecipeTable, es: seq<ProductEdge>, e: ProductEdge, p: Id, c: Id)
    ensures NeedsComponent(recipes, es + [e], p, c) <==>
            NeedsComponent(recipes, es, p, c) || (e.product == p && UsedBelow(recipes(e), e.assembly, c))
  {
    AppendMember(es, e);
  }

  lemma QueueUsesOne(r: Recipe, x: Id, m: real, c: Id)
    ensures QueueUses(r, [(x, m)], c) <==> UsedBelow(r, x, c)
    ensures !QueueUses(r, [], c)
  {
    forall a ensures QueueReaches(r.links, [(x, m)], a) <==> Reaches(r.links, x, a) {
      QueueReachesOne(r.links, x, m, a);
    }
  }

  lemma DoneStep(recipes: RecipeTable, asm: map<Id, Row>, comp: map<Id, Row>, es: seq<ProductEdge>, e: ProductEdge,
                 asmRow: Row, compRow: Row)
    requires Done(recipes, asm, comp, es)
    requires Tallied(recipes(e), [], asmRow, compRow, [(e.assembly, e.props.Quantity())],
                     RowOf(asm, e.product), RowOf(comp, e.product))
    ensures Done(recipes, asm[e.product := asmRow], comp[e.product := compRow], es + [e])
  {
    var asm', comp', es' := asm[e.product := asmRow], comp[e.product := compRow], es + [e];
    forall p, a ensures AssemblyDone(recipes, asm', es', p, a) {
      assert AssemblyDone(recipes, asm, es, p, a);
      AssemblyDoneStep(recipes, asm, es, e, asmRow, p, a);
    }
    forall p, c ensures ComponentDone(recipes, comp', es', p, c) {
      assert ComponentDone(recipes, comp, es, p, c);
      ComponentDoneStep(recipes, comp, es, e, compRow, p, c);
    }
  }

  lemma WalkReady(plan: Plan, e: ProductEdge, children: map<Id, seq<AssemblyEdge>>, parts: map<Id, seq<ComponentEdge>>)
    requires plan.bom.Numbered() && plan.Acyclic() && e in plan.bom.products
    requires forall x :: Bucket(children, x) == plan.ChildBucket(x)
    requires forall x :: Bucket(parts, x) == plan.PartBucket(x)
    ensures var r, variant := plan.Recipes()(e), e.props.Variant();
            && r.Sound() && r.Acyclic(e.assembly)
            && (forall x :: Filter(ChildMatches(variant), Bucket(children, x)) == r.kids(x))
            && (forall x :: Filter(PartMatches(variant), Bucket(parts, x)) == r.parts(x))
  {
    RecipeSound(plan, e.props.Variant());
  }

  lemma DoneRead(plan: Plan, asm: map<Id, Row>, comp: map<Id, Row>)
    requires Done(plan.Recipes(), asm, comp, plan.bom.products)
    ensures forall p, a :: Get(RowOf(asm, p), a) == plan.AssemblyRequirement(p, a)
    ensures forall p, c :: Get(RowOf(comp, p), c) == plan.ComponentRequirement(p, c)
    ensures forall p, a :: a in RowOf(asm, p) <==> NeedsAssembly(plan.Recipes(), plan.bom.products, p, a)
    ensures forall p, c :: c in RowOf(comp, p) <==> NeedsComponent(plan.Recipes(), plan.bom.products, p, c)
  {
    forall p, a
      ensures Get(RowOf(asm, p), a) == plan.AssemblyRequirement(p, a)
      ensures a in RowOf(asm, p) <==> NeedsAssembly(plan.Recipes(), plan.bom.products, p, a)
    {
      assert AssemblyDone(plan.Recipes(), asm, plan.bom.products, p, a);
    }
    forall p, c
      ensures Get(RowOf(comp, p), c) == plan.ComponentRequirement(p, c)
      ensures c in RowOf(comp, p) <==> NeedsComponent(plan.Recipes(), plan.bom.products, p, c)
    {
      assert ComponentDone(plan.Recipes(), comp, plan.bom.products, p, c);
    }
  }

  /**
   Explodes every product edge. On a BOM whose roots reach no cycle the result is, for every product
   and item, the sum over variant-matching downward paths, and a row has a key exactly when a path
   exists (so an entry that cancels to zero is still listed).
   */
  method ProductRequirements(plan: Plan) returns (comp: map<Id, Row>, asm: map<Id, Row>)
    requires plan.bom.Numbered() && plan.Acyclic()
    ensures forall p, a :: Get(RowOf(asm, p), a) == plan.AssemblyRequirement(p, a)
    ensures forall p, c :: Get(RowOf(comp, p), c) == plan.ComponentRequirement(p, c)
    ensures forall p, a :: a in RowOf(asm, p) <==> NeedsAssembly(plan.Recipes(), plan.bom.products, p, a)
    ensures forall p, c :: c in RowOf(comp, p) <==> NeedsComponent(plan.Recipes(), plan.bom.products, p, c)
  {
    var parts := GroupBy(AssemblyOf(), KnownComponent(plan.knownComponents), plan.bom.components);
    var children := GroupBy(ParentOf(), KnownChild(plan.knownAssemblies), plan.bom.assemblies);
    comp, asm := map[], map[];
    assert plan.bom.products[..0] == [];
    for k := 0 to |plan.bom.products|
      invariant Done(plan.Recipes(), asm, comp, plan.bom.products[..k])
    {
      var e := plan.bom.products[k];
      ghost var r := plan.Recipes()(e);
      WalkReady(plan, e, children, parts);
      assert plan.bom.products[..k + 1] == plan.bom.products[..k] + [e];
      var asmRow, compRow := WalkDown(e.props.Variant(), children, parts, e.assembly, e.props.Quantity(),
                                      RowOf(asm, e.product), RowOf(comp, e.product), r);
      DoneStep(plan.Recipes(), asm, comp, plan.bom.products[..k], e, asmRow, compRow);
      asm := asm[e.product := asmRow];
      comp := comp[e.product := compRow];
    }
    assert plan.bom.products[..|plan.bom.products|] == plan.bom.products;
    DoneRead(plan, asm, comp);
  }
}
