/**
 From impacted components and assemblies to exposed products: every upward path to a known product is
 recorded under its incident and product, and the worst depth and buffer state decide the verdict.
 */
module ProductExposure {
  import opened Sequences
  import opened Bom
  import opened ExposurePaths
  import opened UpwardSearch
  import opened BufferCoverage
  import opened SupplierCascade

  datatype Basis = ComponentBomPath | DirectAssemblyBomPath | MixedPaths

  datatype DepthBucket = Direct | Tier2 | Tier3Plus {
    function Rank(): nat {
      match this
      case Direct => 0
      case Tier2 => 1
      case Tier3Plus => 2
    }
  }

  function BucketOf(depth: nat): DepthBucket {
    if depth == 0 then Direct else if depth == 1 then Tier2 else Tier3Plus
  }

  datatype PathRow = PathRow(basis: Basis, bucket: DepthBucket, buffer: BufferState)

  type Key = (Id, Id)

  datatype KeyedRow = KeyedRow(key: Key, row: PathRow)

  datatype ItemKind = ComponentItem | AssemblyItem

  type Lookup = map<(ItemKind, Id, Id), BufferState>

  datatype ComponentImpact = ComponentImpact(incident: Id, component: Id)
  datatype AssemblyImpact = AssemblyImpact(incident: Id, assembly: Id)

  datatype ExposureItem = ExposureItem(bucket: DepthBucket, buffer: BufferState, basis: Basis, pathCount: nat,
                                       verdict: Verdict)

  function BufferFor(lookup: Lookup, kind: ItemKind, item: Id, product: Id): BufferState {
    if (kind, item, product) in lookup then lookup[(kind, item, product)] else UnknownBuffer
  }

  // ---- the rows recorded, as one list ----

  /** What the roll-up depends on besides the impacts. */
  datatype Context = Context(bom: Bom, products: set<Id>, lookup: Lookup)

  function RowFor(ctx: Context, incident: Id, kind: ItemKind, item: Id, up: UpRow): KeyedRow {
    KeyedRow((incident, up.product),
             PathRow(if kind == ComponentItem then ComponentBomPath else DirectAssemblyBomPath,
                     BucketOf(up.depth), BufferFor(ctx.lookup, kind, item, up.product)))
  }

  /** The rows for the upward paths, paths to unknown products left out. */
  function RowsFor(ctx: Context, incident: Id, kind: ItemKind, item: Id, ups: seq<UpRow>): seq<KeyedRow> {
    if ups == [] then []
    else (if ups[0].product in ctx.products then [RowFor(ctx, incident, kind, item, ups[0])] else [])
         + RowsFor(ctx, incident, kind, item, ups[1..])
  }

  function UpRowsFrom(bom: Bom, start: Id, pathVariant: string): seq<UpRow> {
    DescribeAll(start, UpChoices(ClimbFor(bom, pathVariant), start))
  }

  function ComponentOf(): ComponentEdge -> Id { (e: ComponentEdge) => e.component }
  function AnyComponentEdge(): ComponentEdge -> bool { (e: ComponentEdge) => true }

  function UsesOf(bom: Bom, component: Id): seq<ComponentEdge> {
    Filter(KeyIs(ComponentOf(), AnyComponentEdge(), component), bom.components)
  }

  function RowsOfUse(ctx: Context, impact: ComponentImpact, use: ComponentEdge): seq<KeyedRow> {
    RowsFor(ctx, impact.incident, ComponentItem, impact.component,
            UpRowsFrom(ctx.bom, use.assembly, use.props.Variant()))
  }

  function RowsOfUses(ctx: Context, impact: ComponentImpact, uses: seq<ComponentEdge>): seq<KeyedRow> {
    if uses == [] then []
    else RowsOfUse(ctx, impact, uses[0]) + RowsOfUses(ctx, impact, uses[1..])
  }

  function RowsOfComponent(ctx: Context, impact: ComponentImpact): seq<KeyedRow> {
    RowsOfUses(ctx, impact, UsesOf(ctx.bom, impact.component))
  }

  function RowsOfAssembly(ctx: Context, impact: AssemblyImpact): seq<KeyedRow> {
    RowsFor(ctx, impact.incident, AssemblyItem, impact.assembly, UpRowsFrom(ctx.bom, impact.assembly, "all"))
  }

  function ComponentRows(ctx: Context): ComponentImpact -> seq<KeyedRow> {
    (impact: ComponentImpact) => RowsOfComponent(ctx, impact)
  }

  function AssemblyRows(ctx: Context): AssemblyImpact -> seq<KeyedRow> {
    (impact: AssemblyImpact) => RowsOfAssembly(ctx, impact)
  }

  /** Everything the roll-up records, in order. */
  function AllRows(ctx: Context, components: seq<ComponentImpact>, assemblies: seq<AssemblyImpact>): seq<KeyedRow> {
    FlatMap(ComponentRows(ctx), components) + FlatMap(AssemblyRows(ctx), assemblies)
  }

  /** The rows recorded under one incident and product. */
  function Under(key: Key, rows: seq<KeyedRow>): seq<PathRow> {
    if rows == [] then []
    else (if rows[0].key == key then [rows[0].row] else []) + Under(key, rows[1..])
  }

  // ---- the worst case over a list of rows ----

  /** Python's max(): the first row of greatest depth rank. */
  function WorstBucket(rows: seq<PathRow>): DepthBucket
    requires rows != []
  {
    if |rows| == 1 then rows[0].bucket
    else
      var before := WorstBucket(rows[..|rows| - 1]);
      if rows[|rows| - 1].bucket.Rank() > before.Rank() then rows[|rows| - 1].bucket else before
  }

  function WorstBuffer(rows: seq<PathRow>): BufferState
    requires rows != []
  {
    if |rows| == 1 then rows[0].buffer
    else
      var before := WorstBuffer(rows[..|rows| - 1]);
      if rows[|rows| - 1].buffer.Rank() > before.Rank() then rows[|rows| - 1].buffer else before
  }

  function VerdictOf(buffer: BufferState): Verdict {
    match buffer
    case NoBuffer => Support
    case PartialBuffer => Support
    case UnknownBuffer => Unsure
    case _ => Contradict
  }

  function VerdictRank(verdict: Verdict): nat {
    match verdict
    case Contradict => 0
    case Unsure => 1
    case Support => 2
  }

  function BasisOf(rows: seq<PathRow>): Basis
    requires rows != []
  {
    if forall i :: 0 <= i < |rows| ==> rows[i].basis == rows[0].basis then rows[0].basis else MixedPaths
  }

  function Summarize(rows: seq<PathRow>): ExposureItem
    requires rows != []
  {
    ExposureItem(WorstBucket(rows), WorstBuffer(rows), BasisOf(rows), |rows|, VerdictOf(WorstBuffer(rows)))
  }

  lemma {:induction false} WorstMeaning(rows: seq<PathRow>)
    requires rows != []
    ensures (exists i :: 0 <= i < |rows| && rows[i].bucket == WorstBucket(rows))
    ensures forall i :: 0 <= i < |rows| ==> rows[i].bucket.Rank() <= WorstBucket(rows).Rank()
    ensures (exists i :: 0 <= i < |rows| && rows[i].buffer == WorstBuffer(rows))
    ensures forall i :: 0 <= i < |rows| ==> rows[i].buffer.Rank() <= WorstBuffer(rows).Rank()
    decreases |rows|
  {
    var last := rows[|rows| - 1];
    assert |rows| == 1 ==> WorstBucket(rows) == last.bucket && WorstBuffer(rows) == last.buffer;
    if |rows| > 1 {
      var init := rows[..|rows| - 1];
      WorstMeaning(init);
      var i :| 0 <= i < |init| && init[i].bucket == WorstBucket(init);
      var j :| 0 <= j < |init| && init[j].buffer == WorstBuffer(init);
      assert rows[i] == init[i] && rows[j] == init[j];
      forall k | 0 <= k < |rows|
        ensures rows[k].bucket.Rank() <= WorstBucket(rows).Rank() && rows[k].buffer.Rank() <= WorstBuffer(rows).Rank()
      {
        if k < |init| {
          assert rows[k] == init[k];
        }
      }
    }
  }

  // ---- the loops ----

  lemma {:induction false} UnderAppend(key: Key, xs: seq<KeyedRow>, ys: seq<KeyedRow>)
    ensures Under(key, xs + ys) == Under(key, xs) + Under(key, ys)
  {
    if xs == [] {
      assert xs + ys == ys;
    } else {
      assert (xs + ys)[0] == xs[0] && (xs + ys)[1..] == xs[1..] + ys;
      UnderAppend(key, xs[1..], ys);
    }
  }

  function At(paths: map<Key, seq<PathRow>>, key: Key): seq<PathRow> {
    if key in paths then paths[key] else []
  }

  /** paths holds exactly the given rows, filed by key, and no empty entry. */
  ghost predicate Files(paths: map<Key, seq<PathRow>>, rows: seq<KeyedRow>) {
    && (forall key :: At(paths, key) == Under(key, rows))
    && (forall key :: key in paths ==> paths[key] != [])
  }

  lemma FileOne(paths: map<Key, seq<PathRow>>, rows: seq<KeyedRow>, r: KeyedRow)
    requires Files(paths, rows)
    ensures Files(paths[r.key := At(paths, r.key) + [r.row]], rows + [r])
  {
    var next := paths[r.key := At(paths, r.key) + [r.row]];
    forall key ensures At(next, key) == Under(key, rows + [r]) {
      UnderAppend(key, rows, [r]);
      assert [r][1..] == [];
    }
  }

  lemma {:induction false} RowsForSnoc(ctx: Context, incident: Id, kind: ItemKind, item: Id, ups: seq<UpRow>, up: UpRow)
    ensures RowsFor(ctx, incident, kind, item, ups + [up]) == RowsFor(ctx, incident, kind, item, ups) +
            if up.product in ctx.products then [RowFor(ctx, incident, kind, item, up)] else []
  {
    if ups == [] {
      assert ups + [up] == [up] && [up][1..] == [];
    } else {
      var all := ups + [up];
      assert all[0] == ups[0] && all[1..] == ups[1..] + [up];
      RowsForSnoc(ctx, incident, kind, item, ups[1..], up);
    }
  }

  lemma RowsForNext(ctx: Context, incident: Id, kind: ItemKind, item: Id, ups: seq<UpRow>, k: nat, rows: seq<KeyedRow>)
    requires k < |ups|
    ensures var done := rows + RowsFor(ctx, incident, kind, item, ups[..k]);
            rows + RowsFor(ctx, incident, kind, item, ups[..k + 1]) ==
            if ups[k].product in ctx.products then done + [RowFor(ctx, incident, kind, item, ups[k])] else done
  {
    assert ups[..k + 1] == ups[..k] + [ups[k]];
    RowsForSnoc(ctx, incident, kind, item, ups[..k], ups[k]);
  }

  method RecordPaths(ctx: Context, incident: Id, kind: ItemKind, item: Id, ups: seq<UpRow>,
                     before: map<Key, seq<PathRow>>, ghost rows: seq<KeyedRow>) returns (paths: map<Key, seq<PathRow>>)
    requires Files(before, rows)
    ensures Files(paths, rows + RowsFor(ctx, incident, kind, item, ups))
  {
    paths := before;
    ghost var done := rows;
    assert ups[..0] == [];
    assert rows + RowsFor(ctx, incident, kind, item, []) == rows;
    for k := 0 to |ups|
      invariant Files(paths, done) && done == rows + RowsFor(ctx, incident, kind, item, ups[..k])
    {
      var up := ups[k];
      RowsForNext(ctx, incident, kind, item, ups, k, rows);
      if up.product in ctx.products {
        var r := RowFor(ctx, incident, kind, item, up);
        FileOne(paths, done, r);
        paths := paths[r.key := At(paths, r.key) + [r.row]];
        done := done + [r];
      }
    }
    assert ups[..|ups|] == ups;
  }

  lemma ClimbReady(bom: Bom, pathVariant: string, parents: map<Id, seq<AssemblyEdge>>,
                   products: map<Id, seq<ProductEdge>>)
    requires bom.Numbered()
    requires forall x :: Bucket(parents, x) == ParentBucket(bom, x)
    requires forall x :: Bucket(products, x) == ProductBucket(bom, x)
    ensures var c := ClimbFor(bom, pathVariant);
            && c.Sound()
            && (forall x :: c.up(x) == Filter(ClimbFilter(pathVariant), Sort(ByParent(), Bucket(parents, x))))
            && (forall x :: c.exits(x) == Filter(LeaveFilter(pathVariant), Bucket(products, x)))
  {
    ClimbSound(bom, pathVariant);
  }

  lemma {:induction false} RowsOfUsesSnoc(ctx: Context, impact: ComponentImpact, uses: seq<ComponentEdge>,
                                          use: ComponentEdge)
    ensures RowsOfUses(ctx, impact, uses + [use]) == RowsOfUses(ctx, impact, uses) + RowsOfUse(ctx, impact, use)
  {
    if uses == [] {
      assert uses + [use] == [use] && [use][1..] == [];
      assert RowsOfUses(ctx, impact, [use]) == RowsOfUse(ctx, impact, use) + RowsOfUses(ctx, impact, []);
    } else {
      var all := uses + [use];
      assert all[0] == uses[0] && all[1..] == uses[1..] + [use];
      RowsOfUsesSnoc(ctx, impact, uses[1..], use);
      ConcatAssociates(RowsOfUse(ctx, impact, uses[0]), RowsOfUses(ctx, impact, uses[1..]),
                       RowsOfUse(ctx, impact, use));
    }
  }

  method RecordUse(ctx: Context, impact: ComponentImpact, use: ComponentEdge,
                   parents: map<Id, seq<AssemblyEdge>>, products: map<Id, seq<ProductEdge>>,
                   before: map<Key, seq<PathRow>>, ghost rows: seq<KeyedRow>) returns (paths: map<Key, seq<PathRow>>)
    requires ctx.bom.Numbered()
    requires forall x :: Bucket(parents, x) == ParentBucket(ctx.bom, x)
    requires forall x :: Bucket(products, x) == ProductBucket(ctx.bom, x)
    requires Files(before, rows)
    ensures Files(paths, rows + RowsOfUse(ctx, impact, use))
  {
    ClimbReady(ctx.bom, use.props.Variant(), parents, products);
    var ups := AssemblyProductPaths(use.assembly, parents, products, use.props.Variant(),
                                    ClimbFor(ctx.bom, use.props.Variant()));
    paths := RecordPaths(ctx, impact.incident, ComponentItem, impact.component, ups, before, rows);
  }

  method RecordComponent(ctx: Context, impact: ComponentImpact, uses: seq<ComponentEdge>,
                         parents: map<Id, seq<AssemblyEdge>>, products: map<Id, seq<ProductEdge>>,
                         before: map<Key, seq<PathRow>>, ghost rows: seq<KeyedRow>)
    returns (paths: map<Key, seq<PathRow>>)
    requires ctx.bom.Numbered()
    requires forall x :: Bucket(parents, x) == ParentBucket(ctx.bom, x)
    requires forall x :: Bucket(products, x) == ProductBucket(ctx.bom, x)
    requires Files(before, rows)
    ensures Files(paths, rows + RowsOfUses(ctx, impact, uses))
  {
    paths := before;
    assert uses[..0] == [];
    assert rows + RowsOfUses(ctx, impact, []) == rows;
    for k := 0 to |uses|
      invariant Files(paths, rows + RowsOfUses(ctx, impact, uses[..k]))
    {
      ghost var done := RowsOfUses(ctx, impact, uses[..k]);
      assert uses[..k + 1] == uses[..k] + [uses[k]];
      RowsOfUsesSnoc(ctx, impact, uses[..k], uses[k]);
      ConcatAssociates(rows, done, RowsOfUse(ctx, impact, uses[k]));
      paths := RecordUse(ctx, impact, uses[k], parents, products, paths, rows + done);
    }
    assert uses[..|uses|] == uses;
  }

  lemma FlatMapSnoc<A(!new), B(!new)>(f: A -> seq<B>, xs: seq<A>, k: nat)
    requires k < |xs|
    ensures FlatMap(f, xs[..k + 1]) == FlatMap(f, xs[..k]) + f(xs[k])
  {
    assert xs[..k + 1] == xs[..k] + [xs[k]];
    FlatMapAppend(f, xs[..k], [xs[k]]);
    assert FlatMap(f, [xs[k]]) == f(xs[k]) + FlatMap(f, [xs[k]][1..]);
  }

  method RecordComponents(ctx: Context, components: seq<ComponentImpact>,
                          parents: map<Id, seq<AssemblyEdge>>, products: map<Id, seq<ProductEdge>>)
    returns (paths: map<Key, seq<PathRow>>)
    requires ctx.bom.Numbered()
    requires forall x :: Bucket(parents, x) == ParentBucket(ctx.bom, x)
    requires forall x :: Bucket(products, x) == ProductBucket(ctx.bom, x)
    ensures Files(paths, FlatMap(ComponentRows(ctx), components))
  {
    var uses := GroupBy(ComponentOf(), AnyComponentEdge(), ctx.bom.components);
    paths := map[];
    ghost var rows: seq<KeyedRow> := [];
    assert components[..0] == [];
    for k := 0 to |components|
      invariant rows == FlatMap(ComponentRows(ctx), components[..k])
      invariant Files(paths, rows)
    {
      FlatMapSnoc(ComponentRows(ctx), components, k);
      paths := RecordComponent(ctx, components[k], Bucket(uses, components[k].component), parents, products, paths,
                               rows);
      rows := rows + RowsOfComponent(ctx, components[k]);
    }
    assert components[..|components|] == components;
  }

  method RecordAssembly(ctx: Context, impact: AssemblyImpact, parents: map<Id, seq<AssemblyEdge>>,
                        products: map<Id, seq<ProductEdge>>, before: map<Key, seq<PathRow>>, ghost rows: seq<KeyedRow>)
    returns (paths: map<Key, seq<PathRow>>)
    requires ctx.bom.Numbered() && Files(before, rows)
    requires forall x :: Bucket(parents, x) == ParentBucket(ctx.bom, x)
    requires forall x :: Bucket(products, x) == ProductBucket(ctx.bom, x)
    ensures Files(paths, rows + RowsOfAssembly(ctx, impact))
  {
    ClimbReady(ctx.bom, "all", parents, products);
    var ups := AssemblyProductPaths(impact.assembly, parents, products, "all", ClimbFor(ctx.bom, "all"));
    paths := RecordPaths(ctx, impact.incident, AssemblyItem, impact.assembly, ups, before, rows);
  }

  method RecordAssemblies(ctx: Context, assemblies: seq<AssemblyImpact>,
                          parents: map<Id, seq<AssemblyEdge>>, products: map<Id, seq<ProductEdge>>,
                          before: map<Key, seq<PathRow>>, ghost first: seq<KeyedRow>)
    returns (paths: map<Key, seq<PathRow>>)
    requires ctx.bom.Numbered() && Files(before, first)
    requires forall x :: Bucket(parents, x) == ParentBucket(ctx.bom, x)
    requires forall x :: Bucket(products, x) == ProductBucket(ctx.bom, x)
    ensures Files(paths, first + FlatMap(AssemblyRows(ctx), assemblies))
  {
    paths := before;
    ghost var done: seq<KeyedRow> := [];
    assert assemblies[..0] == [] && first + done == first;
    for k := 0 to |assemblies|
      invariant done == FlatMap(AssemblyRows(ctx), assemblies[..k])
      invariant Files(paths, first + done)
    {
      ghost var more := RowsOfAssembly(ctx, assemblies[k]);
      FlatMapSnoc(AssemblyRows(ctx), assemblies, k);
      paths := RecordAssembly(ctx, assemblies[k], parents, products, paths, first + done);
      assert (first + done) + more == first + (done + more);
      done := done + more;
    }
    assert assemblies[..|assemblies|] == assemblies;
  }

  /** The items: one for each incident and product with a recorded row, summarizing its rows. */
  ghost predicate Summarizes(items: map<Key, ExposureItem>, rows: seq<KeyedRow>) {
    && (forall key :: key in items <==> Under(key, rows) != [])
    && (forall key :: key in items ==> items[key] == Summarize(Under(key, rows)))
  }

  /** Rolls impacts up to exposed products. The source lists the items sorted by incident and product. */
  method AssessProductExposure(ctx: Context, components: seq<ComponentImpact>, assemblies: seq<AssemblyImpact>)
    returns (items: map<Key, ExposureItem>)
    requires ctx.bom.Numbered()
    ensures Summarizes(items, AllRows(ctx, components, assemblies))
  {
    var parents := GroupBy(ChildOf(), AnyAssemblyEdge(), ctx.bom.assemblies);
    var products := GroupBy(RootOf(), AnyProductEdge(), ctx.bom.products);
    var filed := RecordComponents(ctx, components, parents, products);
    var paths := RecordAssemblies(ctx, assemblies, parents, products, filed, FlatMap(ComponentRows(ctx), components));
    ghost var rows := AllRows(ctx, components, assemblies);
    items := map[];
    var todo := paths.Keys;
    while todo != {}
      invariant todo <= paths.Keys
      invariant items.Keys == paths.Keys - todo
      invariant forall key :: key in items ==> items[key] == Summarize(paths[key])
      decreases |todo|
    {
      var key :| key in todo;
      todo := todo - {key};
      items := items[key := Summarize(paths[key])];
    }
    forall key
      ensures key in items <==> Under(key, rows) != []
      ensures key in items ==> items[key] == Summarize(Under(key, rows))
    {
      assert At(paths, key) == Under(key, rows);
    }
  }

  // ---- more impacts ----

  lemma {:induction false} FlatMapLarger<A(!new), B(!new)>(f: A -> seq<B>, xs: seq<A>, ys: seq<A>)
    requires multiset(xs) <= multiset(ys)
    ensures multiset(FlatMap(f, xs)) <= multiset(FlatMap(f, ys))
  {
    if xs != [] {
      var pre, post := SplitAtHead(xs, ys);
      FlatMapLarger(f, xs[1..], pre + post);
      FlatMapAppend(f, pre, post);
      FlatMapAppend(f, pre, [xs[0]] + post);
      assert ([xs[0]] + post)[1..] == post;
      assert FlatMap(f, [xs[0]] + post) == f(xs[0]) + FlatMap(f, post);
    }
  }

  lemma MultisetWithout<A(!new)>(pre: seq<A>, x: A, post: seq<A>)
    ensures multiset(pre + ([x] + post)) == multiset(pre + post) + multiset([x])
  {
  }

  lemma SplitAtHead<A(!new)>(xs: seq<A>, ys: seq<A>) returns (pre: seq<A>, post: seq<A>)
    requires xs != [] && multiset(xs) <= multiset(ys)
    ensures ys == pre + ([xs[0]] + post)
    ensures multiset(xs[1..]) <= multiset(pre + post)
  {
    var x := xs[0];
    assert xs == [x] + xs[1..];
    assert x in multiset(xs) && x in multiset(ys);
    var k :| 0 <= k < |ys| && ys[k] == x;
    pre, post := ys[..k], ys[k + 1..];
    assert ys == pre + ([x] + post);
    MultisetWithout(pre, x, post);
    forall y ensures multiset(xs[1..])[y] <= multiset(pre + post)[y] {
      assert multiset(xs)[y] <= multiset(ys)[y];
      assert multiset(xs)[y] == multiset([x])[y] + multiset(xs[1..])[y];
    }
  }

  lemma {:induction false} UnderCount(key: Key, rows: seq<KeyedRow>, row: PathRow)
    ensures multiset(Under(key, rows))[row] == multiset(rows)[KeyedRow(key, row)]
  {
    if rows != [] {
      UnderCount(key, rows[1..], row);
      assert rows == [rows[0]] + rows[1..];
    }
  }

  /** More impacts file at least the same rows under every key. */
  lemma RowsGrow(ctx: Context, c1: seq<ComponentImpact>, a1: seq<AssemblyImpact>, c2: seq<ComponentImpact>,
                 a2: seq<AssemblyImpact>, key: Key)
    requires multiset(c1) <= multiset(c2) && multiset(a1) <= multiset(a2)
    ensures multiset(Under(key, AllRows(ctx, c1, a1))) <= multiset(Under(key, AllRows(ctx, c2, a2)))
  {
    FlatMapLarger(ComponentRows(ctx), c1, c2);
    FlatMapLarger(AssemblyRows(ctx), a1, a2);
    forall row
      ensures multiset(Under(key, AllRows(ctx, c1, a1)))[row] <= multiset(Under(key, AllRows(ctx, c2, a2)))[row]
    {
      UnderCount(key, AllRows(ctx, c1, a1), row);
      UnderCount(key, AllRows(ctx, c2, a2), row);
    }
  }

  ghost predicate AllRanked(rows: seq<PathRow>) {
    forall r :: r in rows ==> r.buffer.Ranked()
  }

  /** More rows never lower the count, the depth, the buffer rank or, over ranked states, the verdict. */
  lemma SummaryMonotone(xs: seq<PathRow>, ys: seq<PathRow>)
    requires xs != [] && multiset(xs) <= multiset(ys)
    ensures ys != []
    ensures Summarize(xs).pathCount <= Summarize(ys).pathCount
    ensures Summarize(xs).bucket.Rank() <= Summarize(ys).bucket.Rank()
    ensures Summarize(xs).buffer.Rank() <= Summarize(ys).buffer.Rank()
    ensures AllRanked(ys) ==> VerdictRank(Summarize(xs).verdict) <= VerdictRank(Summarize(ys).verdict)
  {
    assert xs[0] in multiset(xs) && xs[0] in multiset(ys);
    assert multiset(ys) == multiset(xs) + (multiset(ys) - multiset(xs));
    assert |multiset(xs)| == |xs| && |multiset(ys)| == |ys|;
    WorstMeaning(xs);
    WorstMeaning(ys);
    var i :| 0 <= i < |xs| && xs[i].bucket == WorstBucket(xs);
    var j :| 0 <= j < |xs| && xs[j].buffer == WorstBuffer(xs);
    assert xs[i] in multiset(xs) && xs[i] in multiset(ys) && xs[j] in multiset(xs) && xs[j] in multiset(ys);
    assert xs[i] in ys && xs[j] in ys;
    var k :| 0 <= k < |ys| && ys[k].buffer == WorstBuffer(ys);
    assert ys[k] in ys;
  }

  /** Blast radius is monotone: more impacts keep every exposed product and never soften its assessment. */
  lemma ExposureMonotone(ctx: Context, c1: seq<ComponentImpact>, a1: seq<AssemblyImpact>, c2: seq<ComponentImpact>,
                         a2: seq<AssemblyImpact>,
                         before: map<Key, ExposureItem>, after: map<Key, ExposureItem>, key: Key)
    requires multiset(c1) <= multiset(c2) && multiset(a1) <= multiset(a2)
    requires Summarizes(before, AllRows(ctx, c1, a1)) && Summarizes(after, AllRows(ctx, c2, a2))
    requires key in before
    ensures key in after
    ensures before[key].pathCount <= after[key].pathCount
    ensures before[key].bucket.Rank() <= after[key].bucket.Rank()
    ensures before[key].buffer.Rank() <= after[key].buffer.Rank()
    ensures (forall k :: k in ctx.lookup ==> ctx.lookup[k].Ranked()) ==>
              VerdictRank(before[key].verdict) <= VerdictRank(after[key].verdict)
  {
    var xs, ys := Under(key, AllRows(ctx, c1, a1)), Under(key, AllRows(ctx, c2, a2));
    RowsGrow(ctx, c1, a1, c2, a2, key);
    SummaryMonotone(xs, ys);
    if forall k :: k in ctx.lookup ==> ctx.lookup[k].Ranked() {
      forall r | r in ys ensures r.buffer.Ranked() {
        assert r in multiset(ys);
        UnderCount(key, AllRows(ctx, c2, a2), r);
        assert KeyedRow(key, r) in AllRows(ctx, c2, a2);
        RowsRanked(ctx, c2, a2, KeyedRow(key, r));
      }
    }
  }

  lemma RowsRanked(ctx: Context, components: seq<ComponentImpact>, assemblies: seq<AssemblyImpact>, r: KeyedRow)
    requires forall k :: k in ctx.lookup ==> ctx.lookup[k].Ranked()
    requires r in AllRows(ctx, components, assemblies)
    ensures r.row.buffer.Ranked()
  {
    FlatMapMember(ComponentRows(ctx), components, r);
    FlatMapMember(AssemblyRows(ctx), assemblies, r);
    if impact :| impact in components && r in ComponentRows(ctx)(impact) {
      UsesRanked(ctx, impact, UsesOf(ctx.bom, impact.component), r);
    } else {
      var impact :| impact in assemblies && r in AssemblyRows(ctx)(impact);
      RowsForRanked(ctx, impact.incident, AssemblyItem, impact.assembly,
                    UpRowsFrom(ctx.bom, impact.assembly, "all"), r);
    }
  }

  lemma {:induction false} UsesRanked(ctx: Context, impact: ComponentImpact, uses: seq<ComponentEdge>, r: KeyedRow)
    requires forall k :: k in ctx.lookup ==> ctx.lookup[k].Ranked()
    requires r in RowsOfUses(ctx, impact, uses)
    ensures r.row.buffer.Ranked()
  {
    var ups := UpRowsFrom(ctx.bom, uses[0].assembly, uses[0].props.Variant());
    if r in RowsFor(ctx, impact.incident, ComponentItem, impact.component, ups) {
      RowsForRanked(ctx, impact.incident, ComponentItem, impact.component, ups, r);
    } else {
      UsesRanked(ctx, impact, uses[1..], r);
    }
  }

  lemma {:induction false} RowsForRanked(ctx: Context, incident: Id, kind: ItemKind, item: Id, ups: seq<UpRow>,
                                         r: KeyedRow)
    requires forall k :: k in ctx.lookup ==> ctx.lookup[k].Ranked()
    requires r in RowsFor(ctx, incident, kind, item, ups)
    ensures r.row.buffer.Ranked()
  {
    if !(ups[0].product in ctx.products && r == RowFor(ctx, incident, kind, item, ups[0])) {
      RowsForRanked(ctx, incident, kind, item, ups[1..], r);
    }
  }

  // ---- exactly which buffer states keep the verdict monotone ----

  ghost predicate DrawnFrom(rows: seq<PathRow>, state: BufferState) {
    forall r :: r in rows ==> r.buffer.Ranked() || r.buffer == state
  }

  /** Next to the four ranked states, a further state keeps the verdict monotone exactly when it is one of the four. */
  lemma VerdictMonotoneIffRanked(state: BufferState)
    ensures (forall xs: seq<PathRow>, ys: seq<PathRow> ::
               xs != [] && ys != [] && multiset(xs) <= multiset(ys) && DrawnFrom(ys, state) ==>
                 VerdictRank(Summarize(xs).verdict) <= VerdictRank(Summarize(ys).verdict))
            <==> state.Ranked()
  {
    if state.Ranked() {
      forall xs: seq<PathRow>, ys: seq<PathRow> |
        xs != [] && ys != [] && multiset(xs) <= multiset(ys) && DrawnFrom(ys, state)
        ensures VerdictRank(Summarize(xs).verdict) <= VerdictRank(Summarize(ys).verdict)
      {
        SummaryMonotone(xs, ys);
      }
    } else {
      var odd, unknown := PathRow(ComponentBomPath, Direct, state), PathRow(ComponentBomPath, Direct, UnknownBuffer);
      var xs, ys := [unknown], [odd, unknown];
      assert multiset(ys) == multiset(xs) + multiset{odd};
      assert ys[..|ys| - 1] == [odd] && WorstBuffer([odd]) == state && ys[|ys| - 1] == unknown;
      assert WorstBuffer(ys) == state;
      assert Summarize(xs).verdict == Unsure && Summarize(ys).verdict == Contradict;
      assert DrawnFrom(ys, state);
    }
  }
}
