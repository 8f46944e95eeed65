/**
 What an exposed product's item says in terms of the impacts, the BOM's own fields and the buffer lookup.
 */
module ExposureMeaning {
  import opened Sequences
  import opened Bom
  import opened ExposurePaths
  import opened UpwardSearch
  import opened BufferCoverage
  import opened SupplierCascade
  import opened ProductExposure
  import R = ExposureRows

  // ---- one contributing path ----

  /** How deep a path is: directly below the product, one assembly further down, or more. */
  predicate DeepAs(depth: nat, bucket: DepthBucket) {
    && (bucket == Direct <==> depth == 0)
    && (bucket == Tier2 <==> depth == 1)
    && (bucket == Tier3Plus <==> depth >= 2)
  }

  /** What the lookup says of an item for a product, and unknown if it says nothing. */
  predicate BufferedAs(lookup: Lookup, kind: ItemKind, item: Id, product: Id, buffer: BufferState) {
    && ((kind, item, product) in lookup ==> buffer == lookup[(kind, item, product)])
    && ((kind, item, product) !in lookup ==> buffer == UnknownBuffer)
  }

  /** An impacted component is used in the BOM, and a chain of edges leads from that use up to the product. */
  ghost predicate ThroughComponent(ctx: Context, components: seq<ComponentImpact>, key: Key, row: PathRow,
                                   impact: ComponentImpact, use: ComponentEdge, up: UpRow)
  {
    && impact in components && impact.incident == key.0 && key.1 in ctx.products && up.product == key.1
    && use in ctx.bom.components && use.component == impact.component
    && R.Stands(ctx.bom, use.props.variant, use.assembly, up)
    && row.basis == ComponentBomPath && DeepAs(up.depth, row.bucket)
    && BufferedAs(ctx.lookup, ComponentItem, impact.component, key.1, row.buffer)
  }

  /** A chain of edges leads from an impacted assembly, climbing under any label, up to the product. */
  ghost predicate ThroughAssembly(ctx: Context, assemblies: seq<AssemblyImpact>, key: Key, row: PathRow,
                                  impact: AssemblyImpact, up: UpRow)
  {
    && impact in assemblies && impact.incident == key.0 && key.1 in ctx.products && up.product == key.1
    && R.Stands(ctx.bom, None, impact.assembly, up)
    && row.basis == DirectAssemblyBomPath && DeepAs(up.depth, row.bucket)
    && BufferedAs(ctx.lookup, AssemblyItem, impact.assembly, key.1, row.buffer)
  }

  ghost predicate ComponentEvidence(ctx: Context, components: seq<ComponentImpact>, key: Key, row: PathRow) {
    exists impact, use, up :: ThroughComponent(ctx, components, key, row, impact, use, up)
  }

  ghost predicate AssemblyEvidence(ctx: Context, assemblies: seq<AssemblyImpact>, key: Key, row: PathRow) {
    exists impact, up :: ThroughAssembly(ctx, assemblies, key, row, impact, up)
  }

  ghost predicate Evidence(ctx: Context, components: seq<ComponentImpact>, assemblies: seq<AssemblyImpact>, key: Key,
                           row: PathRow)
  {
    ComponentEvidence(ctx, components, key, row) || AssemblyEvidence(ctx, assemblies, key, row)
  }

  // ---- the recorded rows are the evidence ----

  lemma {:induction false} UnderMember(key: Key, rows: seq<KeyedRow>, row: PathRow)
    ensures row in Under(key, rows) <==> KeyedRow(key, row) in rows
  {
    if rows != [] {
      UnderMember(key, rows[1..], row);
    }
  }

  lemma {:induction false} RowsForMember(ctx: Context, incident: Id, kind: ItemKind, item: Id, ups: seq<UpRow>,
                                         r: KeyedRow)
    ensures r in RowsFor(ctx, incident, kind, item, ups) <==>
            exists up :: up in ups && up.product in ctx.products && r == RowFor(ctx, incident, kind, item, up)
  {
    if ups != [] {
      RowsForMember(ctx, incident, kind, item, ups[1..], r);
    }
  }

  lemma RowByFields(ctx: Context, incident: Id, kind: ItemKind, item: Id, up: UpRow, key: Key, row: PathRow)
    ensures KeyedRow(key, row) == RowFor(ctx, incident, kind, item, up) <==>
            && incident == key.0 && up.product == key.1 && DeepAs(up.depth, row.bucket)
            && row.basis == (if kind == ComponentItem then ComponentBomPath else DirectAssemblyBomPath)
            && BufferedAs(ctx.lookup, kind, item, key.1, row.buffer)
  {
  }

  lemma {:induction false} UsesMember(ctx: Context, impact: ComponentImpact, uses: seq<ComponentEdge>, r: KeyedRow)
    ensures r in RowsOfUses(ctx, impact, uses) <==> exists use :: use in uses && r in RowsOfUse(ctx, impact, use)
  {
    if uses != [] {
      UsesMember(ctx, impact, uses[1..], r);
    }
  }

  lemma UseMember(ctx: Context, components: seq<ComponentImpact>, impact: ComponentImpact, use: ComponentEdge, key: Key,
                  row: PathRow)
    requires ctx.bom.Numbered() && impact in components
    requires use in ctx.bom.components && use.component == impact.component
    ensures KeyedRow(key, row) in RowsOfUse(ctx, impact, use) <==>
            exists up :: ThroughComponent(ctx, components, key, row, impact, use, up)
  {
    var ups := UpRowsFrom(ctx.bom, use.assembly, use.props.Variant());
    assert R.Label(use.props.variant) == use.props.Variant();
    RowsForMember(ctx, impact.incident, ComponentItem, impact.component, ups, KeyedRow(key, row));
    forall up
      ensures ThroughComponent(ctx, components, key, row, impact, use, up) <==>
              up in ups && up.product in ctx.products &&
              KeyedRow(key, row) == RowFor(ctx, impact.incident, ComponentItem, impact.component, up)
    {
      R.RowIffChain(ctx.bom, use.props.variant, use.assembly, up);
      RowByFields(ctx, impact.incident, ComponentItem, impact.component, up, key, row);
    }
  }

  lemma ComponentMember(ctx: Context, components: seq<ComponentImpact>, impact: ComponentImpact, key: Key, row: PathRow)
    requires ctx.bom.Numbered() && impact in components
    ensures KeyedRow(key, row) in RowsOfComponent(ctx, impact) <==>
            exists use, up :: ThroughComponent(ctx, components, key, row, impact, use, up)
  {
    var uses := UsesOf(ctx.bom, impact.component);
    UsesMember(ctx, impact, uses, KeyedRow(key, row));
    forall use ensures use in uses <==> use in ctx.bom.components && use.component == impact.component {
      FilterMember(KeyIs(ComponentOf(), AnyComponentEdge(), impact.component), ctx.bom.components, use);
    }
    forall use | use in uses
      ensures KeyedRow(key, row) in RowsOfUse(ctx, impact, use) <==>
              exists up :: ThroughComponent(ctx, components, key, row, impact, use, up)
    {
      UseMember(ctx, components, impact, use, key, row);
    }
  }

  lemma AssemblyMember(ctx: Context, assemblies: seq<AssemblyImpact>, impact: AssemblyImpact, key: Key, row: PathRow)
    requires ctx.bom.Numbered() && impact in assemblies
    ensures KeyedRow(key, row) in RowsOfAssembly(ctx, impact) <==>
            exists up :: ThroughAssembly(ctx, assemblies, key, row, impact, up)
  {
    var ups := UpRowsFrom(ctx.bom, impact.assembly, "all");
    assert R.Label(None) == "all";
    RowsForMember(ctx, impact.incident, AssemblyItem, impact.assembly, ups, KeyedRow(key, row));
    forall up
      ensures ThroughAssembly(ctx, assemblies, key, row, impact, up) <==>
              up in ups && up.product in ctx.products &&
              KeyedRow(key, row) == RowFor(ctx, impact.incident, AssemblyItem, impact.assembly, up)
    {
      R.RowIffChain(ctx.bom, None, impact.assembly, up);
      RowByFields(ctx, impact.incident, AssemblyItem, impact.assembly, up, key, row);
    }
  }

  /** The rows under an incident and a product are exactly the evidence for the two. */
  lemma RowsAreEvidence(ctx: Context, components: seq<ComponentImpact>, assemblies: seq<AssemblyImpact>, key: Key,
                        row: PathRow)
    requires ctx.bom.Numbered()
    ensures row in Under(key, AllRows(ctx, components, assemblies)) <==>
            Evidence(ctx, components, assemblies, key, row)
  {
    var r := KeyedRow(key, row);
    UnderMember(key, AllRows(ctx, components, assemblies), row);
    FlatMapMember(ComponentRows(ctx), components, r);
    FlatMapMember(AssemblyRows(ctx), assemblies, r);
    forall impact | impact in components
      ensures r in ComponentRows(ctx)(impact) <==>
              exists use, up :: ThroughComponent(ctx, components, key, row, impact, use, up)
    {
      ComponentMember(ctx, components, impact, key, row);
    }
    forall impact | impact in assemblies
      ensures r in AssemblyRows(ctx)(impact) <==> exists up :: ThroughAssembly(ctx, assemblies, key, row, impact, up)
    {
      AssemblyMember(ctx, assemblies, impact, key, row);
    }
  }

  // ---- what the item says ----

  /** The item of a list of evidence: the deepest bucket, the scarcest buffer, and the verdict for that. */
  ghost predicate SaysOf(item: ExposureItem, rows: seq<PathRow>) {
    && item.pathCount == |rows|
    && (item.bucket == Tier3Plus <==> exists r :: r in rows && r.bucket == Tier3Plus)
    && (item.bucket == Direct <==> forall r :: r in rows ==> r.bucket == Direct)
    && (item.basis == ComponentBomPath <==> forall r :: r in rows ==> r.basis == ComponentBomPath)
    && (item.basis == DirectAssemblyBomPath <==> forall r :: r in rows ==> r.basis == DirectAssemblyBomPath)
    && (item.buffer == NoBuffer <==> exists r :: r in rows && r.buffer == NoBuffer)
    && (item.buffer in {NoBuffer, PartialBuffer} <==> exists r :: r in rows && r.buffer in {NoBuffer, PartialBuffer})
    && (item.buffer == SufficientBuffer <==> forall r :: r in rows ==> r.buffer == SufficientBuffer)
    && (exists r :: r in rows && r.buffer == item.buffer)
    && (item.verdict == Support <==> item.buffer in {NoBuffer, PartialBuffer})
    && (item.verdict == Unsure <==> item.buffer == UnknownBuffer)
  }

  lemma SummaryMeaning(rows: seq<PathRow>)
    requires rows != [] && forall r :: r in rows ==> r.basis in {ComponentBomPath, DirectAssemblyBomPath}
    ensures SaysOf(Summarize(rows), rows)
  {
    WorstMeaning(rows);
    BucketMeaning(rows);
    BufferMeaning(rows);
    assert forall r :: r in rows <==> exists i :: 0 <= i < |rows| && rows[i] == r;
  }

  lemma BucketMeaning(rows: seq<PathRow>)
    requires rows != []
    ensures WorstBucket(rows) == Tier3Plus <==> exists r :: r in rows && r.bucket == Tier3Plus
    ensures WorstBucket(rows) == Direct <==> forall r :: r in rows ==> r.bucket == Direct
  {
    WorstMeaning(rows);
    var i :| 0 <= i < |rows| && rows[i].bucket == WorstBucket(rows);
    assert rows[i] in rows;
    forall r | r in rows ensures r.bucket.Rank() <= WorstBucket(rows).Rank() {
      var k :| 0 <= k < |rows| && rows[k] == r;
    }
  }

  lemma BufferMeaning(rows: seq<PathRow>)
    requires rows != []
    ensures WorstBuffer(rows) == NoBuffer <==> exists r :: r in rows && r.buffer == NoBuffer
    ensures WorstBuffer(rows) in {NoBuffer, PartialBuffer} <==>
            exists r :: r in rows && r.buffer in {NoBuffer, PartialBuffer}
    ensures WorstBuffer(rows) == SufficientBuffer <==> forall r :: r in rows ==> r.buffer == SufficientBuffer
    ensures exists r :: r in rows && r.buffer == WorstBuffer(rows)
  {
    WorstMeaning(rows);
    var i :| 0 <= i < |rows| && rows[i].buffer == WorstBuffer(rows);
    assert rows[i] in rows;
    forall r | r in rows ensures r.buffer.Rank() <= WorstBuffer(rows).Rank() {
      var k :| 0 <= k < |rows| && rows[k] == r;
    }
  }

  /** The rows hold all the evidence, and nothing else. */
  ghost predicate IsEvidence(ctx: Context, components: seq<ComponentImpact>, assemblies: seq<AssemblyImpact>, key: Key,
                             rows: seq<PathRow>)
  {
    forall r :: r in rows <==> Evidence(ctx, components, assemblies, key, r)
  }

  /** An item stands for exactly the pairs of incident and product with evidence, and says what the evidence says. */
  lemma ItemsByEvidence(ctx: Context, components: seq<ComponentImpact>, assemblies: seq<AssemblyImpact>,
                        items: map<Key, ExposureItem>, key: Key)
    requires ctx.bom.Numbered() && ProductExposure.Summarizes(items, AllRows(ctx, components, assemblies))
    ensures key in items <==> exists r :: Evidence(ctx, components, assemblies, key, r)
    ensures key in items ==>
              exists rows :: IsEvidence(ctx, components, assemblies, key, rows) && SaysOf(items[key], rows)
  {
    var rows := Under(key, AllRows(ctx, components, assemblies));
    forall r ensures r in rows <==> Evidence(ctx, components, assemblies, key, r) {
      RowsAreEvidence(ctx, components, assemblies, key, r);
    }
    assert IsEvidence(ctx, components, assemblies, key, rows);
    if rows != [] {
      assert rows[0] in rows;
      SummaryMeaning(rows);
    }
  }

  // ---- how many paths it counts ----

  predicate GoesTo(p: Id, choice: Choice) { choice.1.product == p }

  function LeadsTo(p: Id): Choice -> bool { (choice: Choice) => GoesTo(p, choice) }

  /** How many chains lead from an assembly up to the product. */
  function WaysUp(bom: Bom, from: Option<string>, start: Id, p: Id): nat {
    |Filter(LeadsTo(p), UpChoices(ClimbFor(bom, R.Label(from)), start))|
  }

  /** The chains from all uses of a component among these edges. */
  function UseWays(bom: Bom, uses: seq<ComponentEdge>, c: Id, p: Id): nat {
    if uses == [] then 0
    else (if uses[0].component == c then WaysUp(bom, uses[0].props.variant, uses[0].assembly, p) else 0)
         + UseWays(bom, uses[1..], c, p)
  }

  function ComponentWays(bom: Bom, impacts: seq<ComponentImpact>, key: Key): nat {
    if impacts == [] then 0
    else (if impacts[0].incident == key.0 then UseWays(bom, bom.components, impacts[0].component, key.1) else 0)
         + ComponentWays(bom, impacts[1..], key)
  }

  function AssemblyWays(bom: Bom, impacts: seq<AssemblyImpact>, key: Key): nat {
    if impacts == [] then 0
    else (if impacts[0].incident == key.0 then WaysUp(bom, None, impacts[0].assembly, key.1) else 0)
         + AssemblyWays(bom, impacts[1..], key)
  }

  lemma {:induction false} RowsForCount(ctx: Context, incident: Id, kind: ItemKind, item: Id, start: Id,
                                        choices: seq<Choice>, key: Key)
    requires key.1 in ctx.products
    ensures |Under(key, RowsFor(ctx, incident, kind, item, DescribeAll(start, choices)))| ==
            if incident == key.0 then |Filter(LeadsTo(key.1), choices)| else 0
  {
    if choices != [] {
      var ups := DescribeAll(start, choices);
      assert ups[1..] == DescribeAll(start, choices[1..]);
      RowsForCount(ctx, incident, kind, item, start, choices[1..], key);
      var first := if ups[0].product in ctx.products then [RowFor(ctx, incident, kind, item, ups[0])] else [];
      UnderAppend(key, first, RowsFor(ctx, incident, kind, item, ups[1..]));
      assert first != [] ==> first[1..] == [];
    }
  }

  lemma {:induction false} UsesCount(ctx: Context, impact: ComponentImpact, uses: seq<ComponentEdge>, key: Key)
    requires key.1 in ctx.products
    ensures var own := Filter(KeyIs(ComponentOf(), AnyComponentEdge(), impact.component), uses);
            |Under(key, RowsOfUses(ctx, impact, own))| ==
            if impact.incident == key.0 then UseWays(ctx.bom, uses, impact.component, key.1) else 0
  {
    if uses != [] {
      var keep := KeyIs(ComponentOf(), AnyComponentEdge(), impact.component);
      var rest := Filter(keep, uses[1..]);
      UsesCount(ctx, impact, uses[1..], key);
      if uses[0].component == impact.component {
        var use := uses[0];
        assert Filter(keep, uses)[0] == use && Filter(keep, uses)[1..] == rest;
        UnderAppend(key, RowsOfUse(ctx, impact, use), RowsOfUses(ctx, impact, rest));
        RowsForCount(ctx, impact.incident, ComponentItem, impact.component, use.assembly,
                     UpChoices(ClimbFor(ctx.bom, use.props.Variant()), use.assembly), key);
      } else {
        assert Filter(keep, uses) == rest;
      }
    }
  }

  lemma {:induction false} ComponentsCount(ctx: Context, impacts: seq<ComponentImpact>, key: Key)
    requires key.1 in ctx.products
    ensures |Under(key, FlatMap(ComponentRows(ctx), impacts))| == ComponentWays(ctx.bom, impacts, key)
  {
    if impacts != [] {
      UnderAppend(key, RowsOfComponent(ctx, impacts[0]), FlatMap(ComponentRows(ctx), impacts[1..]));
      UsesCount(ctx, impacts[0], ctx.bom.components, key);
      ComponentsCount(ctx, impacts[1..], key);
    }
  }

  lemma {:induction false} AssembliesCount(ctx: Context, impacts: seq<AssemblyImpact>, key: Key)
    requires key.1 in ctx.products
    ensures |Under(key, FlatMap(AssemblyRows(ctx), impacts))| == AssemblyWays(ctx.bom, impacts, key)
  {
    if impacts != [] {
      UnderAppend(key, RowsOfAssembly(ctx, impacts[0]), FlatMap(AssemblyRows(ctx), impacts[1..]));
      RowsForCount(ctx, impacts[0].incident, AssemblyItem, impacts[0].assembly, impacts[0].assembly,
                   UpChoices(ClimbFor(ctx.bom, "all"), impacts[0].assembly), key);
      AssembliesCount(ctx, impacts[1..], key);
    }
  }

  /** An item counts every chain from every use of every impacted component, and from every impacted assembly. */
  lemma PathCountExactly(ctx: Context, components: seq<ComponentImpact>, assemblies: seq<AssemblyImpact>,
                         items: map<Key, ExposureItem>, key: Key)
    requires ctx.bom.Numbered() && ProductExposure.Summarizes(items, AllRows(ctx, components, assemblies))
    requires key in items
    ensures items[key].pathCount == ComponentWays(ctx.bom, components, key) + AssemblyWays(ctx.bom, assemblies, key)
  {
    var rows := Under(key, AllRows(ctx, components, assemblies));
    RowsAreEvidence(ctx, components, assemblies, key, rows[0]);
    UnderAppend(key, FlatMap(ComponentRows(ctx), components), FlatMap(AssemblyRows(ctx), assemblies));
    ComponentsCount(ctx, components, key);
    AssembliesCount(ctx, assemblies, key);
  }
}
