/**
 The rows of the upward enumeration in terms of the payload's own fields: which chain of edges each row
 stands for, and that every such chain has its row.
 */
module ExposureRows {
  import opened Sequences
  import opened Bom
  import opened Exploration
  import opened ExposurePaths
  import opened UpwardSearch

  /** Which edges a path that starts under this label climbs, and through which it leaves. */
  predicate ClimbsUnder(from: Option<string>, d: AssemblyEdge) {
    from in {None, Some(""), Some("all"), Some("common"), Some("*")} || LabelSuits(d.props.variant, from)
  }

  predicate LeavesUnder(from: Option<string>, e: ProductEdge) { LabelSuits(from, e.props.variant) }

  /** The row stands for this chain of parent edges and this product edge. */
  ghost predicate StandsFor(bom: Bom, from: Option<string>, start: Id, row: UpRow, chain: Path, e: ProductEdge) {
    && |row.assemblies| == |chain| + 1 && row.depth == |row.assemblies| - 1
    && row.assemblies[0] == start && Distinct(row.assemblies)
    && (forall k {:trigger chain[k]} :: 0 <= k < |chain| ==> Links(bom, from, row.assemblies, k, chain[k]))
    && e in bom.products && e.assembly == row.assemblies[|chain|] && e.product == row.product && LeavesUnder(from, e)
  }

  /** Edge d of the BOM leads from one assembly of the list to the next. */
  predicate Links(bom: Bom, from: Option<string>, assemblies: seq<Id>, k: nat, d: AssemblyEdge)
    requires k + 1 < |assemblies|
  {
    d in bom.assemblies && d.child == assemblies[k] && d.parent == assemblies[k + 1] && ClimbsUnder(from, d)
  }

  function Label(from: Option<string>): string { BomProps(None, from).Variant() }

  lemma ClimbsByLabel(bom: Bom, from: Option<string>, x: Id, d: AssemblyEdge)
    ensures d in UpAt(bom, Label(from), x) <==> d in bom.assemblies && d.child == x && ClimbsUnder(from, d)
  {
    UpExact(bom, Label(from), x, d);
    LabelsMatch(d.props, BomProps(None, from));
  }

  lemma LeavesByLabel(bom: Bom, from: Option<string>, x: Id, e: ProductEdge)
    ensures e in ExitsAt(bom, Label(from), x) <==> e in bom.products && e.assembly == x && LeavesUnder(from, e)
  {
    ExitsExact(bom, Label(from), x, e);
    LabelsMatch(BomProps(None, from), e.props);
  }

  lemma {:induction false} VerticesAt(start: Id, p: Path, k: nat)
    requires k <= |p|
    ensures |Vertices(start, p)| == |p| + 1 && Vertices(start, p)[k] == Top(start, p[..k])
    decreases |p|
  {
    VerticesSize(start, p);
    if k < |p| {
      VerticesAt(start, p[..|p| - 1], k);
      assert p[..|p| - 1][..k] == p[..k];
    } else {
      assert p[..k] == p;
    }
  }

  lemma ChainIsPath(bom: Bom, from: Option<string>, start: Id, row: UpRow, chain: Path, e: ProductEdge)
    requires row.assemblies == Vertices(start, chain) && row.depth == |chain| && row.product == e.product
    ensures StandsFor(bom, from, start, row, chain, e) <==>
            SimplePath(ClimbFor(bom, Label(from)), start, chain) && e in ExitsAt(bom, Label(from), Top(start, chain))
  {
    var c := ClimbFor(bom, Label(from));
    VerticesAt(start, chain, |chain|);
    assert chain[..|chain|] == chain;
    LeavesByLabel(bom, from, Top(start, chain), e);
    VerticesAt(start, chain, 0);
    forall k | 0 <= k < |chain|
      ensures Links(bom, from, row.assemblies, k, chain[k]) <==> chain[k] in c.up(Top(start, chain[..k]))
    {
      VerticesAt(start, chain, k);
      VerticesAt(start, chain, k + 1);
      assert chain[..k + 1][k] == chain[k];
      ClimbsByLabel(bom, from, Top(start, chain[..k]), chain[k]);
    }
  }

  /** A list of assemblies that a chain leads through is the list the chain visits. */
  lemma {:induction false} VisitedByChain(bom: Bom, from: Option<string>, start: Id, assemblies: seq<Id>, chain: Path)
    requires |assemblies| == |chain| + 1 && assemblies[0] == start
    requires forall k {:trigger chain[k]} :: 0 <= k < |chain| ==> Links(bom, from, assemblies, k, chain[k])
    ensures assemblies == Vertices(start, chain)
  {
    forall k | 0 <= k < |assemblies|
      ensures |Vertices(start, chain)| == |assemblies| && assemblies[k] == Vertices(start, chain)[k]
    {
      VerticesAt(start, chain, k);
      if k > 0 {
        assert Links(bom, from, assemblies, k - 1, chain[k - 1]) && chain[..k][k - 1] == chain[k - 1];
      }
    }
  }

  /** The rows stand, one by one, for these chains, and no chain is missing. */
  ghost predicate RowsStandFor(bom: Bom, from: Option<string>, start: Id, rows: seq<UpRow>, choices: seq<Choice>) {
    && |rows| == |choices| && Distinct(choices)
    && (forall k :: 0 <= k < |rows| ==> StandsFor(bom, from, start, rows[k], choices[k].0, choices[k].1))
    && (forall row, chain, e :: StandsFor(bom, from, start, row, chain, e) ==> (chain, e) in choices)
  }

  lemma RowsExactly(bom: Bom, from: Option<string>, start: Id)
    requires bom.Numbered()
    ensures var c := ClimbFor(bom, Label(from));
            RowsStandFor(bom, from, start, DescribeAll(start, UpChoices(c, start)), UpChoices(c, start))
  {
    var c := ClimbFor(bom, Label(from));
    var choices := UpChoices(c, start);
    var rows := DescribeAll(start, choices);
    ClimbSound(bom, Label(from));
    UpChoicesExact(c, start);
    forall k | 0 <= k < |rows| ensures StandsFor(bom, from, start, rows[k], choices[k].0, choices[k].1) {
      assert choices[k] in choices;
      ChainIsPath(bom, from, start, rows[k], choices[k].0, choices[k].1);
    }
    forall row, chain, e | StandsFor(bom, from, start, row, chain, e) ensures (chain, e) in choices {
      VisitedByChain(bom, from, start, row.assemblies, chain);
      ChainIsPath(bom, from, start, row, chain, e);
    }
  }

  /** Some chain stands behind the row. */
  ghost predicate Stands(bom: Bom, from: Option<string>, start: Id, row: UpRow) {
    exists chain, e :: StandsFor(bom, from, start, row, chain, e)
  }

  /** The rows returned are exactly those that a chain stands behind. */
  lemma RowIffChain(bom: Bom, from: Option<string>, start: Id, row: UpRow)
    requires bom.Numbered()
    ensures row in DescribeAll(start, UpChoices(ClimbFor(bom, Label(from)), start)) <==> Stands(bom, from, start, row)
  {
    var choices := UpChoices(ClimbFor(bom, Label(from)), start);
    var rows := DescribeAll(start, choices);
    RowsExactly(bom, from, start);
    if k :| 0 <= k < |rows| && rows[k] == row {
      assert StandsFor(bom, from, start, row, choices[k].0, choices[k].1);
    }
    if chain, e :| StandsFor(bom, from, start, row, chain, e) {
      var k :| 0 <= k < |choices| && choices[k] == (chain, e);
      VisitedByChain(bom, from, start, row.assemblies, chain);
      assert rows[k] == row;
    }
  }

  predicate Earlier(d: AssemblyEdge, e: AssemblyEdge) {
    TextLess(d.parent, e.parent) || (d.parent == e.parent && d.row < e.row)
  }

  function InOrder(): (AssemblyEdge, AssemblyEdge) -> bool { (d: AssemblyEdge, e: AssemblyEdge) => Earlier(d, e) }

  function InRows(): (AssemblyEdge, AssemblyEdge) -> bool { (d: AssemblyEdge, e: AssemblyEdge) => d.row < e.row }

  /** The parents of an assembly are visited in the order of their ids, parallel edges in payload order. */
  lemma ParentsInOrder(bom: Bom, from: Option<string>, x: Id, i: nat, j: nat)
    requires bom.Numbered() && i < j < |UpAt(bom, Label(from), x)|
    ensures var d, e := UpAt(bom, Label(from), x)[i], UpAt(bom, Label(from), x)[j];
            TextLess(d.parent, e.parent) || (d.parent == e.parent && d.row < e.row)
  {
    var bucket := ParentBucket(bom, x);
    FilterSorted(KeyIs(ChildOf(), AnyAssemblyEdge(), x), InRows(), bom.assemblies);
    forall m, n | 0 <= m < n < |bucket| ensures Settles(ByParent(), InOrder(), bucket[m], bucket[n]) {
      assert InRows()(bucket[m], bucket[n]);
      TextAtMostTotal(bucket[m].parent, bucket[n].parent);
    }
    EarlierTransitive();
    SortStable(ByParent(), InOrder(), bucket);
    FilterSorted(ClimbFilter(Label(from)), InOrder(), Sort(ByParent(), bucket));
    assert InOrder()(UpAt(bom, Label(from), x)[i], UpAt(bom, Label(from), x)[j]);
  }

  lemma EarlierTransitive()
    ensures TransitiveOn(InOrder())
  {
    forall d, e, f | InOrder()(d, e) && InOrder()(e, f) ensures InOrder()(d, f) {
      if TextLess(d.parent, e.parent) && TextLess(e.parent, f.parent) {
        TextLessTransitive(d.parent, e.parent, f.parent);
      }
    }
  }
}
