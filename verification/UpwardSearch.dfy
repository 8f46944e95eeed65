/**
 The breadth-first queue of the upward enumeration, proved to produce the rows of the level-by-level
 specification, and the climb that a bill of materials and a path variant give rise to.
 */
module UpwardSearch {
  import opened Sequences
  import opened Bom
  import opened Exploration
  import opened ExposurePaths

  // ---- the climb of a BOM ----

  function ChildOf(): AssemblyEdge -> Id { (e: AssemblyEdge) => e.child }
  function RootOf(): ProductEdge -> Id { (e: ProductEdge) => e.assembly }
  function AnyAssemblyEdge(): AssemblyEdge -> bool { (e: AssemblyEdge) => true }
  function AnyProductEdge(): ProductEdge -> bool { (e: ProductEdge) => true }

  function ByParent(): (AssemblyEdge, AssemblyEdge) -> bool {
    (d: AssemblyEdge, e: AssemblyEdge) => ParentAtMost(d, e)
  }

  predicate ParentAtMost(d: AssemblyEdge, e: AssemblyEdge) { TextAtMost(d.parent, e.parent) }

  /** A wildcard path climbs every edge; any other path only edges whose variant matches its own. */
  predicate Climbable(pathVariant: string, e: AssemblyEdge) {
    Wildcard(pathVariant) || VariantMatches(e.props.Variant(), pathVariant)
  }

  predicate Leavable(pathVariant: string, e: ProductEdge) {
    VariantMatches(pathVariant, e.props.Variant())
  }

  function ClimbFilter(pathVariant: string): AssemblyEdge -> bool { (e: AssemblyEdge) => Climbable(pathVariant, e) }
  function LeaveFilter(pathVariant: string): ProductEdge -> bool { (e: ProductEdge) => Leavable(pathVariant, e) }

  function ParentBucket(bom: Bom, x: Id): seq<AssemblyEdge> {
    Filter(KeyIs(ChildOf(), AnyAssemblyEdge(), x), bom.assemblies)
  }

  function ProductBucket(bom: Bom, x: Id): seq<ProductEdge> {
    Filter(KeyIs(RootOf(), AnyProductEdge(), x), bom.products)
  }

  function UpAt(bom: Bom, pathVariant: string, x: Id): seq<AssemblyEdge> {
    Filter(ClimbFilter(pathVariant), Sort(ByParent(), ParentBucket(bom, x)))
  }

  function ExitsAt(bom: Bom, pathVariant: string, x: Id): seq<ProductEdge> {
    Filter(LeaveFilter(pathVariant), ProductBucket(bom, x))
  }

  function Up(bom: Bom, pathVariant: string): Id -> seq<AssemblyEdge> { x => UpAt(bom, pathVariant, x) }

  function Exits(bom: Bom, pathVariant: string): Id -> seq<ProductEdge> { x => ExitsAt(bom, pathVariant, x) }

  function ClimbFor(bom: Bom, pathVariant: string): Climb {
    Climb(Up(bom, pathVariant), Exits(bom, pathVariant), set e | e in bom.assemblies :: e.parent)
  }

  lemma UpExact(bom: Bom, pathVariant: string, x: Id, e: AssemblyEdge)
    ensures e in UpAt(bom, pathVariant, x) <==> e in bom.assemblies && e.child == x && Climbable(pathVariant, e)
  {
    FilterMember(KeyIs(ChildOf(), AnyAssemblyEdge(), x), bom.assemblies, e);
    MultisetMembers(Sort(ByParent(), ParentBucket(bom, x)), ParentBucket(bom, x));
    FilterMember(ClimbFilter(pathVariant), Sort(ByParent(), ParentBucket(bom, x)), e);
  }

  lemma ExitsExact(bom: Bom, pathVariant: string, x: Id, e: ProductEdge)
    ensures e in ExitsAt(bom, pathVariant, x) <==> e in bom.products && e.assembly == x && Leavable(pathVariant, e)
  {
    FilterMember(KeyIs(RootOf(), AnyProductEdge(), x), bom.products, e);
    FilterMember(LeaveFilter(pathVariant), ProductBucket(bom, x), e);
  }

  lemma ClimbSound(bom: Bom, pathVariant: string)
    requires bom.Numbered()
    ensures ClimbFor(bom, pathVariant).Sound()
  {
    var c := ClimbFor(bom, pathVariant);
    forall x, e | e in c.up(x) ensures e.parent in c.targets {
      UpExact(bom, pathVariant, x, e);
    }
    forall x ensures Distinct(c.up(x)) {
      FilterDistinct(KeyIs(ChildOf(), AnyAssemblyEdge(), x), bom.assemblies);
      MultisetDistinct(ParentBucket(bom, x));
      MultisetDistinct(Sort(ByParent(), ParentBucket(bom, x)));
      FilterDistinct(ClimbFilter(pathVariant), Sort(ByParent(), ParentBucket(bom, x)));
    }
    forall x ensures Distinct(c.exits(x)) {
      FilterDistinct(KeyIs(RootOf(), AnyProductEdge(), x), bom.products);
      FilterDistinct(LeaveFilter(pathVariant), ProductBucket(bom, x));
    }
  }

  // ---- the queue ----

  /** A queue entry: the assembly reached, the assemblies visited, the depth. */
  type Entry = (Id, seq<Id>, nat)

  function EntryOf(start: Id, p: Path): Entry { (Top(start, p), Vertices(start, p), |p|) }

  function Entries(start: Id, ps: seq<Path>): (es: seq<Entry>)
    ensures |es| == |ps| && forall k :: 0 <= k < |ps| ==> es[k] == EntryOf(start, ps[k])
  {
    seq(|ps|, k requires 0 <= k < |ps| => EntryOf(start, ps[k]))
  }

  lemma {:induction false} LeaveSnoc(p: Path, es: seq<ProductEdge>, e: ProductEdge)
    ensures Leave(p, es + [e]) == Leave(p, es) + [(p, e)]
  {
    if es == [] {
      assert es + [e] == [e] && [e][1..] == [];
    } else {
      var all := es + [e];
      assert all[0] == es[0] && all[1..] == es[1..] + [e];
      LeaveSnoc(p, es[1..], e);
    }
  }

  lemma {:induction false} ExtensionsSnoc(vs: seq<Id>, p: Path, es: seq<AssemblyEdge>, e: AssemblyEdge)
    ensures Extensions(vs, p, es + [e]) == Extensions(vs, p, es) + if e.parent in vs then [] else [p + [e]]
  {
    if es == [] {
      assert es + [e] == [e] && [e][1..] == [];
    } else {
      var all := es + [e];
      assert all[0] == es[0] && all[1..] == es[1..] + [e];
      ExtensionsSnoc(vs, p, es[1..], e);
    }
  }

  method RecordProducts(start: Id, bucket: seq<ProductEdge>, pathVariant: string, path: seq<Id>, depth: nat,
                        before: seq<UpRow>, ghost p: Path) returns (rows: seq<UpRow>)
    requires path == Vertices(start, p) && depth == |p|
    ensures rows == before + DescribeAll(start, Leave(p, Filter(LeaveFilter(pathVariant), bucket)))
  {
    rows := before;
    ghost var kept: seq<ProductEdge> := [];
    assert bucket[..0] == [];
    for k := 0 to |bucket|
      invariant kept == Filter(LeaveFilter(pathVariant), bucket[..k])
      invariant rows == before + DescribeAll(start, Leave(p, kept))
    {
      var e := bucket[k];
      FilterNext(LeaveFilter(pathVariant), bucket, k);
      if VariantMatches(pathVariant, e.props.Variant()) {
        LeaveSnoc(p, kept, e);
        rows := rows + [UpRow(e.product, path, depth)];
        kept := kept + [e];
      }
    }
    assert bucket[..|bucket|] == bucket;
  }

  method PushParents(start: Id, sorted: seq<AssemblyEdge>, pathVariant: string, path: seq<Id>, depth: nat,
                     before: seq<Entry>, ghost p: Path) returns (queue: seq<Entry>)
    requires path == Vertices(start, p) && depth == |p|
    ensures queue == before + Entries(start, Extensions(path, p, Filter(ClimbFilter(pathVariant), sorted)))
  {
    queue := before;
    ghost var kept: seq<AssemblyEdge> := [];
    assert sorted[..0] == [];
    for k := 0 to |sorted|
      invariant kept == Filter(ClimbFilter(pathVariant), sorted[..k])
      invariant queue == before + Entries(start, Extensions(path, p, kept))
    {
      var e := sorted[k];
      FilterNext(ClimbFilter(pathVariant), sorted, k);
      if Wildcard(pathVariant) || VariantMatches(e.props.Variant(), pathVariant) {
        ExtensionsSnoc(path, p, kept, e);
        kept := kept + [e];
        if e.parent !in path {
          AppendInit(p, e);
          assert EntryOf(start, p + [e]) == (e.parent, path + [e.parent], depth + 1);
          queue := queue + [(e.parent, path + [e.parent], depth + 1)];
        }
      }
    }
    assert sorted[..|sorted|] == sorted;
  }

  lemma EntriesAppend(start: Id, ps: seq<Path>, qs: seq<Path>)
    ensures Entries(start, ps + qs) == Entries(start, ps) + Entries(start, qs)
  {
  }

  /** The paths finished when level n is being worked off: all shorter ones, and the first of level n. */
  function Finished(c: Climb, start: Id, n: nat, now: seq<Path>): seq<Path> {
    (if n == 0 then [] else Levels(c, start, n - 1)) + now
  }

  /** What the loop holds: level n is now + rest, the extensions of now are queued behind rest. */
  ghost predicate AtLevel(c: Climb, start: Id, n: nat, now: seq<Path>, rest: seq<Path>, queue: seq<Entry>,
                          rows: seq<UpRow>)
  {
    && now + rest == Level(c, start, n)
    && n <= c.Bound()
    && queue == Entries(start, rest + ExtendAll(c, start, now))
    && rows == DescribeAll(start, LeaveAll(c, start, Finished(c, start, n, now)))
  }

  /** Working off the first path of the level. */
  lemma AdvanceInLevel(c: Climb, start: Id, n: nat, now: seq<Path>, rest: seq<Path>, queue: seq<Entry>,
                       rows: seq<UpRow>)
    requires AtLevel(c, start, n, now, rest, queue, rows) && rest != []
    ensures var p := rest[0];
            AtLevel(c, start, n, now + [p], rest[1..],
                    queue[1..] + Entries(start, Extensions(Vertices(start, p), p, c.up(Top(start, p)))),
                    rows + DescribeAll(start, Leave(p, c.exits(Top(start, p)))))
  {
    assert now + [rest[0]] + rest[1..] == now + rest;
    AdvanceQueue(c, start, now, rest, queue);
    AdvanceRows(c, start, n, now, rest[0], rows);
  }

  lemma QueueShift<T>(rest: seq<T>, before: seq<T>, more: seq<T>)
    requires rest != []
    ensures (rest + before)[1..] + more == rest[1..] + (before + more)
  {
  }

  lemma ExtendAllSnoc(c: Climb, start: Id, ps: seq<Path>, p: Path)
    ensures ExtendAll(c, start, ps + [p]) ==
            ExtendAll(c, start, ps) + Extensions(Vertices(start, p), p, c.up(Top(start, p)))
  {
    ExtendAllAppend(c, start, ps, [p]);
    assert [p][1..] == [];
    assert ExtendAll(c, start, [p]) == Extensions(Vertices(start, p), p, c.up(Top(start, p))) + ExtendAll(c, start, []);
  }

  lemma AdvanceQueue(c: Climb, start: Id, now: seq<Path>, rest: seq<Path>, queue: seq<Entry>)
    requires rest != [] && queue == Entries(start, rest + ExtendAll(c, start, now))
    ensures var p := rest[0];
            queue[1..] + Entries(start, Extensions(Vertices(start, p), p, c.up(Top(start, p))))
            == Entries(start, rest[1..] + ExtendAll(c, start, now + [p]))
  {
    var p, before := rest[0], ExtendAll(c, start, now);
    var more := Extensions(Vertices(start, p), p, c.up(Top(start, p)));
    ExtendAllSnoc(c, start, now, p);
    EntriesAppend(start, (rest + before)[1..], more);
    QueueShift(rest, before, more);
  }

  lemma AdvanceRows(c: Climb, start: Id, n: nat, now: seq<Path>, p: Path, rows: seq<UpRow>)
    requires rows == DescribeAll(start, LeaveAll(c, start, Finished(c, start, n, now)))
    ensures rows + DescribeAll(start, Leave(p, c.exits(Top(start, p))))
            == DescribeAll(start, LeaveAll(c, start, Finished(c, start, n, now + [p])))
  {
    var done := Finished(c, start, n, now);
    var leaves := Leave(p, c.exits(Top(start, p)));
    assert Finished(c, start, n, now + [p]) == done + [p];
    LeaveAllAppend(c, start, done, [p]);
    assert [p][1..] == [];
    assert LeaveAll(c, start, [p]) == leaves + LeaveAll(c, start, []) == leaves;
  }

  /** Moving on to the next level. */
  lemma AdvanceLevel(c: Climb, start: Id, n: nat, now: seq<Path>, queue: seq<Entry>, rows: seq<UpRow>)
    requires c.Sound() && AtLevel(c, start, n, now, [], queue, rows) && queue != []
    ensures AtLevel(c, start, n + 1, [], Level(c, start, n + 1), queue, rows)
  {
    assert now + [] == now && now == Level(c, start, n);
    var next := Level(c, start, n + 1);
    assert [] + ExtendAll(c, start, now) == next;
    assert next != [];
    LevelBound(c, start, n + 1);
    assert ExtendAll(c, start, []) == [] && next + [] == next && [] + next == next;
    assert Finished(c, start, n + 1, []) == Levels(c, start, n) + [] == Finished(c, start, n, now);
  }

  lemma AtEnd(c: Climb, start: Id, n: nat, now: seq<Path>, rest: seq<Path>, rows: seq<UpRow>)
    requires AtLevel(c, start, n, now, rest, [], rows)
    ensures rows == DescribeAll(start, UpChoices(c, start))
  {
    assert rest == [];
    assert now + [] == now;
    assert [] + ExtendAll(c, start, now) == ExtendAll(c, start, now) == Level(c, start, n + 1);
    assert |Entries(start, Level(c, start, n + 1))| == 0;
    LevelsEnd(c, start, n, c.Bound());
    assert Finished(c, start, n, now) == Levels(c, start, n);
  }

  /** One iteration: record the products at the head of the queue and push its parents. */
  method Visit(start: Id, parents: map<Id, seq<AssemblyEdge>>, products: map<Id, seq<ProductEdge>>, pathVariant: string,
               before: seq<Entry>, found: seq<UpRow>, ghost c: Climb, ghost n: nat, ghost now: seq<Path>,
               ghost rest: seq<Path>)
    returns (queue: seq<Entry>, rows: seq<UpRow>)
    requires forall x :: c.up(x) == Filter(ClimbFilter(pathVariant), Sort(ByParent(), Bucket(parents, x)))
    requires forall x :: c.exits(x) == Filter(LeaveFilter(pathVariant), Bucket(products, x))
    requires AtLevel(c, start, n, now, rest, before, found) && before != [] && rest != []
    ensures AtLevel(c, start, n, now + [rest[0]], rest[1..], queue, rows)
  {
    var (assembly, path, depth) := before[0];
    ghost var p := rest[0];
    assert before[0] == EntryOf(start, p);
    AdvanceInLevel(c, start, n, now, rest, before, found);
    rows := RecordProducts(start, Bucket(products, assembly), pathVariant, path, depth, found, p);
    queue := PushParents(start, Sort(ByParent(), Bucket(parents, assembly)), pathVariant, path, depth, before[1..], p);
  }

  /** Where the loop stands next: in the same level, or at the start of the following one. */
  lemma NextPath(c: Climb, start: Id, n: nat, now: seq<Path>, rest: seq<Path>, queue: seq<Entry>, rows: seq<UpRow>)
    returns (n': nat, now': seq<Path>, rest': seq<Path>)
    requires c.Sound() && AtLevel(c, start, n, now, rest, queue, rows)
    ensures AtLevel(c, start, n', now', rest', queue, rows)
    ensures queue != [] ==> rest' != []
    ensures (n' == n && rest' == rest) || n < n' <= c.Bound()
  {
    n', now', rest' := n, now, rest;
    if rest == [] && queue != [] {
      AdvanceLevel(c, start, n, now, queue, rows);
      n', now', rest' := n + 1, [], Level(c, start, n + 1);
    }
  }

  /**
   Enumerates the products above an assembly. Terminates on every BOM: the level never exceeds the
   number of assemblies that are somebody's parent.
   */
  method AssemblyProductPaths(start: Id, parents: map<Id, seq<AssemblyEdge>>, products: map<Id, seq<ProductEdge>>,
                              pathVariant: string, ghost c: Climb) returns (rows: seq<UpRow>)
    requires c.Sound()
    requires forall x :: c.up(x) == Filter(ClimbFilter(pathVariant), Sort(ByParent(), Bucket(parents, x)))
    requires forall x :: c.exits(x) == Filter(LeaveFilter(pathVariant), Bucket(products, x))
    ensures rows == DescribeAll(start, UpChoices(c, start))
  {
    rows := [];
    var queue: seq<Entry> := [(start, [start], 0)];
    ghost var n: nat, now: seq<Path>, rest: seq<Path> := 0, [], [[]];
    while queue != []
      invariant AtLevel(c, start, n, now, rest, queue, rows)
      invariant queue != [] ==> rest != []
      decreases c.Bound() - n, |rest|, |queue|
    {
      queue, rows := Visit(start, parents, products, pathVariant, queue, rows, c, n, now, rest);
      now, rest := now + [rest[0]], rest[1..];
      n, now, rest := NextPath(c, start, n, now, rest, queue, rows);
    }
    AtEnd(c, start, n, now, rest, rows);
  }
}
