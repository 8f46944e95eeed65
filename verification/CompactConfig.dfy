/**
 The compact query compiler: a direction inferred for every traversal hop, chained from landing to landing,
 the expansion of `all_adjacent`, and what both mean over conforming graphs.
 */
module CompactConfig {
  import opened Sequences

  datatype RelInfo = RelInfo(name: string, fromEntity: string, toEntity: string) {
    predicate SelfRef() { fromEntity == toEntity }
  }

  /** The relationship dictionary in declaration order. */
  type RelIndex = seq<RelInfo>

  ghost predicate UniqueRelationships(index: RelIndex) {
    forall i, j :: 0 <= i < j < |index| ==> index[i].name != index[j].name
  }

  function Find(index: RelIndex, name: string): (found: Option<RelInfo>)
    ensures found.Some? ==> found.value in index && found.value.name == name
    ensures found.None? ==> forall info :: info in index ==> info.name != name
  {
    if index == [] then None
    else if index[0].name == name then Some(index[0])
    else Find(index[1..], name)
  }

  datatype Direction = Outgoing | Incoming | Both

  datatype Error =
    | MissingRelationship
    | BadDirection
    | ListNeedsDirection
    | LandingAmbiguous
    | UnknownRelationship
    | SelfReferenceNeedsMarker
    | NotAdjacent
    | MarkerConflict

  datatype Result<+T> = Ok(value: T) | Err(error: Error)

  /** The type at the end a hop starts from, and the type at the end it lands on. */
  function StartType(info: RelInfo, d: Direction): string { if d.Incoming? then info.toEntity else info.fromEntity }

  function EndType(info: RelInfo, d: Direction): string { if d.Incoming? then info.fromEntity else info.toEntity }

  // ---- direction inference ----

  /** A trailing '>' or '<' is a direction marker, not part of the name. */
  function MarkerOf(ref: string): Option<Direction> {
    if ref != [] && ref[|ref| - 1] == '>' then Some(Outgoing)
    else if ref != [] && ref[|ref| - 1] == '<' then Some(Incoming)
    else None
  }

  function NameOf(ref: string): string { if MarkerOf(ref).Some? then ref[..|ref| - 1] else ref }

  function ResolveDirection(ref: string, anchor: string, index: RelIndex): Result<(string, Direction)> {
    var marker, name := MarkerOf(ref), NameOf(ref);
    match Find(index, name)
    case None => Err(UnknownRelationship)
    case Some(info) =>
      if info.SelfRef() then
        if marker.None? then Err(SelfReferenceNeedsMarker) else Ok((name, marker.value))
      else if anchor == info.fromEntity || anchor == info.toEntity then
        var inferred := if anchor == info.fromEntity then Outgoing else Incoming;
        if marker.Some? && marker.value != inferred then Err(MarkerConflict) else Ok((name, inferred))
      else Err(NotAdjacent)
  }

  /** d is a direction in which the relationship can leave an entity of this type. */
  predicate Fits(info: RelInfo, anchor: string, d: Direction) { !d.Both? && StartType(info, d) == anchor }

  /**
   Inference succeeds exactly when one direction remains: for an edge between two types, the one that fits
   the anchor and agrees with the marker if there is one; for a self-reference, the marked one.
   */
  lemma ResolvesExactly(ref: string, anchor: string, index: RelIndex, name: string, d: Direction)
    ensures ResolveDirection(ref, anchor, index) == Ok((name, d)) <==>
            && name == NameOf(ref)
            && Find(index, name).Some?
            && (var info := Find(index, name).value;
                if info.SelfRef() then MarkerOf(ref) == Some(d)
                else Fits(info, anchor, d) && MarkerOf(ref) in {None, Some(d)})
  {
  }

  /** And each of the four ways to fail means what its name says; an unknown name is noticed first. */
  lemma RejectsExactly(ref: string, anchor: string, index: RelIndex)
    ensures var r, name := ResolveDirection(ref, anchor, index), NameOf(ref);
            && (r == Err(UnknownRelationship) <==> forall info :: info in index ==> info.name != name)
            && (Find(index, name).Some? ==>
                  var info := Find(index, name).value;
                  && (r == Err(SelfReferenceNeedsMarker) <==> info.fromEntity == info.toEntity && ref == name)
                  && (r == Err(NotAdjacent) <==>
                        info.fromEntity != info.toEntity && anchor !in {info.fromEntity, info.toEntity})
                  && (r == Err(MarkerConflict) <==>
                        info.fromEntity != info.toEntity &&
                        ((anchor == info.fromEntity && ref == name + "<") ||
                         (anchor == info.toEntity && ref == name + ">"))))
  {
    assert ref == if MarkerOf(ref).Some? then NameOf(ref) + [ref[|ref| - 1]] else NameOf(ref) by {
      assert ref != [] ==> ref == ref[..|ref| - 1] + [ref[|ref| - 1]];
    }
  }

  /** Between two different types the inferred direction is the only one that fits. */
  lemma InferredIsUnique(ref: string, anchor: string, index: RelIndex, d: Direction)
    requires ResolveDirection(ref, anchor, index).Ok?
    requires !Find(index, NameOf(ref)).value.SelfRef()
    ensures Fits(Find(index, NameOf(ref)).value, anchor, d) <==> d == ResolveDirection(ref, anchor, index).value.1
  {
    var resolved := ResolveDirection(ref, anchor, index).value;
    ResolvesExactly(ref, anchor, index, resolved.0, resolved.1);
  }

  // ---- traversal steps ----

  datatype RelRef = One(ref: string) | Many(refs: seq<string>)

  datatype TraverseStep = TraverseStep(relationship: Option<RelRef>, direction: Option<string>,
                                       maxDepth: Option<nat>, required: Option<bool>)

  datatype RelNames = OneName(name: string) | ManyNames(names: seq<string>)

  datatype ExpandedStep = ExpandedStep(relationship: RelNames, direction: Direction, maxDepth: Option<nat>,
                                       required: Option<bool>) {
    /** The schema's defaults: one hop, and required. */
    function Depth(): nat { if maxDepth.Some? then maxDepth.value else 1 }
    predicate Required() { required != Some(false) }
  }

  /** All trailing markers go, and the relationship may be defined elsewhere. */
  function CanonicalName(ref: string): string
    decreases |ref|
  {
    if MarkerOf(ref).Some? then CanonicalName(ref[..|ref| - 1]) else ref
  }

  /** What is cut off are markers only, and none is left. */
  lemma {:induction false} CanonicalExactly(ref: string)
    ensures CanonicalName(ref) <= ref
    ensures forall k :: |CanonicalName(ref)| <= k < |ref| ==> ref[k] in {'>', '<'}
    ensures CanonicalName(ref) != [] ==> CanonicalName(ref)[|CanonicalName(ref)| - 1] !in {'>', '<'}
    decreases |ref|
  {
    if MarkerOf(ref).Some? {
      CanonicalExactly(ref[..|ref| - 1]);
    }
  }

  function CanonicalNames(refs: seq<string>): seq<string> {
    seq(|refs|, k requires 0 <= k < |refs| => CanonicalNameAt(refs, k))
  }

  function CanonicalNameAt(refs: seq<string>, k: nat): string
    requires k < |refs|
  {
    CanonicalName(refs[k])
  }

  function ParseDirection(text: string): Option<Direction> {
    if text == "outgoing" then Some(Outgoing)
    else if text == "incoming" then Some(Incoming)
    else if text == "both" then Some(Both)
    else None
  }

  function ExpandTraverseStep(step: TraverseStep, anchor: Option<string>, index: RelIndex): Result<ExpandedStep> {
    if step.relationship.None? then Err(MissingRelationship)
    else if step.direction.Some? && ParseDirection(step.direction.value).None? then Err(BadDirection)
    else
      match (step.relationship.value, step.direction)
      case (Many(_), None) => Err(ListNeedsDirection)
      case (Many(refs), Some(text)) =>
        Ok(ExpandedStep(ManyNames(CanonicalNames(refs)), ParseDirection(text).value, step.maxDepth, step.required))
      case (One(ref), Some(text)) =>
        Ok(ExpandedStep(OneName(CanonicalName(ref)), ParseDirection(text).value, step.maxDepth, step.required))
      case (One(ref), None) =>
        if anchor.None? || anchor.value == "" then Err(LandingAmbiguous)
        else
          match ResolveDirection(ref, anchor.value, index)
          case Err(e) => Err(e)
          case Ok((name, d)) => Ok(ExpandedStep(OneName(name), d, step.maxDepth, step.required))
  }

  /** Why a step is rejected before its direction is inferred, the first reason that applies. */
  lemma StepRejectsExactly(step: TraverseStep, anchor: Option<string>, index: RelIndex)
    ensures var r := ExpandTraverseStep(step, anchor, index);
            && (r == Err(MissingRelationship) <==> step.relationship.None?)
            && (r == Err(BadDirection) <==>
                  step.relationship.Some? && step.direction.Some? &&
                  step.direction.value !in {"outgoing", "incoming", "both"})
            && (r == Err(ListNeedsDirection) <==>
                  step.relationship.Some? && step.relationship.value.Many? && step.direction.None?)
            && (r == Err(LandingAmbiguous) <==>
                  step.relationship.Some? && step.relationship.value.One? && step.direction.None? &&
                  anchor in {None, Some("")})
  {
  }

  function LandingEntity(step: ExpandedStep, index: RelIndex): Option<string> {
    if step.relationship.ManyNames? then None
    else
      match Find(index, step.relationship.name)
      case None => None
      case Some(info) => if step.direction.Both? then None else Some(EndType(info, step.direction))
  }

  /** Expanding from a given anchor: each hop anchors on the landing of the one before. */
  function ExpandFrom(steps: seq<TraverseStep>, anchor: Option<string>, index: RelIndex): Result<seq<ExpandedStep>>
    decreases |steps|
  {
    if steps == [] then Ok([])
    else
      match ExpandTraverseStep(steps[0], anchor, index)
      case Err(e) => Err(e)
      case Ok(first) =>
        match ExpandFrom(steps[1..], LandingEntity(first, index), index)
        case Err(e) => Err(e)
        case Ok(rest) => Ok([first] + rest)
  }

  function Then(done: seq<ExpandedStep>, next: Result<ExpandedStep>): Result<seq<ExpandedStep>> {
    match next
    case Err(e) => Err(e)
    case Ok(step) => Ok(done + [step])
  }

  lemma {:induction false} ExpandSnoc(steps: seq<TraverseStep>, k: nat, anchor: Option<string>, index: RelIndex)
    requires k < |steps|
    requires ExpandFrom(steps[..k], anchor, index).Ok?
    ensures var done := ExpandFrom(steps[..k], anchor, index).value;
            && |done| == k
            && ExpandFrom(steps[..k + 1], anchor, index) ==
               Then(done,
                    ExpandTraverseStep(steps[k], if k == 0 then anchor else LandingEntity(done[k - 1], index), index))
    decreases |steps|
  {
    if k == 0 {
      assert steps[..1][0] == steps[0] && steps[..1][1..] == [];
      if ExpandTraverseStep(steps[0], anchor, index).Ok? {
        var first := ExpandTraverseStep(steps[0], anchor, index).value;
        assert ExpandFrom([], LandingEntity(first, index), index) == Ok([]);
        assert [first] + [] == [] + [first];
      }
    } else {
      assert steps[..k][1..] == steps[1..][..k - 1] && steps[..k + 1][1..] == steps[1..][..k];
      var first := ExpandTraverseStep(steps[0], anchor, index).value;
      ExpandSnoc(steps[1..], k - 1, LandingEntity(first, index), index);
      var rest := ExpandFrom(steps[1..][..k - 1], LandingEntity(first, index), index).value;
      assert ExpandFrom(steps[..k], anchor, index).value == [first] + rest;
      if ExpandTraverseStep(steps[k], LandingEntity(([first] + rest)[k - 1], index), index).Ok? {
        var next := ExpandTraverseStep(steps[k], LandingEntity(([first] + rest)[k - 1], index), index).value;
        assert [first] + (rest + [next]) == ([first] + rest) + [next];
      }
    }
  }

  lemma {:induction false} ExpandFailsEarly(steps: seq<TraverseStep>, k: nat, anchor: Option<string>, index: RelIndex)
    requires k <= |steps| && ExpandFrom(steps[..k], anchor, index).Err?
    ensures ExpandFrom(steps, anchor, index) == ExpandFrom(steps[..k], anchor, index)
    decreases |steps|
  {
    assert k > 0;
    assert steps[..k][1..] == steps[1..][..k - 1];
    if ExpandTraverseStep(steps[0], anchor, index).Ok? {
      ExpandFailsEarly(steps[1..], k - 1, LandingEntity(ExpandTraverseStep(steps[0], anchor, index).value, index),
                       index);
    }
  }

  /** The hop loop of the query expansion, carrying the anchor along. */
  method ExpandTraversal(steps: seq<TraverseStep>, anchor: Option<string>, index: RelIndex)
    returns (r: Result<seq<ExpandedStep>>)
    ensures r == ExpandFrom(steps, anchor, index)
  {
    var expanded: seq<ExpandedStep> := [];
    var hopAnchor := anchor;
    for k := 0 to |steps|
      invariant ExpandFrom(steps[..k], anchor, index) == Ok(expanded) && |expanded| == k
      invariant hopAnchor == if k == 0 then anchor else LandingEntity(expanded[k - 1], index)
    {
      ExpandSnoc(steps, k, anchor, index);
      var step := ExpandTraverseStep(steps[k], hopAnchor, index);
      if step.Err? {
        ExpandFailsEarly(steps, k + 1, anchor, index);
        return Err(step.error);
      }
      expanded := expanded + [step.value];
      hopAnchor := LandingEntity(step.value, index);
    }
    assert steps[..|steps|] == steps;
    return Ok(expanded);
  }

  // ---- graphs ----

  datatype GraphEdge = GraphEdge(relationship: string, source: string, target: string)

  /** Entities by id with their types, and edges. */
  datatype Graph = Graph(types: map<string, string>, edges: set<GraphEdge>)

  ghost predicate EdgeConforms(index: RelIndex, g: Graph, e: GraphEdge) {
    match Find(index, e.relationship)
    case None => true
    case Some(info) =>
      && e.source in g.types && g.types[e.source] == info.fromEntity
      && e.target in g.types && g.types[e.target] == info.toEntity
  }

  ghost predicate Conforms(index: RelIndex, g: Graph) {
    forall e :: e in g.edges ==> EdgeConforms(index, g, e)
  }

  ghost predicate HasType(g: Graph, x: string, t: string) { x in g.types && g.types[x] == t }

  // ---- inferred traversals ----

  /** Every hop names one relationship and leaves the direction to be inferred. */
  predicate AllInferred(steps: seq<TraverseStep>) {
    forall k :: 0 <= k < |steps| ==> Inferred(steps[k])
  }

  predicate Inferred(step: TraverseStep) {
    step.relationship.Some? && step.relationship.value.One? && step.direction.None?
  }

  /** What an inferred hop looks like once expanded. */
  ghost predicate Resolved(index: RelIndex, step: ExpandedStep) {
    step.relationship.OneName? && Find(index, step.relationship.name).Some? && !step.direction.Both?
  }

  function InfoOf(index: RelIndex, step: ExpandedStep): RelInfo
    requires step.relationship.OneName? && Find(index, step.relationship.name).Some?
  {
    Find(index, step.relationship.name).value
  }

  lemma InferredResolves(step: TraverseStep, anchor: string, index: RelIndex)
    requires Inferred(step) && ExpandTraverseStep(step, Some(anchor), index).Ok?
    ensures var out := ExpandTraverseStep(step, Some(anchor), index).value;
            && Resolved(index, out)
            && LandingEntity(out, index) == Some(EndType(InfoOf(index, out), out.direction))
            && (InfoOf(index, out).SelfRef() || StartType(InfoOf(index, out), out.direction) == anchor)
            && out.required == step.required
  {
    var (name, d) := ResolveDirection(step.relationship.value.ref, anchor, index).value;
    ResolvesExactly(step.relationship.value.ref, anchor, index, name, d);
  }

  function AnchorAt(index: RelIndex, anchor: string, out: seq<ExpandedStep>, k: nat): Option<string>
    requires k <= |out|
  {
    if k == 0 then Some(anchor) else LandingEntity(out[k - 1], index)
  }

  /**
   Along a whole inferred traversal every hop starts at the type the previous one landed on, unless it is
   a marked self-reference.
   */
  lemma {:induction false} HopsChain(steps: seq<TraverseStep>, anchor: string, index: RelIndex, k: nat)
    requires AllInferred(steps) && ExpandFrom(steps, Some(anchor), index).Ok? && k < |steps|
    ensures var out := ExpandFrom(steps, Some(anchor), index).value;
            && |out| == |steps|
            && Resolved(index, out[k])
            && AnchorAt(index, anchor, out, k).Some?
            && (InfoOf(index, out[k]).SelfRef() ||
                StartType(InfoOf(index, out[k]), out[k].direction) == AnchorAt(index, anchor, out, k).value)
    decreases |steps|
  {
    var first := ExpandTraverseStep(steps[0], Some(anchor), index).value;
    assert Inferred(steps[0]);
    InferredResolves(steps[0], anchor, index);
    var landing := LandingEntity(first, index).value;
    var rest := ExpandFrom(steps[1..], Some(landing), index).value;
    var out := [first] + rest;
    assert ExpandFrom(steps, Some(anchor), index).value == out;
    assert forall i :: 0 <= i < |steps[1..]| ==> steps[1..][i] == steps[i + 1];
    if |steps| > 1 {
      HopsChain(steps[1..], landing, index, if k == 0 then 0 else k - 1);
    } else {
      assert rest == [];
    }
    if k > 0 {
      assert out[k] == rest[k - 1];
      assert AnchorAt(index, anchor, out, k) == AnchorAt(index, landing, rest, k - 1);
    }
  }

  // ---- all_adjacent ----

  datatype Include = Include(relationship: string, direction: Direction)

  type Includes = map<string, Include>

  function KeyFor(info: RelInfo, d: Direction): string {
    if !info.SelfRef() then info.name
    else info.name + (if d.Outgoing? then "_out" else "_in")
  }

  predicate TouchesAnchor(info: RelInfo, anchor: string) { anchor == info.fromEntity || anchor == info.toEntity }

  /** What one relationship adds to the entries collected so far. */
  function AddAdjacent(includes: Includes, info: RelInfo, anchor: string): Includes {
    if !TouchesAnchor(info, anchor) then includes
    else if info.SelfRef() then
      includes[info.name + "_out" := Include(info.name, Outgoing)][info.name + "_in" := Include(info.name, Incoming)]
    else includes[info.name := Include(info.name, if anchor == info.fromEntity then Outgoing else Incoming)]
  }

  function Adjacent(anchor: string, index: RelIndex): Includes {
    if index == [] then map[] else AddAdjacent(Adjacent(anchor, index[..|index| - 1]), index[|index| - 1], anchor)
  }

  method AllAdjacentIncludes(anchor: string, index: RelIndex) returns (includes: Includes)
    ensures includes == Adjacent(anchor, index)
  {
    includes := map[];
    for k := 0 to |index|
      invariant includes == Adjacent(anchor, index[..k])
    {
      var info := index[k];
      assert index[..k + 1][..k] == index[..k];
      if anchor != info.fromEntity && anchor != info.toEntity {
        continue;
      }
      if info.SelfRef() {
        includes := includes[info.name + "_out" := Include(info.name, Outgoing)];
        includes := includes[info.name + "_in" := Include(info.name, Incoming)];
      } else {
        includes := includes[info.name := Include(info.name, if anchor == info.fromEntity then Outgoing else Incoming)];
      }
    }
    assert index[..|index|] == index;
  }

  /** The entries for a merged set of relationships are the union of the entries for its parts. */
  lemma {:induction false} AdjacentUnion(anchor: string, base: RelIndex, overlay: RelIndex)
    ensures Adjacent(anchor, base + overlay) == Adjacent(anchor, base) + Adjacent(anchor, overlay)
    decreases |overlay|
  {
    if overlay == [] {
      assert base + overlay == base;
      assert Adjacent(anchor, base) + map[] == Adjacent(anchor, base);
    } else {
      var init, last := overlay[..|overlay| - 1], overlay[|overlay| - 1];
      assert (base + overlay)[..|base + overlay| - 1] == base + init;
      AdjacentUnion(anchor, base, init);
    }
  }

  /** Two adjacent relationships are filed under one key. */
  ghost predicate Collides(anchor: string, index: RelIndex) {
    exists i, j, d, d' ::
      && 0 <= i < |index| && 0 <= j < |index| && i != j
      && Fits(index[i], anchor, d) && Fits(index[j], anchor, d') && KeyFor(index[i], d) == KeyFor(index[j], d')
  }

  /** A self-reference and a relationship with the name of one of its keys, both touching the anchor. */
  predicate Clash(anchor: string, r: RelInfo, q: RelInfo) {
    && r.SelfRef() && !q.SelfRef() && TouchesAnchor(r, anchor) && TouchesAnchor(q, anchor)
    && (q.name == r.name + "_out" || q.name == r.name + "_in")
  }

  lemma CollisionIsClash(anchor: string, index: RelIndex, i: nat, j: nat, d: Direction, d': Direction)
    requires UniqueRelationships(index) && i < |index| && j < |index| && i != j
    requires Fits(index[i], anchor, d) && Fits(index[j], anchor, d') && KeyFor(index[i], d) == KeyFor(index[j], d')
    ensures Clash(anchor, index[i], index[j]) || Clash(anchor, index[j], index[i])
  {
    assert index[i].name != index[j].name;
    if index[i].SelfRef() == index[j].SelfRef() {
      KeysDiffer(index[i], d, index[j], d');
    }
  }

  lemma ClashCollides(anchor: string, index: RelIndex, r: RelInfo, q: RelInfo)
    requires r in index && q in index && Clash(anchor, r, q)
    ensures Collides(anchor, index)
  {
    var i :| 0 <= i < |index| && index[i] == r;
    var j :| 0 <= j < |index| && index[j] == q;
    var d := if q.name == r.name + "_out" then Outgoing else Incoming;
    var d' := if anchor == q.fromEntity then Outgoing else Incoming;
    assert Fits(index[i], anchor, d) && Fits(index[j], anchor, d') && KeyFor(index[i], d) == KeyFor(index[j], d');
  }

  /** A key collision is a relationship literally named after a self-reference's generated key. */
  lemma CollidesExactly(anchor: string, index: RelIndex)
    requires UniqueRelationships(index)
    ensures Collides(anchor, index) <==> exists r, q :: r in index && q in index && Clash(anchor, r, q)
  {
    if i, j, d, d' :| 0 <= i < |index| && 0 <= j < |index| && i != j
                      && Fits(index[i], anchor, d) && Fits(index[j], anchor, d') &&
                        KeyFor(index[i], d) == KeyFor(index[j], d') {
      CollisionIsClash(anchor, index, i, j, d, d');
      assert index[i] in index && index[j] in index;
    }
    if r, q :| r in index && q in index && Clash(anchor, r, q) {
      ClashCollides(anchor, index, r, q);
    }
  }

  lemma KeysDiffer(r: RelInfo, d: Direction, q: RelInfo, d': Direction)
    requires r.SelfRef() == q.SelfRef() && KeyFor(r, d) == KeyFor(q, d')
    ensures r.name == q.name
    ensures r.SelfRef() ==> d.Outgoing? == d'.Outgoing?
  {
    if r.SelfRef() {
      var a, b := KeyFor(r, d), KeyFor(q, d');
      assert a[|a| - 1] == b[|b| - 1];
      assert a[..|r.name|] == r.name && b[..|q.name|] == q.name;
    }
  }

  /** Every entry is that of an adjacent relationship, in a direction that fits, under its own key. */
  lemma {:induction false} EntriesFit(anchor: string, index: RelIndex, key: string)
    requires key in Adjacent(anchor, index)
    ensures exists info, d ::
              info in index && Fits(info, anchor, d) && key == KeyFor(info, d) &&
              Adjacent(anchor, index)[key] == Include(info.name, d)
  {
    var init, last := index[..|index| - 1], index[|index| - 1];
    assert last in index;
    if key in Adjacent(anchor, init) && Adjacent(anchor, index)[key] == Adjacent(anchor, init)[key] {
      EntriesFit(anchor, init, key);
    } else {
      var d := Adjacent(anchor, index)[key].direction;
      assert Fits(last, anchor, d) && key == KeyFor(last, d);
    }
  }

  lemma {:induction false} FittingEntered(anchor: string, index: RelIndex, i: nat, d: Direction)
    requires !Collides(anchor, index) && i < |index| && Fits(index[i], anchor, d)
    ensures KeyFor(index[i], d) in Adjacent(anchor, index)
    ensures Adjacent(anchor, index)[KeyFor(index[i], d)] == Include(index[i].name, d)
  {
    var n := |index| - 1;
    var init, last := index[..n], index[n];
    if i == n {
      if last.SelfRef() && KeyFor(last, Outgoing) == KeyFor(last, Incoming) {
        KeysDiffer(last, Outgoing, last, Incoming);
      }
    } else {
      FittingEntered(anchor, init, i, d);
      forall d' | Fits(last, anchor, d') ensures KeyFor(last, d') != KeyFor(index[i], d) {}
      if TouchesAnchor(last, anchor) {
        assert last.SelfRef() ==> Fits(last, anchor, Outgoing) && Fits(last, anchor, Incoming);
        assert !last.SelfRef() ==> Fits(last, anchor, if anchor == last.fromEntity then Outgoing else Incoming);
      }
    }
  }

  /** The entries that follow edges of a relationship in a direction. */
  function Followers(includes: Includes, name: string, d: Direction): set<string> {
    set key | key in includes && includes[key] == Include(name, d)
  }

  lemma FollowersOf(anchor: string, index: RelIndex, i: nat, d: Direction)
    requires UniqueRelationships(index) && i < |index|
    ensures Followers(Adjacent(anchor, index), index[i].name, d) <=
            (if Fits(index[i], anchor, d) then {KeyFor(index[i], d)} else {})
  {
    forall key | key in Followers(Adjacent(anchor, index), index[i].name, d)
      ensures Fits(index[i], anchor, d) && key == KeyFor(index[i], d)
    {
      EntriesFit(anchor, index, key);
      var info, d' :| info in index && Fits(info, anchor, d') && key == KeyFor(info, d') &&
                      Adjacent(anchor, index)[key] == Include(info.name, d');
      var k :| 0 <= k < |index| && index[k] == info;
    }
  }

  /**
   Each relationship is followed by exactly one entry in each direction it can leave the anchor, and by none
   otherwise.
   */
  ghost predicate CompleteAndExact(anchor: string, index: RelIndex) {
    forall i, d :: 0 <= i < |index| ==>
      |Followers(Adjacent(anchor, index), index[i].name, d)| == if Fits(index[i], anchor, d) then 1 else 0
  }

  /** `all_adjacent` is complete and exact precisely when no generated key is also a relationship's name. */
  lemma CompleteIffNoCollision(anchor: string, index: RelIndex)
    requires UniqueRelationships(index)
    ensures CompleteAndExact(anchor, index) <==> !Collides(anchor, index)
  {
    var includes := Adjacent(anchor, index);
    if !Collides(anchor, index) {
      forall i, d | 0 <= i < |index|
        ensures |Followers(includes, index[i].name, d)| == if Fits(index[i], anchor, d) then 1 else 0
      {
        FollowersOf(anchor, index, i, d);
        if Fits(index[i], anchor, d) {
          FittingEntered(anchor, index, i, d);
          assert Followers(includes, index[i].name, d) == {KeyFor(index[i], d)};
        }
      }
    }
    if CompleteAndExact(anchor, index) {
      forall i, j, d, d' | 0 <= i < |index| && 0 <= j < |index| && i != j && Fits(index[i], anchor, d) &&
        Fits(index[j], anchor, d')
        ensures KeyFor(index[i], d) != KeyFor(index[j], d')
      {
        FollowerKey(anchor, index, i, d);
        FollowerKey(anchor, index, j, d');
      }
    }
  }

  lemma FollowerKey(anchor: string, index: RelIndex, i: nat, d: Direction)
    requires UniqueRelationships(index) && CompleteAndExact(anchor, index) && i < |index| && Fits(index[i], anchor, d)
    ensures KeyFor(index[i], d) in Adjacent(anchor, index)
    ensures Adjacent(anchor, index)[KeyFor(index[i], d)] == Include(index[i].name, d)
  {
    FollowersOf(anchor, index, i, d);
    var followers := Followers(Adjacent(anchor, index), index[i].name, d);
    assert |followers| == 1;
    var key :| key in followers;
    assert key == KeyFor(index[i], d);
  }

  /** The entity at the end of an edge from which it is followed in direction d. */
  function EndFor(e: GraphEdge, d: Direction): string { if d.Incoming? then e.target else e.source }

  /**
   On every conforming graph, each incidence of an edge with an anchor-typed entity, both ends of a
   self-reference counted, is followed by exactly one entry, and no entry follows any other incidence.
   */
  lemma IncidencesFollowedOnce(anchor: string, index: RelIndex, g: Graph, e: GraphEdge, d: Direction)
    requires UniqueRelationships(index) && !Collides(anchor, index) && Conforms(index, g)
    requires e in g.edges && Find(index, e.relationship).Some? && !d.Both?
    ensures |Followers(Adjacent(anchor, index), e.relationship, d)| == if HasType(g, EndFor(e, d), anchor) then 1 else 0
  {
    var info := Find(index, e.relationship).value;
    var i :| 0 <= i < |index| && index[i] == info;
    CompleteIffNoCollision(anchor, index);
    assert EdgeConforms(index, g, e);
  }

  /**
   Without a clash of names the entries read: a relationship of the anchor with another type under its own
   name, out of the anchor or into it, and a self-reference of the anchor twice, as `_out` and as `_in`.
   */
  lemma EntriesSpelled(anchor: string, index: RelIndex, r: RelInfo)
    requires UniqueRelationships(index) && r in index
    requires !exists s, q :: s in index && q in index && Clash(anchor, s, q)
    ensures var includes := Adjacent(anchor, index);
            && (r.fromEntity == anchor && r.toEntity == anchor ==>
                  && r.name + "_out" in includes && includes[r.name + "_out"] == Include(r.name, Outgoing)
                  && r.name + "_in" in includes && includes[r.name + "_in"] == Include(r.name, Incoming))
            && (r.fromEntity == anchor && r.toEntity != anchor ==>
                  r.name in includes && includes[r.name] == Include(r.name, Outgoing))
            && (r.fromEntity != anchor && r.toEntity == anchor ==>
                  r.name in includes && includes[r.name] == Include(r.name, Incoming))
  {
    CollidesExactly(anchor, index);
    var i :| 0 <= i < |index| && index[i] == r;
    if r.fromEntity == anchor {
      FittingEntered(anchor, index, i, Outgoing);
    }
    if r.toEntity == anchor {
      FittingEntered(anchor, index, i, Incoming);
    }
  }

  /** With a collision an edge is lost: here the relationship declared first under the key `r_out`. */
  lemma CollisionLosesEdges()
    ensures exists anchor, index :: UniqueRelationships(index) && !CompleteAndExact(anchor, index)
  {
    var r, q := RelInfo("r", "a", "a"), RelInfo("r_out", "a", "b");
    var index := [q, r];
    assert r in index && q in index && q.name == r.name + "_out";
    ClashCollides("a", index, r, q);
    CompleteIffNoCollision("a", index);
  }
}
