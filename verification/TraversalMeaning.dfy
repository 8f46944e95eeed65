/**
 What an expanded traversal means over graphs that conform to the configuration: where it can lead, which
 entity types it can end on, and what direction inference guarantees about that.
 */
module TraversalMeaning {
  import opened Sequences
  import opened CompactConfig

  // ---- where a traversal leads ----

  predicate Along(e: GraphEdge, d: Direction, x: string, y: string) {
    (!d.Incoming? && e.source == x && e.target == y) || (!d.Outgoing? && e.target == x && e.source == y)
  }

  ghost predicate Neighbour(g: Graph, names: seq<string>, d: Direction, x: string, y: string) {
    exists e :: e in g.edges && e.relationship in names && Along(e, d, x, y)
  }

  function NamesOf(step: ExpandedStep): seq<string> {
    match step.relationship case OneName(n) => [n] case ManyNames(ns) => ns
  }

  /** Reached by one up to n hops. Filters and predicates on a step only make this smaller. */
  ghost predicate ReachedWithin(g: Graph, names: seq<string>, d: Direction, x: string, y: string, n: nat)
    decreases n, 0
  {
    n > 0 && (Neighbour(g, names, d, x, y) || HopThen(g, names, d, x, y, n - 1))
  }

  ghost predicate HopThen(g: Graph, names: seq<string>, d: Direction, x: string, y: string, n: nat)
    decreases n, 1
  {
    exists z :: Neighbour(g, names, d, x, z) && ReachedWithin(g, names, d, z, y, n)
  }

  /** An optional step keeps the entity it started from when nothing was found. */
  ghost predicate StepReaches(g: Graph, step: ExpandedStep, x: string, y: string) {
    ReachedWithin(g, NamesOf(step), step.direction, x, y, step.Depth()) || (!step.Required() && x == y)
  }

  ghost predicate TraversalReaches(g: Graph, steps: seq<ExpandedStep>, x: string, y: string) {
    if steps == [] then x == y
    else
      var init, last := steps[..|steps| - 1], steps[|steps| - 1];
      exists z :: TraversalReaches(g, init, x, z) && StepReaches(g, last, z, y)
  }

  lemma {:induction false} ReachedTypes(index: RelIndex, g: Graph, step: ExpandedStep, x: string, y: string, n: nat)
    requires Conforms(index, g) && Resolved(index, step) && ReachedWithin(g, NamesOf(step), step.direction, x, y, n)
    ensures HasType(g, x, StartType(InfoOf(index, step), step.direction))
    ensures HasType(g, y, EndType(InfoOf(index, step), step.direction))
    decreases n
  {
    if !Neighbour(g, NamesOf(step), step.direction, x, y) {
      var z :| Neighbour(g, NamesOf(step), step.direction, x, z) &&
               ReachedWithin(g, NamesOf(step), step.direction, z, y, n - 1);
      ReachedTypes(index, g, step, z, y, n - 1);
    }
  }

  /** The types a step can end on, started from one of these: it needs a hop and a fitting start, or to be optional. */
  function StepTypes(index: RelIndex, step: ExpandedStep, before: set<string>): set<string>
    requires step.relationship.OneName? && Find(index, step.relationship.name).Some?
  {
    var info := InfoOf(index, step);
    (if StartType(info, step.direction) in before && step.Depth() > 0 then {EndType(info, step.direction)} else {}) +
    (if step.Required() then {} else before)
  }

  ghost predicate AllResolved(index: RelIndex, out: seq<ExpandedStep>) {
    forall k :: 0 <= k < |out| ==> Resolved(index, out[k])
  }

  /** The types a traversal can end on, computed from the configuration alone. */
  function PossibleTypes(index: RelIndex, anchor: string, out: seq<ExpandedStep>): set<string>
    requires AllResolved(index, out)
  {
    if out == [] then {anchor}
    else
      var init, last := out[..|out| - 1], out[|out| - 1];
      assert Resolved(index, last);
      StepTypes(index, last, PossibleTypes(index, anchor, init))
  }

  lemma {:induction false} TraversalTypes(index: RelIndex, g: Graph, anchor: string, out: seq<ExpandedStep>, x: string,
                                          y: string)
    requires Conforms(index, g) && HasType(g, x, anchor) && AllResolved(index, out)
    requires TraversalReaches(g, out, x, y)
    ensures y in g.types && g.types[y] in PossibleTypes(index, anchor, out)
    decreases |out|
  {
    if out != [] {
      var init, last := out[..|out| - 1], out[|out| - 1];
      var z :| TraversalReaches(g, init, x, z) && StepReaches(g, last, z, y);
      assert Resolved(index, last);
      TraversalTypes(index, g, anchor, init, x, z);
      if ReachedWithin(g, NamesOf(last), last.direction, z, y, last.Depth()) {
        ReachedTypes(index, g, last, z, y, last.Depth());
      }
    }
  }

  lemma InferredAllResolved(steps: seq<TraverseStep>, anchor: string, index: RelIndex)
    requires AllInferred(steps) && ExpandFrom(steps, Some(anchor), index).Ok?
    ensures |ExpandFrom(steps, Some(anchor), index).value| == |steps|
    ensures AllResolved(index, ExpandFrom(steps, Some(anchor), index).value)
  {
    var out := ExpandFrom(steps, Some(anchor), index).value;
    if steps != [] {
      HopsChain(steps, anchor, index, 0);
    }
    forall k | 0 <= k < |out| ensures Resolved(index, out[k]) {
      HopsChain(steps, anchor, index, k);
    }
  }

  /**
   Soundness of direction inference: on every conforming graph, an inferred traversal takes an entity of
   the entry type only to entities of the types it can end on; with required hops that is the one type the
   last hop lands on.
   */
  lemma InferenceSound(steps: seq<TraverseStep>, anchor: string, index: RelIndex, g: Graph, x: string, y: string)
    requires AllInferred(steps) && ExpandFrom(steps, Some(anchor), index).Ok?
    requires Conforms(index, g) && HasType(g, x, anchor)
    requires TraversalReaches(g, ExpandFrom(steps, Some(anchor), index).value, x, y)
    ensures var out := ExpandFrom(steps, Some(anchor), index).value;
            && AllResolved(index, out)
            && y in g.types && g.types[y] in PossibleTypes(index, anchor, out)
            && (steps != [] && out[|out| - 1].Required() ==> Some(g.types[y]) == LandingEntity(out[|out| - 1], index))
  {
    var out := ExpandFrom(steps, Some(anchor), index).value;
    InferredAllResolved(steps, anchor, index);
    TraversalTypes(index, g, anchor, out, x, y);
    if steps != [] {
      HopsChain(steps, anchor, index, |steps| - 1);
    }
  }

  // ---- every possible type is reached ----

  /** More edges only reach more. */
  lemma {:induction false} ReachedMonotone(g: Graph, h: Graph, names: seq<string>, d: Direction, x: string, y: string,
                                           n: nat)
    requires g.edges <= h.edges && ReachedWithin(g, names, d, x, y, n)
    ensures ReachedWithin(h, names, d, x, y, n)
    decreases n
  {
    if Neighbour(g, names, d, x, y) {
      assert Neighbour(h, names, d, x, y);
    } else {
      var z :| Neighbour(g, names, d, x, z) && ReachedWithin(g, names, d, z, y, n - 1);
      ReachedMonotone(g, h, names, d, z, y, n - 1);
      assert Neighbour(h, names, d, x, z);
    }
  }

  lemma {:induction false} TraversalMonotone(g: Graph, h: Graph, steps: seq<ExpandedStep>, x: string, y: string)
    requires g.edges <= h.edges && TraversalReaches(g, steps, x, y)
    ensures TraversalReaches(h, steps, x, y)
    decreases |steps|
  {
    if steps != [] {
      var init, last := steps[..|steps| - 1], steps[|steps| - 1];
      var z :| TraversalReaches(g, init, x, z) && StepReaches(g, last, z, y);
      TraversalMonotone(g, h, init, x, z);
      if ReachedWithin(g, NamesOf(last), last.direction, z, y, last.Depth()) {
        ReachedMonotone(g, h, NamesOf(last), last.direction, z, y, last.Depth());
      }
    }
  }

  /** The entities made up so far have shorter names than this. */
  ghost predicate NamesBelow(g: Graph, n: nat) { forall id :: id in g.types ==> |id| < n }

  /** A new entity at the far end of one hop from z. */
  lemma GraphExtended(index: RelIndex, g: Graph, z: string, step: ExpandedStep, n: nat) returns (h: Graph, y: string)
    requires Conforms(index, g) && NamesBelow(g, n) && Resolved(index, step) && step.Depth() > 0
    requires HasType(g, z, StartType(InfoOf(index, step), step.direction))
    ensures Conforms(index, h) && NamesBelow(h, n + 1) && g.edges <= h.edges
    ensures forall id :: id in g.types ==> id in h.types && h.types[id] == g.types[id]
    ensures HasType(h, y, EndType(InfoOf(index, step), step.direction)) && StepReaches(h, step, z, y)
  {
    var info := InfoOf(index, step);
    y := seq(n, _ => 'n');
    var edge := if step.direction.Outgoing? then GraphEdge(info.name, z, y) else GraphEdge(info.name, y, z);
    h := Graph(g.types[y := EndType(info, step.direction)], g.edges + {edge});
    forall e | e in h.edges ensures EdgeConforms(index, h, e) {
      assert e == edge || EdgeConforms(index, g, e);
    }
    assert edge in h.edges && Along(edge, step.direction, z, y);
    assert Neighbour(h, NamesOf(step), step.direction, z, y);
  }

  lemma {:induction false} TypeReached(index: RelIndex, anchor: string, out: seq<ExpandedStep>, t: string)
    returns (g: Graph, x: string, y: string)
    requires AllResolved(index, out) && t in PossibleTypes(index, anchor, out)
    ensures Conforms(index, g) && NamesBelow(g, |out| + 1)
    ensures HasType(g, x, anchor) && HasType(g, y, t) && TraversalReaches(g, out, x, y)
    decreases |out|
  {
    if out == [] {
      g, x, y := Graph(map["" := anchor], {}), "", "";
    } else {
      var init, last := out[..|out| - 1], out[|out| - 1];
      assert Resolved(index, last);
      var info := InfoOf(index, last);
      if !last.Required() && t in PossibleTypes(index, anchor, init) {
        g, x, y := TypeReached(index, anchor, init, t);
        assert TraversalReaches(g, init, x, y) && StepReaches(g, last, y, y);
      } else {
        var before, z;
        before, x, z := TypeReached(index, anchor, init, StartType(info, last.direction));
        g, y := GraphExtended(index, before, z, last, |out|);
        TraversalMonotone(before, g, init, x, z);
      }
    }
  }

  /** Some conforming graph takes an entity of the entry type to one of this type. */
  ghost predicate CanEnd(index: RelIndex, anchor: string, out: seq<ExpandedStep>, t: string) {
    exists g, x, y :: EndsAt(index, anchor, out, t, g, x, y)
  }

  ghost predicate EndsAt(index: RelIndex, anchor: string, out: seq<ExpandedStep>, t: string, g: Graph, x: string,
                         y: string)
  {
    Conforms(index, g) && HasType(g, x, anchor) && HasType(g, y, t) && TraversalReaches(g, out, x, y)
  }

  /** A traversal can end on exactly the possible types: each of them on some conforming graph, no other on any. */
  lemma PossibleTypesExactly(index: RelIndex, anchor: string, out: seq<ExpandedStep>, t: string)
    requires AllResolved(index, out)
    ensures CanEnd(index, anchor, out, t) <==> t in PossibleTypes(index, anchor, out)
  {
    if t in PossibleTypes(index, anchor, out) {
      var g, x, y := TypeReached(index, anchor, out, t);
      assert EndsAt(index, anchor, out, t, g, x, y);
    }
    if g, x, y :| EndsAt(index, anchor, out, t, g, x, y) {
      TraversalTypes(index, g, anchor, out, x, y);
    }
  }

  /** The traversal ends on entities of this type, on every conforming graph. */
  ghost predicate EndsOnlyOn(index: RelIndex, anchor: string, out: seq<ExpandedStep>, t: string) {
    forall other :: CanEnd(index, anchor, out, other) ==> other == t
  }

  /** An inferred traversal is certain to land on its landing type exactly when no other type is possible. */
  lemma TraversalLandsExactly(steps: seq<TraverseStep>, anchor: string, index: RelIndex)
    requires steps != [] && AllInferred(steps) && ExpandFrom(steps, Some(anchor), index).Ok?
    ensures var out := ExpandFrom(steps, Some(anchor), index).value;
            && AllResolved(index, out) && |out| == |steps|
            && var landing := EndType(InfoOf(index, out[|out| - 1]), out[|out| - 1].direction);
               && LandingEntity(out[|out| - 1], index) == Some(landing)
               && (EndsOnlyOn(index, anchor, out, landing) <==> PossibleTypes(index, anchor, out) <= {landing})
  {
    var out := ExpandFrom(steps, Some(anchor), index).value;
    InferredAllResolved(steps, anchor, index);
    assert Resolved(index, out[|out| - 1]);
    forall t ensures CanEnd(index, anchor, out, t) <==> t in PossibleTypes(index, anchor, out) {
      PossibleTypesExactly(index, anchor, out, t);
    }
  }

  // ---- steps in terms of what was written ----

  /** One edge of these relationships leads from x to y, followed forwards or backwards. */
  ghost predicate Hop(g: Graph, names: seq<string>, forwards: bool, backwards: bool, x: string, y: string) {
    exists e :: e in g.edges && e.relationship in names &&
                ((forwards && e.source == x && e.target == y) || (backwards && e.source == y && e.target == x))
  }

  /** A walk of at least one and at most n such edges. */
  ghost predicate Walks(g: Graph, names: seq<string>, forwards: bool, backwards: bool, x: string, y: string, n: nat) {
    exists w :: IsWalk(g, names, forwards, backwards, w) && 2 <= |w| <= n + 1 && w[0] == x && w[|w| - 1] == y
  }

  ghost predicate IsWalk(g: Graph, names: seq<string>, forwards: bool, backwards: bool, w: seq<string>) {
    forall k :: 0 <= k < |w| - 1 ==> Hop(g, names, forwards, backwards, w[k], w[k + 1])
  }

  lemma HopExactly(g: Graph, names: seq<string>, d: Direction, x: string, y: string)
    ensures Neighbour(g, names, d, x, y) <==> Hop(g, names, !d.Incoming?, !d.Outgoing?, x, y)
  {
    if e :| e in g.edges && e.relationship in names && Along(e, d, x, y) {
    }
    if Hop(g, names, !d.Incoming?, !d.Outgoing?, x, y) {
      var e :| e in g.edges && e.relationship in names &&
               ((!d.Incoming? && e.source == x && e.target == y) || (!d.Outgoing? && e.source == y && e.target == x));
      assert Along(e, d, x, y);
    }
  }

  lemma {:induction false} ReachedWalks(g: Graph, names: seq<string>, d: Direction, x: string, y: string, n: nat)
    requires ReachedWithin(g, names, d, x, y, n)
    ensures Walks(g, names, !d.Incoming?, !d.Outgoing?, x, y, n)
    decreases n
  {
    var f, b := !d.Incoming?, !d.Outgoing?;
    if Neighbour(g, names, d, x, y) {
      HopExactly(g, names, d, x, y);
      assert IsWalk(g, names, f, b, [x, y]);
    } else {
      var z :| Neighbour(g, names, d, x, z) && ReachedWithin(g, names, d, z, y, n - 1);
      ReachedWalks(g, names, d, z, y, n - 1);
      HopExactly(g, names, d, x, z);
      var w :| IsWalk(g, names, f, b, w) && 2 <= |w| <= n && w[0] == z && w[|w| - 1] == y;
      var v := [x] + w;
      forall k | 0 <= k < |v| - 1 ensures Hop(g, names, f, b, v[k], v[k + 1]) {
        assert k > 0 ==> Hop(g, names, f, b, w[k - 1], w[k]);
      }
      assert IsWalk(g, names, f, b, v) && v[0] == x && v[|v| - 1] == y;
    }
  }

  lemma {:induction false} WalksReached(g: Graph, names: seq<string>, d: Direction, w: seq<string>, n: nat)
    requires IsWalk(g, names, !d.Incoming?, !d.Outgoing?, w) && 2 <= |w| <= n + 1
    ensures ReachedWithin(g, names, d, w[0], w[|w| - 1], n)
    decreases |w|
  {
    assert Hop(g, names, !d.Incoming?, !d.Outgoing?, w[0], w[0 + 1]);
    HopExactly(g, names, d, w[0], w[1]);
    if |w| > 2 {
      var rest := w[1..];
      forall k | 0 <= k < |rest| - 1 ensures Hop(g, names, !d.Incoming?, !d.Outgoing?, rest[k], rest[k + 1]) {
        assert Hop(g, names, !d.Incoming?, !d.Outgoing?, w[k + 1], w[k + 1 + 1]);
      }
      WalksReached(g, names, d, rest, n - 1);
      assert HopThen(g, names, d, w[0], w[|w| - 1], n - 1);
    }
  }

  lemma ReachedExactly(g: Graph, names: seq<string>, d: Direction, x: string, y: string, n: nat)
    ensures ReachedWithin(g, names, d, x, y, n) <==> Walks(g, names, !d.Incoming?, !d.Outgoing?, x, y, n)
  {
    if ReachedWithin(g, names, d, x, y, n) {
      ReachedWalks(g, names, d, x, y, n);
    }
    if Walks(g, names, !d.Incoming?, !d.Outgoing?, x, y, n) {
      var w :| IsWalk(g, names, !d.Incoming?, !d.Outgoing?, w) && 2 <= |w| <= n + 1 && w[0] == x && w[|w| - 1] == y;
      WalksReached(g, names, d, w, n);
    }
  }

  /** The step leads along such walks, as long as `max_depth` says or one edge, and may stay if it is not required. */
  ghost predicate Leads(g: Graph, step: TraverseStep, out: ExpandedStep, forwards: bool, backwards: bool,
                        x: string, y: string)
  {
    StepReaches(g, out, x, y) <==>
      Walks(g, NamesOf(out), forwards, backwards, x, y, if step.maxDepth.Some? then step.maxDepth.value else 1) ||
      (step.required == Some(false) && x == y)
  }

  /** A written direction is one of three words, and means what it says whatever the anchor. */
  lemma WrittenDirection(step: TraverseStep, text: string, anchor: Option<string>, index: RelIndex, g: Graph,
                         x: string, y: string)
    requires step.relationship.Some? && step.direction == Some(text)
    ensures var r := ExpandTraverseStep(step, anchor, index);
            && (r.Ok? <==> text in {"outgoing", "incoming", "both"})
            && (r.Ok? ==> Leads(g, step, r.value, text in {"outgoing", "both"}, text in {"incoming", "both"}, x, y))
            && (r.Ok? && step.relationship.value.One? ==>
                  NamesOf(r.value) == [CanonicalName(step.relationship.value.ref)])
  {
    var r := ExpandTraverseStep(step, anchor, index);
    if r.Ok? {
      ReachedExactly(g, NamesOf(r.value), r.value.direction, x, y, r.value.Depth());
    }
  }

  /**
   An inferred hop between two types leads forwards from the source type and backwards from the target type;
   one on a self-reference goes where its marker points.
   */
  lemma InferredDirection(step: TraverseStep, anchor: string, index: RelIndex, g: Graph, x: string, y: string)
    requires Inferred(step) && ExpandTraverseStep(step, Some(anchor), index).Ok?
    ensures var ref, out := step.relationship.value.ref, ExpandTraverseStep(step, Some(anchor), index).value;
            && Resolved(index, out)
            && var info := InfoOf(index, out);
               && ref in {info.name, info.name + ">", info.name + "<"}
               && (info.fromEntity != info.toEntity ==>
                     anchor in {info.fromEntity, info.toEntity} &&
                     Leads(g, step, out, anchor == info.fromEntity, anchor == info.toEntity, x, y))
               && (info.fromEntity == info.toEntity ==>
                     ref != info.name &&
                     Leads(g, step, out, ref == info.name + ">", ref == info.name + "<", x, y))
  {
    var ref, out := step.relationship.value.ref, ExpandTraverseStep(step, Some(anchor), index).value;
    InferredResolves(step, anchor, index);
    ResolvesExactly(ref, anchor, index, out.relationship.name, out.direction);
    assert ref == if MarkerOf(ref).Some? then NameOf(ref) + [ref[|ref| - 1]] else NameOf(ref);
    ReachedExactly(g, NamesOf(out), out.direction, x, y, out.Depth());
  }

  // ---- what an optional step does, and what filters do ----

  /** One run of a step over the edges its filters let through: it stays only if it finds nothing at all. */
  ghost predicate StepYields(g: Graph, admitted: set<GraphEdge>, step: ExpandedStep, x: string, y: string) {
    var seen := g.(edges := admitted);
    || ReachedWithin(seen, NamesOf(step), step.direction, x, y, step.Depth())
    || (!step.Required() && x == y && !FindsAny(seen, step, x))
  }

  ghost predicate FindsAny(g: Graph, step: ExpandedStep, x: string) {
    exists z :: ReachedWithin(g, NamesOf(step), step.direction, x, z, step.Depth())
  }

  lemma NothingReached(g: Graph, names: seq<string>, d: Direction, x: string, y: string, n: nat)
    requires g.edges == {}
    ensures !ReachedWithin(g, names, d, x, y, n)
  {
  }

  /** What a step can reach is what it yields under some outcome of its filters. */
  lemma StepReachesExactly(g: Graph, step: ExpandedStep, x: string, y: string)
    ensures StepReaches(g, step, x, y) <==>
            exists admitted :: admitted <= g.edges && StepYields(g, admitted, step, x, y)
  {
    if ReachedWithin(g, NamesOf(step), step.direction, x, y, step.Depth()) {
      assert g.(edges := g.edges) == g;
      assert StepYields(g, g.edges, step, x, y);
    } else if StepReaches(g, step, x, y) {
      forall z ensures !ReachedWithin(g.(edges := {}), NamesOf(step), step.direction, x, z, step.Depth()) {
        NothingReached(g.(edges := {}), NamesOf(step), step.direction, x, z, step.Depth());
      }
      assert StepYields(g, {}, step, x, y);
    }
    if admitted :| admitted <= g.edges && StepYields(g, admitted, step, x, y) {
      if ReachedWithin(g.(edges := admitted), NamesOf(step), step.direction, x, y, step.Depth()) {
        ReachedMonotone(g.(edges := admitted), g, NamesOf(step), step.direction, x, y, step.Depth());
      }
    }
  }

  /** One hop is certain to land on its landing type exactly when it is required or goes back to its own type. */
  lemma HopLandsExactly(step: TraverseStep, anchor: string, index: RelIndex)
    requires Inferred(step) && ExpandTraverseStep(step, Some(anchor), index).Ok?
    ensures var out := ExpandTraverseStep(step, Some(anchor), index).value;
            LandsAlways(index, out, anchor) <==> out.Required() || LandingEntity(out, index) == Some(anchor)
  {
    var out := ExpandTraverseStep(step, Some(anchor), index).value;
    InferredResolves(step, anchor, index);
    if out.Required() || LandingEntity(out, index) == Some(anchor) {
      forall g, x, y | Conforms(index, g) && HasType(g, x, anchor) && StepReaches(g, out, x, y)
        ensures HasType(g, y, LandingEntity(out, index).value)
      {
        if ReachedWithin(g, NamesOf(out), out.direction, x, y, out.Depth()) {
          ReachedTypes(index, g, out, x, y, out.Depth());
        }
      }
    } else {
      var lone := Graph(map["x" := anchor], {});
      assert Conforms(index, lone) && HasType(lone, "x", anchor) && StepReaches(lone, out, "x", "x");
    }
  }

  ghost predicate LandsAlways(index: RelIndex, out: ExpandedStep, anchor: string) {
    LandingEntity(out, index).Some? &&
    forall g, x, y :: Conforms(index, g) && HasType(g, x, anchor) && StepReaches(g, out, x, y) ==>
                        HasType(g, y, LandingEntity(out, index).value)
  }

  /**
   A hop can lead anywhere at all from the anchor exactly when its direction fits the anchor. So between two
   types the inferred direction is the only one with any effect; and a marked self-reference, which is not
   checked against the anchor, is accepted even where on every conforming graph it leads nowhere.
   */
  lemma HopAliveExactly(index: RelIndex, anchor: string, step: ExpandedStep)
    requires Resolved(index, step) && step.Depth() > 0
    ensures CanLead(index, step, anchor) <==> Fits(InfoOf(index, step), anchor, step.direction)
  {
    var info := InfoOf(index, step);
    if Fits(info, anchor, step.direction) {
      var edge := GraphEdge(info.name, "source", "target");
      var g := Graph(map["source" := info.fromEntity, "target" := info.toEntity], {edge});
      var (x, y) := if step.direction.Outgoing? then ("source", "target") else ("target", "source");
      assert Conforms(index, g) && HasType(g, x, anchor);
      assert edge in g.edges && Along(edge, step.direction, x, y);
      assert Neighbour(g, NamesOf(step), step.direction, x, y);
      assert ReachedWithin(g, NamesOf(step), step.direction, x, y, step.Depth());
    }
    if g, x, y :| Conforms(index, g) && HasType(g, x, anchor) &&
                  ReachedWithin(g, NamesOf(step), step.direction, x, y, step.Depth()) {
      ReachedTypes(index, g, step, x, y, step.Depth());
    }
  }

  ghost predicate CanLead(index: RelIndex, step: ExpandedStep, anchor: string) {
    exists g, x, y :: Conforms(index, g) && HasType(g, x, anchor) &&
      ReachedWithin(g, NamesOf(step), step.direction, x, y, step.Depth())
  }

  /** An inferred hop that was accepted can lead nowhere exactly when it is a self-reference on another type. */
  lemma AcceptedHopDeadExactly(step: TraverseStep, anchor: string, index: RelIndex)
    requires Inferred(step) && ExpandTraverseStep(step, Some(anchor), index).Ok? && step.maxDepth != Some(0)
    ensures var out := ExpandTraverseStep(step, Some(anchor), index).value;
            !CanLead(index, out, anchor) <==> InfoOf(index, out).SelfRef() && InfoOf(index, out).fromEntity != anchor
  {
    var out := ExpandTraverseStep(step, Some(anchor), index).value;
    InferredResolves(step, anchor, index);
    HopAliveExactly(index, anchor, out);
  }

  ghost predicate AcceptedYetDead(step: TraverseStep, anchor: string, index: RelIndex) {
    && Inferred(step) && UniqueRelationships(index)
    && ExpandTraverseStep(step, Some(anchor), index).Ok?
    && !CanLead(index, ExpandTraverseStep(step, Some(anchor), index).value, anchor)
  }

  /** Such a hop exists: a marked self-reference on people, accepted on an asset. */
  lemma AcceptedDeadHop()
    ensures exists step, anchor, index :: AcceptedYetDead(step, anchor, index)
  {
    var info := RelInfo("r", "person", "person");
    var step := TraverseStep(Some(One("r>")), None, None, None);
    assert NameOf("r>") == "r" && MarkerOf("r>") == Some(Outgoing) && Find([info], "r") == Some(info);
    assert ResolveDirection("r>", "asset", [info]) == Ok(("r", Outgoing));
    assert ExpandTraverseStep(step, Some("asset"), [info]) == Ok(ExpandedStep(OneName("r"), Outgoing, None, None));
    AcceptedHopDeadExactly(step, "asset", [info]);
    assert AcceptedYetDead(step, "asset", [info]);
  }
}
