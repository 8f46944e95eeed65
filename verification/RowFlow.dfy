/**
 Which row shapes a provider call has to deliver: one forward pass over a workflow's steps carries each
 call along the aliases its rows flow through, and hands it the shape of every make step they end in.
 */
module RowFlow {
  import opened Sequences
  import opened Graphs

  /** An expression, reduced to the step references found in its strings, in order. */
  datatype Expr = Text(refs: seq<string>) | Nested(children: seq<Expr>) | Plain

  type Shape = string

  datatype Kind = Provider | Transform(spec: Expr) | Make(shape: Shape, items: Expr) | OtherKind

  datatype Step = Step(id: string, alias: Option<string>, kind: Kind)

  function AliasOf(s: Step): string { if s.alias.Some? && s.alias.value != "" then s.alias.value else s.id }

  // ---- collecting references ----

  function AllRefs(e: Expr): seq<string>
    decreases e, 1
  {
    match e
    case Text(refs) => refs
    case Nested(children) => AllRefsOf(children)
    case Plain => []
  }

  function AllRefsOf(es: seq<Expr>): seq<string>
    decreases es, 0
  {
    if es == [] then [] else AllRefs(es[0]) + AllRefsOf(es[1..])
  }

  /** Appending each reference that is not there yet. */
  function AddNew(sofar: seq<string>, refs: seq<string>): seq<string>
    decreases |refs|
  {
    if refs == [] then sofar
    else AddNew(if refs[0] in sofar then sofar else sofar + [refs[0]], refs[1..])
  }

  lemma {:induction false} AddNewAppend(sofar: seq<string>, xs: seq<string>, ys: seq<string>)
    ensures AddNew(sofar, xs + ys) == AddNew(AddNew(sofar, xs), ys)
    decreases |xs|
  {
    if xs == [] {
      assert xs + ys == ys;
    } else {
      assert (xs + ys)[0] == xs[0] && (xs + ys)[1..] == xs[1..] + ys;
      AddNewAppend(if xs[0] in sofar then sofar else sofar + [xs[0]], xs[1..], ys);
    }
  }

  lemma {:induction false} AddNewMembers(sofar: seq<string>, refs: seq<string>)
    requires Distinct(sofar)
    ensures Distinct(AddNew(sofar, refs))
    ensures forall r :: r in AddNew(sofar, refs) <==> r in sofar || r in refs
    decreases |refs|
  {
    if refs != [] {
      AddNewMembers(if refs[0] in sofar then sofar else sofar + [refs[0]], refs[1..]);
      assert forall r :: r in refs <==> r == refs[0] || r in refs[1..];
    }
  }

  /** The nested `walk`, appending to the list collected so far. */
  method Walk(node: Expr, sofar: seq<string>) returns (aliases: seq<string>)
    ensures aliases == AddNew(sofar, AllRefs(node))
    decreases node
  {
    aliases := sofar;
    match node
    case Text(refs) =>
      for k := 0 to |refs|
        invariant aliases == AddNew(sofar, refs[..k])
      {
        assert refs[..k + 1] == refs[..k] + [refs[k]];
        AddNewAppend(sofar, refs[..k], [refs[k]]);
        assert [refs[k]][1..] == [];
        if refs[k] !in aliases {
          aliases := aliases + [refs[k]];
        }
      }
      assert refs[..|refs|] == refs;
    case Nested(children) =>
      for k := 0 to |children|
        invariant aliases == AddNew(sofar, AllRefsOf(children[..k]))
      {
        AllRefsSnoc(children, k);
        AddNewAppend(sofar, AllRefsOf(children[..k]), AllRefs(children[k]));
        aliases := Walk(children[k], aliases);
      }
      assert children[..|children|] == children;
    case Plain =>
  }

  lemma {:induction false} AllRefsAppend(xs: seq<Expr>, ys: seq<Expr>)
    ensures AllRefsOf(xs + ys) == AllRefsOf(xs) + AllRefsOf(ys)
    decreases |xs|
  {
    if xs == [] {
      assert xs + ys == ys;
    } else {
      assert (xs + ys)[0] == xs[0] && (xs + ys)[1..] == xs[1..] + ys;
      AllRefsAppend(xs[1..], ys);
    }
  }

  lemma AllRefsSnoc(es: seq<Expr>, k: nat)
    requires k < |es|
    ensures AllRefsOf(es[..k + 1]) == AllRefsOf(es[..k]) + AllRefs(es[k])
  {
    assert es[..k + 1] == es[..k] + [es[k]];
    AllRefsAppend(es[..k], [es[k]]);
    assert [es[k]][1..] == [];
    assert AllRefsOf([es[k]]) == AllRefs(es[k]) + AllRefsOf([]);
  }

  /** The expression refers to r, at whatever depth. */
  ghost predicate Occurs(e: Expr, r: string) {
    match e
    case Text(refs) => r in refs
    case Nested(children) => exists k :: 0 <= k < |children| && Occurs(children[k], r)
    case Plain => false
  }

  lemma {:induction false} OccursExactly(e: Expr, r: string)
    ensures r in AllRefs(e) <==> Occurs(e, r)
    decreases e, 1
  {
    match e
    case Text(refs) =>
    case Nested(children) => OccursInOne(children, r);
    case Plain =>
  }

  lemma {:induction false} OccursInOne(es: seq<Expr>, r: string)
    ensures r in AllRefsOf(es) <==> exists k :: 0 <= k < |es| && Occurs(es[k], r)
    decreases es, 0
  {
    if es != [] {
      OccursExactly(es[0], r);
      OccursInOne(es[1..], r);
      assert forall k :: 0 < k < |es| ==> es[k] == es[1..][k - 1];
      if k :| 0 <= k < |es[1..]| && Occurs(es[1..][k], r) {
        assert Occurs(es[k + 1], r);
      }
    }
  }

  /** x comes up in refs before y does. */
  ghost predicate ComesUpFirst(refs: seq<string>, x: string, y: string) {
    exists m :: 0 <= m < |refs| && refs[m] == x && y !in refs[..m + 1]
  }

  lemma {:induction false} AddNewInOrder(sofar: seq<string>, refs: seq<string>, i: nat, j: nat)
    requires Distinct(sofar) && i < j < |AddNew(sofar, refs)| && j >= |sofar|
    ensures sofar <= AddNew(sofar, refs)
    ensures i < |sofar| || ComesUpFirst(refs, AddNew(sofar, refs)[i], AddNew(sofar, refs)[j])
    decreases |refs|
  {
    var next := if refs[0] in sofar then sofar else sofar + [refs[0]];
    var all := AddNew(sofar, refs);
    AddNewMembers(sofar, refs);
    AddNewMembers(next, refs[1..]);
    AddNewExtends(next, refs[1..]);
    if i >= |sofar| {
      if i == |sofar| && |next| == i + 1 {
        assert all[i] == next[i] == refs[0] && all[j] != all[i];
        assert refs[..1] == [refs[0]];
        assert ComesUpFirst(refs, all[i], all[j]);
      } else {
        AddNewInOrder(next, refs[1..], i, j);
        var m :| 0 <= m < |refs[1..]| && refs[1..][m] == all[i] && all[j] !in refs[1..][..m + 1];
        assert refs[..m + 2] == [refs[0]] + refs[1..][..m + 1];
        assert refs[0] in next && next <= all;
        assert refs[m + 1] == all[i] && all[j] !in refs[..m + 2];
      }
    }
  }

  lemma {:induction false} AddNewExtends(sofar: seq<string>, refs: seq<string>)
    ensures sofar <= AddNew(sofar, refs)
    decreases |refs|
  {
    if refs != [] {
      AddNewExtends(if refs[0] in sofar then sofar else sofar + [refs[0]], refs[1..]);
    }
  }

  /** Every reference of the expression once, in order of first occurrence. */
  method CollectStepAliases(value: Expr) returns (aliases: seq<string>)
    ensures aliases == AddNew([], AllRefs(value))
    ensures Distinct(aliases) && forall r :: r in aliases <==> Occurs(value, r)
    ensures forall i, j :: 0 <= i < j < |aliases| ==> ComesUpFirst(AllRefs(value), aliases[i], aliases[j])
  {
    aliases := Walk(value, []);
    AddNewMembers([], AllRefs(value));
    forall r ensures r in AllRefs(value) <==> Occurs(value, r) {
      OccursExactly(value, r);
    }
    forall i, j | 0 <= i < j < |aliases| ensures ComesUpFirst(AllRefs(value), aliases[i], aliases[j]) {
      AddNewInOrder([], AllRefs(value), i, j);
    }
  }

  // ---- what flows where ----

  ghost predicate UniqueSteps(steps: seq<Step>) {
    && (forall i, j :: 0 <= i < j < |steps| ==> steps[i].id != steps[j].id)
    && (forall i, j :: 0 <= i < j < |steps| ==> AliasOf(steps[i]) != AliasOf(steps[j]))
  }

  /** The name under which a step is referred to: its alias if it has one that is not empty, else its id. */
  predicate Answers(s: Step, r: string) {
    (s.alias == Some(r) && r != "") || (s.alias in {None, Some("")} && r == s.id)
  }

  /** The expression of a transform or a make step refers to r. */
  ghost predicate RefersTo(s: Step, r: string) {
    (s.kind.Transform? && Occurs(s.kind.spec, r)) || (s.kind.Make? && Occurs(s.kind.items, r))
  }

  ghost predicate Reads(reader: Step, read: Step) {
    exists r :: Answers(read, r) && RefersTo(reader, r)
  }

  lemma RefersExactly(s: Step, r: string)
    ensures RefersTo(s, r) <==> r in RefsOf(s)
  {
    if s.kind.Transform? {
      OccursExactly(s.kind.spec, r);
      AddNewMembers([], AllRefs(s.kind.spec));
    } else if s.kind.Make? {
      OccursExactly(s.kind.items, r);
      AddNewMembers([], AllRefs(s.kind.items));
    }
  }

  lemma AnswersExactly(s: Step, r: string)
    ensures Answers(s, r) <==> r == AliasOf(s)
  {
  }

  lemma ReadsExactly(reader: Step, read: Step)
    ensures Reads(reader, read) <==> AliasOf(read) in RefsOf(reader)
  {
    forall r ensures Answers(read, r) && RefersTo(reader, r) <==> r == AliasOf(read) && r in RefsOf(reader) {
      AnswersExactly(read, r);
      RefersExactly(reader, r);
    }
    assert AliasOf(read) in RefsOf(reader) ==> Answers(read, AliasOf(read)) && RefersTo(reader, AliasOf(read));
  }

  function RefsOf(s: Step): seq<string> {
    match s.kind
    case Transform(spec) => AddNew([], AllRefs(spec))
    case Make(_, items) => AddNew([], AllRefs(items))
    case _ => []
  }

  /** The rows of provider call p are among those step k puts out. */
  ghost predicate Carries(steps: seq<Step>, p: nat, k: nat)
    requires k < |steps|
    decreases k, 2
  {
    if k == p then steps[p].kind.Provider? else steps[k].kind.Transform? && CarriedInto(steps, p, k)
  }

  /** Some earlier step that carries p is referenced by step k. */
  ghost predicate CarriedInto(steps: seq<Step>, p: nat, k: nat)
    requires k < |steps|
    decreases k, 1
  {
    exists r :: r in RefsOf(steps[k]) && Brings(steps, p, k, r)
  }

  /** The reference r, read at step k, brings rows of p. */
  ghost predicate Brings(steps: seq<Step>, p: nat, k: nat, r: string)
    requires k <= |steps|
    decreases k, 0
  {
    exists i: nat :: i < k && AliasOf(steps[i]) == r && Carries(steps, p, i)
  }

  ghost function Bringing(steps: seq<Step>, p: nat, k: nat): string -> bool
    requires k <= |steps|
  {
    r => Brings(steps, p, k, r)
  }

  function Repeat<T>(x: T, n: nat): (xs: seq<T>)
    ensures |xs| == n && forall k :: 0 <= k < n ==> xs[k] == x
  {
    seq(n, _ => x)
  }

  /** The shape of step k, once for each of its references that brings rows of p. */
  ghost function Delivered(steps: seq<Step>, p: nat, k: nat): seq<Shape>
    requires k < |steps|
  {
    if steps[k].kind.Make? then Repeat(steps[k].kind.shape, |Filter(Bringing(steps, p, k), RefsOf(steps[k]))|) else []
  }

  /** The shapes call p has been handed by the first k steps. */
  ghost function ShapesOf(steps: seq<Step>, p: nat, k: nat): seq<Shape>
    requires k <= |steps|
  {
    if k == 0 then [] else ShapesOf(steps, p, k - 1) + Delivered(steps, p, k - 1)
  }

  // ---- the pass ----

  /** Alias to the calls, by step id, whose rows flow through it. */
  type Sources = map<string, seq<string>>

  function CallsOf(sources: Sources, ref: string): seq<string> { if ref in sources then sources[ref] else [] }

  ghost predicate KnownCalls(steps: seq<Step>, k: nat, calls: seq<string>)
    requires k <= |steps|
  {
    forall c :: c in calls ==> exists p: nat :: p < k && steps[p].id == c && steps[p].kind.Provider?
  }

  /** The dictionary says of every reference exactly which calls it brings. */
  ghost predicate SourcesRight(steps: seq<Step>, k: nat, sources: Sources)
    requires k <= |steps|
  {
    && (forall r :: Distinct(CallsOf(sources, r)) && KnownCalls(steps, k, CallsOf(sources, r)))
    && (forall r, p: nat :: p < k ==> (steps[p].id in CallsOf(sources, r) <==> Brings(steps, p, k, r)))
  }

  type Demands = map<string, seq<Shape>>

  ghost predicate DemandsRight(steps: seq<Step>, k: nat, demands: Demands)
    requires k <= |steps|
  {
    forall p: nat :: p < k && steps[p].kind.Provider? ==>
      steps[p].id in demands && demands[steps[p].id] == ShapesOf(steps, p, k)
  }

  lemma {:induction false} NotYetCarried(steps: seq<Step>, p: nat, k: nat)
    requires k < p < |steps|
    ensures !Carries(steps, p, k)
  {
    forall i: nat | i < k ensures !Carries(steps, p, i) {
      NotYetCarried(steps, p, i);
    }
    forall r ensures !Brings(steps, p, k, r) {}
    assert !CarriedInto(steps, p, k);
  }

  lemma {:induction false} NothingBefore(steps: seq<Step>, p: nat, k: nat)
    requires k <= p < |steps|
    ensures ShapesOf(steps, p, k) == []
    ensures forall r :: !Brings(steps, p, k, r)
  {
    forall i: nat | i < k ensures !Carries(steps, p, i) {
      NotYetCarried(steps, p, i);
    }
    if k > 0 {
      NothingBefore(steps, p, k - 1);
      FilterNone(Bringing(steps, p, k - 1), RefsOf(steps[k - 1]));
    }
  }

  /** What the dictionary says still holds one step on, but for the alias of step k. */
  lemma SourcesSeen(steps: seq<Step>, k: nat, sources: Sources, r: string)
    requires k < |steps| && SourcesRight(steps, k, sources)
    ensures KnownCalls(steps, k + 1, CallsOf(sources, r))
    ensures UniqueSteps(steps) ==> forall p: nat :: p <= k ==>
            (steps[p].id in CallsOf(sources, r) <==> Brings(steps, p, k, r))
  {
    assert KnownCalls(steps, k, CallsOf(sources, r));
    NothingBefore(steps, k, k);
  }

  lemma SourcesStepAt(steps: seq<Step>, k: nat, sources: Sources, calls: seq<string>, r: string, p: nat)
    requires UniqueSteps(steps) && k < |steps| && SourcesRight(steps, k, sources) && p <= k
    requires steps[p].id in calls <==> Carries(steps, p, k)
    ensures Brings(steps, p, k + 1, r) <==>
            steps[p].id in (if r == AliasOf(steps[k]) then calls else CallsOf(sources, r))
    ensures calls == [] ==> (Brings(steps, p, k + 1, r) <==> steps[p].id in CallsOf(sources, r))
  {
    SourcesSeen(steps, k, sources, r);
  }

  /** Filing the calls of step k under its alias. */
  lemma SourcesStep(steps: seq<Step>, k: nat, sources: Sources, calls: seq<string>)
    requires UniqueSteps(steps) && k < |steps| && SourcesRight(steps, k, sources)
    requires Distinct(calls) && KnownCalls(steps, k + 1, calls)
    requires forall p: nat :: p <= k ==> (steps[p].id in calls <==> Carries(steps, p, k))
    ensures SourcesRight(steps, k + 1, sources[AliasOf(steps[k]) := calls])
    ensures calls == [] ==> SourcesRight(steps, k + 1, sources)
  {
    var after := sources[AliasOf(steps[k]) := calls];
    forall r ensures CallsOf(after, r) == if r == AliasOf(steps[k]) then calls else CallsOf(sources, r) {}
    forall r ensures KnownCalls(steps, k + 1, CallsOf(sources, r)) && Distinct(CallsOf(sources, r)) {
      SourcesSeen(steps, k, sources, r);
    }
    forall r, p: nat | p <= k
      ensures Brings(steps, p, k + 1, r) <==> steps[p].id in CallsOf(after, r)
      ensures calls == [] ==> (Brings(steps, p, k + 1, r) <==> steps[p].id in CallsOf(sources, r))
    {
      SourcesStepAt(steps, k, sources, calls, r, p);
    }
  }

  /** The calls brought by any of the first j references of step k. */
  ghost predicate Gathered(steps: seq<Step>, k: nat, refs: seq<string>, calls: seq<string>)
    requires k <= |steps|
  {
    && Distinct(calls) && KnownCalls(steps, k, calls)
    && (forall p: nat :: p < k ==> (steps[p].id in calls <==> exists r :: r in refs && Brings(steps, p, k, r)))
  }

  method AddCalls(before: seq<string>, calls: seq<string>) returns (upstream: seq<string>)
    requires Distinct(before)
    ensures Distinct(upstream) && forall c :: c in upstream <==> c in before || c in calls
  {
    upstream := before;
    for i := 0 to |calls|
      invariant Distinct(upstream)
      invariant forall c :: c in upstream <==> c in before || c in calls[..i]
    {
      assert calls[..i + 1] == calls[..i] + [calls[i]];
      if calls[i] !in upstream {
        DistinctAppend(upstream, [calls[i]]);
        upstream := upstream + [calls[i]];
      }
    }
    assert calls[..|calls|] == calls;
  }

  lemma GatheredStep(steps: seq<Step>, k: nat, sources: Sources, refs: seq<string>, r: string, before: seq<string>,
                     upstream: seq<string>)
    requires k < |steps| && SourcesRight(steps, k, sources) && Gathered(steps, k, refs, before)
    requires Distinct(upstream) && forall c :: c in upstream <==> c in before || c in CallsOf(sources, r)
    ensures Gathered(steps, k, refs + [r], upstream)
  {
    var next := refs + [r];
    assert r in next && forall x :: x in next <==> x in refs || x == r;
    assert KnownCalls(steps, k, CallsOf(sources, r));
    forall p: nat | p < k ensures steps[p].id in upstream <==> exists x :: x in next && Brings(steps, p, k, x) {
      assert steps[p].id in CallsOf(sources, r) <==> Brings(steps, p, k, r);
    }
  }

  method GatherUpstream(steps: seq<Step>, k: nat, sources: Sources) returns (upstream: seq<string>)
    requires k < |steps| && SourcesRight(steps, k, sources)
    ensures Gathered(steps, k, RefsOf(steps[k]), upstream)
  {
    var refs := RefsOf(steps[k]);
    upstream := [];
    for j := 0 to |refs|
      invariant Gathered(steps, k, refs[..j], upstream)
    {
      var more := AddCalls(upstream, CallsOf(sources, refs[j]));
      GatheredStep(steps, k, sources, refs[..j], refs[j], upstream, more);
      assert refs[..j + 1] == refs[..j] + [refs[j]];
      upstream := more;
    }
    assert refs[..|refs|] == refs;
  }

  /** A make step hands its shape to every call, once per reference that brings it. */
  method Deliver(steps: seq<Step>, k: nat, sources: Sources, before: Demands) returns (demands: Demands)
    requires UniqueSteps(steps) && k < |steps| && steps[k].kind.Make?
    requires SourcesRight(steps, k, sources) && DemandsRight(steps, k, before)
    ensures DemandsRight(steps, k + 1, demands)
  {
    var refs, shape := RefsOf(steps[k]), steps[k].kind.shape;
    demands := before;
    for j := 0 to |refs|
      invariant PartlyDelivered(steps, k, refs[..j], shape, demands)
    {
      demands := DeliverTo(steps, k, refs[..j], refs[j], CallsOf(sources, refs[j]), shape, demands);
      assert refs[..j + 1] == refs[..j] + [refs[j]];
    }
    assert refs[..|refs|] == refs;
  }

  ghost function Handed(steps: seq<Step>, p: nat, k: nat, refs: seq<string>, shape: Shape): seq<Shape>
    requires k <= |steps|
  {
    ShapesOf(steps, p, k) + Repeat(shape, |Filter(Bringing(steps, p, k), refs)|)
  }

  ghost predicate PartlyDelivered(steps: seq<Step>, k: nat, refs: seq<string>, shape: Shape, demands: Demands)
    requires k <= |steps|
  {
    forall p: nat :: p < k && steps[p].kind.Provider? ==>
                       steps[p].id in demands && demands[steps[p].id] == Handed(steps, p, k, refs, shape)
  }

  lemma HandedSnoc(steps: seq<Step>, p: nat, k: nat, refs: seq<string>, r: string, shape: Shape)
    requires k <= |steps|
    ensures Handed(steps, p, k, refs + [r], shape) ==
            Handed(steps, p, k, refs, shape) + (if Brings(steps, p, k, r) then [shape] else [])
  {
    var keep := Bringing(steps, p, k);
    FilterAppend(keep, refs, [r]);
    assert [r][1..] == [];
    assert Filter(keep, [r]) == (if keep(r) then [r] else []) + Filter(keep, []);
    var n := |Filter(keep, refs)|;
    assert Repeat(shape, n + 1) == Repeat(shape, n) + [shape];
  }

  method DeliverTo(steps: seq<Step>, k: nat, ghost done: seq<string>, r: string, calls: seq<string>, shape: Shape,
                   before: Demands)
    returns (demands: Demands)
    requires UniqueSteps(steps) && k < |steps|
    requires Distinct(calls) && KnownCalls(steps, k, calls)
    requires forall p: nat :: p < k ==> (steps[p].id in calls <==> Brings(steps, p, k, r))
    requires PartlyDelivered(steps, k, done, shape, before)
    ensures PartlyDelivered(steps, k, done + [r], shape, demands)
  {
    demands := before;
    for i := 0 to |calls|
      invariant forall c :: c in before ==> c in demands
      invariant forall c :: c in before ==> demands[c] == before[c] + (if c in calls[..i] then [shape] else [])
    {
      assert calls[i] in calls;
      assert calls[..i + 1] == calls[..i] + [calls[i]];
      demands := demands[calls[i] := demands[calls[i]] + [shape]];
    }
    assert calls[..|calls|] == calls;
    forall p: nat | p < k && steps[p].kind.Provider?
      ensures steps[p].id in demands && demands[steps[p].id] == Handed(steps, p, k, done + [r], shape)
    {
      HandedSnoc(steps, p, k, done, r, shape);
    }
  }

  lemma QuietDemands(steps: seq<Step>, k: nat, demands: Demands)
    requires k < |steps| && !steps[k].kind.Make? && !steps[k].kind.Provider? && DemandsRight(steps, k, demands)
    ensures DemandsRight(steps, k + 1, demands)
  {
    forall p: nat | p < k ensures ShapesOf(steps, p, k + 1) == ShapesOf(steps, p, k) {
      assert ShapesOf(steps, p, k) + [] == ShapesOf(steps, p, k);
    }
  }

  lemma ProviderDemands(steps: seq<Step>, k: nat, demands: Demands)
    requires UniqueSteps(steps) && k < |steps| && steps[k].kind.Provider? && DemandsRight(steps, k, demands)
    ensures DemandsRight(steps, k + 1, demands[steps[k].id := []])
  {
    NothingBefore(steps, k, k);
    forall p: nat | p <= k ensures ShapesOf(steps, p, k + 1) == ShapesOf(steps, p, k) {
      assert ShapesOf(steps, p, k) + [] == ShapesOf(steps, p, k);
    }
  }

  /** The provider step itself: its call is the one source of its alias. */
  lemma ProviderCarries(steps: seq<Step>, k: nat)
    requires UniqueSteps(steps) && k < |steps| && steps[k].kind.Provider?
    ensures forall p: nat :: p <= k ==> (steps[p].id in [steps[k].id] <==> Carries(steps, p, k))
    ensures KnownCalls(steps, k + 1, [steps[k].id])
  {
  }

  /** The forward pass: every provider call ends up with exactly the shapes its rows are made into. */
  method AnalyseRows(steps: seq<Step>) returns (demands: Demands)
    requires UniqueSteps(steps)
    ensures forall p: nat :: p < |steps| && steps[p].kind.Provider? ==>
                               steps[p].id in demands && demands[steps[p].id] == ShapesOf(steps, p, |steps|)
  {
    var sources: Sources := map[];
    demands := map[];
    for k := 0 to |steps|
      invariant SourcesRight(steps, k, sources)
      invariant DemandsRight(steps, k, demands)
    {
      var alias := AliasOf(steps[k]);
      match steps[k].kind
      case Provider =>
        ProviderCarries(steps, k);
        SourcesStep(steps, k, sources, [steps[k].id]);
        ProviderDemands(steps, k, demands);
        sources := sources[alias := [steps[k].id]];
        demands := demands[steps[k].id := []];
      case Transform(_) =>
        var upstream := GatherUpstream(steps, k, sources);
        TransformCarries(steps, k, upstream);
        SourcesStep(steps, k, sources, upstream);
        QuietDemands(steps, k, demands);
        if upstream != [] {
          sources := sources[alias := upstream];
        }
      case Make(_, _) =>
        SourcesStep(steps, k, sources, []);
        demands := Deliver(steps, k, sources, demands);
      case OtherKind =>
        SourcesStep(steps, k, sources, []);
        QuietDemands(steps, k, demands);
    }
  }

  lemma TransformCarries(steps: seq<Step>, k: nat, upstream: seq<string>)
    requires UniqueSteps(steps) && k < |steps| && steps[k].kind.Transform? &&
             Gathered(steps, k, RefsOf(steps[k]), upstream)
    ensures KnownCalls(steps, k + 1, upstream)
    ensures forall p: nat :: p <= k ==> (steps[p].id in upstream <==> Carries(steps, p, k))
  {
    assert steps[k].id !in upstream;
  }

  // ---- the pass is reachability ----

  /** From a step to each transform that reads it. */
  ghost function TransformLinks(steps: seq<Step>): set<(nat, nat)> {
    set i: nat, j: nat | i < |steps| && j < |steps| && steps[j].kind.Transform? && Reads(steps[j], steps[i]) :: (i, j)
  }

  /** Steps refer to earlier steps only. */
  ghost predicate BackwardReferences(steps: seq<Step>) {
    forall i, j :: 0 <= i < |steps| && 0 <= j < |steps| && Reads(steps[j], steps[i]) ==> i < j
  }

  lemma {:induction false} CarriedIsReached(steps: seq<Step>, p: nat, k: nat)
    requires p < |steps| && k < |steps| && Carries(steps, p, k)
    ensures steps[p].kind.Provider? && Reaches(TransformLinks(steps), p, k)
    decreases k
  {
    var links := TransformLinks(steps);
    if k == p {
      ReachesSelf(links, p);
    } else {
      var r :| r in RefsOf(steps[k]) && Brings(steps, p, k, r);
      var i: nat :| i < k && AliasOf(steps[i]) == r && Carries(steps, p, i);
      CarriedIsReached(steps, p, i);
      ReadsExactly(steps[k], steps[i]);
      assert (i, k) in links;
      ReachesSnoc(links, p, i, k);
    }
  }

  lemma ReachesSnoc(links: set<(nat, nat)>, x: nat, y: nat, z: nat)
    requires Reaches(links, x, y) && (y, z) in links
    ensures Reaches(links, x, z)
  {
    var w :| WalkFrom(links, x, w) && w[|w| - 1] == y;
    var v := w + [z];
    assert forall i :: 0 <= i < |v| - 1 ==> (v[i], v[i + 1]) in links;
    assert WalkFrom(links, x, v) && v[|v| - 1] == z;
  }

  lemma {:induction false} WalkedIsCarried(steps: seq<Step>, p: nat, w: seq<nat>)
    requires BackwardReferences(steps) && p < |steps| && steps[p].kind.Provider? &&
             WalkFrom(TransformLinks(steps), p, w)
    ensures w[|w| - 1] < |steps| && Carries(steps, p, w[|w| - 1])
    decreases |w|
  {
    if |w| > 1 {
      var init := w[..|w| - 1];
      WalkSlice(TransformLinks(steps), w, 0, |w| - 2);
      assert w[0..|w| - 1] == init;
      WalkedIsCarried(steps, p, init);
      var i, k := w[|w| - 2], w[|w| - 1];
      assert init[|init| - 1] == i && (i, k) in TransformLinks(steps);
      ReadsExactly(steps[k], steps[i]);
      assert AliasOf(steps[i]) in RefsOf(steps[k]) && Brings(steps, p, k, AliasOf(steps[i]));
    }
  }

  /** With backward references, a step carries a call exactly when a chain of transforms leads to it from the call. */
  lemma CarriesIffReached(steps: seq<Step>, p: nat, k: nat)
    requires BackwardReferences(steps) && p < |steps| && k < |steps|
    ensures Carries(steps, p, k) <==> steps[p].kind.Provider? && Reaches(TransformLinks(steps), p, k)
  {
    if Carries(steps, p, k) {
      CarriedIsReached(steps, p, k);
    }
    if steps[p].kind.Provider? && Reaches(TransformLinks(steps), p, k) {
      var w :| WalkFrom(TransformLinks(steps), p, w) && w[|w| - 1] == k;
      WalkedIsCarried(steps, p, w);
    }
  }

  /** A make step m reads a step that a chain of transforms leads to from p. */
  ghost predicate ChainLeadsTo(steps: seq<Step>, p: nat, m: nat)
    requires m < |steps|
  {
    exists i: nat :: i < |steps| && Reads(steps[m], steps[i]) && Reaches(TransformLinks(steps), p, i)
  }

  /** A provider call is handed a make step's shape if and only if such a chain leads to that step. */
  lemma DeliveredIffChain(steps: seq<Step>, p: nat, m: nat)
    requires UniqueSteps(steps) && BackwardReferences(steps)
    requires p < |steps| && steps[p].kind.Provider? && m < |steps| && steps[m].kind.Make?
    ensures Delivered(steps, p, m) != [] <==> ChainLeadsTo(steps, p, m)
    ensures forall s :: s in Delivered(steps, p, m) ==> s == steps[m].kind.shape
  {
    var keep, refs := Bringing(steps, p, m), RefsOf(steps[m]);
    forall r ensures r in Filter(keep, refs) <==> r in refs && Brings(steps, p, m, r) {
      FilterMember(keep, refs, r);
    }
    if ChainLeadsTo(steps, p, m) {
      var i: nat :| i < |steps| && Reads(steps[m], steps[i]) && Reaches(TransformLinks(steps), p, i);
      ReadsExactly(steps[m], steps[i]);
      CarriesIffReached(steps, p, i);
      assert Brings(steps, p, m, AliasOf(steps[i]));
      assert AliasOf(steps[i]) in Filter(keep, refs);
    }
    if Delivered(steps, p, m) != [] {
      var r := Filter(keep, refs)[0];
      assert r in Filter(keep, refs);
      var i: nat :| i < m && AliasOf(steps[i]) == r && Carries(steps, p, i);
      ReadsExactly(steps[m], steps[i]);
      CarriesIffReached(steps, p, i);
    }
  }

  /** These are the names in step m's expression that such chains answer to. */
  ghost predicate NamesReached(steps: seq<Step>, p: nat, m: nat, names: set<string>)
    requires m < |steps|
  {
    forall r :: r in names <==> RefersTo(steps[m], r) && NameReached(steps, p, r)
  }

  ghost predicate NameReached(steps: seq<Step>, p: nat, r: string) {
    exists i: nat :: i < |steps| && Answers(steps[i], r) && Reaches(TransformLinks(steps), p, i)
  }

  lemma BringsIffReached(steps: seq<Step>, p: nat, m: nat, r: string)
    requires BackwardReferences(steps) && p < |steps| && steps[p].kind.Provider? && m < |steps| && r in RefsOf(steps[m])
    ensures Brings(steps, p, m, r) <==> NameReached(steps, p, r)
  {
    if i: nat :| i < m && AliasOf(steps[i]) == r && Carries(steps, p, i) {
      AnswersExactly(steps[i], r);
      CarriesIffReached(steps, p, i);
    }
    if i: nat :| i < |steps| && Answers(steps[i], r) && Reaches(TransformLinks(steps), p, i) {
      AnswersExactly(steps[i], r);
      ReadsExactly(steps[m], steps[i]);
      CarriesIffReached(steps, p, i);
    }
  }

  /** The shape is handed over as often as there are different names that such chains answer to. */
  lemma DeliveredPerName(steps: seq<Step>, p: nat, m: nat)
    requires UniqueSteps(steps) && BackwardReferences(steps)
    requires p < |steps| && steps[p].kind.Provider? && m < |steps| && steps[m].kind.Make?
    ensures exists names :: NamesReached(steps, p, m, names) && |Delivered(steps, p, m)| == |names|
  {
    var keep, refs := Bringing(steps, p, m), RefsOf(steps[m]);
    var kept := Filter(keep, refs);
    var names := set r | r in kept;
    AddNewMembers([], AllRefs(steps[m].kind.items));
    FilterDistinct(keep, refs);
    DistinctSize(kept);
    forall r ensures r in names <==> RefersTo(steps[m], r) && NameReached(steps, p, r) {
      FilterMember(keep, refs, r);
      RefersExactly(steps[m], r);
      if r in refs {
        BringsIffReached(steps, p, m, r);
      }
    }
    assert NamesReached(steps, p, m, names);
  }

  /** Step m makes shape s, and a chain of transforms leads to it from p. */
  ghost predicate MakesFrom(steps: seq<Step>, p: nat, m: nat, s: Shape)
    requires m < |steps|
  {
    steps[m].kind.Make? && steps[m].kind.shape == s && ChainLeadsTo(steps, p, m)
  }

  lemma DeliveredMakes(steps: seq<Step>, p: nat, m: nat, s: Shape)
    requires UniqueSteps(steps) && BackwardReferences(steps) && p < |steps| && steps[p].kind.Provider? && m < |steps|
    ensures s in Delivered(steps, p, m) <==> MakesFrom(steps, p, m, s)
  {
    if steps[m].kind.Make? {
      DeliveredIffChain(steps, p, m);
      var delivered := Delivered(steps, p, m);
      assert delivered != [] ==> delivered[0] in delivered;
    }
  }

  ghost predicate SomeMakes(steps: seq<Step>, p: nat, k: nat, s: Shape)
    requires k <= |steps|
  {
    exists m: nat :: m < k && MakesFrom(steps, p, m, s)
  }

  ghost predicate IsDelivered(steps: seq<Step>, p: nat, m: nat, s: Shape)
    requires m < |steps|
  {
    s in Delivered(steps, p, m)
  }

  lemma {:induction false} ShapesByStep(steps: seq<Step>, p: nat, k: nat, s: Shape)
    requires k <= |steps|
    ensures s in ShapesOf(steps, p, k) <==> exists m: nat :: m < k && IsDelivered(steps, p, m, s)
    decreases k
  {
    if k > 0 {
      var before, now := ShapesOf(steps, p, k - 1), Delivered(steps, p, k - 1);
      ShapesByStep(steps, p, k - 1, s);
      assert ShapesOf(steps, p, k) == before + now;
      assert IsDelivered(steps, p, k - 1, s) <==> s in now;
    }
  }

  /** The shapes a call ends up with are those of the make steps that chains of transforms lead to, and no others. */
  lemma ShapesAreReached(steps: seq<Step>, p: nat, k: nat, s: Shape)
    requires UniqueSteps(steps) && BackwardReferences(steps) && p < |steps| && steps[p].kind.Provider? && k <= |steps|
    ensures s in ShapesOf(steps, p, k) <==> SomeMakes(steps, p, k, s)
  {
    forall m: nat | m < k ensures IsDelivered(steps, p, m, s) <==> MakesFrom(steps, p, m, s) {
      DeliveredMakes(steps, p, m, s);
    }
    ShapesByStep(steps, p, k, s);
  }
}
