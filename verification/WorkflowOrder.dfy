/**
 The story order of workflows: Kahn's algorithm with a ready list kept sorted by (mode rank, name), and
 whatever cycles hold back appended at the end in key order.
 */
module WorkflowOrder {
  import opened Sequences
  import opened Graphs

  datatype Workflow = Workflow(name: string, mode: string)

  datatype View = View(workflows: seq<Workflow>, dependencies: seq<(string, string)>)

  /** The view builder goes through a dictionary of workflows, so names are unique. */
  ghost predicate UniqueNames(ws: seq<Workflow>) {
    forall i, j :: 0 <= i < j < |ws| ==> ws[i].name != ws[j].name
  }

  function Names(ws: seq<Workflow>): (ns: seq<string>)
    ensures |ns| == |ws| && forall k :: 0 <= k < |ws| ==> ns[k] == ws[k].name
  {
    seq(|ws|, k requires 0 <= k < |ws| => ws[k].name)
  }

  /** Dependencies between known workflows, each once. */
  function Links(names: seq<string>, dependencies: seq<(string, string)>): set<(string, string)> {
    set d | d in dependencies && d.0 in names && d.1 in names
  }

  function ModeRank(mode: string): nat {
    if mode == "canonical" then 0
    else if mode == "proposal" || mode == "governed" then 1
    else if mode == "decision_support" then 2
    else 3
  }

  /** The dictionary of workflows by name. */
  type Index = map<string, Workflow>

  function RankOf(index: Index, name: string): nat { if name in index then ModeRank(index[name].mode) else 3 }

  predicate KeyAtMost(index: Index, a: string, b: string) {
    RankOf(index, a) < RankOf(index, b) || (RankOf(index, a) == RankOf(index, b) && TextAtMost(a, b))
  }

  function KeyOrder(index: Index): (string, string) -> bool { (a, b) => KeyAtMost(index, a, b) }

  lemma KeyTotalOrder(index: Index, a: string, b: string, c: string)
    ensures KeyAtMost(index, a, b) || KeyAtMost(index, b, a)
    ensures KeyAtMost(index, a, b) && KeyAtMost(index, b, a) ==> a == b
    ensures KeyAtMost(index, a, b) && KeyAtMost(index, b, c) ==> KeyAtMost(index, a, c)
  {
    TextAtMostTotal(a, b);
    if TextAtMost(a, b) && TextAtMost(b, c) {
      TextAtMostTransitive(a, b, c);
    }
  }

  lemma KeyPreorder(index: Index, xs: seq<string>)
    ensures TotalPreorderOn(KeyOrder(index), xs)
  {
    forall x, y, z
      ensures KeyOrder(index)(x, y) || KeyOrder(index)(y, x)
      ensures KeyOrder(index)(x, y) && KeyOrder(index)(y, z) ==> KeyOrder(index)(x, z)
    {
      KeyTotalOrder(index, x, y, z);
    }
  }

  /** Sorting a duplicate-free list keeps its members and puts the least first. */
  lemma KeySorted(index: Index, xs: seq<string>)
    requires Distinct(xs)
    ensures var ys := Sort(KeyOrder(index), xs);
            |ys| == |xs| && Distinct(ys) && SortedBy(KeyOrder(index), ys) && (forall x :: x in ys <==> x in xs)
  {
    var ys := Sort(KeyOrder(index), xs);
    KeyPreorder(index, xs);
    SortSorted(KeyOrder(index), xs);
    MultisetMembers(ys, xs);
    MultisetDistinct(xs);
    MultisetDistinct(ys);
  }

  // ---- what the main loop has to produce ----

  /** n may come next: it is not out yet, and all it depends on is. */
  ghost predicate Eligible(names: seq<string>, links: set<(string, string)>, done: seq<string>, n: string) {
    n in names && n !in done && forall p :: (p, n) in links ==> p in done
  }

  /** n is the eligible workflow with the least key. */
  ghost predicate Chosen(index: Index, names: seq<string>, links: set<(string, string)>, done: seq<string>, n: string) {
    Eligible(names, links, done, n) && forall m :: Eligible(names, links, done, m) ==> KeyAtMost(index, n, m)
  }

  ghost predicate Greedy(index: Index, names: seq<string>, links: set<(string, string)>, out: seq<string>) {
    forall k :: 0 <= k < |out| ==> Chosen(index, names, links, out[..k], out[k])
  }

  /** A greedy run that went on as long as it could. */
  ghost predicate GreedyRun(index: Index, names: seq<string>, links: set<(string, string)>, out: seq<string>) {
    Greedy(index, names, links, out) && forall n :: !Eligible(names, links, out, n)
  }

  lemma GreedyDistinct(index: Index, names: seq<string>, links: set<(string, string)>, out: seq<string>)
    requires Greedy(index, names, links, out)
    ensures Distinct(out) && forall n :: n in out ==> n in names
  {
    forall i, j | 0 <= i < j < |out| ensures out[i] != out[j] {
      assert Chosen(index, names, links, out[..j], out[j]);
      assert out[..j][i] == out[i];
    }
    forall k | 0 <= k < |out| ensures out[k] in names {
      assert Chosen(index, names, links, out[..k], out[k]);
    }
  }

  lemma GreedySnoc(index: Index, names: seq<string>, links: set<(string, string)>, out: seq<string>, n: string)
    requires Greedy(index, names, links, out) && Chosen(index, names, links, out, n)
    ensures Greedy(index, names, links, out + [n])
  {
    var next := out + [n];
    forall k | 0 <= k < |next| ensures Chosen(index, names, links, next[..k], next[k]) {
      assert next[..k] == out[..k];
      assert k == |out| ==> next[..k] == out;
    }
  }

  /** The specification leaves no freedom: there is one greedy run. */
  lemma GreedyUnique(index: Index, names: seq<string>, links: set<(string, string)>, a: seq<string>, b: seq<string>)
    requires GreedyRun(index, names, links, a) && GreedyRun(index, names, links, b)
    ensures a == b
  {
    var k := 0;
    while k < |a| && k < |b|
      invariant k <= |a| && k <= |b| && a[..k] == b[..k]
    {
      assert Chosen(index, names, links, a[..k], a[k]) && Chosen(index, names, links, b[..k], b[k]);
      KeyTotalOrder(index, a[k], b[k], a[k]);
      assert a[..k + 1] == a[..k] + [a[k]] && b[..k + 1] == b[..k] + [b[k]];
      k := k + 1;
    }
    assert a[..|a|] == a && b[..|b|] == b;
  }

  // ---- indegrees and the ready list ----

  /** The predecessors of n that are not out yet. */
  function Pending(links: set<(string, string)>, done: seq<string>, n: string): set<string> {
    set l | l in links && l.1 == n && l.0 !in done :: l.0
  }

  lemma EligibleIffNonePending(names: seq<string>, links: set<(string, string)>, done: seq<string>, n: string)
    ensures Eligible(names, links, done, n) <==> n in names && n !in done && |Pending(links, done, n)| == 0
  {
    if n in names && n !in done && |Pending(links, done, n)| == 0 {
      forall p | (p, n) in links ensures p in done {
        assert p !in done ==> p in Pending(links, done, n);
      }
    }
    if Eligible(names, links, done, n) {
      assert Pending(links, done, n) == {};
    }
  }

  lemma PendingStep(links: set<(string, string)>, done: seq<string>, x: string, n: string)
    requires x !in done
    ensures |Pending(links, done + [x], n)| == |Pending(links, done, n)| - (if (x, n) in links then 1 else 0)
    ensures (x, n) in links ==> |Pending(links, done, n)| > 0
  {
    var before, after := Pending(links, done, n), Pending(links, done + [x], n);
    if (x, n) in links {
      assert x in before;
      assert after == before - {x};
    } else {
      assert after == before;
    }
  }

  lemma PendingLink(links: set<(string, string)>, s: string, t: string, n: string)
    requires (s, t) !in links
    ensures |Pending(links + {(s, t)}, [], n)| == |Pending(links, [], n)| + (if n == t then 1 else 0)
  {
    var before, after := Pending(links, [], n), Pending(links + {(s, t)}, [], n);
    if n == t {
      assert s !in before;
      assert (s, t) in links + {(s, t)};
      assert after == before + {s};
    } else {
      assert after == before;
    }
  }

  type Adjacency = map<string, set<string>>
  type Indegree = map<string, int>

  ghost predicate IsAdjacency(names: seq<string>, links: set<(string, string)>, adjacency: Adjacency) {
    && (forall n :: n in adjacency <==> n in names)
    && (forall s, t :: s in adjacency ==> (t in adjacency[s] <==> (s, t) in links))
  }

  ghost predicate Counts(names: seq<string>, links: set<(string, string)>, indegree: Indegree) {
    && (forall n :: n in indegree <==> n in names)
    && (forall n :: n in names ==> indegree[n] == |Pending(links, [], n)|)
  }

  ghost predicate Tallied(names: seq<string>, links: set<(string, string)>, adjacency: Adjacency, indegree: Indegree) {
    IsAdjacency(names, links, adjacency) && Counts(names, links, indegree)
  }

  lemma LinkTallied(names: seq<string>, links: set<(string, string)>, adjacency: Adjacency, indegree: Indegree,
                    s: string, t: string)
    requires Tallied(names, links, adjacency, indegree)
    requires s in names && t in names && (s, t) !in links
    ensures s in adjacency && t in indegree
    ensures Tallied(names, links + {(s, t)}, adjacency[s := adjacency[s] + {t}], indegree[t := indegree[t] + 1])
  {
    forall n ensures |Pending(links + {(s, t)}, [], n)| == |Pending(links, [], n)| + (if n == t then 1 else 0) {
      PendingLink(links, s, t, n);
    }
  }

  method CountDependencies(names: seq<string>, dependencies: seq<(string, string)>)
    returns (adjacency: Adjacency, indegree: Indegree)
    ensures Tallied(names, Links(names, dependencies), adjacency, indegree)
  {
    adjacency := map n | n in names :: {};
    indegree := map n | n in names :: 0;
    ghost var links := {};
    assert Links(names, dependencies[..0]) == {};
    for k := 0 to |dependencies|
      invariant links == Links(names, dependencies[..k])
      invariant Tallied(names, links, adjacency, indegree)
    {
      var (source, target) := dependencies[k];
      LinksStep(names, dependencies, k, source, target);
      if source in names && target in names {
        if target !in adjacency[source] {
          LinkTallied(names, links, adjacency, indegree, source, target);
          adjacency := adjacency[source := adjacency[source] + {target}];
          indegree := indegree[target := indegree[target] + 1];
        }
      }
      links := Links(names, dependencies[..k + 1]);
    }
    assert dependencies[..|dependencies|] == dependencies;
  }

  lemma LinksStep(names: seq<string>, dependencies: seq<(string, string)>, k: nat, s: string, t: string)
    requires k < |dependencies| && dependencies[k] == (s, t)
    ensures var before, after := Links(names, dependencies[..k]), Links(names, dependencies[..k + 1]);
            && (s !in names || t !in names || (s, t) in before ==> after == before)
            && (s in names && t in names ==> after == before + {(s, t)})
  {
    assert dependencies[..k + 1] == dependencies[..k] + [dependencies[k]];
  }

  /**
   In the middle of emitting a workflow: `before` is what was out before it, `out` now, and the targets in
   `waiting` still have to be decremented.
   */
  ghost predicate Progress(names: seq<string>, links: set<(string, string)>, before: seq<string>, out: seq<string>,
                           waiting: seq<string>, indegree: Indegree)
  {
    && (forall n :: n in indegree <==> n in names)
    && (forall n :: n in names ==> indegree[n] == |Pending(links, if n in waiting then before else out, n)|)
  }

  ghost predicate IsReady(index: Index, names: seq<string>, out: seq<string>, indegree: Indegree, ready: seq<string>) {
    && Distinct(ready) && SortedBy(KeyOrder(index), ready)
    && (forall n :: n in ready <==> n in names && n !in out && n in indegree && indegree[n] == 0)
  }

  /** The head of the ready list is the greedy choice; an empty ready list means nothing is eligible. */
  lemma ReadyHead(index: Index, names: seq<string>, links: set<(string, string)>, out: seq<string>,
                  indegree: Indegree, ready: seq<string>)
    requires Progress(names, links, out, out, [], indegree) && IsReady(index, names, out, indegree, ready)
    ensures forall n :: Eligible(names, links, out, n) <==> n in ready
    ensures ready != [] ==> Chosen(index, names, links, out, ready[0])
  {
    forall n ensures Eligible(names, links, out, n) <==> n in ready {
      EligibleIffNonePending(names, links, out, n);
    }
    if ready != [] {
      forall m | m in ready ensures KeyAtMost(index, ready[0], m) {
        var k :| 0 <= k < |ready| && ready[k] == m;
        KeyTotalOrder(index, m, m, m);
        assert k > 0 ==> KeyOrder(index)(ready[0], ready[k]);
      }
    }
  }

  lemma ReadyTail(index: Index, names: seq<string>, out: seq<string>, indegree: Indegree, ready: seq<string>)
    requires IsReady(index, names, out, indegree, ready) && ready != []
    ensures IsReady(index, names, out + [ready[0]], indegree, ready[1..])
  {
    var tail := ready[1..];
    forall n ensures n in tail <==> n in ready && n != ready[0] {
      if n in ready && n != ready[0] {
        var k :| 0 <= k < |ready| && ready[k] == n;
        assert tail[k - 1] == n;
      }
    }
    forall i, j | 0 <= i < j < |tail| ensures tail[i] != tail[j] && KeyOrder(index)(tail[i], tail[j]) {
      assert ready[i + 1] != ready[j + 1] && KeyOrder(index)(ready[i + 1], ready[j + 1]);
    }
  }

  /** Popping a workflow leaves exactly its targets to be decremented. */
  lemma PopProgress(names: seq<string>, links: set<(string, string)>, out: seq<string>, x: string,
                    targets: seq<string>, indegree: Indegree)
    requires Progress(names, links, out, out, [], indegree) && x !in out
    requires forall t :: t in targets <==> (x, t) in links
    ensures Progress(names, links, out, out + [x], targets, indegree)
  {
    forall n | n in names ensures indegree[n] == |Pending(links, if n in targets then out else out + [x], n)| {
      PendingStep(links, out, x, n);
    }
  }

  lemma DecrementProgress(names: seq<string>, links: set<(string, string)>, out: seq<string>, x: string,
                          targets: seq<string>, j: nat, indegree: Indegree)
    requires Distinct(targets) && j < |targets| && x !in out && (x, targets[j]) in links && targets[j] in names
    requires Progress(names, links, out, out + [x], targets[j..], indegree)
    ensures indegree[targets[j]] > 0
    ensures Progress(names, links, out, out + [x], targets[j + 1..], indegree[targets[j] := indegree[targets[j]] - 1])
  {
    var t := targets[j];
    assert targets[j..][0] == t && targets[j..][1..] == targets[j + 1..];
    assert t !in targets[j + 1..];
    PendingStep(links, out, x, t);
  }

  method SetToList(s: set<string>) returns (xs: seq<string>)
    ensures Distinct(xs) && forall x :: x in xs <==> x in s
  {
    xs := [];
    var rest := s;
    while rest != {}
      invariant Distinct(xs) && rest <= s
      invariant forall x :: x in xs <==> x in s - rest
      decreases rest
    {
      var x :| x in rest;
      DistinctAppend(xs, [x]);
      xs := xs + [x];
      rest := rest - {x};
    }
  }

  /** Emitting one workflow: decrement its targets, and file those that became free under their key. */
  method Emit(index: Index, names: seq<string>, ghost links: set<(string, string)>, ghost before: seq<string>,
              name: string, targets: seq<string>, counts: Indegree, tail: seq<string>)
    returns (indegree: Indegree, ready: seq<string>)
    requires Distinct(targets) && name !in before
    requires forall t :: t in targets ==> t in names && (name, t) in links && t !in before && t != name
    requires Progress(names, links, before, before + [name], targets, counts)
    requires IsReady(index, names, before + [name], counts, tail)
    ensures Progress(names, links, before + [name], before + [name], [], indegree)
    ensures IsReady(index, names, before + [name], indegree, ready)
  {
    indegree, ready := counts, tail;
    assert targets[0..] == targets;
    for j := 0 to |targets|
      invariant Progress(names, links, before, before + [name], targets[j..], indegree)
      invariant IsReady(index, names, before + [name], indegree, ready)
    {
      var target := targets[j];
      DecrementProgress(names, links, before, name, targets, j, indegree);
      indegree := indegree[target := indegree[target] - 1];
      if indegree[target] == 0 {
        KeySorted(index, ready + [target]);
        ready := Sort(KeyOrder(index), ready + [target]);
      }
    }
    assert targets[|targets|..] == [];
  }

  predicate IsFree(indegree: Indegree, name: string) { name in indegree && indegree[name] == 0 }

  function Free(indegree: Indegree): string -> bool { name => IsFree(indegree, name) }

  lemma FirstReady(index: Index, names: seq<string>, indegree: Indegree)
    requires Distinct(names)
    ensures IsReady(index, names, [], indegree, Sort(KeyOrder(index), Filter(Free(indegree), names)))
  {
    FilterDistinct(Free(indegree), names);
    KeySorted(index, Filter(Free(indegree), names));
    forall n ensures n in Filter(Free(indegree), names) <==> n in names && IsFree(indegree, n) {
      FilterMember(Free(indegree), names, n);
    }
  }

  /** The main loop computes the greedy run. */
  method EmitAll(index: Index, names: seq<string>, dependencies: seq<(string, string)>) returns (ordered: seq<string>)
    requires Distinct(names)
    ensures GreedyRun(index, names, Links(names, dependencies), ordered)
  {
    ghost var links := Links(names, dependencies);
    var adjacency, indegree := CountDependencies(names, dependencies);
    var ready := Sort(KeyOrder(index), Filter(Free(indegree), names));
    FirstReady(index, names, indegree);
    ordered := [];
    while ready != []
      invariant Greedy(index, names, links, ordered)
      invariant Progress(names, links, ordered, ordered, [], indegree)
      invariant IsReady(index, names, ordered, indegree, ready)
      decreases |names| - |ordered|
    {
      ReadyHead(index, names, links, ordered, indegree, ready);
      var name := ready[0];
      GreedySnoc(index, names, links, ordered, name);
      GreedyBound(index, names, links, ordered + [name]);
      ReadyTail(index, names, ordered, indegree, ready);
      ready := ready[1..];
      var listed := SetToList(adjacency[name]);
      var targets := Sort(KeyOrder(index), listed);
      KeySorted(index, listed);
      PopProgress(names, links, ordered, name, targets, indegree);
      forall t | t in targets ensures t in names && (name, t) in links && t !in ordered && t != name {}
      indegree, ready := Emit(index, names, links, ordered, name, targets, indegree, ready);
      ordered := ordered + [name];
    }
    ReadyHead(index, names, links, ordered, indegree, ready);
  }

  lemma GreedyBound(index: Index, names: seq<string>, links: set<(string, string)>, out: seq<string>)
    requires Greedy(index, names, links, out)
    ensures |out| <= |names|
  {
    GreedyDistinct(index, names, links, out);
    DistinctSize(out);
    assert (set n | n in out) <= (set n | n in names);
    SubsetSize((set n | n in out), (set n | n in names));
    MembersBound(names);
  }

  lemma {:induction false} MembersBound(xs: seq<string>)
    ensures |set x | x in xs| <= |xs|
  {
    if xs == [] {
    } else {
      MembersBound(xs[1..]);
      assert (set x | x in xs) == (set x | x in xs[1..]) + {xs[0]};
    }
  }

  // ---- the whole order ----

  predicate IsLeft(ordered: seq<string>, name: string) { name !in ordered }

  function Left(ordered: seq<string>): string -> bool { name => IsLeft(ordered, name) }

  /** The fallback: what is left over, in key order. */
  function Leftover(index: Index, names: seq<string>, ordered: seq<string>): seq<string> {
    Filter(Left(ordered), Sort(KeyOrder(index), names))
  }

  function ByName(ws: seq<Workflow>): (index: Index)
    ensures forall n :: n in index <==> n in Names(ws)
    ensures forall n :: n in index ==> index[n] in ws && index[n].name == n
  {
    if ws == [] then map[]
    else
      assert Names(ws) == Names(ws[..|ws| - 1]) + [ws[|ws| - 1].name];
      ByName(ws[..|ws| - 1])[ws[|ws| - 1].name := ws[|ws| - 1]]
  }

  /** The greedy run followed by the leftovers. */
  ghost predicate IsStoryOrder(index: Index, names: seq<string>, links: set<(string, string)>, order: seq<string>) {
    exists main :: GreedyRun(index, names, links, main) && order == main + Leftover(index, names, main)
  }

  method OrderedNames(index: Index, names: seq<string>, dependencies: seq<(string, string)>)
    returns (ordered: seq<string>)
    requires Distinct(names)
    ensures IsStoryOrder(index, names, Links(names, dependencies), ordered)
    ensures forall n :: n in ordered ==> n in names
  {
    var main := EmitAll(index, names, dependencies);
    ghost var links := Links(names, dependencies);
    OrderIsPermutation(index, names, links, main);
    MultisetMembers(main + Leftover(index, names, main), names);
    ordered := main;
    if |main| != |names| {
      ordered := main + Leftover(index, names, main);
    } else {
      FullRunLeavesNothing(index, names, links, main);
      assert main + [] == main;
    }
  }

  method StoryOrder(view: View) returns (story: seq<Workflow>)
    requires UniqueNames(view.workflows)
    ensures var names := Names(view.workflows);
            IsStoryOrder(ByName(view.workflows), names, Links(names, view.dependencies), Names(story))
    ensures forall w :: w in story ==> w in view.workflows
    ensures OrderedByModes(view, story)
  {
    var names, index := Names(view.workflows), ByName(view.workflows);
    var ordered := OrderedNames(index, names, view.dependencies);
    story := Lookup(index, ordered);
    StoryByModes(view, story);
  }

  // ---- what the order says of modes and names ----

  /** Of two workflows that may both come next, a may come before b. */
  predicate ComesFirst(a: Workflow, b: Workflow) {
    && (b.mode == "canonical" ==> a.mode == "canonical")
    && (b.mode in {"proposal", "governed"} ==> a.mode in {"canonical", "proposal", "governed"})
    && (b.mode == "decision_support" ==> a.mode in {"canonical", "proposal", "governed", "decision_support"})
    && (SameGroup(a.mode, b.mode) ==> TextAtMost(a.name, b.name))
  }

  predicate SameGroup(mode: string, other: string) {
    || mode == other
    || (mode in {"proposal", "governed"} && other in {"proposal", "governed"})
    || (mode !in {"canonical", "proposal", "governed", "decision_support"} &&
        other !in {"canonical", "proposal", "governed", "decision_support"})
  }

  /** Every known workflow that w depends on is among the first i of the story. */
  ghost predicate FreeAt(view: View, story: seq<Workflow>, i: nat, w: Workflow)
    requires i <= |story|
  {
    forall d, v :: d in view.dependencies && d.1 == w.name && v in view.workflows && v.name == d.0 ==> v in story[..i]
  }

  /**
   Whatever comes later although it was free already, or comes after a workflow that is held back itself,
   does not come first by mode and name.
   */
  ghost predicate OrderedByModes(view: View, story: seq<Workflow>) {
    forall i, j :: 0 <= i < j < |story| && (FreeAt(view, story, i, story[j]) || !FreeAt(view, story, i, story[i])) ==>
      ComesFirst(story[i], story[j])
  }

  lemma FreeIsEligible(view: View, story: seq<Workflow>, i: nat, w: Workflow)
    requires UniqueNames(view.workflows) && i <= |story| && (forall v :: v in story ==> v in view.workflows)
    requires w in view.workflows && w.name !in Names(story)[..i]
    ensures var names := Names(view.workflows);
            FreeAt(view, story, i, w) <==>
            Eligible(names, Links(names, view.dependencies), Names(story)[..i], w.name)
  {
    var names := Names(view.workflows);
    var done := Names(story)[..i];
    assert w.name in names by {
      var k :| 0 <= k < |view.workflows| && view.workflows[k] == w;
      assert names[k] == w.name;
    }
    forall v | v in view.workflows ensures v.name in names && (v in story[..i] <==> v.name in done) {
      NamedOnce(view.workflows, story, i, v);
    }
    if FreeAt(view, story, i, w) {
      forall p | (p, w.name) in Links(names, view.dependencies) ensures p in done {
        var k :| 0 <= k < |names| && names[k] == p;
        assert view.workflows[k] in view.workflows;
      }
    }
    if Eligible(names, Links(names, view.dependencies), done, w.name) {
      forall d, v | d in view.dependencies && d.1 == w.name && v in view.workflows && v.name == d.0
        ensures v in story[..i]
      {
        assert (v.name, w.name) in Links(names, view.dependencies);
      }
    }
  }

  lemma NamedOnce(ws: seq<Workflow>, story: seq<Workflow>, i: nat, v: Workflow)
    requires UniqueNames(ws) && i <= |story| && (forall x :: x in story ==> x in ws) && v in ws
    ensures v.name in Names(ws)
    ensures v in story[..i] <==> v.name in Names(story)[..i]
  {
    var k :| 0 <= k < |ws| && ws[k] == v;
    assert Names(ws)[k] == v.name;
    if h :| 0 <= h < i && Names(story)[h] == v.name {
      assert story[h] in ws;
      var m :| 0 <= m < |ws| && ws[m] == story[h];
      assert story[..i][h] == v;
    }
    if v in story[..i] {
      var h :| 0 <= h < i && story[h] == v;
      assert Names(story)[..i][h] == v.name;
    }
  }

  lemma KeyMeansFirst(view: View, a: Workflow, b: Workflow)
    requires UniqueNames(view.workflows) && a in view.workflows && b in view.workflows
    requires KeyAtMost(ByName(view.workflows), a.name, b.name)
    ensures ComesFirst(a, b)
  {
    var index := ByName(view.workflows);
    NamedOnce(view.workflows, [], 0, a);
    NamedOnce(view.workflows, [], 0, b);
    assert index[a.name] == a && index[b.name] == b;
  }

  lemma OrderByKey(index: Index, names: seq<string>, links: set<(string, string)>, main: seq<string>, i: nat, j: nat)
    requires Distinct(names) && GreedyRun(index, names, links, main)
    requires i < j < |main + Leftover(index, names, main)|
    ensures var order := main + Leftover(index, names, main);
            Eligible(names, links, order[..i], order[j]) || !Eligible(names, links, order[..i], order[i]) ==>
              KeyAtMost(index, order[i], order[j])
  {
    var rest := Leftover(index, names, main);
    var order := main + rest;
    OrderIsPermutation(index, names, links, main);
    if i < |main| {
      assert order[..i] == main[..i];
      assert Chosen(index, names, links, main[..i], main[i]);
    } else {
      assert KeyOrder(index)(rest[i - |main|], rest[j - |main|]);
    }
  }

  lemma NamesDistinct(index: Index, names: seq<string>, links: set<(string, string)>, order: seq<string>)
    requires Distinct(names) && IsStoryOrder(index, names, links, order)
    ensures Distinct(order)
  {
    var main :| GreedyRun(index, names, links, main) && order == main + Leftover(index, names, main);
    OrderIsPermutation(index, names, links, main);
    MultisetDistinct(names);
    MultisetDistinct(order);
  }

  lemma PairByModes(view: View, story: seq<Workflow>, i: nat, j: nat)
    requires UniqueNames(view.workflows) && forall w :: w in story ==> w in view.workflows
    requires var names := Names(view.workflows);
             IsStoryOrder(ByName(view.workflows), names, Links(names, view.dependencies), Names(story))
    requires i < j < |story| && (FreeAt(view, story, i, story[j]) || !FreeAt(view, story, i, story[i]))
    ensures ComesFirst(story[i], story[j])
  {
    var names, index := Names(view.workflows), ByName(view.workflows);
    var links, order := Links(names, view.dependencies), Names(story);
    NamesDistinct(index, names, links, order);
    assert forall h :: 0 <= h < i ==> order[..i][h] == order[h];
    FreeIsEligible(view, story, i, story[i]);
    FreeIsEligible(view, story, i, story[j]);
    var main :| GreedyRun(index, names, links, main) && order == main + Leftover(index, names, main);
    OrderByKey(index, names, links, main, i, j);
    KeyMeansFirst(view, story[i], story[j]);
  }

  /** The story in terms of the mode texts and names of its workflows. */
  lemma StoryByModes(view: View, story: seq<Workflow>)
    requires UniqueNames(view.workflows) && forall w :: w in story ==> w in view.workflows
    requires var names := Names(view.workflows);
             IsStoryOrder(ByName(view.workflows), names, Links(names, view.dependencies), Names(story))
    ensures OrderedByModes(view, story)
  {
    forall i, j | 0 <= i < j < |story| && (FreeAt(view, story, i, story[j]) || !FreeAt(view, story, i, story[i]))
      ensures ComesFirst(story[i], story[j])
    {
      PairByModes(view, story, i, j);
    }
  }

  function Lookup(index: Index, ordered: seq<string>): (story: seq<Workflow>)
    requires forall n :: n in ordered ==> n in index && index[n].name == n
    ensures Names(story) == ordered
    ensures forall w :: w in story ==> w.name in index && index[w.name] == w
  {
    seq(|ordered|, k requires 0 <= k < |ordered| => index[ordered[k]])
  }

  lemma SameSizeSameMembers(xs: seq<string>, ys: seq<string>)
    requires Distinct(xs) && Distinct(ys) && |xs| == |ys| && forall x :: x in xs ==> x in ys
    ensures forall y :: y in ys ==> y in xs
  {
    DistinctSize(xs);
    DistinctSize(ys);
    var a, b := set x | x in xs, set y | y in ys;
    forall y | y in ys ensures y in xs {
      SubsetSize(a, if y in a then b else b - {y});
    }
  }

  lemma FullRunLeavesNothing(index: Index, names: seq<string>, links: set<(string, string)>, main: seq<string>)
    requires Distinct(names) && Greedy(index, names, links, main) && |main| == |names|
    ensures Leftover(index, names, main) == []
  {
    GreedyDistinct(index, names, links, main);
    SameSizeSameMembers(main, names);
    KeySorted(index, names);
    FilterNone(Left(main), Sort(KeyOrder(index), names));
  }

  // ---- the properties ----

  /** Whatever the dependencies, the order is a permutation of the workflows; the tail is in key order. */
  lemma OrderIsPermutation(index: Index, names: seq<string>, links: set<(string, string)>, main: seq<string>)
    requires Distinct(names) && Greedy(index, names, links, main)
    ensures multiset(main + Leftover(index, names, main)) == multiset(names)
    ensures SortedBy(KeyOrder(index), Leftover(index, names, main))
  {
    var sorted := Sort(KeyOrder(index), names);
    var rest := Leftover(index, names, main);
    KeySorted(index, names);
    GreedyDistinct(index, names, links, main);
    MultisetDistinct(main);
    MultisetDistinct(names);
    forall n ensures multiset(main + rest)[n] == multiset(names)[n] {
      FilterMultiset(Left(main), sorted, n);
      assert multiset(main + rest)[n] == multiset(main)[n] + multiset(rest)[n];
      assert n in main <==> multiset(main)[n] == 1;
      assert n in names <==> multiset(names)[n] == 1;
    }
    FilterSorted(Left(main), KeyOrder(index), sorted);
  }

  /** Dependencies turned around: from a workflow to what it depends on. */
  function Backward(links: set<(string, string)>): set<(string, string)> { set l | l in links :: (l.1, l.0) }

  lemma BackwardMember(links: set<(string, string)>, a: string, b: string)
    ensures (a, b) in Backward(links) <==> (b, a) in links
  {
    if (b, a) in links {
      var l := (b, a);
      assert l in links && (l.1, l.0) == (a, b);
    }
  }

  lemma {:induction false} EmittedGrounded(index: Index, names: seq<string>, links: set<(string, string)>,
                                           main: seq<string>, k: nat)
    requires Greedy(index, names, links, main) && k < |main|
    ensures Grounded(Backward(links), main[k])
  {
    if !Grounded(Backward(links), main[k]) {
      var p := UngroundedSuccessor(Backward(links), main[k]);
      BackwardMember(links, main[k], p);
      assert Chosen(index, names, links, main[..k], main[k]);
      var i :| 0 <= i < k && main[i] == p;
      EmittedGrounded(index, names, links, main, i);
    }
  }

  lemma {:induction false} GroundedEmitted(index: Index, names: seq<string>, dependencies: seq<(string, string)>,
                                           main: seq<string>, n: string)
    requires GreedyRun(index, names, Links(names, dependencies), main)
    requires n in names && Grounded(Backward(Links(names, dependencies)), n)
    ensures n in main
    decreases Height(Backward(Links(names, dependencies)), n)
  {
    var links := Links(names, dependencies);
    if n !in main {
      assert !Eligible(names, links, main, n);
      var p :| (p, n) in links && p !in main;
      BackwardMember(links, n, p);
      HeightDecreases(Backward(links), n, p);
      GroundedEmitted(index, names, dependencies, main, p);
    }
  }

  /**
   The part the main loop emits is exactly the workflows with no ancestor, themselves included, on a
   cycle; and every dependency into that part points forward.
   */
  lemma EmittedExactly(index: Index, names: seq<string>, dependencies: seq<(string, string)>, main: seq<string>,
                       n: string)
    requires GreedyRun(index, names, Links(names, dependencies), main)
    ensures n in main <==>
            n in names &&
            !exists a :: Reaches(Backward(Links(names, dependencies)), n, a) &&
                         OnCycle(Backward(Links(names, dependencies)), a)
    ensures forall k, p :: 0 <= k < |main| && (p, main[k]) in Links(names, dependencies) ==> p in main[..k]
  {
    var links := Links(names, dependencies);
    GroundedIffNoReachableCycle(Backward(links), n);
    GreedyDistinct(index, names, links, main);
    if k :| 0 <= k < |main| && main[k] == n {
      EmittedGrounded(index, names, links, main, k);
    }
    if n in names && Grounded(Backward(links), n) {
      GroundedEmitted(index, names, dependencies, main, n);
    }
    forall k, p | 0 <= k < |main| && (p, main[k]) in links ensures p in main[..k] {
      assert Chosen(index, names, links, main[..k], main[k]);
    }
  }

  /** All workflows, each after everything it depends on. */
  ghost predicate Topological(names: seq<string>, links: set<(string, string)>, order: seq<string>) {
    && multiset(order) == multiset(names)
    && (forall k, p :: 0 <= k < |order| && (p, order[k]) in links ==> p in order[..k])
  }

  /** No workflow depends on itself, however indirectly. */
  ghost predicate AcyclicDependencies(names: seq<string>, links: set<(string, string)>) {
    forall n :: n in names ==> !OnCycle(Backward(links), n)
  }

  lemma {:induction false} TopologicalGrounded(names: seq<string>, links: set<(string, string)>, order: seq<string>,
                                               k: nat)
    requires Topological(names, links, order) && k < |order|
    ensures Grounded(Backward(links), order[k])
  {
    if !Grounded(Backward(links), order[k]) {
      var p := UngroundedSuccessor(Backward(links), order[k]);
      BackwardMember(links, order[k], p);
      var i :| 0 <= i < k && order[i] == p;
      TopologicalGrounded(names, links, order, i);
    }
  }

  lemma AncestorsKnown(names: seq<string>, dependencies: seq<(string, string)>, n: string, w: seq<string>, k: nat)
    requires n in names && WalkFrom(Backward(Links(names, dependencies)), n, w) && k < |w|
    ensures w[k] in names
  {
    if k > 0 {
      assert (w[k - 1], w[k]) in Backward(Links(names, dependencies));
      BackwardMember(Links(names, dependencies), w[k - 1], w[k]);
    }
  }

  lemma AcyclicAllEmitted(index: Index, names: seq<string>, dependencies: seq<(string, string)>, main: seq<string>)
    requires GreedyRun(index, names, Links(names, dependencies), main)
    requires AcyclicDependencies(names, Links(names, dependencies))
    ensures forall n :: n in names ==> n in main
  {
    var back := Backward(Links(names, dependencies));
    forall n | n in names ensures n in main {
      EmittedExactly(index, names, dependencies, main, n);
      if a :| Reaches(back, n, a) && OnCycle(back, a) {
        var w :| WalkFrom(back, n, w) && w[|w| - 1] == a;
        AncestorsKnown(names, dependencies, n, w, |w| - 1);
      }
    }
  }

  /** The order produced is a topological order exactly when the dependencies are acyclic. */
  lemma TopologicalIffAcyclic(index: Index, names: seq<string>, dependencies: seq<(string, string)>, main: seq<string>)
    requires Distinct(names) && GreedyRun(index, names, Links(names, dependencies), main)
    ensures Topological(names, Links(names, dependencies), main + Leftover(index, names, main)) <==>
            AcyclicDependencies(names, Links(names, dependencies))
    ensures AcyclicDependencies(names, Links(names, dependencies)) ==> Leftover(index, names, main) == []
  {
    var links := Links(names, dependencies);
    var rest := Leftover(index, names, main);
    var order := main + rest;
    OrderIsPermutation(index, names, links, main);
    MultisetMembers(order, names);
    if Topological(names, links, order) {
      forall n | n in names ensures !OnCycle(Backward(links), n) {
        var k :| 0 <= k < |order| && order[k] == n;
        TopologicalGrounded(names, links, order, k);
        ReachesSelf(Backward(links), n);
        GroundedIffNoReachableCycle(Backward(links), n);
      }
    }
    if AcyclicDependencies(names, links) {
      AcyclicAllEmitted(index, names, dependencies, main);
      if rest != [] {
        KeySorted(index, names);
        FilterMember(Left(main), Sort(KeyOrder(index), names), rest[0]);
      }
      assert order == main;
      EmittedExactly(index, names, dependencies, main, "");
    }
  }

  /**
   On acyclic dependencies it is the lexicographically least topological order: where any other
   topological order first departs from it, the other one has the greater key.
   */
  lemma LeastTopologicalOrder(index: Index, names: seq<string>, dependencies: seq<(string, string)>, main: seq<string>,
                              other: seq<string>, k: nat)
    requires Distinct(names) && GreedyRun(index, names, Links(names, dependencies), main)
    requires Topological(names, Links(names, dependencies), other)
    requires k < |main| && k < |other| && main[..k] == other[..k] && main[k] != other[k]
    ensures KeyAtMost(index, main[k], other[k]) && !KeyAtMost(index, other[k], main[k])
  {
    var links := Links(names, dependencies);
    MultisetMembers(other, names);
    MultisetDistinct(names);
    MultisetDistinct(other);
    assert other[k] in names;
    assert other[k] !in other[..k];
    assert Eligible(names, links, main[..k], other[k]);
    assert Chosen(index, names, links, main[..k], main[k]);
    KeyTotalOrder(index, main[k], other[k], main[k]);
  }
}
