/**
 The upward enumeration: a breadth-first queue that climbs from an assembly to its parents, never
 revisiting an assembly of its own path, and records every product reached. It is proved to list
 exactly the simple climbing paths, each once, level by level, on every BOM.
 */
module ExposurePaths {
  import opened Sequences
  import opened Bom
  import opened Exploration

  /**
   What a climb consults: the parent edges in visiting order, the products hung at an assembly, and all
   possible parents.
   */
  datatype Climb = Climb(up: Id -> seq<AssemblyEdge>, exits: Id -> seq<ProductEdge>, targets: set<Id>) {
    ghost predicate Sound() {
      && (forall x, e :: e in up(x) ==> e.parent in targets)
      && (forall x :: Distinct(up(x)))
      && (forall x :: Distinct(exits(x)))
    }

    function Bound(): nat { |targets| }
  }

  /** A path together with the product edge it leaves through. */
  type Choice = (Path, ProductEdge)

  /** What the source records for a choice: product, assemblies visited, depth. */
  datatype UpRow = UpRow(product: Id, assemblies: seq<Id>, depth: nat)

  // ---- climbing paths ----

  function Top(start: Id, p: Path): Id {
    if p == [] then start else p[|p| - 1].parent
  }

  function Vertices(start: Id, p: Path): seq<Id> {
    if p == [] then [start] else Vertices(start, p[..|p| - 1]) + [p[|p| - 1].parent]
  }

  /** Every edge of p climbs from where the edges before it lead. */
  ghost predicate Climbs(c: Climb, start: Id, p: Path) {
    forall k {:trigger p[k]} :: 0 <= k < |p| ==> p[k] in c.up(Top(start, p[..k]))
  }

  /** A climbing path that visits no assembly twice. */
  ghost predicate SimplePath(c: Climb, start: Id, p: Path) {
    Climbs(c, start, p) && Distinct(Vertices(start, p))
  }

  lemma {:induction false} VerticesSize(start: Id, p: Path)
    ensures |Vertices(start, p)| == |p| + 1 && Vertices(start, p)[|p|] == Top(start, p)
  {
    if p != [] {
      VerticesSize(start, p[..|p| - 1]);
    }
  }

  lemma AppendInit(p: Path, e: AssemblyEdge)
    ensures (p + [e])[..|p|] == p && (p + [e])[|p|] == e
  {
  }

  /** A simple path is a simple path extended by one edge to an assembly it has not visited. */
  lemma SimplePathExtend(c: Climb, start: Id, p: Path, e: AssemblyEdge)
    ensures SimplePath(c, start, p + [e]) <==>
            SimplePath(c, start, p) && e in c.up(Top(start, p)) && e.parent !in Vertices(start, p)
  {
    var q := p + [e];
    AppendInit(p, e);
    var vs := Vertices(start, p);
    assert Vertices(start, q) == vs + [e.parent];
    forall k | 0 <= k < |p| ensures q[..k] == p[..k] && q[k] == p[k] {}
    if SimplePath(c, start, q) {
      assert q[|p|] in c.up(Top(start, q[..|p|]));
      forall k | 0 <= k < |p| ensures p[k] in c.up(Top(start, p[..k])) {
        assert q[k] in c.up(Top(start, q[..k]));
      }
      DistinctSnoc(vs, e.parent);
    }
    if SimplePath(c, start, p) && e in c.up(Top(start, p)) && e.parent !in vs {
      forall k | 0 <= k < |q| ensures q[k] in c.up(Top(start, q[..k])) {
        if k < |p| {
          assert p[k] in c.up(Top(start, p[..k]));
        }
      }
      DistinctSnoc(vs, e.parent);
    }
  }

  lemma DistinctSnoc(xs: seq<Id>, x: Id)
    ensures Distinct(xs + [x]) <==> Distinct(xs) && x !in xs
  {
    var ys := xs + [x];
    if Distinct(ys) {
      forall i, j | 0 <= i < j < |xs| ensures xs[i] != xs[j] {
        assert ys[i] != ys[j];
      }
      forall i | 0 <= i < |xs| ensures xs[i] != x {
        assert ys[i] != ys[|xs|];
      }
    }
  }

  // ---- the levels of the search ----

  /** p followed by each of the edges es that leads to an assembly outside vs. */
  function Extensions(vs: seq<Id>, p: Path, es: seq<AssemblyEdge>): seq<Path> {
    if es == [] then []
    else (if es[0].parent in vs then [] else [p + [es[0]]]) + Extensions(vs, p, es[1..])
  }

  function ExtendAll(c: Climb, start: Id, ps: seq<Path>): seq<Path> {
    if ps == [] then []
    else Extensions(Vertices(start, ps[0]), ps[0], c.up(Top(start, ps[0]))) + ExtendAll(c, start, ps[1..])
  }

  /** The simple paths of n edges, in breadth-first order. */
  function Level(c: Climb, start: Id, n: nat): seq<Path> {
    if n == 0 then [[]] else ExtendAll(c, start, Level(c, start, n - 1))
  }

  /** The simple paths of at most n edges, shorter ones first. */
  function Levels(c: Climb, start: Id, n: nat): seq<Path> {
    if n == 0 then Level(c, start, 0) else Levels(c, start, n - 1) + Level(c, start, n)
  }

  function Leave(p: Path, es: seq<ProductEdge>): seq<Choice> {
    if es == [] then [] else [(p, es[0])] + Leave(p, es[1..])
  }

  function LeaveAll(c: Climb, start: Id, ps: seq<Path>): seq<Choice> {
    if ps == [] then [] else Leave(ps[0], c.exits(Top(start, ps[0]))) + LeaveAll(c, start, ps[1..])
  }

  /** All choices of a simple path and a product edge at its top. */
  function UpChoices(c: Climb, start: Id): seq<Choice> {
    LeaveAll(c, start, Levels(c, start, c.Bound()))
  }

  function Describe(start: Id, choice: Choice): UpRow {
    UpRow(choice.1.product, Vertices(start, choice.0), |choice.0|)
  }

  function DescribeAll(start: Id, choices: seq<Choice>): (rows: seq<UpRow>)
    ensures |rows| == |choices| && forall k :: 0 <= k < |rows| ==> rows[k] == Describe(start, choices[k])
  {
    seq(|choices|, k requires 0 <= k < |choices| => Describe(start, choices[k]))
  }

  // ---- what the levels contain ----

  lemma {:induction false} ExtensionsMember(vs: seq<Id>, p: Path, es: seq<AssemblyEdge>, q: Path)
    ensures q in Extensions(vs, p, es) <==>
            |q| == |p| + 1 && q[..|p|] == p && q[|p|] in es && q[|p|].parent !in vs
  {
    if es != [] {
      ExtensionsMember(vs, p, es[1..], q);
      if |q| == |p| + 1 && q[..|p|] == p {
        assert q == p + [q[|p|]];
      }
    }
  }

  lemma {:induction false} ExtendAllMember(c: Climb, start: Id, ps: seq<Path>, q: Path)
    ensures q in ExtendAll(c, start, ps) <==>
            q != [] && q[..|q| - 1] in ps && q[|q| - 1] in c.up(Top(start, q[..|q| - 1]))
            && q[|q| - 1].parent !in Vertices(start, q[..|q| - 1])
  {
    if ps != [] {
      ExtendAllMember(c, start, ps[1..], q);
      ExtensionsMember(Vertices(start, ps[0]), ps[0], c.up(Top(start, ps[0])), q);
    }
  }

  lemma EmptyPathSimple(c: Climb, start: Id, q: Path)
    ensures q in Level(c, start, 0) <==> SimplePath(c, start, q) && |q| == 0
  {
    assert Vertices(start, []) == [start];
    assert |q| == 0 ==> q == [];
  }

  /** Level n lists exactly the simple climbing paths of n edges. */
  lemma {:induction false} LevelMember(c: Climb, start: Id, n: nat, q: Path)
    ensures q in Level(c, start, n) <==> SimplePath(c, start, q) && |q| == n
    decreases n, 1
  {
    if n == 0 {
      EmptyPathSimple(c, start, q);
    } else {
      ExtendAllMember(c, start, Level(c, start, n - 1), q);
      if q != [] {
        LevelMemberSnoc(c, start, n, q, q[..|q| - 1], q[|q| - 1]);
      }
    }
  }

  lemma {:induction false} LevelMemberSnoc(c: Climb, start: Id, n: nat, q: Path, p: Path, e: AssemblyEdge)
    requires n > 0 && q != [] && p == q[..|q| - 1] && e == q[|q| - 1]
    ensures p in Level(c, start, n - 1) && e in c.up(Top(start, p)) && e.parent !in Vertices(start, p) <==>
            SimplePath(c, start, q) && |q| == n
    decreases n, 0
  {
    assert q == p + [e];
    LevelMember(c, start, n - 1, p);
    SimplePathExtend(c, start, p, e);
  }

  lemma {:induction false} ExtensionsDistinct(vs: seq<Id>, p: Path, es: seq<AssemblyEdge>)
    requires Distinct(es)
    ensures Distinct(Extensions(vs, p, es))
  {
    if es != [] {
      ExtensionsDistinct(vs, p, es[1..]);
      var q, tail := p + [es[0]], Extensions(vs, p, es[1..]);
      ExtensionsMember(vs, p, es[1..], q);
      assert q !in tail;
      DistinctAppend(if es[0].parent in vs then [] else [q], tail);
    }
  }

  lemma {:induction false} ExtendAllDistinct(c: Climb, start: Id, ps: seq<Path>)
    requires c.Sound() && Distinct(ps)
    ensures Distinct(ExtendAll(c, start, ps))
  {
    if ps != [] {
      ExtendAllDistinct(c, start, ps[1..]);
      var head, tail := Extensions(Vertices(start, ps[0]), ps[0], c.up(Top(start, ps[0]))),
                        ExtendAll(c, start, ps[1..]);
      ExtensionsDistinct(Vertices(start, ps[0]), ps[0], c.up(Top(start, ps[0])));
      forall q | q in head ensures q !in tail {
        ExtensionsMember(Vertices(start, ps[0]), ps[0], c.up(Top(start, ps[0])), q);
        ExtendAllMember(c, start, ps[1..], q);
      }
      DistinctAppend(head, tail);
    }
  }

  lemma {:induction false} LevelDistinct(c: Climb, start: Id, n: nat)
    requires c.Sound()
    ensures Distinct(Level(c, start, n))
    decreases n
  {
    if n > 0 {
      LevelDistinct(c, start, n - 1);
      ExtendAllDistinct(c, start, Level(c, start, n - 1));
    }
  }

  lemma {:induction false} LevelsMember(c: Climb, start: Id, n: nat, q: Path)
    ensures q in Levels(c, start, n) <==> SimplePath(c, start, q) && |q| <= n
    decreases n
  {
    LevelMember(c, start, n, q);
    if n > 0 {
      LevelsMember(c, start, n - 1, q);
    }
  }

  lemma LevelsApart(c: Climb, start: Id, n: nat)
    requires n > 0
    ensures forall q :: q in Levels(c, start, n - 1) ==> q !in Level(c, start, n)
  {
    forall q | q in Levels(c, start, n - 1) ensures q !in Level(c, start, n) {
      LevelsMember(c, start, n - 1, q);
      LevelMember(c, start, n, q);
    }
  }

  lemma {:induction false} LevelsDistinct(c: Climb, start: Id, n: nat)
    requires c.Sound()
    ensures Distinct(Levels(c, start, n))
    decreases n
  {
    LevelDistinct(c, start, n);
    if n > 0 {
      LevelsDistinct(c, start, n - 1);
      LevelsApart(c, start, n);
      DistinctAppend(Levels(c, start, n - 1), Level(c, start, n));
    }
  }

  // ---- a simple path is never longer than the number of possible parents ----

  lemma {:induction false} VerticesAreTargets(c: Climb, start: Id, p: Path)
    requires c.Sound() && Climbs(c, start, p)
    ensures forall k :: 0 < k < |Vertices(start, p)| ==> Vertices(start, p)[k] in c.targets
  {
    if p != [] {
      var init := p[..|p| - 1];
      forall k | 0 <= k < |init| ensures init[k] in c.up(Top(start, init[..k])) {
        assert p[k] in c.up(Top(start, p[..k])) && init[..k] == p[..k];
      }
      VerticesAreTargets(c, start, init);
      assert p[|p| - 1] in c.up(Top(start, p[..|p| - 1]));
    }
  }

  lemma SimplePathBound(c: Climb, start: Id, p: Path)
    requires c.Sound() && SimplePath(c, start, p)
    ensures |p| <= c.Bound()
  {
    VerticesSize(start, p);
    VerticesAreTargets(c, start, p);
    var tail := Vertices(start, p)[1..];
    forall i, j | 0 <= i < j < |tail| ensures tail[i] != tail[j] {
      assert Vertices(start, p)[i + 1] != Vertices(start, p)[j + 1];
    }
    DistinctSize(tail);
    assert (set x | x in tail) <= c.targets by {
      forall k | 0 <= k < |tail| ensures tail[k] in c.targets {
        assert Vertices(start, p)[k + 1] in c.targets;
      }
    }
    SubsetSize((set x | x in tail), c.targets);
  }

  lemma LevelBound(c: Climb, start: Id, n: nat)
    requires c.Sound() && Level(c, start, n) != []
    ensures n <= c.Bound()
  {
    var p := Level(c, start, n)[0];
    assert p in Level(c, start, n);
    LevelMember(c, start, n, p);
    SimplePathBound(c, start, p);
  }

  /** Once a level is empty, all later ones are. */
  lemma {:induction false} LevelsEnd(c: Climb, start: Id, n: nat, m: nat)
    requires Level(c, start, n + 1) == [] && n <= m
    ensures Levels(c, start, m) == Levels(c, start, n) && Level(c, start, m + 1) == []
    decreases m
  {
    if m > n {
      LevelsEnd(c, start, n, m - 1);
    }
  }

  // ---- what the enumeration returns ----

  lemma {:induction false} LeaveMember(p: Path, es: seq<ProductEdge>, choice: Choice)
    ensures choice in Leave(p, es) <==> choice.0 == p && choice.1 in es
  {
    if es != [] {
      LeaveMember(p, es[1..], choice);
    }
  }

  lemma {:induction false} LeaveAllMember(c: Climb, start: Id, ps: seq<Path>, choice: Choice)
    ensures choice in LeaveAll(c, start, ps) <==> choice.0 in ps && choice.1 in c.exits(Top(start, choice.0))
  {
    if ps != [] {
      LeaveAllMember(c, start, ps[1..], choice);
      LeaveMember(ps[0], c.exits(Top(start, ps[0])), choice);
    }
  }

  lemma {:induction false} LeaveDistinct(p: Path, es: seq<ProductEdge>)
    requires Distinct(es)
    ensures Distinct(Leave(p, es))
  {
    if es != [] {
      LeaveDistinct(p, es[1..]);
      LeaveMember(p, es[1..], (p, es[0]));
      DistinctAppend([(p, es[0])], Leave(p, es[1..]));
    }
  }

  lemma {:induction false} LeaveAllDistinct(c: Climb, start: Id, ps: seq<Path>)
    requires c.Sound() && Distinct(ps)
    ensures Distinct(LeaveAll(c, start, ps))
  {
    if ps != [] {
      LeaveAllDistinct(c, start, ps[1..]);
      var head, tail := Leave(ps[0], c.exits(Top(start, ps[0]))), LeaveAll(c, start, ps[1..]);
      LeaveDistinct(ps[0], c.exits(Top(start, ps[0])));
      forall choice | choice in head ensures choice !in tail {
        LeaveMember(ps[0], c.exits(Top(start, ps[0])), choice);
        LeaveAllMember(c, start, ps[1..], choice);
      }
      DistinctAppend(head, tail);
    }
  }

  predicate NoDeeper(x: Choice, y: Choice) { |x.0| <= |y.0| }

  predicate Deep(x: Choice, n: nat) { |x.0| == n }

  predicate Within(x: Choice, n: nat) { |x.0| <= n }

  ghost predicate DepthsSorted(choices: seq<Choice>) {
    forall i, j {:trigger NoDeeper(choices[i], choices[j])} ::
      0 <= i < j < |choices| ==> NoDeeper(choices[i], choices[j])
  }

  ghost predicate AllDeep(choices: seq<Choice>, n: nat) {
    forall k {:trigger Deep(choices[k], n)} :: 0 <= k < |choices| ==> Deep(choices[k], n)
  }

  /** Sorted by depth, and nowhere deeper than n. */
  ghost predicate SortedUpTo(choices: seq<Choice>, n: nat) {
    DepthsSorted(choices) && forall k {:trigger Within(choices[k], n)} :: 0 <= k < |choices| ==> Within(choices[k], n)
  }

  lemma LeaveLevelDeep(c: Climb, start: Id, n: nat)
    ensures AllDeep(LeaveAll(c, start, Level(c, start, n)), n)
  {
    var choices := LeaveAll(c, start, Level(c, start, n));
    forall k | 0 <= k < |choices| ensures Deep(choices[k], n) {
      assert choices[k] in choices;
      LeaveAllMember(c, start, Level(c, start, n), choices[k]);
      LevelMember(c, start, n, choices[k].0);
    }
  }

  lemma SortedConcat(before: seq<Choice>, now: seq<Choice>, n: nat)
    requires n > 0 && SortedUpTo(before, n - 1) && AllDeep(now, n)
    ensures SortedUpTo(before + now, n)
  {
    var all := before + now;
    forall k | 0 <= k < |all| ensures Within(all[k], n) {
      assert if k < |before| then Within(before[k], n - 1) else Deep(now[k - |before|], n);
    }
    forall i, j | 0 <= i < j < |all| ensures NoDeeper(all[i], all[j]) {
      if j < |before| {
        assert NoDeeper(before[i], before[j]);
      } else {
        assert Deep(now[j - |before|], n) && Within(all[i], n);
      }
    }
  }

  lemma DeepIsSorted(choices: seq<Choice>, n: nat)
    requires AllDeep(choices, n)
    ensures SortedUpTo(choices, n)
  {
    forall k | 0 <= k < |choices| ensures Within(choices[k], n) {
      assert Deep(choices[k], n);
    }
    forall i, j | 0 <= i < j < |choices| ensures NoDeeper(choices[i], choices[j]) {
      assert Deep(choices[i], n) && Deep(choices[j], n);
    }
  }

  lemma LeaveLevelsStep(c: Climb, start: Id, n: nat)
    requires n > 0
    ensures LeaveAll(c, start, Levels(c, start, n)) ==
            LeaveAll(c, start, Levels(c, start, n - 1)) + LeaveAll(c, start, Level(c, start, n))
  {
    LeaveAllAppend(c, start, Levels(c, start, n - 1), Level(c, start, n));
  }

  lemma {:induction false} LeaveLevelsSorted(c: Climb, start: Id, n: nat)
    ensures SortedUpTo(LeaveAll(c, start, Levels(c, start, n)), n)
    decreases n
  {
    LeaveLevelDeep(c, start, n);
    if n == 0 {
      DeepIsSorted(LeaveAll(c, start, Level(c, start, 0)), 0);
    } else {
      LeaveLevelsSorted(c, start, n - 1);
      LeaveLevelsStep(c, start, n);
      SortedConcat(LeaveAll(c, start, Levels(c, start, n - 1)), LeaveAll(c, start, Level(c, start, n)), n);
    }
  }

  lemma {:induction false} LeaveAllAppend(c: Climb, start: Id, ps: seq<Path>, qs: seq<Path>)
    ensures LeaveAll(c, start, ps + qs) == LeaveAll(c, start, ps) + LeaveAll(c, start, qs)
  {
    if ps == [] {
      assert ps + qs == qs;
    } else {
      assert (ps + qs)[0] == ps[0] && (ps + qs)[1..] == ps[1..] + qs;
      LeaveAllAppend(c, start, ps[1..], qs);
    }
  }

  lemma {:induction false} ExtendAllAppend(c: Climb, start: Id, ps: seq<Path>, qs: seq<Path>)
    ensures ExtendAll(c, start, ps + qs) == ExtendAll(c, start, ps) + ExtendAll(c, start, qs)
  {
    if ps == [] {
      assert ps + qs == qs;
    } else {
      assert (ps + qs)[0] == ps[0] && (ps + qs)[1..] == ps[1..] + qs;
      ExtendAllAppend(c, start, ps[1..], qs);
    }
  }

  /**
   On every BOM, cyclic ones included: the choices are exactly the simple climbing paths paired with the
   product edges at their top, no choice appears twice, and depths never decrease.
   */
  lemma UpChoicesExact(c: Climb, start: Id)
    requires c.Sound()
    ensures forall choice :: choice in UpChoices(c, start) <==>
              SimplePath(c, start, choice.0) && choice.1 in c.exits(Top(start, choice.0))
    ensures Distinct(UpChoices(c, start))
    ensures DepthsSorted(UpChoices(c, start))
  {
    var ps := Levels(c, start, c.Bound());
    forall choice
      ensures choice in UpChoices(c, start) <==>
              SimplePath(c, start, choice.0) && choice.1 in c.exits(Top(start, choice.0))
    {
      LeaveAllMember(c, start, ps, choice);
      LevelsMember(c, start, c.Bound(), choice.0);
      if SimplePath(c, start, choice.0) {
        SimplePathBound(c, start, choice.0);
      }
    }
    LevelsDistinct(c, start, c.Bound());
    LeaveAllDistinct(c, start, ps);
    LeaveLevelsSorted(c, start, c.Bound());
  }
}
