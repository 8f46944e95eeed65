/**
 From impacted suppliers to impacted components: which components an incident reaches, whether a viable
 alternate source is left, and why a larger set of affected suppliers can only make matters worse.
 */
module SupplierCascade {
  import opened Sequences
  import opened Bom

  datatype Verdict = Contradict | Unsure | Support

  datatype AlternateState = AlternateViable | AlternateInScope | NoAlternate

  datatype SupplyEdge = SupplyEdge(supplier: Id, component: Id, qualification: string, activation: string, role: string)

  datatype Impact = Impact(incident: Id, supplier: Id)

  datatype CascadeItem = CascadeItem(state: AlternateState, verdict: Verdict)

  predicate Viable(e: SupplyEdge) {
    && e.qualification in {"qualified", "conditional"}
    && e.activation in {"active", "standby", "constrained"}
    && e.role != "inactive"
  }

  function Outside(affected: set<Id>): SupplyEdge -> bool { (e: SupplyEdge) => Viable(e) && e.supplier !in affected }
  function InScope(affected: set<Id>): SupplyEdge -> bool { (e: SupplyEdge) => Viable(e) && e.supplier in affected }
  function Hit(affected: set<Id>): SupplyEdge -> bool { (e: SupplyEdge) => e.supplier in affected }

  function AlternateStateAndVerdict(edges: seq<SupplyEdge>, affected: set<Id>): CascadeItem {
    if Filter(Outside(affected), edges) != [] then CascadeItem(AlternateViable, Unsure)
    else if |Filter(InScope(affected), edges)| > 1 then CascadeItem(AlternateInScope, Support)
    else CascadeItem(NoAlternate, Support)
  }

  /** The verdict counts only for components that are active, or whose lifecycle is not recorded. */
  function Judge(edges: seq<SupplyEdge>, affected: set<Id>, lifecycle: Option<string>): CascadeItem {
    var item := AlternateStateAndVerdict(edges, affected);
    if lifecycle in {None, Some("active")} then item else item.(verdict := Contradict)
  }

  // ---- the specification ----

  function ComponentIs(c: Id): SupplyEdge -> bool { (e: SupplyEdge) => e.component == c }

  function SuppliesOf(supplies: seq<SupplyEdge>, c: Id): seq<SupplyEdge> { Filter(ComponentIs(c), supplies) }

  /** The suppliers an incident affects. */
  function Affected(impacts: seq<Impact>, incident: Id): set<Id> {
    set i | i in impacts && i.incident == incident :: i.supplier
  }

  function LifecycleOf(lifecycles: map<Id, Option<string>>, c: Id): Option<string> {
    if c in lifecycles then lifecycles[c] else None
  }

  /** The incident affects a supplier of the component. */
  ghost predicate Reached(impacts: seq<Impact>, supplies: seq<SupplyEdge>, incident: Id, c: Id) {
    exists i, e {:trigger i in impacts, e in supplies} ::
      i in impacts && e in supplies && i.incident == incident && e.component == c && e.supplier == i.supplier
  }

  ghost predicate Correct(impacts: seq<Impact>, supplies: seq<SupplyEdge>, lifecycles: map<Id, Option<string>>,
                          items: map<(Id, Id), CascadeItem>, incident: Id, c: Id) {
    && ((incident, c) in items <==> Reached(impacts, supplies, incident, c))
    && ((incident, c) in items ==>
          items[(incident, c)] ==
            Judge(SuppliesOf(supplies, c), Affected(impacts, incident), LifecycleOf(lifecycles, c)))
  }

  lemma HitMeansReached(impacts: seq<Impact>, supplies: seq<SupplyEdge>, incident: Id, c: Id)
    ensures Filter(Hit(Affected(impacts, incident)), SuppliesOf(supplies, c)) != [] <==>
            Reached(impacts, supplies, incident, c)
  {
    var affected := Affected(impacts, incident);
    var hits := Filter(Hit(affected), SuppliesOf(supplies, c));
    if hits != [] {
      var e := hits[0];
      assert e in hits;
      FilterMember(Hit(affected), SuppliesOf(supplies, c), e);
      FilterMember(ComponentIs(c), supplies, e);
      var i :| i in impacts && i.incident == incident && i.supplier == e.supplier;
    }
    if i, e :| i in impacts && e in supplies && i.incident == incident && e.component == c && e.supplier == i.supplier {
      FilterMember(ComponentIs(c), supplies, e);
      FilterMember(Hit(affected), SuppliesOf(supplies, c), e);
    }
  }

  // ---- the two nested loops ----

  /** All incidents named by the impacts and all components named by the supplies, as pairs still to visit. */
  function Pairs(impacts: seq<Impact>, supplies: seq<SupplyEdge>): set<(Id, Id)> {
    set i, e | i in impacts && e in supplies :: (i.incident, e.component)
  }

  /** Every pair that was visited has its item, or none if the incident does not reach the component. */
  ghost predicate Visited(impacts: seq<Impact>, supplies: seq<SupplyEdge>, lifecycles: map<Id, Option<string>>,
                          items: map<(Id, Id), CascadeItem>, todo: set<(Id, Id)>)
  {
    && items.Keys <= Pairs(impacts, supplies) - todo
    && forall incident, c :: (incident, c) in Pairs(impacts, supplies) - todo ==>
         Correct(impacts, supplies, lifecycles, items, incident, c)
  }

  lemma VisitedNext(impacts: seq<Impact>, supplies: seq<SupplyEdge>, lifecycles: map<Id, Option<string>>,
                    before: map<(Id, Id), CascadeItem>, after: map<(Id, Id), CascadeItem>, todo: set<(Id, Id)>,
                    incident: Id, c: Id)
    requires Visited(impacts, supplies, lifecycles, before, todo)
    requires todo <= Pairs(impacts, supplies) && (incident, c) in todo
    requires after == if Reached(impacts, supplies, incident, c)
                      then before[(incident, c) := Judge(SuppliesOf(supplies, c), Affected(impacts, incident),
                                                         LifecycleOf(lifecycles, c))]
                      else before
    ensures Visited(impacts, supplies, lifecycles, after, todo - {(incident, c)})
  {
    forall i, d | (i, d) in Pairs(impacts, supplies) - (todo - {(incident, c)})
      ensures Correct(impacts, supplies, lifecycles, after, i, d)
    {
      if (i, d) != (incident, c) {
        assert Correct(impacts, supplies, lifecycles, before, i, d);
      }
    }
  }

  lemma AllVisited(impacts: seq<Impact>, supplies: seq<SupplyEdge>, lifecycles: map<Id, Option<string>>,
                   items: map<(Id, Id), CascadeItem>)
    requires Visited(impacts, supplies, lifecycles, items, {})
    ensures forall incident, c :: Correct(impacts, supplies, lifecycles, items, incident, c)
  {
    forall incident, c ensures Correct(impacts, supplies, lifecycles, items, incident, c) {
      if Reached(impacts, supplies, incident, c) {
        assert (incident, c) in Pairs(impacts, supplies);
      }
    }
  }

  /**
   Cascades every incident to every supplied component. Pairs are visited in no particular order; the
   source visits them sorted and sorts its rows again at the end.
   */
  method AssessComponentCascade(impacts: seq<Impact>, supplies: seq<SupplyEdge>, lifecycles: map<Id, Option<string>>)
    returns (items: map<(Id, Id), CascadeItem>)
    ensures forall incident, c :: Correct(impacts, supplies, lifecycles, items, incident, c)
  {
    items := map[];
    var todo := Pairs(impacts, supplies);
    while todo != {}
      invariant todo <= Pairs(impacts, supplies)
      invariant Visited(impacts, supplies, lifecycles, items, todo)
      decreases |todo|
    {
      var pair :| pair in todo;
      var (incident, c) := pair;
      var affected := Affected(impacts, incident);
      var edges := SuppliesOf(supplies, c);
      HitMeansReached(impacts, supplies, incident, c);
      ghost var before := items;
      if Filter(Hit(affected), edges) != [] {
        items := items[pair := Judge(edges, affected, LifecycleOf(lifecycles, c))];
      }
      VisitedNext(impacts, supplies, lifecycles, before, items, todo, incident, c);
      todo := todo - {pair};
    }
    AllVisited(impacts, supplies, lifecycles, items);
  }

  // ---- an item in terms of the payload's own fields ----

  /** A qualified or conditional source that is not switched off. */
  predicate Usable(e: SupplyEdge) {
    && (e.qualification == "qualified" || e.qualification == "conditional")
    && (e.activation == "active" || e.activation == "standby" || e.activation == "constrained")
    && e.role != "inactive"
  }

  ghost predicate Hurts(impacts: seq<Impact>, incident: Id, supplier: Id) {
    exists i :: i in impacts && i.incident == incident && i.supplier == supplier
  }

  /** A usable supply of the component whose supplier the incident does not affect. */
  ghost predicate WayOut(impacts: seq<Impact>, supplies: seq<SupplyEdge>, incident: Id, c: Id) {
    exists e :: e in supplies && e.component == c && Usable(e) && !Hurts(impacts, incident, e.supplier)
  }

  /** Two usable supplies of the component. */
  ghost predicate TwoSources(supplies: seq<SupplyEdge>, c: Id) {
    exists i, j :: 0 <= i < j < |supplies| && supplies[i].component == c && supplies[j].component == c &&
                   Usable(supplies[i]) && Usable(supplies[j])
  }

  ghost predicate Retired(lifecycles: map<Id, Option<string>>, c: Id) {
    c in lifecycles && lifecycles[c].Some? && lifecycles[c].value != "active"
  }

  predicate BothHold(p: SupplyEdge -> bool, q: SupplyEdge -> bool, e: SupplyEdge) { p(e) && q(e) }

  function Both(p: SupplyEdge -> bool, q: SupplyEdge -> bool): SupplyEdge -> bool { e => BothHold(p, q, e) }

  lemma {:induction false} FilterTwice(p: SupplyEdge -> bool, q: SupplyEdge -> bool, xs: seq<SupplyEdge>)
    ensures Filter(q, Filter(p, xs)) == Filter(Both(p, q), xs)
  {
    if xs != [] {
      FilterTwice(p, q, xs[1..]);
      var kept, rest := if p(xs[0]) then [xs[0]] else [], Filter(p, xs[1..]);
      FilterAppend(q, kept, rest);
      assert p(xs[0]) ==> kept[0] == xs[0] && kept[1..] == [];
    }
  }

  function UsableOnes(): SupplyEdge -> bool { (e: SupplyEdge) => Usable(e) }

  lemma TwoUsable(supplies: seq<SupplyEdge>, c: Id)
    ensures TwoSources(supplies, c) <==> |Filter(UsableOnes(), SuppliesOf(supplies, c))| > 1
  {
    FilterTwice(ComponentIs(c), UsableOnes(), supplies);
    CountInScope(Both(ComponentIs(c), UsableOnes()), supplies);
  }

  lemma WayOutIsOutside(impacts: seq<Impact>, supplies: seq<SupplyEdge>, incident: Id, c: Id)
    ensures WayOut(impacts, supplies, incident, c) <==>
            Filter(Outside(Affected(impacts, incident)), SuppliesOf(supplies, c)) != []
  {
    var outside := Filter(Outside(Affected(impacts, incident)), SuppliesOf(supplies, c));
    forall e ensures e in outside <==>
                     e in supplies && e.component == c && Usable(e) && !Hurts(impacts, incident, e.supplier) {
      FilterMember(Outside(Affected(impacts, incident)), SuppliesOf(supplies, c), e);
      FilterMember(ComponentIs(c), supplies, e);
    }
    assert outside != [] ==> outside[0] in outside;
  }

  lemma InScopeIsUsable(affected: set<Id>, edges: seq<SupplyEdge>)
    requires Filter(Outside(affected), edges) == []
    ensures |Filter(InScope(affected), edges)| == |Filter(UsableOnes(), edges)|
  {
    forall e | e in edges ensures InScope(affected)(e) == UsableOnes()(e) {
      FilterMember(Outside(affected), edges, e);
    }
    FilterSame(InScope(affected), UsableOnes(), edges);
  }

  lemma {:induction false} FilterSame(p: SupplyEdge -> bool, q: SupplyEdge -> bool, xs: seq<SupplyEdge>)
    requires forall e :: e in xs ==> p(e) == q(e)
    ensures Filter(p, xs) == Filter(q, xs)
  {
    if xs != [] {
      FilterSame(p, q, xs[1..]);
    }
  }

  lemma LifecycleMeaning(lifecycles: map<Id, Option<string>>, c: Id)
    ensures LifecycleOf(lifecycles, c) !in {None, Some("active")} <==> Retired(lifecycles, c)
  {
    var lifecycle := LifecycleOf(lifecycles, c);
    if lifecycle.Some? {
      assert lifecycle == Some("active") <==> lifecycle.value == "active";
    }
  }

  lemma JudgeMeaning(edges: seq<SupplyEdge>, affected: set<Id>, lifecycle: Option<string>)
    ensures var item, raw := Judge(edges, affected, lifecycle), AlternateStateAndVerdict(edges, affected);
            && item.state == raw.state
            && item.verdict == (if lifecycle !in {None, Some("active")} then Contradict else raw.verdict)
  {
  }

  /** Which verdict and alternate state an item of the cascade carries. */
  lemma ItemMeaning(impacts: seq<Impact>, supplies: seq<SupplyEdge>, lifecycles: map<Id, Option<string>>,
                    items: map<(Id, Id), CascadeItem>, incident: Id, c: Id)
    requires Correct(impacts, supplies, lifecycles, items, incident, c) && (incident, c) in items
    ensures var item := items[(incident, c)];
            && (item.verdict == Contradict <==> Retired(lifecycles, c))
            && (item.verdict == Unsure <==> !Retired(lifecycles, c) && WayOut(impacts, supplies, incident, c))
            && (item.state == AlternateViable <==> WayOut(impacts, supplies, incident, c))
            && (item.state == AlternateInScope <==>
                  !WayOut(impacts, supplies, incident, c) && TwoSources(supplies, c))
  {
    JudgeMeaning(SuppliesOf(supplies, c), Affected(impacts, incident), LifecycleOf(lifecycles, c));
    LifecycleMeaning(lifecycles, c);
    WayOutIsOutside(impacts, supplies, incident, c);
    TwoUsable(supplies, c);
    if !WayOut(impacts, supplies, incident, c) {
      InScopeIsUsable(Affected(impacts, incident), SuppliesOf(supplies, c));
    }
  }

  // ---- a larger incident ----

  lemma {:induction false} FilterEmptyWhenImplied(p: SupplyEdge -> bool, q: SupplyEdge -> bool, edges: seq<SupplyEdge>)
    requires forall e :: e in edges && q(e) ==> p(e)
    requires Filter(p, edges) == []
    ensures Filter(q, edges) == []
  {
    if edges != [] {
      FilterEmptyWhenImplied(p, q, edges[1..]);
    }
  }

  /** Enlarging the affected set never turns support into unsure, and never lowers a verdict at all. */
  lemma VerdictMonotone(edges: seq<SupplyEdge>, small: set<Id>, large: set<Id>, lifecycle: Option<string>)
    requires small <= large
    ensures Judge(edges, small, lifecycle).verdict == Support ==> Judge(edges, large, lifecycle).verdict == Support
    ensures Judge(edges, small, lifecycle).verdict == Contradict <==>
            Judge(edges, large, lifecycle).verdict == Contradict
  {
    if Filter(Outside(small), edges) == [] {
      FilterEmptyWhenImplied(Outside(small), Outside(large), edges);
    }
  }

  /** More impacts keep every impacted component, and keep its verdict at least as severe. */
  lemma CascadeMonotone(small: seq<Impact>, large: seq<Impact>, supplies: seq<SupplyEdge>,
                        lifecycles: map<Id, Option<string>>,
                        before: map<(Id, Id), CascadeItem>, after: map<(Id, Id), CascadeItem>, incident: Id, c: Id)
    requires forall i :: i in small ==> i in large
    requires Correct(small, supplies, lifecycles, before, incident, c)
    requires Correct(large, supplies, lifecycles, after, incident, c)
    requires (incident, c) in before
    ensures (incident, c) in after
    ensures before[(incident, c)].verdict == Support ==> after[(incident, c)].verdict == Support
    ensures before[(incident, c)].verdict == Contradict <==> after[(incident, c)].verdict == Contradict
  {
    assert Reached(large, supplies, incident, c) by {
      var i, e :| i in small && e in supplies && i.incident == incident && e.component == c && e.supplier == i.supplier;
      assert i in large;
    }
    VerdictMonotone(SuppliesOf(supplies, c), Affected(small, incident), Affected(large, incident),
                    LifecycleOf(lifecycles, c));
  }

  /** What the alternate state says: a viable supplier outside the incident, or several inside, or neither. */
  lemma AlternateStateMeaning(edges: seq<SupplyEdge>, affected: set<Id>)
    ensures AlternateStateAndVerdict(edges, affected).state == AlternateViable <==>
            exists e :: e in edges && Viable(e) && e.supplier !in affected
    ensures AlternateStateAndVerdict(edges, affected).verdict == Unsure <==>
            exists e :: e in edges && Viable(e) && e.supplier !in affected
    ensures AlternateStateAndVerdict(edges, affected).verdict != Contradict
    ensures AlternateStateAndVerdict(edges, affected).state == NoAlternate ==>
            forall i, j :: 0 <= i < j < |edges| ==> !(Viable(edges[i]) && Viable(edges[j]))
    ensures AlternateStateAndVerdict(edges, affected).state == AlternateInScope ==>
            exists i, j :: 0 <= i < j < |edges| && Viable(edges[i]) && Viable(edges[j])
  {
    var out := Filter(Outside(affected), edges);
    if out != [] {
      assert out[0] in out;
      FilterMember(Outside(affected), edges, out[0]);
    } else {
      forall e | e in edges ensures !(Viable(e) && e.supplier !in affected) {
        FilterMember(Outside(affected), edges, e);
      }
      CountInScope(InScope(affected), edges);
    }
  }

  lemma {:induction false} CountInScope<T(!new)>(keep: T -> bool, xs: seq<T>)
    ensures |Filter(keep, xs)| <= 1 ==> forall i, j :: 0 <= i < j < |xs| ==> !(keep(xs[i]) && keep(xs[j]))
    ensures |Filter(keep, xs)| > 1 ==> exists i, j :: 0 <= i < j < |xs| && keep(xs[i]) && keep(xs[j])
    ensures |Filter(keep, xs)| > 0 <==> exists i :: 0 <= i < |xs| && keep(xs[i])
  {
    if xs != [] {
      var rest := xs[1..];
      CountInScope(keep, rest);
      forall i | 0 <= i < |rest| ensures rest[i] == xs[i + 1] {}
      if |Filter(keep, xs)| > 1 {
        if |Filter(keep, rest)| > 1 {
          var i, j :| 0 <= i < j < |rest| && keep(rest[i]) && keep(rest[j]);
          assert keep(xs[i + 1]) && keep(xs[j + 1]);
        } else {
          var i :| 0 <= i < |rest| && keep(rest[i]);
          assert keep(xs[0]) && keep(xs[i + 1]);
        }
      }
      if |Filter(keep, xs)| <= 1 {
        forall i, j | 0 <= i < j < |xs| ensures !(keep(xs[i]) && keep(xs[j])) {
          assert xs[j] == rest[j - 1];
          if i > 0 {
            assert xs[i] == rest[i - 1];
          }
        }
      }
      if i :| 0 <= i < |rest| && keep(rest[i]) {
        assert keep(xs[i + 1]);
      }
      if i :| 0 <= i < |xs| && keep(xs[i]) && i > 0 {
        assert keep(rest[i - 1]);
      }
    }
  }
}
