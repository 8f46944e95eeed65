/**
 Which interleavings lose a captured identity: exactly the clearing of the file, damage to its only line,
 and a rewrite planned before the identity arrived.
 */
module WorkingSetLosses {
  import opened WorkingSet
  import opened WorkingSetRaces

  /** One event leads from each state to the next. */
  ghost predicate Leads(states: seq<State>, events: seq<Event>, i: nat)
    requires i < |events| && |states| == |events| + 1
  {
    states[i + 1] == Step(states[i], events[i])
  }

  /** The states the system passes through, from an initial one. */
  datatype History = History(states: seq<State>, events: seq<Event>) {
    ghost predicate Valid() {
      && |states| == |events| + 1 && states[0] == Initial(states[0].file)
      && forall i :: 0 <= i < |events| ==> Leads(states, events, i)
    }
  }

  lemma AtNext(h: History, i: nat)
    requires h.Valid() && i < |h.events|
    ensures h.states[i + 1] == Step(h.states[i], h.events[i])
  {
    assert Leads(h.states, h.events, i);
  }

  /** Every list of events has a history, and it ends as the run of these events does. */
  lemma HistoryOf(f: File, events: seq<Event>) returns (h: History)
    ensures h.Valid() && h.events == events && h.states[0] == Initial(f) &&
            h.states[|events|] == Run(Initial(f), events)
  {
    var states := StatesOf(Initial(f), events);
    h := History(states, events);
  }

  lemma {:induction false} StatesOf(s: State, events: seq<Event>) returns (states: seq<State>)
    ensures |states| == |events| + 1 && states[0] == s && states[|events|] == Run(s, events)
    ensures forall i :: 0 <= i < |events| ==> Leads(states, events, i)
    decreases |events|
  {
    if events == [] {
      states := [s];
    } else {
      var rest := StatesOf(Step(s, events[0]), events[1..]);
      states := [s] + rest;
      forall i | 0 <= i < |events| ensures Leads(states, events, i) {
        assert i > 0 ==> Leads(rest, events[1..], i - 1);
      }
    }
  }

  /** The file holds the identity after the first i events. */
  predicate Holds(h: History, i: nat, id: Identity)
    requires i < |h.states|
  {
    Has(Read(h.states[i].file), id)
  }

  // ---- what a process knows ----

  /** The process began as event b, with this batch, and has been running since up to event i. */
  ghost predicate Running(h: History, p: nat, b: nat, batch: seq<Record>, i: nat)
    requires h.Valid()
  {
    && b < i <= |h.events| && h.events[b] == Begin(p, batch) && batch != [] && p !in h.states[b].processes
    && forall j :: b < j <= i ==> p in h.states[j].processes
  }

  lemma {:induction false} ProcessBegan(h: History, i: nat, p: nat) returns (b: nat, batch: seq<Record>)
    requires h.Valid() && i <= |h.events| && p in h.states[i].processes
    ensures Running(h, p, b, batch, i)
  {
    assert i > 0;
    AtNext(h, i - 1);
    if p in h.states[i - 1].processes {
      b, batch := ProcessBegan(h, i - 1, p);
    } else {
      b, batch := i - 1, h.events[i - 1].batch;
    }
  }

  /** The phase is that of a process with this plan. */
  ghost predicate GoesBy(phase: Phase, plan: Plan) {
    phase == Planned(plan) || exists present, oversized :: phase == Decided(Decide(plan, present, oversized))
  }

  lemma StepKeepsPlan(s: State, e: Event, p: nat, plan: Plan)
    requires p in s.processes && p in Step(s, e).processes && GoesBy(s.processes[p], plan)
    ensures GoesBy(Step(s, e).processes[p], plan)
  {
  }

  /** Whatever others do meanwhile, a process goes by the file as it read it. */
  lemma {:induction false} GoesByItsRead(h: History, p: nat, b: nat, batch: seq<Record>, i: nat)
    requires h.Valid() && Running(h, p, b, batch, i)
    ensures GoesBy(h.states[i].processes[p], PlanFor(Read(h.states[b].file), batch))
    decreases i
  {
    AtNext(h, i - 1);
    if i - 1 > b {
      assert p in h.states[i - 1].processes;
      GoesByItsRead(h, p, b, batch, i - 1);
      StepKeepsPlan(h.states[i - 1], h.events[i - 1], p, PlanFor(Read(h.states[b].file), batch));
    }
  }

  // ---- the steps that lose an identity ----

  /** Line k is the only one of its identity. */
  predicate OnlyLine(lines: seq<Line>, k: nat, id: Identity) {
    && k < |lines| && lines[k].Entry? && Identify(lines[k].record) == id
    && forall j :: 0 <= j < |lines| && j != k && lines[j].Entry? ==> Identify(lines[j].record) != id
  }

  /** Process p rewrites the file as event i, but read it before the identity arrived and does not bring it itself. */
  ghost predicate Overtaken(h: History, p: nat, b: nat, batch: seq<Record>, i: nat, id: Identity)
    requires h.Valid()
  {
    && Running(h, p, b, batch, i)
    && h.states[i].processes[p].Decided? && h.states[i].processes[p].action.Rewrite?
    && !Holds(h, b, id) && !Has(batch, id) && Holds(h, i, id)
  }

  ghost predicate Loses(h: History, i: nat, id: Identity)
    requires h.Valid() && i < |h.events|
  {
    match h.events[i]
    case Clear => Holds(h, i, id)
    case Damage(k) => h.states[i].file.Lines? && OnlyLine(h.states[i].file.lines, k, id)
    case Write(p) => exists b, batch :: Overtaken(h, p, b, batch, i, id)
    case _ => false
  }

  lemma {:induction false} LinesHave(lines: seq<Line>, id: Identity)
    ensures Has(RecordsOf(lines), id) <==>
            exists k :: 0 <= k < |lines| && lines[k].Entry? && Identify(lines[k].record) == id
  {
    if lines != [] {
      var rest := lines[1..];
      LinesHave(rest, id);
      if lines[0].Entry? {
        HasCons(RecordsOf(lines), id);
        assert RecordsOf(lines)[1..] == RecordsOf(rest);
      } else {
        assert RecordsOf(lines) == RecordsOf(rest);
      }
      if k :| 0 <= k < |rest| && rest[k].Entry? && Identify(rest[k].record) == id {
        assert lines[k + 1] == rest[k];
      }
      if k :| 0 <= k < |lines| && lines[k].Entry? && Identify(lines[k].record) == id && k > 0 {
        assert rest[k - 1] == lines[k];
      }
    }
  }

  lemma DamageLosesExactly(lines: seq<Line>, k: nat, id: Identity)
    requires k < |lines|
    ensures Has(RecordsOf(lines), id) && !Has(RecordsOf(lines[k := Unreadable]), id) <==> OnlyLine(lines, k, id)
  {
    var after := lines[k := Unreadable];
    LinesHave(lines, id);
    LinesHave(after, id);
    assert forall j :: 0 <= j < |lines| && j != k ==> after[j] == lines[j];
  }

  lemma WriteLosesExactly(h: History, i: nat, p: nat, id: Identity)
    requires h.Valid() && i < |h.events| && h.events[i] == Write(p)
    ensures Holds(h, i, id) && !Holds(h, i + 1, id) <==>
            exists b, batch :: Overtaken(h, p, b, batch, i, id)
  {
    AtNext(h, i);
    var s := h.states[i];
    if p in s.processes && s.processes[p].Decided? {
      var b, batch := ProcessBegan(h, i, p);
      GoesByItsRead(h, p, b, batch, i);
      var before := h.states[b].file;
      var present, oversized :| s.processes[p].action == Decide(PlanFor(Read(before), batch), present, oversized);
      SurvivorsExactly(before, batch, present, oversized, s.file, id);
      forall c, other | Overtaken(h, p, c, other, i, id) ensures c == b {
        assert Running(h, p, c, other, i);
      }
      assert Overtaken(h, p, b, batch, i, id) <==>
             s.processes[p].action.Rewrite? && !Holds(h, b, id) && !Has(batch, id) && Holds(h, i, id);
    }
  }

  /** A step loses an identity from the file exactly in these three ways. */
  lemma LosesExactly(h: History, i: nat, id: Identity)
    requires h.Valid() && i < |h.events|
    ensures Holds(h, i, id) && !Holds(h, i + 1, id) <==> Loses(h, i, id)
  {
    AtNext(h, i);
    match h.events[i]
    case Write(p) => WriteLosesExactly(h, i, p, id);
    case Damage(k) =>
      var file := h.states[i].file;
      if file.Lines? && k < |file.lines| {
        DamageLosesExactly(file.lines, k, id);
      }
    case _ =>
  }

  // ---- whole runs ----

  /** Event i loses the identity and nothing brings it back. */
  ghost predicate LostFrom(h: History, i: nat, id: Identity)
    requires h.Valid()
  {
    i < |h.events| && Loses(h, i, id) && AbsentFrom(h, i + 1, id)
  }

  ghost predicate AbsentFrom(h: History, i: nat, id: Identity)
    requires h.Valid()
  {
    forall j :: i <= j <= |h.events| ==> !Holds(h, j, id)
  }

  /** The last position before n at which P holds. */
  lemma {:induction false} LastHeld(P: nat -> bool, from: nat, n: nat) returns (i: nat)
    requires from < n && P(from)
    ensures from <= i < n && P(i) && forall j :: i < j < n ==> !P(j)
    decreases n
  {
    if P(n - 1) {
      i := n - 1;
    } else {
      i := LastHeld(P, from, n - 1);
    }
  }

  ghost function Holding(h: History, id: Identity): nat -> bool {
    (i: nat) => i < |h.states| && Holds(h, i, id)
  }

  lemma LostIsGone(h: History, i: nat, id: Identity)
    requires h.Valid() && LostFrom(h, i, id)
    ensures !Holds(h, |h.events|, id)
  {
  }

  lemma LastHeldAt(h: History, from: nat, id: Identity) returns (i: nat)
    requires h.Valid() && from <= |h.events| && Holds(h, from, id) && !Holds(h, |h.events|, id)
    ensures from <= i < |h.events| && Holds(h, i, id) && AbsentFrom(h, i + 1, id)
  {
    var held := Holding(h, id);
    i := LastHeld(held, from, |h.events|);
    forall j | i + 1 <= j <= |h.events| ensures !Holds(h, j, id) {
      assert j < |h.events| ==> !held(j);
    }
  }

  lemma GoneIsLost(h: History, from: nat, id: Identity) returns (i: nat)
    requires h.Valid() && from <= |h.events| && Holds(h, from, id) && !Holds(h, |h.events|, id)
    ensures from <= i && LostFrom(h, i, id)
  {
    i := LastHeldAt(h, from, id);
    LosesExactly(h, i, id);
  }

  /** An identity once in the file is gone at the end of a run exactly if such a step lost it for good. */
  lemma GoneExactly(h: History, from: nat, id: Identity)
    requires h.Valid() && from <= |h.events| && Holds(h, from, id)
    ensures !Holds(h, |h.events|, id) <==> exists i :: from <= i && LostFrom(h, i, id)
  {
    forall i | LostFrom(h, i, id) ensures !Holds(h, |h.events|, id) {
      LostIsGone(h, i, id);
    }
    if !Holds(h, |h.events|, id) {
      var i := GoneIsLost(h, from, id);
    }
  }

  lemma CaptureArrives(h: History, p: nat, b: nat, batch: seq<Record>, w: nat, id: Identity)
    requires h.Valid() && Running(h, p, b, batch, w) && w < |h.events| && h.events[w] == Write(p)
    requires h.states[w].processes[p].Decided? && Has(batch, id)
    ensures Holds(h, b, id) || Holds(h, w + 1, id)
  {
    AtNext(h, w);
    GoesByItsRead(h, p, b, batch, w);
    var s, before := h.states[w], h.states[b].file;
    var present, oversized :| s.processes[p].action == Decide(PlanFor(Read(before), batch), present, oversized);
    SurvivorsExactly(before, batch, present, oversized, s.file, id);
    if s.processes[p].action.Nothing? {
      NothingNew(before, batch, present, oversized, id);
    }
  }

  lemma NothingNew(before: File, batch: seq<Record>, present: bool, oversized: bool, id: Identity)
    requires Decide(PlanFor(Read(before), batch), present, oversized).Nothing?
    ensures Has(batch, id) ==> Has(Read(before), id)
  {
    AppendActionIs(PlanFor(Read(before), batch), present, oversized);
    FoldUnique([], Read(before));
    FoldUnique([], batch);
    UnknownHas(Dedupe(Read(before)), Dedupe(batch), id);
  }

  /**
   A capture that ran to its write is gone at the end of the run, under whatever interleaving, exactly if
   some step since its process read the file lost its identity for good.
   */
  lemma CaptureLostExactly(h: History, p: nat, b: nat, batch: seq<Record>, w: nat, id: Identity)
    requires h.Valid() && Running(h, p, b, batch, w) && w < |h.events| && h.events[w] == Write(p)
    requires h.states[w].processes[p].Decided? && Has(batch, id)
    ensures !Holds(h, |h.events|, id) <==> exists i :: b <= i && LostFrom(h, i, id)
  {
    CaptureArrives(h, p, b, batch, w, id);
    forall i | LostFrom(h, i, id) ensures !Holds(h, |h.events|, id) {
      LostIsGone(h, i, id);
    }
    if !Holds(h, |h.events|, id) {
      var i := GoneIsLost(h, if Holds(h, b, id) then b else w + 1, id);
    }
  }
}
