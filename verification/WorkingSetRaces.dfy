/**
 Processes capturing into one working-set file without a lock: safety under every interleaving, what a
 race can lose, and how the next capture heals it.
 */
module WorkingSetRaces {
  import opened Sequences
  import opened WorkingSet
  import F = WorkingSetFile

  // A capture is three separate steps of its process: read the file and plan, look whether the file exists
  // and how large it is, and perform one atomic append or one atomic rename on the file as it has become by
  // then. In between any other process may take steps, the file may be cleared, and any line may be damaged.

  datatype Phase = Planned(plan: Plan) | Decided(action: Action)

  /** `captured` is the history: every record ever handed to `append_records`, and what the file first held. */
  datatype State = State(file: File, processes: map<nat, Phase>, captured: set<Record>)

  datatype Event =
    | Begin(pid: nat, batch: seq<Record>)
    | Look(pid: nat, oversized: bool)
    | Write(pid: nat)
    | Abandon(pid: nat)
    | Clear
    | Damage(line: nat)

  function Initial(f: File): State { State(f, map[], set r | r in Read(f)) }

  /** One step of the whole system; an event that is not enabled changes nothing. */
  function Step(s: State, e: Event): State {
    match e
    case Begin(p, batch) =>
      if p in s.processes || batch == [] then s
      else s.(processes := s.processes[p := Planned(PlanFor(Read(s.file), batch))],
              captured := s.captured + set r | r in batch)
    case Look(p, oversized) =>
      if p in s.processes && s.processes[p].Planned? then
        s.(processes := s.processes[p := Decided(Decide(s.processes[p].plan, s.file.Lines?, oversized))])
      else s
    case Write(p) =>
      if p in s.processes && s.processes[p].Decided? then
        s.(file := Perform(s.processes[p].action, s.file), processes := s.processes - {p})
      else s
    case Abandon(p) => s.(processes := s.processes - {p})
    case Clear => s.(file := Missing)
    case Damage(k) =>
      if s.file.Lines? && k < |s.file.lines| then s.(file := Lines(s.file.lines[k := Unreadable])) else s
  }

  function Run(s: State, events: seq<Event>): State
    decreases |events|
  {
    if events == [] then s else Run(Step(s, events[0]), events[1..])
  }

  lemma {:induction false} RunAppend(s: State, xs: seq<Event>, ys: seq<Event>)
    ensures Run(s, xs + ys) == Run(Run(s, xs), ys)
    decreases |xs|
  {
    if xs == [] {
      assert xs + ys == ys;
    } else {
      assert (xs + ys)[0] == xs[0] && (xs + ys)[1..] == xs[1..] + ys;
      RunAppend(Step(s, xs[0]), xs[1..], ys);
    }
  }

  // ---- honesty: nothing stale is ever stamped fresh ----

  /** A prop that was merged in was captured for the same subject at the same concrete revision and digest. */
  ghost predicate MergedIn(captured: set<Record>, r: Record, key: string, value: string) {
    exists d :: d in captured && SameReading(d, r) && key in d.props && d.props[key] == value
  }

  predicate SameReading(d: Record, r: Record) {
    && SameSubject(d.subject, r.subject)
    && d.readRevision.Some? && d.readRevision == r.readRevision
    && d.configDigest.Some? && d.configDigest == r.configDigest
  }

  /** r is the capture c, with all of c's props, and otherwise only props merged in. */
  ghost predicate HonestVia(captured: set<Record>, r: Record, c: Record) {
    && r == c.(props := r.props)
    && (forall k :: k in c.props ==> k in r.props && r.props[k] == c.props[k])
    && (forall k :: k in r.props && k !in c.props ==> MergedIn(captured, r, k, r.props[k]))
  }

  ghost predicate Honest(captured: set<Record>, r: Record) {
    exists c :: c in captured && HonestVia(captured, r, c)
  }

  ghost predicate AllHonest(captured: set<Record>, rs: seq<Record>) {
    forall r :: r in rs ==> Honest(captured, r)
  }

  lemma CapturesHonest(captured: set<Record>, r: Record)
    requires r in captured
    ensures Honest(captured, r)
  {
    assert HonestVia(captured, r, r);
  }

  lemma MergeHonest(captured: set<Record>, loser: Record, winner: Record)
    requires Honest(captured, loser) && Honest(captured, winner) && Identify(loser) == Identify(winner)
    ensures Honest(captured, Merge(loser, winner))
  {
    var m := Merge(loser, winner);
    var c :| c in captured && HonestVia(captured, winner, c);
    var d :| d in captured && HonestVia(captured, loser, d);
    forall k | k in m.props && k !in c.props ensures MergedIn(captured, m, k, m.props[k]) {
      if k in winner.props {
        assert MergedIn(captured, winner, k, winner.props[k]);
      } else if k in d.props {
        IdentifyExactly(d, m);
        assert SameReading(d, m);
      } else {
        assert MergedIn(captured, loser, k, loser.props[k]);
      }
    }
    assert HonestVia(captured, m, c);
  }

  lemma {:induction false} FoldHonest(captured: set<Record>, ds: seq<Record>, rs: seq<Record>)
    requires AllHonest(captured, ds) && AllHonest(captured, rs)
    ensures AllHonest(captured, Fold(ds, rs))
    decreases |rs|
  {
    if rs != [] {
      var r := rs[0];
      var next := FoldOne(ds, r);
      assert Honest(captured, r);
      if Has(ds, Identify(r)) {
        MergeHonest(captured, ds[IndexOf(ds, Identify(r))], r);
      }
      FoldHonest(captured, next, rs[1..]);
    }
  }

  lemma {:induction false} UnknownMember(ds: seq<Record>, rs: seq<Record>, r: Record)
    requires r in Unknown(ds, rs)
    ensures r in rs && !Has(ds, Identify(r))
  {
    if rs != [] && !(r == rs[0] && !Has(ds, Identify(r))) {
      UnknownMember(ds, rs[1..], r);
    }
  }

  ghost predicate PhaseHonest(captured: set<Record>, phase: Phase) {
    match phase
    case Planned(plan) => AllHonest(captured, plan.existing) && AllHonest(captured, plan.appended)
    case Decided(Rewrite(records)) => AllHonest(captured, records)
    case Decided(Append(lines)) => AllHonest(captured, RecordsOf(lines))
    case Decided(Nothing) => true
  }

  /** The invariant: the file and everything any process is about to write are honest. */
  ghost predicate SystemHonest(s: State) {
    && AllHonest(s.captured, Read(s.file))
    && (forall p :: p in s.processes ==> PhaseHonest(s.captured, s.processes[p]))
  }

  lemma PhaseGrows(captured: set<Record>, more: set<Record>, phase: Phase)
    requires captured <= more && PhaseHonest(captured, phase)
    ensures PhaseHonest(more, phase)
  {
    forall r | Honest(captured, r) ensures Honest(more, r) {}
  }

  lemma PlanHonest(captured: set<Record>, read: seq<Record>, batch: seq<Record>)
    requires AllHonest(captured, read) && forall r :: r in batch ==> r in captured
    ensures PhaseHonest(captured, Planned(PlanFor(read, batch)))
  {
    forall r | r in batch ensures Honest(captured, r) {
      CapturesHonest(captured, r);
    }
    FoldHonest(captured, [], read);
    FoldHonest(captured, [], batch);
    FoldHonest(captured, Dedupe(read), Dedupe(batch));
    forall r | r in Unknown(Dedupe(read), Dedupe(batch)) ensures Honest(captured, r) {
      UnknownMember(Dedupe(read), Dedupe(batch), r);
    }
  }

  lemma DecideHonest(captured: set<Record>, plan: Plan, present: bool, oversized: bool)
    requires PhaseHonest(captured, Planned(plan))
    ensures PhaseHonest(captured, Decided(Decide(plan, present, oversized)))
  {
    EntriesRoundTrip(plan.appended);
    RewriteReads(plan.appended);
    assert [] + Entries(plan.appended) == Entries(plan.appended);
  }

  lemma PerformHonest(captured: set<Record>, action: Action, f: File)
    requires PhaseHonest(captured, Decided(action)) && AllHonest(captured, Read(f))
    ensures AllHonest(captured, Read(Perform(action, f)))
  {
    match action
    case Rewrite(records) => RewriteReads(records);
    case Append(lines) => RecordsOfAppend(if f.Lines? then f.lines else [], lines);
    case Nothing =>
  }

  lemma {:induction false} DamageLoses(lines: seq<Line>, k: nat, r: Record)
    requires k < |lines| && r in RecordsOf(lines[k := Unreadable])
    ensures r in RecordsOf(lines)
  {
    if k == 0 {
      assert lines[k := Unreadable][1..] == lines[1..];
    } else {
      assert lines[k := Unreadable][1..] == lines[1..][k - 1 := Unreadable];
      if r in RecordsOf(lines[1..][k - 1 := Unreadable]) {
        DamageLoses(lines[1..], k - 1, r);
      }
    }
  }

  lemma BeginKeepsHonesty(s: State, p: nat, batch: seq<Record>)
    requires SystemHonest(s)
    ensures SystemHonest(Step(s, Begin(p, batch)))
  {
    var t := Step(s, Begin(p, batch));
    forall r | r in Read(s.file) ensures Honest(t.captured, r) {}
    if t != s {
      PlanHonest(t.captured, Read(s.file), batch);
    }
    forall q | q in t.processes ensures PhaseHonest(t.captured, t.processes[q]) {
      if q in s.processes {
        PhaseGrows(s.captured, t.captured, s.processes[q]);
      }
    }
  }

  lemma StepKeepsHonesty(s: State, e: Event)
    requires SystemHonest(s)
    ensures SystemHonest(Step(s, e))
  {
    match e
    case Begin(p, batch) => BeginKeepsHonesty(s, p, batch);
    case Look(p, oversized) =>
      if p in s.processes && s.processes[p].Planned? {
        DecideHonest(s.captured, s.processes[p].plan, s.file.Lines?, oversized);
      }
    case Write(p) =>
      if p in s.processes && s.processes[p].Decided? {
        PerformHonest(s.captured, s.processes[p].action, s.file);
      }
    case Abandon(p) =>
    case Clear =>
    case Damage(k) =>
      if s.file.Lines? && k < |s.file.lines| {
        forall r | r in RecordsOf(s.file.lines[k := Unreadable]) ensures Honest(s.captured, r) {
          DamageLoses(s.file.lines, k, r);
        }
      }
  }

  lemma {:induction false} RunKeepsHonesty(s: State, events: seq<Event>)
    requires SystemHonest(s)
    ensures SystemHonest(Run(s, events))
    decreases |events|
  {
    if events != [] {
      StepKeepsHonesty(s, events[0]);
      RunKeepsHonesty(Step(s, events[0]), events[1..]);
    }
  }

  /**
   Under every interleaving, every record in the file is a captured record but for its props, keeps all of
   that record's props, and each other prop was captured for the same identity at the same concrete
   revision and config digest.
   */
  lemma RacesStayHonest(f: File, events: seq<Event>)
    ensures var s := Run(Initial(f), events);
            forall r :: r in Read(s.file) ==> Honest(s.captured, r)
  {
    var s := Initial(f);
    forall r | r in Read(f) ensures Honest(s.captured, r) {
      CapturesHonest(s.captured, r);
    }
    RunKeepsHonesty(s, events);
  }

  // ---- what a race can lose ----

  /** Three steps with nobody in between are exactly one `append_records`. */
  lemma SoloIsAppend(s: State, p: nat, batch: seq<Record>, oversized: bool)
    requires p !in s.processes
    ensures Run(s, [Begin(p, batch), Look(p, oversized), Write(p)]).file == AppendSpec(s.file, batch, oversized)
  {
    var events := [Begin(p, batch), Look(p, oversized), Write(p)];
    var s1 := Step(s, events[0]);
    var s2 := Step(s1, events[1]);
    var s3 := Step(s2, events[2]);
    assert events[1..][0] == events[1] && events[1..][1..][0] == events[2] && events[1..][1..][1..] == [];
    assert Run(s, events) == Run(s1, events[1..]) == Run(s2, events[1..][1..]) == Run(s3, []);
  }

  /**
   Which identities a write leaves in the file, when its process read the file as `before` and finds it as
   `now`: a rewrite forgets exactly what arrived in between, an append keeps everything.
   */
  lemma SurvivorsExactly(before: File, batch: seq<Record>, present: bool, oversized: bool, now: File, id: Identity)
    ensures var action := Decide(PlanFor(Read(before), batch), present, oversized);
            Has(Read(Perform(action, now)), id) <==>
            (match action
             case Rewrite(_) => Has(Read(before), id) || Has(batch, id)
             case Append(_) => Has(Read(now), id) || (Has(batch, id) && !Has(Read(before), id))
             case Nothing => Has(Read(now), id))
  {
    var plan := PlanFor(Read(before), batch);
    var known, incoming := Dedupe(Read(before)), Dedupe(batch);
    FoldUnique([], Read(before));
    FoldUnique([], batch);
    FoldUnique(known, incoming);
    match Decide(plan, present, oversized)
    case Rewrite(records) => RewriteReads(records);
    case Append(lines) =>
      AppendedRecords(plan.appended, present);
      RecordsOfAppend(if now.Lines? then now.lines else [], lines);
      F.HasAppend(Read(now), plan.appended, id);
      UnknownHas(known, incoming, id);
    case Nothing =>
  }

  lemma AppendedRecords(appended: seq<Record>, present: bool)
    ensures RecordsOf((if present then [] else [Skipped]) + Entries(appended)) == appended
  {
    EntriesRoundTrip(appended);
    RewriteReads(appended);
    assert [] + Entries(appended) == Entries(appended);
  }

  lemma {:induction false} UnknownHas(ds: seq<Record>, rs: seq<Record>, id: Identity)
    ensures Has(Unknown(ds, rs), id) <==> Has(rs, id) && !Has(ds, id)
  {
    if rs != [] {
      UnknownHas(ds, rs[1..], id);
      HasCons(rs, id);
      var kept := if Has(ds, Identify(rs[0])) then [] else [rs[0]];
      F.HasAppend(kept, Unknown(ds, rs[1..]), id);
      assert Has(kept, id) <==> kept != [] && id == Identify(rs[0]) by {
        if kept != [] && id == Identify(rs[0]) {
          assert Identify(kept[0]) == id;
        }
      }
    }
  }

  /** r was captured, nobody cleared or damaged the file, and yet nothing of its identity is left. */
  ghost predicate Lost(f: File, events: seq<Event>, r: Record) {
    && r in Run(Initial(f), events).captured
    && !Has(Read(Run(Initial(f), events).file), Identify(r))
    && (forall e :: e in events ==> !e.Clear? && !e.Damage? && !e.Abandon?)
  }

  lemma LatePlan(a1: Record, a2: Record)
    requires Identify(a1) == Identify(a2) && Wins(a2, a1)
    ensures Decide(PlanFor([a1], [a2]), true, false).Rewrite?
  {
    DedupeUnique([a1]);
    DedupeUnique([a2]);
    EntryAlone(a1);
    assert Supersedes([a1], [a2]) by {
      assert Identify([a2][0]) == Identify([a1][0]);
    }
  }

  lemma EntryAlone(r: Record)
    ensures Has([r], Identify(r)) && [r][IndexOf([r], Identify(r))] == r
    ensures Read(Lines([Entry(r)])) == [r]
  {
    assert Identify([r][0]) == Identify(r);
    assert RecordsOf([Entry(r)]) == [r] + RecordsOf([Entry(r)][1..]) == [r];
  }

  /** A process about to rewrite, and after it a whole capture of another record by another process. */
  lemma RewriteLoses(f: File, a2: Record, b: Record, s: State)
    requires Identify(a2) != Identify(b) && !Has(Read(f), Identify(b))
    requires 0 in s.processes && 1 !in s.processes
    requires s.processes[0] == Decided(Decide(PlanFor(Read(f), [a2]), true, false))
    requires Decide(PlanFor(Read(f), [a2]), true, false).Rewrite?
    ensures var t := Run(s, [Begin(1, [b]), Look(1, false), Write(1), Write(0)]);
            b in t.captured && !Has(Read(t.file), Identify(b))
  {
    var rest := [Begin(1, [b]), Look(1, false), Write(1)];
    var t := Run(s, rest);
    RestKeepsProcess(s, b);
    assert rest + [Write(0)] == [Begin(1, [b]), Look(1, false), Write(1), Write(0)];
    RunAppend(s, rest, [Write(0)]);
    assert [Write(0)][1..] == [];
    assert Run(t, [Write(0)]) == Run(Step(t, Write(0)), []) == Step(t, Write(0));
    SurvivorsExactly(f, [a2], true, false, t.file, Identify(b));
    forall k | 0 <= k < |[a2]| ensures Identify([a2][k]) != Identify(b) {}
  }

  lemma PlannedAndLooked(s: State, r: Record)
    requires 0 !in s.processes && 1 !in s.processes && s.file.Lines?
    ensures var t := Run(s, [Begin(0, [r]), Look(0, false)]);
            0 in t.processes && 1 !in t.processes &&
              t.processes[0] == Decided(Decide(PlanFor(Read(s.file), [r]), true, false))
  {
    var events := [Begin(0, [r]), Look(0, false)];
    var s1 := Step(s, events[0]);
    var s2 := Step(s1, events[1]);
    assert events[1..][0] == events[1] && events[1..][1..] == [];
    assert Run(s, events) == Run(s1, events[1..]) == Run(s2, events[1..][1..]) == s2;
  }

  /** A race can lose a line: a rewrite planned before another process's append discards it. */
  lemma RacesCanLose()
    ensures exists f, events, r :: Lost(f, events, r)
  {
    var a1 := Record(Entity("asset", "a"), map[], "", Some(1), None, None);
    var a2, b := a1.(readRevision := Some(2)), a1.(subject := Entity("asset", "b"));
    var f := Lines([Entry(a1)]);
    var s0 := Initial(f);
    var s2 := Run(s0, [Begin(0, [a2]), Look(0, false)]);
    var rest := [Begin(1, [b]), Look(1, false), Write(1), Write(0)];
    var race := [Begin(0, [a2]), Look(0, false)];
    EntryAlone(a1);
    LatePlan(a1, a2);
    PlannedAndLooked(s0, a2);
    forall k | 0 <= k < |[a1]| ensures Identify([a1][k]) != Identify(b) {}
    RewriteLoses(f, a2, b, s2);
    RunAppend(s0, race, rest);
    assert Lost(f, race + rest, b);
  }

  lemma RestKeepsProcess(s: State, b: Record)
    requires 0 in s.processes && 1 !in s.processes
    ensures var t := Run(s, [Begin(1, [b]), Look(1, false), Write(1)]);
            0 in t.processes && t.processes[0] == s.processes[0] && b in t.captured
  {
    var events := [Begin(1, [b]), Look(1, false), Write(1)];
    var s1 := Step(s, events[0]);
    var s2 := Step(s1, events[1]);
    var s3 := Step(s2, events[2]);
    assert events[1..][0] == events[1] && events[1..][1..][0] == events[2] && events[1..][1..][1..] == [];
    assert Run(s, events) == Run(s1, events[1..]) == Run(s2, events[1..][1..]) == Run(s3, []);
    assert [b][0] in set r | r in [b];
  }

  /**
   And a race heals: whatever an interleaving left behind, duplicates included, one undisturbed capture
   leaves one honest record per identity, none older than what was in the file or the batch.
   */
  lemma OneCaptureHeals(f: File, events: seq<Event>, p: nat, batch: seq<Record>, oversized: bool)
    requires batch != [] && p !in Run(Initial(f), events).processes
    ensures var s := Run(Initial(f), events);
            var t := Run(s, [Begin(p, batch), Look(p, oversized), Write(p)]);
            && F.Newest(Read(s.file) + batch, Read(t.file))
            && (forall r :: r in Read(t.file) ==> Honest(t.captured, r))
  {
    var solo := [Begin(p, batch), Look(p, oversized), Write(p)];
    var s := Run(Initial(f), events);
    SoloIsAppend(s, p, batch, oversized);
    F.DedupeNewest(Read(s.file));
    F.WriterStep(s.file, batch, oversized, Read(s.file));
    F.CaptureCleans(s.file, batch, oversized);
    DedupeUnique(Read(AppendSpec(s.file, batch, oversized)));
    RunAppend(Initial(f), events, solo);
    RacesStayHonest(f, events + solo);
  }
}
