/**
 The agent-local working set: records of captured reads kept in one file, deduplicated by identity.
 JSON is taken as an exact round trip, so a file is a list of lines.
 */
module WorkingSet {
  import opened Sequences

  datatype Subject =
    | Entity(entityType: string, entityId: string)
    | Edge(relationship: string, fromType: string, fromId: string, toType: string, toId: string,
           edgeKey: Option<int>, claimId: Option<string>)

  /** `body` stands for the fields that are only carried along: lifecycle, review, receipts, source. */
  datatype Record = Record(subject: Subject, props: map<string, string>, body: string,
                           readRevision: Option<int>, configDigest: Option<string>, asOf: Option<string>)

  datatype Identity =
    | EntityIdentity(entityType: string, entityId: string)
    | ClaimIdentity(claimId: string)
    | TupleIdentity(relationship: string, fromType: string, fromId: string, toType: string, toId: string,
                    edgeKey: Option<int>)

  /** The dedupe key: an edge goes by its claim when it has one. */
  function Identify(r: Record): Identity {
    match r.subject
    case Entity(t, i) => EntityIdentity(t, i)
    case Edge(rel, ft, fi, tt, ti, key, claim) =>
      if claim.Some? && claim.value != "" then ClaimIdentity(claim.value) else TupleIdentity(rel, ft, fi, tt, ti, key)
  }

  /** A missing revision ranks below every revision from zero up. */
  function Rank(r: Record): int { match r.readRevision case Some(n) => n case None => -1 }

  function AsOf(r: Record): string { match r.asOf case Some(t) => t case None => "" }

  /** Newest revision wins; ties go to the latest `as_of`. */
  predicate Wins(winner: Record, loser: Record) {
    if Rank(winner) != Rank(loser) then Rank(winner) > Rank(loser) else TextAtMost(AsOf(loser), AsOf(winner))
  }

  /** Both records carry the same concrete revision and the same concrete config digest. */
  predicate SameCoordinates(a: Record, b: Record) {
    a.readRevision.Some? && a.readRevision == b.readRevision && a.configDigest.Some? && a.configDigest == b.configDigest
  }

  function Merge(loser: Record, winner: Record): Record {
    if SameCoordinates(winner, loser) then winner.(props := loser.props + winner.props) else winner
  }

  // ---- identity and precedence in terms of the record's own fields ----

  /** A claim id counts if it is there and not empty. */
  predicate Claimed(s: Subject)
    requires s.Edge?
  {
    s.claimId.Some? && s.claimId.value != ""
  }

  /** The same entity, the same claim, or without claims the same edge between the same ends under the same key. */
  predicate SameSubject(a: Subject, b: Subject) {
    if a.Entity? then b.Entity? && a.entityType == b.entityType && a.entityId == b.entityId
    else
      && b.Edge? && Claimed(a) == Claimed(b)
      && if Claimed(a) then a.claimId == b.claimId
         else
           && a.relationship == b.relationship && a.fromType == b.fromType && a.fromId == b.fromId
           && a.toType == b.toType && a.toId == b.toId && a.edgeKey == b.edgeKey
  }

  /** Two records share an identity exactly when they are about the same subject. */
  lemma IdentifyExactly(a: Record, b: Record)
    ensures Identify(a) == Identify(b) <==> SameSubject(a.subject, b.subject)
  {
  }

  /** The capture time is not before the other one; a missing or empty one is before all. */
  predicate NotBefore(time: Option<string>, other: Option<string>) {
    other in {None, Some("")} || (time.Some? && (other == time || TextLess(other.value, time.value)))
  }

  /** Between two concrete revisions the greater wins, a concrete one wins against none, else the time decides. */
  lemma WinsExactly(winner: Record, loser: Record)
    requires winner.readRevision.Some? ==> winner.readRevision.value >= 0
    requires loser.readRevision.Some? ==> loser.readRevision.value >= 0
    ensures Wins(winner, loser) <==>
            || (winner.readRevision.Some? && loser.readRevision.None?)
            || (winner.readRevision.Some? && loser.readRevision.Some? &&
                winner.readRevision.value > loser.readRevision.value)
            || (winner.readRevision == loser.readRevision && NotBefore(winner.asOf, loser.asOf))
  {
  }

  // ---- deduplication ----

  ghost predicate UniqueIds(rs: seq<Record>) {
    forall i, j :: 0 <= i < j < |rs| ==> Identify(rs[i]) != Identify(rs[j])
  }

  predicate Has(rs: seq<Record>, id: Identity) {
    exists i :: 0 <= i < |rs| && Identify(rs[i]) == id
  }

  function IndexOf(rs: seq<Record>, id: Identity): (i: nat)
    requires Has(rs, id)
    ensures i < |rs| && Identify(rs[i]) == id
  {
    if Identify(rs[0]) == id then 0
    else
      assert Has(rs[1..], id) by {
        var k :| 0 <= k < |rs| && Identify(rs[k]) == id;
        assert rs[1..][k - 1] == rs[k];
      }
      1 + IndexOf(rs[1..], id)
  }

  lemma IndexUnique(rs: seq<Record>, i: nat)
    requires UniqueIds(rs) && i < |rs|
    ensures Has(rs, Identify(rs[i])) && IndexOf(rs, Identify(rs[i])) == i
  {
    var k := IndexOf(rs, Identify(rs[i]));
    assert Identify(rs[k]) == Identify(rs[i]);
  }

  /** Folding one record into a list: supersede the entry of the same identity if it wins, else append. */
  function FoldOne(ds: seq<Record>, r: Record): seq<Record> {
    if Has(ds, Identify(r)) then
      var i := IndexOf(ds, Identify(r));
      if Wins(r, ds[i]) then ds[i := Merge(ds[i], r)] else ds
    else ds + [r]
  }

  function Fold(ds: seq<Record>, rs: seq<Record>): seq<Record>
    decreases |rs|
  {
    if rs == [] then ds else Fold(FoldOne(ds, rs[0]), rs[1..])
  }

  function Dedupe(rs: seq<Record>): seq<Record> { Fold([], rs) }

  lemma {:induction false} FoldAppend(ds: seq<Record>, xs: seq<Record>, ys: seq<Record>)
    ensures Fold(ds, xs + ys) == Fold(Fold(ds, xs), ys)
    decreases |xs|
  {
    if xs == [] {
      assert xs + ys == ys;
    } else {
      assert (xs + ys)[0] == xs[0] && (xs + ys)[1..] == xs[1..] + ys;
      FoldAppend(FoldOne(ds, xs[0]), xs[1..], ys);
    }
  }

  lemma FoldSnoc(ds: seq<Record>, xs: seq<Record>, x: Record)
    ensures Fold(ds, xs + [x]) == FoldOne(Fold(ds, xs), x)
  {
    FoldAppend(ds, xs, [x]);
    assert [x][1..] == [];
    assert Fold(Fold(ds, xs), [x]) == Fold(FoldOne(Fold(ds, xs), x), []);
  }

  lemma FoldOneUnique(ds: seq<Record>, r: Record)
    requires UniqueIds(ds)
    ensures UniqueIds(FoldOne(ds, r))
    ensures forall id :: Has(FoldOne(ds, r), id) <==> Has(ds, id) || id == Identify(r)
  {
    var es := FoldOne(ds, r);
    if Has(ds, Identify(r)) {
      assert |es| == |ds| && forall k :: 0 <= k < |ds| ==> Identify(es[k]) == Identify(ds[k]);
    } else {
      assert es[|ds|] == r && forall k :: 0 <= k < |ds| ==> es[k] == ds[k];
    }
    forall id ensures Has(es, id) <==> Has(ds, id) || id == Identify(r) {
      if k :| 0 <= k < |ds| && Identify(ds[k]) == id {
        assert Identify(es[k]) == id;
      }
      if k :| 0 <= k < |es| && Identify(es[k]) == id && k < |ds| {
        assert Identify(ds[k]) == id;
      }
    }
  }

  lemma {:induction false} FoldUnique(ds: seq<Record>, rs: seq<Record>)
    requires UniqueIds(ds)
    ensures UniqueIds(Fold(ds, rs))
    ensures forall id :: Has(Fold(ds, rs), id) <==> Has(ds, id) || Has(rs, id)
    decreases |rs|
  {
    if rs != [] {
      FoldOneUnique(ds, rs[0]);
      FoldUnique(FoldOne(ds, rs[0]), rs[1..]);
      forall id ensures Has(rs, id) <==> id == Identify(rs[0]) || Has(rs[1..], id) {
        HasCons(rs, id);
      }
    }
  }

  lemma HasCons(rs: seq<Record>, id: Identity)
    requires rs != []
    ensures Has(rs, id) <==> id == Identify(rs[0]) || Has(rs[1..], id)
  {
    if k :| 0 <= k < |rs| && Identify(rs[k]) == id && k > 0 {
      assert rs[1..][k - 1] == rs[k];
    }
    if k :| 0 <= k < |rs[1..]| && Identify(rs[1..][k]) == id {
      assert rs[k + 1] == rs[1..][k];
    }
  }

  /** Folding records of new identities only appends them. */
  lemma {:induction false} FoldFresh(ds: seq<Record>, rs: seq<Record>)
    requires UniqueIds(rs) && forall k :: 0 <= k < |rs| ==> !Has(ds, Identify(rs[k]))
    ensures Fold(ds, rs) == ds + rs
    decreases |rs|
  {
    if rs != [] {
      FoldFresh(ds + [rs[0]], rs[1..]);
      assert (ds + [rs[0]]) + rs[1..] == ds + rs;
    }
  }

  lemma DedupeUnique(rs: seq<Record>)
    requires UniqueIds(rs)
    ensures Dedupe(rs) == rs
  {
    FoldFresh([], rs);
    assert [] + rs == rs;
  }

  // ---- the file ----

  /** A line is a header or blank, unreadable or invalid, or holds a record. */
  datatype Line = Skipped | Unreadable | Entry(record: Record)

  datatype File = Missing | Lines(lines: seq<Line>)

  function RecordsOf(lines: seq<Line>): seq<Record> {
    if lines == [] then []
    else (if lines[0].Entry? then [lines[0].record] else []) + RecordsOf(lines[1..])
  }

  function InvalidOf(lines: seq<Line>): nat {
    if lines == [] then 0 else (if lines[0].Unreadable? then 1 else 0) + InvalidOf(lines[1..])
  }

  /** These are, in order, the positions of the lines that hold a record. */
  ghost predicate EntryPositions(lines: seq<Line>, at: seq<nat>) {
    && (forall i {:trigger at[i]} :: 0 <= i < |at| ==> at[i] < |lines| && lines[at[i]].Entry?)
    && (forall i, j :: 0 <= i < j < |at| ==> at[i] < at[j])
    && (forall k :: 0 <= k < |lines| && lines[k].Entry? ==> k in at)
  }

  lemma LinesSnoc(init: seq<Line>, last: Line)
    ensures RecordsOf(init + [last]) == RecordsOf(init) + (if last.Entry? then [last.record] else [])
    ensures InvalidOf(init + [last]) == InvalidOf(init) + (if last.Unreadable? then 1 else 0)
  {
    RecordsOfAppend(init, [last]);
    assert [last][1..] == [];
    assert RecordsOf([last]) == (if last.Entry? then [last.record] else []) + RecordsOf([]);
  }

  lemma PositionsSnoc(init: seq<Line>, last: Line, at: seq<nat>)
    requires EntryPositions(init, at)
    ensures EntryPositions(init + [last], if last.Entry? then at + [|init|] else at)
  {
    var lines, next := init + [last], if last.Entry? then at + [|init|] else at;
    forall k | 0 <= k < |lines| && lines[k].Entry? ensures k in next {
      if k < |init| {
        assert init[k] == lines[k];
      } else {
        assert next[|at|] == k;
      }
    }
  }

  /** The records stand at these positions. */
  ghost predicate StandAt(records: seq<Record>, lines: seq<Line>, at: seq<nat>) {
    && |records| == |at|
    && forall i {:trigger at[i]} :: 0 <= i < |at| ==> at[i] < |lines| && lines[at[i]] == Entry(records[i])
  }

  lemma StandSnoc(records: seq<Record>, init: seq<Line>, last: Line, at: seq<nat>)
    requires StandAt(records, init, at)
    ensures StandAt(records + (if last.Entry? then [last.record] else []), init + [last],
                    if last.Entry? then at + [|init|] else at)
  {
  }

  /** Reading returns the record of every such line, in order. */
  lemma {:induction false} ReadExactly(lines: seq<Line>) returns (at: seq<nat>)
    ensures EntryPositions(lines, at) && StandAt(RecordsOf(lines), lines, at)
  {
    if lines == [] {
      at := [];
    } else {
      var init, last := lines[..|lines| - 1], lines[|lines| - 1];
      var before := ReadExactly(init);
      assert lines == init + [last];
      LinesSnoc(init, last);
      PositionsSnoc(init, last, before);
      StandSnoc(RecordsOf(init), init, last, before);
      at := if last.Entry? then before + [|init|] else before;
    }
  }

  /** And it counts the lines that are there but cannot be read. */
  lemma {:induction false} InvalidExactly(lines: seq<Line>)
    ensures InvalidOf(lines) == |set k | 0 <= k < |lines| && lines[k].Unreadable?|
  {
    if lines != [] {
      var n := |lines| - 1;
      var init, last := lines[..n], lines[n];
      InvalidExactly(init);
      assert lines == init + [last];
      LinesSnoc(init, last);
      var before := set k | 0 <= k < n && init[k].Unreadable?;
      assert (set k | 0 <= k < |lines| && lines[k].Unreadable?) == if last.Unreadable? then before + {n} else before;
    }
  }

  /** The records a read returns. */
  function Read(f: File): seq<Record> {
    match f
    case Missing => []
    case Lines(lines) => RecordsOf(lines)
  }

  function Entries(rs: seq<Record>): (lines: seq<Line>)
    ensures |lines| == |rs| && forall k :: 0 <= k < |rs| ==> lines[k] == Entry(rs[k])
  {
    seq(|rs|, k requires 0 <= k < |rs| => Entry(rs[k]))
  }

  lemma {:induction false} RecordsOfAppend(xs: seq<Line>, ys: seq<Line>)
    ensures RecordsOf(xs + ys) == RecordsOf(xs) + RecordsOf(ys)
    ensures InvalidOf(xs + ys) == InvalidOf(xs) + InvalidOf(ys)
  {
    if xs == [] {
      assert xs + ys == ys;
    } else {
      assert (xs + ys)[0] == xs[0] && (xs + ys)[1..] == xs[1..] + ys;
      RecordsOfAppend(xs[1..], ys);
      ConcatAssociates(if xs[0].Entry? then [xs[0].record] else [], RecordsOf(xs[1..]), RecordsOf(ys));
    }
  }

  /** What is written is read back exactly, and nothing written is unreadable. */
  lemma {:induction false} EntriesRoundTrip(rs: seq<Record>)
    ensures RecordsOf(Entries(rs)) == rs && InvalidOf(Entries(rs)) == 0
  {
    if rs != [] {
      assert Entries(rs)[1..] == Entries(rs[1..]);
      EntriesRoundTrip(rs[1..]);
    }
  }

  // ---- one capture: plan, decide, perform ----

  /** What the records read so far and the batch amount to. */
  datatype Plan = Plan(existing: seq<Record>, appended: seq<Record>, superseded: bool, hadDuplicates: bool)

  datatype Action = Rewrite(records: seq<Record>) | Append(lines: seq<Line>) | Nothing

  /** The records of rs whose identity ds does not have. */
  function Unknown(ds: seq<Record>, rs: seq<Record>): seq<Record> {
    if rs == [] then [] else (if Has(ds, Identify(rs[0])) then [] else [rs[0]]) + Unknown(ds, rs[1..])
  }

  predicate Supersedes(ds: seq<Record>, rs: seq<Record>) {
    exists k :: 0 <= k < |rs| && Has(ds, Identify(rs[k])) && Wins(rs[k], ds[IndexOf(ds, Identify(rs[k]))])
  }

  predicate Duplicates(rs: seq<Record>) {
    exists i, j :: 0 <= i < j < |rs| && Identify(rs[i]) == Identify(rs[j])
  }

  function PlanFor(read: seq<Record>, batch: seq<Record>): Plan {
    var known, incoming := Dedupe(read), Dedupe(batch);
    Plan(Fold(known, incoming), Unknown(known, incoming), Supersedes(known, incoming), Duplicates(read))
  }

  /** A superseded record, duplicates in the file or an oversized file force a rewrite; else append what is new. */
  function Decide(plan: Plan, exists': bool, oversized: bool): Action {
    if plan.superseded || (exists' && oversized) || (exists' && plan.hadDuplicates) then Rewrite(plan.existing)
    else if plan.appended == [] then Nothing
    else Append((if exists' then [] else [Skipped]) + Entries(plan.appended))
  }

  /** The effect of one atomic rename or one atomic append on the file as it is at that moment. */
  function Perform(action: Action, f: File): File {
    match action
    case Rewrite(records) => Lines([Skipped] + Entries(records))
    case Append(lines) => Lines((if f.Lines? then f.lines else []) + lines)
    case Nothing => f
  }

  function AppendSpec(f: File, batch: seq<Record>, oversized: bool): File {
    if batch == [] then f else Perform(Decide(PlanFor(Read(f), batch), f.Lines?, oversized), f)
  }

  // ---- whichever path is taken, the file reads back as the fold ----

  lemma EarlierDiffers(rs: seq<Record>, j: nat)
    requires UniqueIds(rs) && j < |rs|
    ensures !Has(rs[..j], Identify(rs[j])) && UniqueIds(rs[..j])
  {
    forall k | 0 <= k < j ensures Identify(rs[..j][k]) != Identify(rs[j]) {
      assert rs[..j][k] == rs[k];
    }
  }

  lemma {:induction false} FoldWithoutWinners(ds: seq<Record>, rs: seq<Record>)
    requires UniqueIds(ds) && UniqueIds(rs) && !Supersedes(ds, rs)
    ensures Fold(ds, rs) == ds + Unknown(ds, rs)
    decreases |rs|
  {
    if rs != [] {
      var n := |rs| - 1;
      var init, r := rs[..n], rs[n];
      EarlierDiffers(rs, n);
      FoldWithoutWinners(ds, init);
      QuietStep(ds, init, r);
      assert rs == init + [r];
    }
  }

  lemma QuietStep(ds: seq<Record>, init: seq<Record>, r: Record)
    requires UniqueIds(ds) && !Has(init, Identify(r)) && Fold(ds, init) == ds + Unknown(ds, init)
    requires Has(ds, Identify(r)) ==> !Wins(r, ds[IndexOf(ds, Identify(r))])
    ensures Fold(ds, init + [r]) == ds + Unknown(ds, init + [r])
  {
    var sofar := Fold(ds, init);
    FoldSnoc(ds, init, r);
    UnknownAppend(ds, init, [r]);
    assert [r][1..] == [];
    FoldUnique(ds, init);
    if Has(ds, Identify(r)) {
      var i := IndexOf(ds, Identify(r));
      assert sofar[i] == ds[i];
      IndexUnique(sofar, i);
    }
  }

  lemma {:induction false} UnknownAppend(ds: seq<Record>, xs: seq<Record>, ys: seq<Record>)
    ensures Unknown(ds, xs + ys) == Unknown(ds, xs) + Unknown(ds, ys)
  {
    if xs == [] {
      assert xs + ys == ys;
    } else {
      assert (xs + ys)[0] == xs[0] && (xs + ys)[1..] == xs[1..] + ys;
      UnknownAppend(ds, xs[1..], ys);
    }
  }

  lemma DedupeAlreadyUnique(rs: seq<Record>)
    requires !Duplicates(rs)
    ensures UniqueIds(rs) && Dedupe(rs) == rs
  {
    DedupeUnique(rs);
  }

  lemma RewriteReads(rs: seq<Record>)
    ensures RecordsOf([Skipped] + Entries(rs)) == rs
  {
    EntriesRoundTrip(rs);
    RecordsOfAppend([Skipped], Entries(rs));
    assert RecordsOf([Skipped]) == RecordsOf([Skipped][1..]) == [];
  }

  lemma AppendActionReads(f: File, appended: seq<Record>)
    ensures Read(Perform(Append((if f.Lines? then [] else [Skipped]) + Entries(appended)), f)) == Read(f) + appended
  {
    EntriesRoundTrip(appended);
    if f.Lines? {
      assert [] + Entries(appended) == Entries(appended);
      RecordsOfAppend(f.lines, Entries(appended));
    } else {
      RewriteReads(appended);
      assert [] + ([Skipped] + Entries(appended)) == [Skipped] + Entries(appended);
      assert [] + appended == appended;
    }
  }

  /** Without a winner nothing but appending is needed, and something is appended if there is no file. */
  lemma QuietReads(f: File, batch: seq<Record>)
    requires batch != []
    requires !Supersedes(Dedupe(Read(f)), Dedupe(batch)) && !(f.Lines? && Duplicates(Read(f)))
    ensures Dedupe(Read(f)) == Read(f)
    ensures Fold(Dedupe(Read(f)), Dedupe(batch)) == Read(f) + Unknown(Dedupe(Read(f)), Dedupe(batch))
  {
    FoldUnique([], Read(f));
    FoldUnique([], batch);
    DedupeAlreadyUnique(Read(f));
    FoldWithoutWinners(Dedupe(Read(f)), Dedupe(batch));
  }

  lemma AppendActionIs(plan: Plan, exists': bool, oversized: bool)
    ensures var action := Decide(plan, exists', oversized);
            && (action.Rewrite? ==> action.records == plan.existing)
            && (!action.Rewrite? ==> !plan.superseded && !(exists' && plan.hadDuplicates))
            && (action.Nothing? ==> plan.appended == [])
            && (action.Append? ==> action.lines == (if exists' then [] else [Skipped]) + Entries(plan.appended))
  {
  }

  /** Reading back after any path gives the known records with the deduplicated batch folded in. */
  lemma AppendReads(f: File, batch: seq<Record>, oversized: bool)
    requires batch != []
    ensures Read(AppendSpec(f, batch, oversized)) == Fold(Dedupe(Read(f)), Dedupe(batch))
  {
    var plan := PlanFor(Read(f), batch);
    var action := Decide(plan, f.Lines?, oversized);
    AppendActionIs(plan, f.Lines?, oversized);
    if action.Rewrite? {
      RewriteReads(plan.existing);
    } else {
      QuietReads(f, batch);
      AppendActionReads(f, plan.appended);
      assert Read(f) + [] == Read(f);
    }
  }

  /** Some record of the deduplicated batch is about a known subject and wins against what is known of it. */
  predicate Outdates(known: seq<Record>, incoming: seq<Record>) {
    exists r, e {:trigger Wins(r, e)} ::
      r in incoming && e in known && SameSubject(r.subject, e.subject) && Wins(r, e)
  }

  predicate AboutKnown(known: seq<Record>, r: Record) {
    exists e :: e in known && SameSubject(r.subject, e.subject)
  }

  lemma HasBySubject(ds: seq<Record>, r: Record)
    ensures Has(ds, Identify(r)) <==> AboutKnown(ds, r)
  {
    if k :| 0 <= k < |ds| && Identify(ds[k]) == Identify(r) {
      IdentifyExactly(r, ds[k]);
    }
    if e :| e in ds && SameSubject(r.subject, e.subject) {
      IdentifyExactly(r, e);
      var k :| 0 <= k < |ds| && ds[k] == e;
    }
  }

  lemma SupersedesBySubject(known: seq<Record>, incoming: seq<Record>)
    requires UniqueIds(known)
    ensures Supersedes(known, incoming) <==> Outdates(known, incoming)
  {
    if Supersedes(known, incoming) {
      var k :| 0 <= k < |incoming| && Has(known, Identify(incoming[k])) &&
               Wins(incoming[k], known[IndexOf(known, Identify(incoming[k]))]);
      IdentifyExactly(incoming[k], known[IndexOf(known, Identify(incoming[k]))]);
    }
    if r, e :| r in incoming && e in known && SameSubject(r.subject, e.subject) && Wins(r, e) {
      IdentifyExactly(r, e);
      var k :| 0 <= k < |incoming| && incoming[k] == r;
      var i :| 0 <= i < |known| && known[i] == e;
      IndexUnique(known, i);
    }
  }

  lemma {:induction false} UnknownNone(ds: seq<Record>, rs: seq<Record>)
    ensures Unknown(ds, rs) == [] <==> forall r :: r in rs ==> AboutKnown(ds, r)
  {
    if rs != [] {
      UnknownNone(ds, rs[1..]);
      HasBySubject(ds, rs[0]);
      assert forall r :: r in rs <==> r == rs[0] || r in rs[1..];
    }
  }

  /**
   What a capture does to the lines of the file: it rewrites all of them if it outdates a known record, or if
   there is a file that is too large or holds an identity twice; otherwise it appends the records about new
   subjects, after a header if there was no file, and leaves the file alone if there are none.
   */
  lemma LinesExactly(f: File, batch: seq<Record>, oversized: bool)
    requires batch != []
    ensures var known, incoming := Dedupe(Read(f)), Dedupe(batch);
            AppendSpec(f, batch, oversized) ==
            if Outdates(known, incoming) || (f.Lines? && (oversized || Duplicates(Read(f))))
            then Lines([Skipped] + Entries(Fold(known, incoming)))
            else if forall r :: r in incoming ==> AboutKnown(known, r) then f
            else Lines((if f.Lines? then f.lines else [Skipped]) + Entries(Unknown(known, incoming)))
  {
    var known, incoming := Dedupe(Read(f)), Dedupe(batch);
    FoldUnique([], Read(f));
    SupersedesBySubject(known, incoming);
    UnknownNone(known, incoming);
    var entries := Entries(Unknown(known, incoming));
    assert [] + entries == entries && [] + ([Skipped] + entries) == [Skipped] + entries;
  }

  /** Every subject the file or the batch is about is read back once, and no other. */
  lemma SubjectsKept(f: File, batch: seq<Record>, oversized: bool)
    requires batch != []
    ensures var after := Read(AppendSpec(f, batch, oversized));
            && (forall r :: r in Read(f) || r in batch ==> AboutKnown(after, r))
            && (forall x :: x in after ==> AboutKnown(Read(f), x) || AboutKnown(batch, x))
            && (forall i, j :: 0 <= i < j < |after| ==> !SameSubject(after[i].subject, after[j].subject))
  {
    var after := Read(AppendSpec(f, batch, oversized));
    AppendReads(f, batch, oversized);
    FoldUnique([], Read(f));
    FoldUnique([], batch);
    FoldUnique(Dedupe(Read(f)), Dedupe(batch));
    forall r ensures AboutKnown(after, r) <==> AboutKnown(Read(f), r) || AboutKnown(batch, r) {
      HasBySubject(after, r);
      HasBySubject(Read(f), r);
      HasBySubject(batch, r);
    }
    forall x | x in after ensures AboutKnown(after, x) {
      SubjectItself(x);
    }
    forall r | r in Read(f) || r in batch ensures AboutKnown(after, r) {
      SubjectItself(r);
    }
    forall i, j | 0 <= i < j < |after| ensures !SameSubject(after[i].subject, after[j].subject) {
      IdentifyExactly(after[i], after[j]);
    }
  }

  lemma SubjectItself(r: Record)
    ensures SameSubject(r.subject, r.subject)
  {
  }

  /** Two edges without claims that differ only in their key are both read back after one capture. */
  lemma ParallelEdgesKept(f: File, a: Record, b: Record, oversized: bool)
    requires a.subject.Edge? && !Claimed(a.subject) && b.subject.Edge?
    requires b.subject == a.subject.(edgeKey := b.subject.edgeKey)
    requires a.subject.edgeKey != b.subject.edgeKey
    ensures exists x, y ::
              && x in Read(AppendSpec(f, [a, b], oversized)) && y in Read(AppendSpec(f, [a, b], oversized)) && x != y
              && SameSubject(x.subject, a.subject) && SameSubject(y.subject, b.subject)
              && x.subject.edgeKey == a.subject.edgeKey && y.subject.edgeKey == b.subject.edgeKey
  {
    var batch := [a, b];
    var after := Read(AppendSpec(f, batch, oversized));
    assert batch[0] == a && batch[1] == b;
    SubjectsKept(f, batch, oversized);
    var x := EdgeFound(after, a);
    var y := EdgeFound(after, b);
  }

  lemma EdgeFound(rs: seq<Record>, r: Record) returns (x: Record)
    requires AboutKnown(rs, r) && r.subject.Edge? && !Claimed(r.subject)
    ensures x in rs && SameSubject(x.subject, r.subject) && x.subject.edgeKey == r.subject.edgeKey
  {
    x :| x in rs && SameSubject(r.subject, x.subject);
  }
}
