/**
 The working-set file as an object: the tolerant reader, the deduplicating loop, the atomic rewrite and
 the append with its fast path, each proved against the fold over records; and what a single writer's
 whole history leaves in the file.
 */
module WorkingSetFile {
  import opened Sequences
  import opened WorkingSet
  import opened WorkingSetBatches
  import Temporal

  // ---- the index dictionary ----

  /** The dictionary knows exactly the identities of ds, each at its position. */
  ghost predicate Indexes(index: map<Identity, nat>, ds: seq<Record>) {
    && (forall id :: id in index <==> Has(ds, id))
    && (forall id :: id in index ==> index[id] < |ds| && Identify(ds[index[id]]) == id)
  }

  lemma IndexesIndexOf(index: map<Identity, nat>, ds: seq<Record>, id: Identity)
    requires Indexes(index, ds) && UniqueIds(ds) && id in index
    ensures Has(ds, id) && index[id] == IndexOf(ds, id)
  {
    IndexUnique(ds, index[id]);
  }

  lemma IndexesSnoc(index: map<Identity, nat>, ds: seq<Record>, r: Record)
    requires Indexes(index, ds) && Identify(r) !in index && UniqueIds(ds)
    ensures Indexes(index[Identify(r) := |ds|], ds + [r])
  {
    FoldOneUnique(ds, r);
    assert FoldOne(ds, r) == ds + [r];
  }

  lemma IndexesUpdate(index: map<Identity, nat>, ds: seq<Record>, i: nat, m: Record)
    requires Indexes(index, ds) && i < |ds| && Identify(m) == Identify(ds[i])
    ensures Indexes(index, ds[i := m])
  {
    var es := ds[i := m];
    assert forall k :: 0 <= k < |ds| ==> Identify(es[k]) == Identify(ds[k]);
    forall id ensures Has(es, id) <==> Has(ds, id) {
      if k :| 0 <= k < |ds| && Identify(ds[k]) == id {
        assert Identify(es[k]) == id;
      }
    }
  }

  lemma DuplicatesSnoc(rs: seq<Record>, k: nat)
    requires k < |rs|
    ensures Duplicates(rs[..k + 1]) <==> Duplicates(rs[..k]) || Has(rs[..k], Identify(rs[k]))
  {
    var pre, all := rs[..k], rs[..k + 1];
    assert forall i :: 0 <= i < k ==> pre[i] == all[i];
    if i, j :| 0 <= i < j < |all| && Identify(all[i]) == Identify(all[j]) {
      if j < k {
        assert Identify(pre[i]) == Identify(pre[j]);
      } else {
        assert Identify(pre[i]) == Identify(rs[k]);
      }
    }
    if i, j :| 0 <= i < j < |pre| && Identify(pre[i]) == Identify(pre[j]) {
      assert Identify(all[i]) == Identify(all[j]);
    }
    if i :| 0 <= i < |pre| && Identify(pre[i]) == Identify(rs[k]) {
      assert Identify(all[i]) == Identify(all[k]);
    }
  }

  /** Where the loop of `_dedupe` stands after k records. */
  ghost predicate DedupeState(records: seq<Record>, k: nat, deduped: seq<Record>, changed: bool,
                              index: map<Identity, nat>)
    requires k <= |records|
  {
    && deduped == Dedupe(records[..k]) && UniqueIds(deduped)
    && changed == Duplicates(records[..k])
    && Indexes(index, deduped)
  }

  lemma DedupeStep(records: seq<Record>, k: nat, deduped: seq<Record>, changed: bool, index: map<Identity, nat>)
    requires k < |records| && DedupeState(records, k, deduped, changed, index)
    ensures Dedupe(records[..k + 1]) == FoldOne(deduped, records[k]) && UniqueIds(FoldOne(deduped, records[k]))
    ensures Identify(records[k]) in index <==> Has(deduped, Identify(records[k]))
    ensures Duplicates(records[..k + 1]) <==> changed || Identify(records[k]) in index
  {
    assert records[..k + 1] == records[..k] + [records[k]];
    FoldSnoc([], records[..k], records[k]);
    FoldUnique([], records[..k]);
    FoldOneUnique(deduped, records[k]);
    DuplicatesSnoc(records, k);
  }

  lemma DedupeKnown(records: seq<Record>, k: nat, deduped: seq<Record>, changed: bool, index: map<Identity, nat>)
    requires k < |records| && DedupeState(records, k, deduped, changed, index) && Identify(records[k]) in index
    ensures index[Identify(records[k])] < |deduped|
    ensures var r, i := records[k], index[Identify(records[k])];
            DedupeState(records, k + 1, if Wins(r, deduped[i]) then deduped[i := Merge(deduped[i], r)]
                        else deduped, true, index)
  {
    var r := records[k];
    DedupeStep(records, k, deduped, changed, index);
    IndexesIndexOf(index, deduped, Identify(r));
    var i := index[Identify(r)];
    if Wins(r, deduped[i]) {
      IndexesUpdate(index, deduped, i, Merge(deduped[i], r));
    }
  }

  lemma DedupeNew(records: seq<Record>, k: nat, deduped: seq<Record>, changed: bool, index: map<Identity, nat>)
    requires k < |records| && DedupeState(records, k, deduped, changed, index) && Identify(records[k]) !in index
    ensures DedupeState(records, k + 1, deduped + [records[k]], changed, index[Identify(records[k]) := |deduped|])
  {
    DedupeStep(records, k, deduped, changed, index);
    IndexesSnoc(index, deduped, records[k]);
  }

  /** `_dedupe`: one pass with a dictionary, in file order. */
  method DedupeRecords(records: seq<Record>) returns (deduped: seq<Record>, changed: bool)
    ensures deduped == Dedupe(records)
    ensures changed <==> Duplicates(records)
  {
    var index: map<Identity, nat> := map[];
    deduped, changed := [], false;
    assert records[..0] == [];
    for k := 0 to |records|
      invariant DedupeState(records, k, deduped, changed, index)
    {
      var r := records[k];
      var id := Identify(r);
      if id in index {
        DedupeKnown(records, k, deduped, changed, index);
        changed := true;
        var i := index[id];
        if Wins(r, deduped[i]) {
          deduped := deduped[i := Merge(deduped[i], r)];
        }
      } else {
        DedupeNew(records, k, deduped, changed, index);
        index := index[id := |deduped|];
        deduped := deduped + [r];
      }
    }
    assert records[..|records|] == records;
  }

  /** Records of other identities leave an entry alone. */
  lemma {:induction false} FoldUntouched(ds: seq<Record>, rs: seq<Record>, i: nat)
    requires UniqueIds(ds) && i < |ds| && !Has(rs, Identify(ds[i]))
    ensures i < |Fold(ds, rs)| && Fold(ds, rs)[i] == ds[i]
    decreases |rs|
  {
    if rs != [] {
      HasCons(rs, Identify(ds[i]));
      FoldOneUnique(ds, rs[0]);
      FoldUntouched(FoldOne(ds, rs[0]), rs[1..], i);
    }
  }

  lemma SupersedesSnoc(ds: seq<Record>, rs: seq<Record>, k: nat)
    requires k < |rs|
    ensures Supersedes(ds, rs[..k + 1]) <==>
            (Supersedes(ds, rs[..k]) || (Has(ds, Identify(rs[k])) && Wins(rs[k], ds[IndexOf(ds, Identify(rs[k]))])))
  {
    var pre, all := rs[..k], rs[..k + 1];
    assert forall i :: 0 <= i < k ==> pre[i] == all[i];
    assert all[k] == rs[k];
  }

  /** Where the loop of `append_records` stands after k records of the deduplicated batch. */
  ghost predicate BatchState(known: seq<Record>, incoming: seq<Record>, k: nat, existing: seq<Record>,
                             appended: seq<Record>, superseded: bool, index: map<Identity, nat>)
    requires k <= |incoming|
  {
    && existing == Fold(known, incoming[..k]) && UniqueIds(existing)
    && appended == Unknown(known, incoming[..k])
    && superseded == Supersedes(known, incoming[..k])
    && Indexes(index, existing)
  }

  lemma BatchKnown(known: seq<Record>, incoming: seq<Record>, k: nat, existing: seq<Record>,
                   appended: seq<Record>, superseded: bool, index: map<Identity, nat>)
    requires UniqueIds(known) && UniqueIds(incoming) && k < |incoming| && Identify(incoming[k]) in index
    requires BatchState(known, incoming, k, existing, appended, superseded, index)
    ensures index[Identify(incoming[k])] < |existing|
    ensures var r, i := incoming[k], index[Identify(incoming[k])];
            if Wins(r, existing[i]) then
               BatchState(known, incoming, k + 1, existing[i := Merge(existing[i], r)], appended, true, index)
            else BatchState(known, incoming, k + 1, existing, appended, superseded, index)
  {
    var r, id := incoming[k], Identify(incoming[k]);
    StepFacts(known, incoming, k);
    FoldOneUnique(existing, r);
    IndexesIndexOf(index, existing, id);
    var i := index[id];
    assert appended + [] == appended;
    if Wins(r, existing[i]) {
      IndexesUpdate(index, existing, i, Merge(existing[i], r));
      assert FoldOne(existing, r) == existing[i := Merge(existing[i], r)];
    } else {
      assert FoldOne(existing, r) == existing;
    }
  }

  lemma BatchNew(known: seq<Record>, incoming: seq<Record>, k: nat, existing: seq<Record>,
                 appended: seq<Record>, superseded: bool, index: map<Identity, nat>)
    requires UniqueIds(known) && UniqueIds(incoming) && k < |incoming| && Identify(incoming[k]) !in index
    requires BatchState(known, incoming, k, existing, appended, superseded, index)
    ensures BatchState(known, incoming, k + 1, existing + [incoming[k]], appended + [incoming[k]], superseded,
                       index[Identify(incoming[k]) := |existing|])
  {
    var r := incoming[k];
    StepFacts(known, incoming, k);
    FoldOneUnique(existing, r);
    IndexesSnoc(index, existing, r);
    assert FoldOne(existing, r) == existing + [r];
  }

  /** The loop of `append_records` that folds the deduplicated batch into the records read. */
  method FoldBatch(known: seq<Record>, incoming: seq<Record>)
    returns (existing: seq<Record>, appended: seq<Record>, superseded: bool)
    requires UniqueIds(known) && UniqueIds(incoming)
    ensures existing == Fold(known, incoming)
    ensures appended == Unknown(known, incoming)
    ensures superseded <==> Supersedes(known, incoming)
  {
    var index: map<Identity, nat> := BuildIndex(known);
    existing, appended, superseded := known, [], false;
    assert incoming[..0] == [];
    for k := 0 to |incoming|
      invariant BatchState(known, incoming, k, existing, appended, superseded, index)
    {
      var r := incoming[k];
      var id := Identify(r);
      if id in index {
        BatchKnown(known, incoming, k, existing, appended, superseded, index);
        var i := index[id];
        if Wins(r, existing[i]) {
          existing := existing[i := Merge(existing[i], r)];
          superseded := true;
        }
      } else {
        BatchNew(known, incoming, k, existing, appended, superseded, index);
        index := index[id := |existing|];
        existing := existing + [r];
        appended := appended + [r];
      }
    }
    assert incoming[..|incoming|] == incoming;
  }

  /** A record of a deduplicated batch meets the entry of its identity as it was before the batch. */
  lemma MeetsKnown(known: seq<Record>, incoming: seq<Record>, k: nat)
    requires UniqueIds(known) && UniqueIds(incoming) && k < |incoming|
    ensures var r, sofar := incoming[k], Fold(known, incoming[..k]);
            && (Has(sofar, Identify(r)) <==> Has(known, Identify(r)))
            && (Has(known, Identify(r)) ==> sofar[IndexOf(sofar, Identify(r))] == known[IndexOf(known, Identify(r))])
  {
    var r, pre := incoming[k], incoming[..k];
    FoldUnique(known, pre);
    EarlierDiffers(incoming, k);
    if Has(known, Identify(r)) {
      var i := IndexOf(known, Identify(r));
      FoldUntouched(known, pre, i);
      IndexUnique(Fold(known, pre), i);
    }
  }

  lemma StepFacts(known: seq<Record>, incoming: seq<Record>, k: nat)
    requires UniqueIds(known) && UniqueIds(incoming) && k < |incoming|
    ensures var r, sofar := incoming[k], Fold(known, incoming[..k]);
            && Fold(known, incoming[..k + 1]) == FoldOne(sofar, r)
            && Unknown(known, incoming[..k + 1]) ==
              Unknown(known, incoming[..k]) + (if Has(known, Identify(r)) then [] else [r])
            && (Supersedes(known, incoming[..k + 1]) <==>
                (Supersedes(known, incoming[..k]) ||
                  (Has(sofar, Identify(r)) && Wins(r, sofar[IndexOf(sofar, Identify(r))]))))
            && (Has(sofar, Identify(r)) <==> Has(known, Identify(r)))
  {
    var r, pre := incoming[k], incoming[..k];
    assert incoming[..k + 1] == pre + [r];
    FoldSnoc(known, pre, r);
    UnknownAppend(known, pre, [r]);
    assert [r][1..] == [];
    SupersedesSnoc(known, incoming, k);
    MeetsKnown(known, incoming, k);
  }

  method BuildIndex(ds: seq<Record>) returns (index: map<Identity, nat>)
    requires UniqueIds(ds)
    ensures Indexes(index, ds)
  {
    index := map[];
    assert ds[..0] == [];
    for k := 0 to |ds|
      invariant Indexes(index, ds[..k])
    {
      assert ds[..k + 1] == ds[..k] + [ds[k]];
      assert !Has(ds[..k], Identify(ds[k])) by {
        forall i | 0 <= i < k ensures Identify(ds[..k][i]) != Identify(ds[k]) {
          assert Identify(ds[i]) != Identify(ds[k]);
        }
      }
      IndexesSnoc(index, ds[..k], ds[k]);
      index := index[Identify(ds[k]) := k];
    }
    assert ds[..|ds|] == ds;
  }

  class RecordsFile {
    var content: File

    constructor ()
      ensures content == Missing
    {
      content := Missing;
    }

    /** The tolerant reader: unreadable lines are counted and skipped, never returned as records. */
    method ReadDetailed() returns (records: seq<Record>, invalid: nat)
      ensures records == Read(content)
      ensures invalid == if content.Lines? then InvalidOf(content.lines) else 0
    {
      records, invalid := [], 0;
      if content.Missing? {
        return;
      }
      var lines := content.lines;
      assert lines[..0] == [];
      for k := 0 to |lines|
        invariant records == RecordsOf(lines[..k])
        invariant invalid == InvalidOf(lines[..k])
      {
        assert lines[..k + 1] == lines[..k] + [lines[k]];
        RecordsOfAppend(lines[..k], [lines[k]]);
        assert [lines[k]][1..] == [];
        match lines[k]
        case Skipped =>
        case Unreadable => invalid := invalid + 1;
        case Entry(r) => records := records + [r];
      }
      assert lines[..|lines|] == lines;
    }

    /** The atomic rewrite, header first. */
    method WriteRecords(records: seq<Record>)
      modifies this
      ensures content == Perform(Rewrite(records), old(content))
      ensures Read(content) == records
    {
      content := Lines([Skipped] + Entries(records));
      RewriteReads(records);
    }

    /** Captures a batch. `oversized` is the result of the file size test. */
    method AppendRecords(batch: seq<Record>, oversized: bool)
      modifies this
      ensures content == AppendSpec(old(content), batch, oversized)
    {
      if batch == [] {
        return;
      }
      var incoming, _ := DedupeRecords(batch);
      var read, _ := ReadDetailed();
      var known, hadDuplicates := DedupeRecords(read);
      FoldUnique([], batch);
      FoldUnique([], read);
      var existing, appended, superseded := FoldBatch(known, incoming);
      var fileExists := content.Lines?;
      if superseded || (fileExists && oversized) || (fileExists && hadDuplicates) {
        WriteRecords(existing);
        return;
      }
      if appended == [] {
        return;
      }
      var chunk := Entries(appended);
      if !fileExists {
        chunk := [Skipped] + chunk;
      } else {
        assert [] + chunk == chunk;
      }
      content := Lines((if content.Lines? then content.lines else []) + chunk);
    }
  }

  // ---- a single writer's history ----

  /** The coordinate a record is ranked by: revision first, then capture time. */
  predicate CoordinateAtMost(a: Record, b: Record) {
    Rank(a) < Rank(b) || (Rank(a) == Rank(b) && TextAtMost(AsOf(a), AsOf(b)))
  }

  predicate SameCoordinate(a: Record, b: Record) { Rank(a) == Rank(b) && AsOf(a) == AsOf(b) }

  lemma CoordinateOrder(a: Record, b: Record, c: Record)
    ensures CoordinateAtMost(a, a)
    ensures CoordinateAtMost(a, b) && CoordinateAtMost(b, c) ==> CoordinateAtMost(a, c)
    ensures Wins(b, a) <==> CoordinateAtMost(a, b)
    ensures CoordinateAtMost(a, b) || CoordinateAtMost(b, a)
  {
    TextAtMostTotal(AsOf(a), AsOf(b));
    if TextAtMost(AsOf(a), AsOf(b)) && TextAtMost(AsOf(b), AsOf(c)) {
      TextAtMostTransitive(AsOf(a), AsOf(b), AsOf(c));
    }
  }

  /** r carries the greatest coordinate captured for its identity. */
  ghost predicate IsNewest(captured: seq<Record>, r: Record) {
    && (exists c {:trigger c in captured} :: c in captured && Identify(c) == Identify(r) && SameCoordinate(c, r))
    && (forall c {:trigger c in captured} :: c in captured && Identify(c) == Identify(r) ==> CoordinateAtMost(c, r))
  }

  /** ds holds one record per captured identity, each with the greatest coordinate captured. */
  ghost predicate Newest(captured: seq<Record>, ds: seq<Record>) {
    && UniqueIds(ds)
    && (forall id :: Has(ds, id) <==> Has(captured, id))
    && (forall k :: 0 <= k < |ds| ==> IsNewest(captured, ds[k]))
  }

  lemma IsNewestTogether(xs: seq<Record>, x: Record, ys: seq<Record>, y: Record)
    requires IsNewest(xs, x) && IsNewest(ys, y) && Identify(x) == Identify(y)
    ensures CoordinateAtMost(x, y) ==> IsNewest(xs + ys, Merge(x, y))
    ensures CoordinateAtMost(y, x) ==> IsNewest(xs + ys, x)
  {
    forall c | c in xs + ys && Identify(c) == Identify(x)
      ensures CoordinateAtMost(x, y) ==> CoordinateAtMost(c, y)
      ensures CoordinateAtMost(y, x) ==> CoordinateAtMost(c, x)
    {
      CoordinateOrder(c, x, y);
      CoordinateOrder(c, y, x);
    }
    var c :| c in xs && Identify(c) == Identify(x) && SameCoordinate(c, x);
    var d :| d in ys && Identify(d) == Identify(y) && SameCoordinate(d, y);
    assert c in xs + ys && d in xs + ys;
  }

  lemma IsNewestAlone(xs: seq<Record>, x: Record, ys: seq<Record>)
    requires IsNewest(xs, x) && !Has(ys, Identify(x))
    ensures IsNewest(xs + ys, x) && IsNewest(ys + xs, x)
  {
    var c :| c in xs && Identify(c) == Identify(x) && SameCoordinate(c, x);
    assert c in xs + ys && c in ys + xs;
    forall d | d in ys ensures Identify(d) != Identify(x) {
      var k :| 0 <= k < |ys| && ys[k] == d;
    }
  }

  lemma HasAppend(xs: seq<Record>, ys: seq<Record>, id: Identity)
    ensures Has(xs + ys, id) <==> Has(xs, id) || Has(ys, id)
  {
    if k :| 0 <= k < |xs| && Identify(xs[k]) == id {
      assert (xs + ys)[k] == xs[k];
    }
    if k :| 0 <= k < |ys| && Identify(ys[k]) == id {
      assert (xs + ys)[|xs| + k] == ys[k];
    }
  }

  /** What an identity holds on both sides, and what the two make of it together. */
  lemma StaysNewest(xs: seq<Record>, d: Option<Record>, ys: seq<Record>, e: Option<Record>, id: Identity)
    requires d.Some? || e.Some?
    requires d.Some? ==> IsNewest(xs, d.value) && Identify(d.value) == id
    requires e.Some? ==> IsNewest(ys, e.value) && Identify(e.value) == id
    requires d.None? ==> !Has(xs, id)
    requires e.None? ==> !Has(ys, id)
    ensures IsNewest(xs + ys, match e case None => d.value case Some(r) => Meet(d, r).value)
  {
    if e.None? {
      IsNewestAlone(xs, d.value, ys);
    } else if d.None? {
      IsNewestAlone(ys, e.value, xs);
    } else {
      IsNewestTogether(xs, d.value, ys, e.value);
      CoordinateOrder(d.value, e.value, e.value);
    }
  }

  /** Folding keeps, for every identity, the greatest coordinate of both sides. */
  lemma FoldNewest(xs: seq<Record>, ds: seq<Record>, ys: seq<Record>, es: seq<Record>)
    requires Newest(xs, ds) && Newest(ys, es)
    ensures Newest(xs + ys, Fold(ds, es))
  {
    var fs := Fold(ds, es);
    FoldUnique(ds, es);
    forall id ensures Has(fs, id) <==> Has(xs + ys, id) {
      HasAppend(xs, ys, id);
    }
    forall k | 0 <= k < |fs| ensures IsNewest(xs + ys, fs[k]) {
      var id := Identify(fs[k]);
      HeldAt(fs, k);
      FoldTwo(ds, es, id);
      StaysNewest(xs, Held(ds, id), ys, Held(es, id), id);
    }
  }

  /** The dedupe of any list of captures stores the greatest coordinate captured for each identity. */
  lemma {:induction false} DedupeNewest(rs: seq<Record>)
    ensures Newest(rs, Dedupe(rs))
  {
    if rs != [] {
      var init, r := rs[..|rs| - 1], rs[|rs| - 1];
      assert rs == init + [r];
      DedupeNewest(init);
      CoordinateOrder(r, r, r);
      assert [r][0] in [r] && IsNewest([r], r);
      FoldNewest(init, Dedupe(init), [r], [r]);
      FoldAppend([], init, [r]);
    }
  }

  datatype Capture = Capture(batch: seq<Record>, oversized: bool)

  /** One process appending batch after batch, with nobody else writing. */
  function WriterRun(f: File, captures: seq<Capture>): File
    decreases |captures|
  {
    if captures == [] then f
    else WriterRun(AppendSpec(f, captures[0].batch, captures[0].oversized), captures[1..])
  }

  function AllCaptured(captures: seq<Capture>): seq<Record> {
    if captures == [] then [] else captures[0].batch + AllCaptured(captures[1..])
  }

  /**
   Over any single-writer run from any file, with batches of any stamps, each captured identity is stored
   with the greatest (revision, as_of) ever captured for it; once something was captured the file holds
   one record per identity.
   */
  lemma SingleWriterNewest(f: File, captures: seq<Capture>)
    ensures Newest(Read(f) + AllCaptured(captures), Dedupe(Read(WriterRun(f, captures))))
    ensures AllCaptured(captures) != [] ==> UniqueIds(Read(WriterRun(f, captures)))
  {
    DedupeNewest(Read(f));
    forall g, h, batch, oversized
      ensures KeptByCapture(SettledClaim(), g, h, batch, oversized)
      ensures KeptByCapture(CleanClaim(), g, h, batch, oversized)
    {
      CaptureKeeps(g, h, batch, oversized);
    }
    RunInduction(SettledClaim(), f, captures, Read(f));
    RunInduction(CleanClaim(), f, captures, []);
    assert [] + AllCaptured(captures) == AllCaptured(captures);
    assert Settled(WriterRun(f, captures), Read(f) + AllCaptured(captures));
  }

  lemma CaptureKeeps(g: File, h: seq<Record>, batch: seq<Record>, oversized: bool)
    ensures KeptByCapture(SettledClaim(), g, h, batch, oversized)
    ensures KeptByCapture(CleanClaim(), g, h, batch, oversized)
  {
    if Settled(g, h) {
      WriterStep(g, batch, oversized, h);
    }
    CaptureCleans(g, batch, oversized);
    assert batch == [] ==> h + batch == h;
  }

  ghost predicate Settled(f: File, history: seq<Record>) { Newest(history, Dedupe(Read(f))) }

  ghost predicate Clean(f: File) { UniqueIds(Read(f)) }

  type Claim = (File, seq<Record>) -> bool

  ghost predicate KeptByCapture(claim: Claim, g: File, h: seq<Record>, batch: seq<Record>, oversized: bool) {
    claim(g, h) ==> claim(AppendSpec(g, batch, oversized), h + batch)
  }

  /** What holds of a file and the records captured so far, and is kept by every capture, holds of a whole run. */
  lemma {:induction false} RunInduction(claim: Claim, f: File, captures: seq<Capture>, history: seq<Record>)
    requires claim(f, history)
    requires forall g, h, batch, oversized :: KeptByCapture(claim, g, h, batch, oversized)
    ensures claim(WriterRun(f, captures), history + AllCaptured(captures))
    decreases |captures|
  {
    if captures == [] {
      assert history + [] == history;
    } else {
      var batch, rest := captures[0].batch, captures[1..];
      var g := AppendSpec(f, batch, captures[0].oversized);
      assert KeptByCapture(claim, f, history, batch, captures[0].oversized);
      RunInduction(claim, g, rest, history + batch);
      ConcatAssociates(history, batch, AllCaptured(rest));
    }
  }

  ghost function SettledClaim(): Claim { (f, history) => Settled(f, history) }

  ghost function CleanClaim(): Claim { (f, since) => since != [] ==> Clean(f) }

  lemma CaptureCleans(f: File, batch: seq<Record>, oversized: bool)
    ensures batch != [] || Clean(f) ==> Clean(AppendSpec(f, batch, oversized))
  {
    if batch != [] {
      AppendReads(f, batch, oversized);
      FoldUnique([], Read(f));
      FoldUnique([], batch);
      FoldUnique(Dedupe(Read(f)), Dedupe(batch));
    }
  }

  lemma WriterStep(f: File, batch: seq<Record>, oversized: bool, history: seq<Record>)
    requires Settled(f, history)
    ensures Settled(AppendSpec(f, batch, oversized), history + batch)
  {
    if batch == [] {
      assert history + batch == history;
    } else {
      AppendReads(f, batch, oversized);
      DedupeNewest(batch);
      var known, incoming := Dedupe(Read(f)), Dedupe(batch);
      FoldNewest(history, known, batch, incoming);
      DedupeUnique(Fold(known, incoming));
    }
  }

  /** At equal revisions `record_wins` compares capture times, though it compares the texts. */
  lemma TiesGoByTime(winner: Record, loser: Record, m: Temporal.Moment, n: Temporal.Moment)
    requires Rank(winner) == Rank(loser)
    requires Temporal.Writes(m, AsOf(winner)) && Temporal.Writes(n, AsOf(loser))
    ensures Wins(winner, loser) <==> Temporal.ClockTime(n) <= Temporal.ClockTime(m)
  {
    Temporal.TextOrderOfMoments(m, n);
    TextAtMostTotal(AsOf(loser), AsOf(winner));
    TextLessTrichotomy(AsOf(loser), AsOf(winner));
  }

  // ---- the batches a capture builds ----

  datatype Reading = Reading(subject: Subject, props: map<string, string>, body: string)

  /** The payload's own revision, else the caller's, else the fallback. */
  function EffectiveRevision(payload: Option<int>, explicit: Option<int>, fallback: Option<int>): Option<int> {
    if payload.Some? then payload else if explicit.Some? then explicit else fallback
  }

  /** Every reading of one payload is stamped alike. */
  method StampReadings(readings: seq<Reading>, payload: Option<int>, explicit: Option<int>, fallback: Option<int>,
                       digest: Option<string>, now: string)
    returns (batch: seq<Record>)
    ensures batch == Stamps(readings, EffectiveRevision(payload, explicit, fallback), digest, now)
    ensures |batch| == |readings| && forall k :: 0 <= k < |batch| ==>
              && batch[k].subject == readings[k].subject && batch[k].props == readings[k].props
              && batch[k].configDigest == digest && batch[k].asOf == Some(now)
              && (payload.Some? ==> batch[k].readRevision == payload)
              && (payload.None? && explicit.Some? ==> batch[k].readRevision == explicit)
              && (payload.None? && explicit.None? ==> batch[k].readRevision == fallback)
  {
    var revision := explicit;
    if payload.Some? {
      revision := payload;
    }
    if revision.None? {
      revision := fallback;
    }
    batch := [];
    for k := 0 to |readings|
      invariant batch == Stamps(readings[..k], revision, digest, now)
    {
      batch := batch + [Stamp(readings[k], revision, digest, now)];
    }
    assert readings[..|readings|] == readings;
  }

  function Stamp(reading: Reading, revision: Option<int>, digest: Option<string>, now: string): Record {
    Record(reading.subject, reading.props, reading.body, revision, digest, Some(now))
  }

  function Stamps(readings: seq<Reading>, revision: Option<int>, digest: Option<string>, now: string): (rs: seq<Record>)
    ensures |rs| == |readings| && forall k :: 0 <= k < |rs| ==> rs[k] == Stamp(readings[k], revision, digest, now)
  {
    seq(|readings|, k requires 0 <= k < |readings| => Stamp(readings[k], revision, digest, now))
  }

  /** So a capture always refines the simple fold, whatever the file held and whichever path ran. */
  lemma CaptureRefinesDedupe(f: File, readings: seq<Reading>, revision: Option<int>, digest: Option<string>,
                             now: string, oversized: bool)
    requires readings != []
    ensures var batch := Stamps(readings, revision, digest, now);
            Read(AppendSpec(f, batch, oversized)) == Dedupe(Read(f) + batch)
  {
    var batch := Stamps(readings, revision, digest, now);
    OneCoordinateIsHarmless(batch);
    AppendRefinesDedupe(f, batch, oversized);
  }
}
