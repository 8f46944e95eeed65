/**
 The attestation store: the object that appends to the two tables, and the loop that builds the summaries
 of many claims in one pass over the joined rows, proved to agree with the tallies of the log.
 */
module AttestationStore {
  import opened Sequences
  import opened Temporal
  import opened AttestationLog

  /** An attestation as it is handed in, with its times as UTC clocks. */
  datatype Observation = Observation(id: string, claim: ClaimKey, digest: string, stance: Stance, observed: Moment,
                                     recorded: Moment, actor: Actor, idempotencyKey: Option<string>, body: string)

  datatype Answer = Answer(id: string, attestationId: string, verdict: Verdict, recorded: Moment, body: string)

  function AttestationRow(o: Observation): Attestation
    requires Valid(o.observed) && Valid(o.recorded)
  {
    Attestation(o.id, o.claim, o.digest, o.stance, IsoFormat(o.observed), IsoFormat(o.recorded), o.actor,
                o.idempotencyKey, o.body)
  }

  function DispositionRow(d: Answer): Disposition
    requires Valid(d.recorded)
  {
    Disposition(d.id, d.attestationId, d.verdict, IsoFormat(d.recorded), d.body)
  }

  /** The row carries everything that was handed in, its times as text. */
  ghost predicate RecordsObservation(o: Observation, a: Attestation) {
    && a.id == o.id && a.claim == o.claim && a.digest == o.digest && a.stance == o.stance && a.actor == o.actor
    && a.idempotencyKey == o.idempotencyKey && a.body == o.body
    && Writes(o.observed, a.observedAt) && Writes(o.recorded, a.recordedAt)
  }

  /** The stored row has the same id, or answers the same idempotency key of the same actor on the same claim. */
  predicate Blocks(b: Attestation, o: Observation) {
    || b.id == o.id
    || (o.idempotencyKey.Some? && b.idempotencyKey == o.idempotencyKey && b.claim == o.claim && b.actor == o.actor)
  }

  ghost predicate RecordsAnswer(d: Answer, e: Disposition) {
    && e.id == d.id && e.attestationId == d.attestationId && e.verdict == d.verdict && e.body == d.body
    && Writes(d.recorded, e.recordedAt)
  }

  /** Saving appends exactly one row that carries what was handed in, or changes nothing. */
  lemma AttestByFields(log: Log, o: Observation)
    requires Valid(o.observed) && Valid(o.recorded)
    ensures Accepts(log, Attest(AttestationRow(o))) <==> !exists b :: b in log.attestations && Blocks(b, o)
    ensures var after := Apply(log, Attest(AttestationRow(o)));
            if exists b :: b in log.attestations && Blocks(b, o) then after == log
            else exists a :: RecordsObservation(o, a) && after == log.(attestations := log.attestations + [a])
  {
    assert RecordsObservation(o, AttestationRow(o));
  }

  ghost predicate Answerable(log: Log, d: Answer) {
    && (exists a :: a in log.attestations && a.id == d.attestationId)
    && (forall e :: e in log.dispositions ==> e.id != d.id)
  }

  lemma DisposeByFields(log: Log, d: Answer)
    requires Valid(d.recorded)
    ensures Accepts(log, Dispose(DispositionRow(d))) <==> Answerable(log, d)
    ensures var after := Apply(log, Dispose(DispositionRow(d)));
            if Answerable(log, d)
            then exists e :: RecordsAnswer(d, e) && after == log.(dispositions := log.dispositions + [e])
            else after == log
  {
    assert RecordsAnswer(d, DispositionRow(d));
  }

  // ---- summaries ----

  datatype Counts = Counts(support: nat, contradict: nat, unsure: nat, invalidated: nat) {
    function Of(kind: Kind): nat {
      match kind
      case Supports => support
      case Contradicts => contradict
      case Unsures => unsure
      case Invalids => invalidated
    }
    function Add(kind: Kind): Counts {
      match kind
      case Supports => this.(support := support + 1)
      case Contradicts => this.(contradict := contradict + 1)
      case Unsures => this.(unsure := unsure + 1)
      case Invalids => this.(invalidated := invalidated + 1)
    }
  }

  datatype Accumulator = Accumulator(current: Counts, stale: Counts, lastSupported: Option<string>,
                                     lastContradicted: Option<string>, actors: set<Actor>, open: bool)

  datatype Summary = Summary(current: Counts, stale: Counts, lastSupported: Option<string>,
                             lastContradicted: Option<string>, distinctActors: nat, openContradiction: bool)

  function Tallied(current: Counts, stale: Counts, b: Bucket): nat {
    if b.stale then stale.Of(b.kind) else current.Of(b.kind)
  }

  /** The attestation counts for its stance on the claim's current content. */
  predicate IsLive(ds: seq<Disposition>, claim: ClaimKey, digest: string, a: Attestation) {
    a.claim == claim && BucketOf(ds, digest, a) == Bucket(false, KindOf(a.stance))
  }

  /** text is the greatest observation time among the live attestations of a stance. */
  ghost predicate LatestObserved(text: Option<string>, xs: seq<Attestation>, ds: seq<Disposition>, claim: ClaimKey,
                                 digest: string, stance: Stance)
  {
    && (text.Some? ==>
        exists a :: a in xs && IsLive(ds, claim, digest, a) && a.stance == stance && a.observedAt == text.value)
    && (forall a :: a in xs && IsLive(ds, claim, digest, a) && a.stance == stance ==>
        text.Some? && TextAtMost(a.observedAt, text.value))
  }

  ghost predicate ActorsAre(actors: set<Actor>, xs: seq<Attestation>, ds: seq<Disposition>, claim: ClaimKey,
                            digest: string)
  {
    forall who :: who in actors <==> exists a :: a in xs && IsLive(ds, claim, digest, a) && a.actor == who
  }

  ghost predicate HasOpen(xs: seq<Attestation>, ds: seq<Disposition>, claim: ClaimKey, digest: string) {
    exists a :: a in xs && a.claim == claim && a.digest == digest && a.stance == Contradict && !Answered(ds, a.id)
  }

  ghost predicate Fits(acc: Accumulator, xs: seq<Attestation>, ds: seq<Disposition>, claim: ClaimKey, digest: string) {
    && (forall b :: Tallied(acc.current, acc.stale, b) == Tally(xs, ds, claim, digest, b))
    && LatestObserved(acc.lastSupported, xs, ds, claim, digest, Support)
    && LatestObserved(acc.lastContradicted, xs, ds, claim, digest, Contradict)
    && ActorsAre(acc.actors, xs, ds, claim, digest)
    && (acc.open <==> HasOpen(xs, ds, claim, digest))
  }

  function Fresh(): Accumulator { Accumulator(Counts(0, 0, 0, 0), Counts(0, 0, 0, 0), None, None, {}, false) }

  /** What a summary says, for the claim with this digest, of the attestations xs and dispositions ds. */
  ghost predicate Summarizes(s: Summary, xs: seq<Attestation>, ds: seq<Disposition>, claim: ClaimKey, digest: string) {
    && (forall b :: Tallied(s.current, s.stale, b) == Tally(xs, ds, claim, digest, b))
    && LatestObserved(s.lastSupported, xs, ds, claim, digest, Support)
    && LatestObserved(s.lastContradicted, xs, ds, claim, digest, Contradict)
    && (exists actors :: ActorsAre(actors, xs, ds, claim, digest) && s.distinctActors == |actors|)
    && (s.openContradiction <==> OpenContradiction(Log(xs, ds), claim, digest))
  }

  // ---- the same in terms of the rows' own fields ----

  /** The disposition of the attestation with the greatest (recorded_at, id) says it is invalid. */
  ghost predicate Voided(ds: seq<Disposition>, a: Attestation) {
    exists d :: d in ds && d.attestationId == a.id && d.verdict == Invalidated &&
                forall e :: e in ds && e.attestationId == a.id ==>
                  TextLess(e.recordedAt, d.recordedAt) || (e.recordedAt == d.recordedAt && TextAtMost(e.id, d.id))
  }

  /** Attestations on the claim that stand, on its current digest or on another one. */
  ghost predicate Stands(ds: seq<Disposition>, claim: ClaimKey, digest: string, stale: bool, a: Attestation) {
    a.claim == claim && stale == (a.digest != digest) && !Voided(ds, a)
  }

  ghost function Standing(ds: seq<Disposition>, claim: ClaimKey, digest: string, stale: bool, stance: Stance)
    : Attestation -> bool
  {
    (a: Attestation) => Stands(ds, claim, digest, stale, a) && a.stance == stance
  }

  ghost function Void(ds: seq<Disposition>, claim: ClaimKey, digest: string, stale: bool): Attestation -> bool {
    (a: Attestation) => a.claim == claim && stale == (a.digest != digest) && Voided(ds, a)
  }

  ghost predicate CountsByField(counts: Counts, xs: seq<Attestation>, ds: seq<Disposition>, claim: ClaimKey,
                                digest: string, stale: bool)
  {
    && counts.support == Count(Standing(ds, claim, digest, stale, Support), xs)
    && counts.contradict == Count(Standing(ds, claim, digest, stale, Contradict), xs)
    && counts.unsure == Count(Standing(ds, claim, digest, stale, Unsure), xs)
    && counts.invalidated == Count(Void(ds, claim, digest, stale), xs)
  }

  ghost predicate LatestByField(text: Option<string>, xs: seq<Attestation>, ds: seq<Disposition>, claim: ClaimKey,
                                digest: string, stance: Stance)
  {
    && (text.Some? ==>
        exists a :: a in xs && Stands(ds, claim, digest, false, a) && a.stance == stance && a.observedAt == text.value)
    && (forall a :: a in xs && Stands(ds, claim, digest, false, a) && a.stance == stance ==>
        text.Some? && (a.observedAt == text.value || TextLess(a.observedAt, text.value)))
  }

  ghost predicate ActorsByField(actors: set<Actor>, xs: seq<Attestation>, ds: seq<Disposition>, claim: ClaimKey,
                                digest: string)
  {
    forall who :: who in actors <==> exists a :: a in xs && Stands(ds, claim, digest, false, a) && a.actor == who
  }

  /** What a summary says, counter by counter. */
  ghost predicate SummaryByFields(s: Summary, xs: seq<Attestation>, ds: seq<Disposition>, claim: ClaimKey,
                                  digest: string)
  {
    && CountsByField(s.current, xs, ds, claim, digest, false)
    && CountsByField(s.stale, xs, ds, claim, digest, true)
    && LatestByField(s.lastSupported, xs, ds, claim, digest, Support)
    && LatestByField(s.lastContradicted, xs, ds, claim, digest, Contradict)
    && (exists actors :: ActorsByField(actors, xs, ds, claim, digest) && s.distinctActors == |actors|)
    && (s.openContradiction <==>
        exists a :: a in xs && a.claim == claim && a.digest == digest && a.stance == Contradict &&
                    forall d :: d in ds ==> d.attestationId != a.id)
  }

  lemma VoidedExactly(ds: seq<Disposition>, a: Attestation)
    requires UniqueDispositions(ds)
    ensures LatestVerdict(ds, a.id) == Some(Invalidated) <==> Voided(ds, a)
  {
    LatestIsGreatest(ds, a.id);
    if Voided(ds, a) {
      var d :| d in ds && d.attestationId == a.id && d.verdict == Invalidated &&
               forall e :: e in ds && e.attestationId == a.id ==> NewerOrSame(d, e);
      var last := Latest(ds, a.id).value;
      assert NewerOrSame(d, last) && NewerOrSame(last, d);
      TextLessTrichotomy(d.recordedAt, last.recordedAt);
      TextAtMostTotal(d.id, last.id);
      var i :| 0 <= i < |ds| && ds[i] == d;
      var j :| 0 <= j < |ds| && ds[j] == last;
    }
  }

  lemma LiveStands(ds: seq<Disposition>, claim: ClaimKey, digest: string, a: Attestation)
    requires UniqueDispositions(ds)
    ensures IsLive(ds, claim, digest, a) <==> Stands(ds, claim, digest, false, a)
  {
    VoidedExactly(ds, a);
  }

  lemma TallyIsCount(xs: seq<Attestation>, ds: seq<Disposition>, claim: ClaimKey, digest: string, stale: bool,
                     kind: Kind, p: Attestation -> bool)
    requires UniqueDispositions(ds)
    requires p == match kind
                  case Supports => Standing(ds, claim, digest, stale, Support)
                  case Contradicts => Standing(ds, claim, digest, stale, Contradict)
                  case Unsures => Standing(ds, claim, digest, stale, Unsure)
                  case Invalids => Void(ds, claim, digest, stale)
    ensures Tally(xs, ds, claim, digest, Bucket(stale, kind)) == Count(p, xs)
  {
    var q := In(ds, claim, digest, Bucket(stale, kind));
    forall a | a in xs ensures q(a) == p(a) {
      VoidedExactly(ds, a);
    }
    CountSame(q, p, xs);
  }

  lemma CountersByField(s: Summary, xs: seq<Attestation>, ds: seq<Disposition>, claim: ClaimKey, digest: string,
                        stale: bool)
    requires UniqueDispositions(ds) && Summarizes(s, xs, ds, claim, digest)
    ensures CountsByField(if stale then s.stale else s.current, xs, ds, claim, digest, stale)
  {
    TallyIsCount(xs, ds, claim, digest, stale, Supports, Standing(ds, claim, digest, stale, Support));
    TallyIsCount(xs, ds, claim, digest, stale, Contradicts, Standing(ds, claim, digest, stale, Contradict));
    TallyIsCount(xs, ds, claim, digest, stale, Unsures, Standing(ds, claim, digest, stale, Unsure));
    TallyIsCount(xs, ds, claim, digest, stale, Invalids, Void(ds, claim, digest, stale));
    forall kind
      ensures Tallied(s.current, s.stale, Bucket(stale, kind)) == Tally(xs, ds, claim, digest, Bucket(stale, kind))
    {}
  }

  /** A summary says, field by field, what its counters are called. */
  lemma SummarizesByFields(s: Summary, xs: seq<Attestation>, ds: seq<Disposition>, claim: ClaimKey, digest: string)
    requires UniqueDispositions(ds) && Summarizes(s, xs, ds, claim, digest)
    ensures SummaryByFields(s, xs, ds, claim, digest)
  {
    CountersByField(s, xs, ds, claim, digest, false);
    CountersByField(s, xs, ds, claim, digest, true);
    forall a | a in xs ensures IsLive(ds, claim, digest, a) <==> Stands(ds, claim, digest, false, a) {
      LiveStands(ds, claim, digest, a);
    }
    var actors :| ActorsAre(actors, xs, ds, claim, digest) && s.distinctActors == |actors|;
    assert ActorsByField(actors, xs, ds, claim, digest);
    assert LatestByField(s.lastSupported, xs, ds, claim, digest, Support);
    assert LatestByField(s.lastContradicted, xs, ds, claim, digest, Contradict);
    OpenByField(s, xs, ds, claim, digest);
  }

  lemma OpenByField(s: Summary, xs: seq<Attestation>, ds: seq<Disposition>, claim: ClaimKey, digest: string)
    requires Summarizes(s, xs, ds, claim, digest)
    ensures s.openContradiction <==>
            exists a :: a in xs && a.claim == claim && a.digest == digest && a.stance == Contradict &&
                        forall d :: d in ds ==> d.attestationId != a.id
  {
    if a :| a in xs && a.claim == claim && a.digest == digest && a.stance == Contradict &&
            forall d :: d in ds ==> d.attestationId != a.id {
      assert IsOpen(Log(xs, ds), a);
    }
  }

  function MaxTimestamp(current: Option<string>, candidate: string): string {
    if current.None? || TextLess(current.value, candidate) then candidate else current.value
  }

  lemma ObservedStep(text: Option<string>, xs: seq<Attestation>, ds: seq<Disposition>, claim: ClaimKey, digest: string,
                     stance: Stance, a: Attestation)
    requires LatestObserved(text, xs, ds, claim, digest, stance)
    ensures var counts := IsLive(ds, claim, digest, a) && a.stance == stance;
            var after := if counts then Some(MaxTimestamp(text, a.observedAt)) else text;
            LatestObserved(after, xs + [a], ds, claim, digest, stance)
  {
    var next := xs + [a];
    assert a in next;
    var after := if IsLive(ds, claim, digest, a) && a.stance == stance then Some(MaxTimestamp(text, a.observedAt))
                 else text;
    if text.Some? {
      var w :| w in xs && IsLive(ds, claim, digest, w) && w.stance == stance && w.observedAt == text.value;
      assert w in next;
      TextAtMostTotal(text.value, a.observedAt);
    }
    forall x | x in next && IsLive(ds, claim, digest, x) && x.stance == stance
      ensures after.Some? && TextAtMost(x.observedAt, after.value)
    {
      if x in xs && after != text {
        TextAtMostTotal(text.value, a.observedAt);
        if TextAtMost(text.value, a.observedAt) {
          TextAtMostTransitive(x.observedAt, text.value, a.observedAt);
        }
      }
    }
  }

  lemma OpenStep(xs: seq<Attestation>, ds: seq<Disposition>, claim: ClaimKey, digest: string, a: Attestation)
    ensures HasOpen(xs + [a], ds, claim, digest) <==>
            (HasOpen(xs, ds, claim, digest) ||
             (IsLive(ds, claim, digest, a) && a.stance == Contradict && LatestVerdict(ds, a.id).None?))
  {
    var next := xs + [a];
    assert a in next && forall x :: x in next <==> x in xs || x == a;
    LatestIsGreatest(ds, a.id);
  }

  /** The accumulator with one more row in it, told by the row's bucket. */
  function Bumped(acc: Accumulator, a: Attestation, b: Bucket, latest: Option<Verdict>): Accumulator {
    if b.stale then acc.(stale := acc.stale.Add(b.kind))
    else if b.kind == Invalids then acc.(current := acc.current.Add(Invalids))
    else
      Accumulator(acc.current.Add(b.kind), acc.stale,
                  if a.stance == Support then Some(MaxTimestamp(acc.lastSupported, a.observedAt))
                     else acc.lastSupported,
                  if a.stance == Contradict then Some(MaxTimestamp(acc.lastContradicted, a.observedAt))
                     else acc.lastContradicted,
                  acc.actors + {a.actor},
                  acc.open || (a.stance == Contradict && latest.None?))
  }

  lemma BumpTallies(acc: Accumulator, a: Attestation, digest: string, xs: seq<Attestation>, ds: seq<Disposition>,
                    c: Bucket)
    requires Tallied(acc.current, acc.stale, c) == Tally(xs, ds, a.claim, digest, c)
    ensures var next := Bumped(acc, a, BucketOf(ds, digest, a), LatestVerdict(ds, a.id));
            Tallied(next.current, next.stale, c) == Tally(xs + [a], ds, a.claim, digest, c)
  {
    TallySnoc(xs, a, ds, a.claim, digest, c);
  }

  lemma BumpFits(acc: Accumulator, a: Attestation, digest: string, xs: seq<Attestation>, ds: seq<Disposition>)
    requires Fits(acc, xs, ds, a.claim, digest)
    ensures Fits(Bumped(acc, a, BucketOf(ds, digest, a), LatestVerdict(ds, a.id)), xs + [a], ds, a.claim, digest)
  {
    var next := Bumped(acc, a, BucketOf(ds, digest, a), LatestVerdict(ds, a.id));
    forall c ensures Tallied(next.current, next.stale, c) == Tally(xs + [a], ds, a.claim, digest, c) {
      BumpTallies(acc, a, digest, xs, ds, c);
    }
    ObservedStep(acc.lastSupported, xs, ds, a.claim, digest, Support, a);
    ObservedStep(acc.lastContradicted, xs, ds, a.claim, digest, Contradict, a);
    OpenStep(xs, ds, a.claim, digest, a);
  }

  /** One pass of the loop body over one joined row. */
  method CountRow(acc: Accumulator, a: Attestation, latest: Option<Verdict>, digest: string, ghost xs: seq<Attestation>,
                  ghost ds: seq<Disposition>)
    returns (next: Accumulator)
    requires Fits(acc, xs, ds, a.claim, digest) && latest == LatestVerdict(ds, a.id)
    ensures Fits(next, xs + [a], ds, a.claim, digest)
  {
    BumpFits(acc, a, digest, xs, ds);
    next := acc;
    var invalidated := latest == Some(Invalidated);
    if a.digest != digest {
      next := next.(stale := next.stale.Add(if invalidated then Invalids else KindOf(a.stance)));
    } else if invalidated {
      next := next.(current := next.current.Add(Invalids));
    } else {
      next := next.(current := next.current.Add(KindOf(a.stance)), actors := next.actors + {a.actor});
      if a.stance == Support {
        next := next.(lastSupported := Some(MaxTimestamp(next.lastSupported, a.observedAt)));
      } else if a.stance == Contradict {
        next := next.(lastContradicted := Some(MaxTimestamp(next.lastContradicted, a.observedAt)));
        if latest.None? {
          next := next.(open := true);
        }
      }
    }
    assert next == Bumped(acc, a, BucketOf(ds, digest, a), latest);
  }

  lemma FreshFits(ds: seq<Disposition>, claim: ClaimKey, digest: string, xs: seq<Attestation>)
    requires forall a :: a in xs ==> a.claim != claim
    ensures Fits(Fresh(), xs, ds, claim, digest)
  {
    forall b ensures Tally(xs, ds, claim, digest, b) == 0 {
      FilterNone(In(ds, claim, digest, b), xs);
    }
  }

  /** A row of another claim changes nothing. */
  lemma OtherClaimFits(acc: Accumulator, xs: seq<Attestation>, ds: seq<Disposition>, claim: ClaimKey, digest: string,
                       a: Attestation)
    requires Fits(acc, xs, ds, claim, digest) && a.claim != claim
    ensures Fits(acc, xs + [a], ds, claim, digest)
  {
    forall b ensures Tally(xs + [a], ds, claim, digest, b) == Tally(xs, ds, claim, digest, b) {
      TallySnoc(xs, a, ds, claim, digest, b);
    }
    ObservedStep(acc.lastSupported, xs, ds, claim, digest, Support, a);
    ObservedStep(acc.lastContradicted, xs, ds, claim, digest, Contradict, a);
    OpenStep(xs, ds, claim, digest, a);
  }

  // ---- the query ----

  predicate Requested(digests: map<ClaimKey, string>, a: Attestation) { a.claim in digests }

  function IsRequested(digests: map<ClaimKey, string>): Attestation -> bool { a => Requested(digests, a) }

  predicate RecordedBefore(a: Attestation, b: Attestation) {
    TextLess(a.recordedAt, b.recordedAt) || (a.recordedAt == b.recordedAt && TextAtMost(a.id, b.id))
  }

  function RecordedOrder(): (Attestation, Attestation) -> bool { (a, b) => RecordedBefore(a, b) }

  /** The rows of the aggregate query: the requested claims' attestations in order of record time and id. */
  function QueryRows(xs: seq<Attestation>, digests: map<ClaimKey, string>): seq<Attestation> {
    Sort(RecordedOrder(), Filter(IsRequested(digests), xs))
  }

  lemma RowsOfClaim(xs: seq<Attestation>, digests: map<ClaimKey, string>, a: Attestation)
    ensures a in QueryRows(xs, digests) <==> a in xs && a.claim in digests
  {
    FilterMember(IsRequested(digests), xs, a);
    MultisetMembers(QueryRows(xs, digests), Filter(IsRequested(digests), xs));
  }

  lemma {:induction false} CountFiltered<T(!new)>(p: T -> bool, keep: T -> bool, xs: seq<T>)
    requires forall x :: x in xs && p(x) ==> keep(x)
    ensures Count(p, Filter(keep, xs)) == Count(p, xs)
  {
    if xs != [] {
      CountFiltered(p, keep, xs[1..]);
      var kept := if keep(xs[0]) then [xs[0]] else [];
      FilterAppend(p, kept, Filter(keep, xs[1..]));
      assert keep(xs[0]) ==> kept[0] == xs[0] && kept[1..] == [];
      assert Filter(p, kept) == if p(xs[0]) then [xs[0]] else [];
    }
  }

  lemma RowsTally(xs: seq<Attestation>, ds: seq<Disposition>, digests: map<ClaimKey, string>, claim: ClaimKey,
                  b: Bucket)
    requires claim in digests
    ensures Tally(QueryRows(xs, digests), ds, claim, digests[claim], b) == Tally(xs, ds, claim, digests[claim], b)
  {
    var p := In(ds, claim, digests[claim], b);
    CountShuffled(p, QueryRows(xs, digests), Filter(IsRequested(digests), xs));
    CountFiltered(p, IsRequested(digests), xs);
  }

  /** What fits the rows of the query summarizes the whole log. */
  lemma RowsSummarize(acc: Accumulator, xs: seq<Attestation>, ds: seq<Disposition>, digests: map<ClaimKey, string>,
                      claim: ClaimKey)
    requires claim in digests && Fits(acc, QueryRows(xs, digests), ds, claim, digests[claim])
    ensures Summarizes(Finish(acc), xs, ds, claim, digests[claim])
  {
    var rows, digest := QueryRows(xs, digests), digests[claim];
    forall b ensures Tally(rows, ds, claim, digest, b) == Tally(xs, ds, claim, digest, b) {
      RowsTally(xs, ds, digests, claim, b);
    }
    forall a: Attestation | a.claim == claim ensures a in rows <==> a in xs {
      RowsOfClaim(xs, digests, a);
    }
    assert ActorsAre(acc.actors, xs, ds, claim, digest);
    assert LatestObserved(acc.lastSupported, xs, ds, claim, digest, Support);
    assert LatestObserved(acc.lastContradicted, xs, ds, claim, digest, Contradict);
    OpenIsOpen(rows, xs, ds, claim, digest);
  }

  lemma OpenIsOpen(rows: seq<Attestation>, xs: seq<Attestation>, ds: seq<Disposition>, claim: ClaimKey, digest: string)
    requires forall a: Attestation :: a.claim == claim ==> (a in rows <==> a in xs)
    ensures HasOpen(rows, ds, claim, digest) <==> OpenContradiction(Log(xs, ds), claim, digest)
  {
    if a :| a in rows && a.claim == claim && a.digest == digest && a.stance == Contradict && !Answered(ds, a.id) {
      assert a in xs && IsOpen(Log(xs, ds), a);
    }
    if a :| a in xs && IsOpen(Log(xs, ds), a) && a.claim == claim && a.digest == digest {
      assert a in rows && !Answered(ds, a.id);
    }
  }

  function Finish(acc: Accumulator): Summary {
    Summary(acc.current, acc.stale, acc.lastSupported, acc.lastContradicted, |acc.actors|, acc.open)
  }

  predicate ObservedAfter(a: Attestation, b: Attestation) {
    TextLess(b.observedAt, a.observedAt) || (a.observedAt == b.observedAt && TextAtMost(b.id, a.id))
  }

  function NewestObservedFirst(): (Attestation, Attestation) -> bool { (a, b) => ObservedAfter(a, b) }

  function OpenIn(log: Log): Attestation -> bool { a => IsOpen(log, a) }

  lemma ObservedPreorder(xs: seq<Attestation>)
    ensures TotalPreorderOn(NewestObservedFirst(), xs)
  {
    forall x, y, z
      ensures NewestObservedFirst()(x, y) || NewestObservedFirst()(y, x)
      ensures NewestObservedFirst()(x, y) && NewestObservedFirst()(y, z) ==> NewestObservedFirst()(x, z)
    {
      ObservedTotal(x, y, z);
    }
  }

  lemma ObservedTotal(x: Attestation, y: Attestation, z: Attestation)
    ensures ObservedAfter(x, y) || ObservedAfter(y, x)
    ensures ObservedAfter(x, y) && ObservedAfter(y, z) ==> ObservedAfter(x, z)
  {
    TextLessTrichotomy(x.observedAt, y.observedAt);
    TextAtMostTotal(x.id, y.id);
    if TextLess(z.observedAt, y.observedAt) && TextLess(y.observedAt, x.observedAt) {
      TextLessTransitive(z.observedAt, y.observedAt, x.observedAt);
    }
    if TextAtMost(z.id, y.id) && TextAtMost(y.id, x.id) {
      TextAtMostTransitive(z.id, y.id, x.id);
    }
  }

  // ---- the store ----

  ghost predicate Stamped(text: string) { exists m :: Writes(m, text) }

  lemma StampedByRow(m: Moment)
    requires Temporal.Valid(m)
    ensures Stamped(IsoFormat(m))
  {
    assert Writes(m, IsoFormat(m));
  }

  class Store {
    var attestations: seq<Attestation>
    var dispositions: seq<Disposition>

    ghost function Contents(): Log
      reads this
    {
      Log(attestations, dispositions)
    }

    /** Keys are unique, references hold, and every time is what `format_datetime` writes. */
    ghost predicate Valid()
      reads this
    {
      && Consistent(Contents())
      && (forall a :: a in attestations ==> Stamped(a.observedAt) && Stamped(a.recordedAt))
      && (forall d :: d in dispositions ==> Stamped(d.recordedAt))
    }

    constructor ()
      ensures Valid() && Contents() == Log([], [])
    {
      attestations, dispositions := [], [];
    }

    /** Inserts a row unless a key or the idempotency index is violated. */
    method SaveAttestation(o: Observation) returns (saved: bool)
      requires Valid() && Temporal.Valid(o.observed) && Temporal.Valid(o.recorded)
      modifies this
      ensures Valid()
      ensures saved <==> Accepts(old(Contents()), Attest(AttestationRow(o)))
      ensures Contents() == Apply(old(Contents()), Attest(AttestationRow(o)))
      ensures saved <==> !exists b :: b in old(attestations) && Blocks(b, o)
    {
      var row := AttestationRow(o);
      ApplyKeepsConsistent(Contents(), Attest(row));
      AttestByFields(Contents(), o);
      saved := Accepts(Log(attestations, dispositions), Attest(row));
      if saved {
        StampedByRow(o.observed);
        StampedByRow(o.recorded);
        attestations := attestations + [row];
      }
    }

    /** Inserts a row unless its key is taken or its attestation does not exist. */
    method SaveDisposition(d: Answer) returns (saved: bool)
      requires Valid() && Temporal.Valid(d.recorded)
      modifies this
      ensures Valid()
      ensures saved <==> Accepts(old(Contents()), Dispose(DispositionRow(d)))
      ensures Contents() == Apply(old(Contents()), Dispose(DispositionRow(d)))
      ensures saved <==> Answerable(old(Contents()), d)
    {
      var row := DispositionRow(d);
      ApplyKeepsConsistent(Contents(), Dispose(row));
      DisposeByFields(Contents(), d);
      saved := Accepts(Log(attestations, dispositions), Dispose(row));
      if saved {
        StampedByRow(d.recorded);
        dispositions := dispositions + [row];
      }
    }

    /** For each requested attestation that was answered, its greatest disposition. */
    method GetLatestDispositions(ids: seq<string>) returns (latest: map<string, Disposition>)
      ensures forall id :: id in latest <==> id in ids && Answered(dispositions, id)
      ensures forall id :: id in latest ==>
                latest[id] in dispositions && latest[id].attestationId == id &&
                forall d :: d in dispositions && d.attestationId == id ==>
                  TextLess(d.recordedAt, latest[id].recordedAt) ||
                  (d.recordedAt == latest[id].recordedAt && TextAtMost(d.id, latest[id].id))
    {
      latest := map id | id in ids && Latest(dispositions, id).Some? :: Latest(dispositions, id).value;
      forall id ensures Latest(dispositions, id).Some? <==> Answered(dispositions, id) {
        LatestIsGreatest(dispositions, id);
      }
      forall id | id in latest
        ensures latest[id] in dispositions && latest[id].attestationId == id
        ensures forall d :: d in dispositions && d.attestationId == id ==> NewerOrSame(latest[id], d)
      {
        LatestIsGreatest(dispositions, id);
      }
    }

    /** The accumulators after the rows so far: one for each claim seen. */
    ghost predicate Accumulated(accs: map<ClaimKey, Accumulator>, rows: seq<Attestation>,
                                digests: map<ClaimKey, string>)
      reads this
    {
      && (forall c :: c in accs <==> exists a :: a in rows && a.claim == c)
      && (forall c :: c in accs ==> c in digests && Fits(accs[c], rows, dispositions, c, digests[c]))
    }

    lemma AccumulatedStep(accs: map<ClaimKey, Accumulator>, rows: seq<Attestation>, digests: map<ClaimKey, string>,
                          a: Attestation, acc: Accumulator)
      requires Accumulated(accs, rows, digests) && a.claim in digests
      requires Fits(acc, rows + [a], dispositions, a.claim, digests[a.claim])
      ensures Accumulated(accs[a.claim := acc], rows + [a], digests)
    {
      var next, after := rows + [a], accs[a.claim := acc];
      assert a in next && forall x :: x in next <==> x in rows || x == a;
      forall c | c in after ensures c in digests && Fits(after[c], next, dispositions, c, digests[c]) {
        if c != a.claim {
          OtherClaimFits(accs[c], rows, dispositions, c, digests[c], a);
        }
      }
    }

    /** The loop over the joined rows, one accumulator per claim. */
    method AccumulateRows(rows: seq<Attestation>, digests: map<ClaimKey, string>)
      returns (accs: map<ClaimKey, Accumulator>)
      requires forall a :: a in rows ==> a.claim in digests
      ensures Accumulated(accs, rows, digests)
    {
      accs := map[];
      assert rows[..0] == [];
      for k := 0 to |rows|
        invariant Accumulated(accs, rows[..k], digests)
      {
        var a := rows[k];
        assert rows[..k + 1] == rows[..k] + [a];
        var acc := if a.claim in accs then accs[a.claim] else Fresh();
        if a.claim !in accs {
          FreshFits(dispositions, a.claim, digests[a.claim], rows[..k]);
        }
        acc := CountRow(acc, a, LatestVerdict(dispositions, a.id), digests[a.claim], rows[..k], dispositions);
        AccumulatedStep(accs, rows[..k], digests, a, acc);
        accs := accs[a.claim := acc];
      }
      assert rows[..|rows|] == rows;
    }

    /** One summary for each requested claim that has attestations, counting all of them. */
    method SummariesForClaims(digests: map<ClaimKey, string>) returns (summaries: map<ClaimKey, Summary>)
      ensures forall c :: c in summaries <==> c in digests && exists a :: a in attestations && a.claim == c
      ensures forall c :: c in summaries ==> Summarizes(summaries[c], attestations, dispositions, c, digests[c])
      ensures forall c :: c in summaries && UniqueDispositions(dispositions) ==>
                SummaryByFields(summaries[c], attestations, dispositions, c, digests[c])
    {
      var rows := QueryRows(attestations, digests);
      forall a ensures a in rows <==> a in attestations && a.claim in digests {
        RowsOfClaim(attestations, digests, a);
      }
      var accs := AccumulateRows(rows, digests);
      forall c | c in accs ensures Summarizes(Finish(accs[c]), attestations, dispositions, c, digests[c]) {
        RowsSummarize(accs[c], attestations, dispositions, digests, c);
      }
      summaries := map c | c in accs :: Finish(accs[c]);
      forall c | c in summaries && UniqueDispositions(dispositions)
        ensures SummaryByFields(summaries[c], attestations, dispositions, c, digests[c])
      {
        SummarizesByFields(summaries[c], attestations, dispositions, c, digests[c]);
      }
    }

    /** All contradictions without any disposition, newest observation first. */
    method ListOpenContradictions() returns (open: seq<Attestation>)
      ensures forall a :: a in open <==> a in attestations && IsOpen(Contents(), a)
      ensures forall a :: a in open <==>
                a in attestations && a.stance == Contradict && forall d :: d in dispositions ==> d.attestationId != a.id
      ensures forall i, j :: 0 <= i < j < |open| ==>
                TextLess(open[j].observedAt, open[i].observedAt) ||
                (open[j].observedAt == open[i].observedAt && TextAtMost(open[j].id, open[i].id))
      ensures multiset(open) == multiset(Filter(OpenIn(Contents()), attestations))
      ensures SortedBy(NewestObservedFirst(), open)
    {
      var log := Log(attestations, dispositions);
      var found := Filter(OpenIn(log), attestations);
      forall a ensures a in found <==> a in attestations && IsOpen(log, a) {
        FilterMember(OpenIn(log), attestations, a);
      }
      open := Sort(NewestObservedFirst(), found);
      MultisetMembers(open, found);
      ObservedPreorder(found);
      SortSorted(NewestObservedFirst(), found);
      forall i, j | 0 <= i < j < |open| ensures ObservedAfter(open[i], open[j]) {
        assert NewestObservedFirst()(open[i], open[j]);
      }
    }
  }

  /**
   `open_contradiction` of a claim's summary is set exactly when the list of open contradictions holds a
   record with that claim and the claim's current digest.
   */
  lemma OpenFlagMatchesList(s: Summary, xs: seq<Attestation>, ds: seq<Disposition>, claim: ClaimKey, digest: string,
                            open: seq<Attestation>)
    requires Summarizes(s, xs, ds, claim, digest)
    requires forall a :: a in open <==> a in xs && IsOpen(Log(xs, ds), a)
    ensures s.openContradiction <==> exists a :: a in open && a.claim == claim && a.digest == digest
  {
    if s.openContradiction {
      var a :| a in xs && IsOpen(Log(xs, ds), a) && a.claim == claim && a.digest == digest;
      assert a in open;
    }
  }

  /** The eight counters of a summary add up to the attestations on its claim. */
  lemma SummaryCountsAll(s: Summary, xs: seq<Attestation>, ds: seq<Disposition>, claim: ClaimKey, digest: string)
    requires Summarizes(s, xs, ds, claim, digest)
    ensures s.current.support + s.current.contradict + s.current.unsure + s.current.invalidated +
            s.stale.support + s.stale.contradict + s.stale.unsure + s.stale.invalidated == Count(On(claim), xs)
  {
    EachCountedOnce(xs, ds, claim, digest);
    forall stale, kind
      ensures Tallied(s.current, s.stale, Bucket(stale, kind)) == Tally(xs, ds, claim, digest, Bucket(stale, kind))
    {}
  }

  /** `last_supported_at` and `last_contradicted_at` are latest in time, not only as text. */
  lemma LatestObservedInTime(text: string, xs: seq<Attestation>, ds: seq<Disposition>, claim: ClaimKey, digest: string,
                             stance: Stance, a: Attestation, m: Moment, last: Moment)
    requires LatestObserved(Some(text), xs, ds, claim, digest, stance)
    requires a in xs && IsLive(ds, claim, digest, a) && a.stance == stance
    requires Writes(m, a.observedAt) && Writes(last, text)
    ensures ClockTime(m) <= ClockTime(last)
  {
    TextOrderOfMoments(last, m);
    TextAtMostTotal(a.observedAt, text);
    TextLessTrichotomy(a.observedAt, text);
  }
}
