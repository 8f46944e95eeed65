/**
 The attestation log: two append-only tables, and the eight-bucket summaries derived from them.
 */
module AttestationLog {
  import opened Sequences
  import opened Temporal

  datatype Stance = Support | Contradict | Unsure

  datatype Verdict = Upheld | Corrected | Invalidated

  datatype ClaimKey = ClaimKey(relationship: string, fromType: string, fromId: string, toType: string, toId: string)

  datatype Actor = Actor(orgId: string, actorId: string)

  /** A stored attestation; timestamps are text, `body` is everything only carried along. */
  datatype Attestation = Attestation(id: string, claim: ClaimKey, digest: string, stance: Stance, observedAt: string,
                                     recordedAt: string, actor: Actor, idempotencyKey: Option<string>, body: string)

  datatype Disposition = Disposition(id: string, attestationId: string, verdict: Verdict, recordedAt: string,
                                     body: string)

  datatype Log = Log(attestations: seq<Attestation>, dispositions: seq<Disposition>)

  datatype Event = Attest(attestation: Attestation) | Dispose(disposition: Disposition)

  // ---- integrity ----

  /** Same idempotency key, same claim, same actor. */
  predicate SameRequest(a: Attestation, b: Attestation) {
    a.idempotencyKey.Some? && a.idempotencyKey == b.idempotencyKey && a.claim == b.claim && a.actor == b.actor
  }

  predicate Stored(log: Log, id: string) { exists a :: a in log.attestations && a.id == id }

  /** What the primary keys, the idempotency index and the foreign key let in. */
  predicate Accepts(log: Log, e: Event) {
    match e
    case Attest(a) => forall b :: b in log.attestations ==> b.id != a.id && !SameRequest(a, b)
    case Dispose(d) => Stored(log, d.attestationId) && forall c :: c in log.dispositions ==> c.id != d.id
  }

  function Apply(log: Log, e: Event): Log {
    if !Accepts(log, e) then log
    else
      match e
      case Attest(a) => log.(attestations := log.attestations + [a])
      case Dispose(d) => log.(dispositions := log.dispositions + [d])
  }

  function ApplyAll(log: Log, events: seq<Event>): Log
    decreases |events|
  {
    if events == [] then log else ApplyAll(Apply(log, events[0]), events[1..])
  }

  ghost predicate UniqueAttestations(xs: seq<Attestation>) {
    forall i, j :: 0 <= i < j < |xs| ==> xs[i].id != xs[j].id && !SameRequest(xs[i], xs[j])
  }

  ghost predicate UniqueDispositions(ds: seq<Disposition>) {
    forall i, j :: 0 <= i < j < |ds| ==> ds[i].id != ds[j].id
  }

  ghost predicate Consistent(log: Log) {
    && UniqueAttestations(log.attestations)
    && UniqueDispositions(log.dispositions)
    && (forall d :: d in log.dispositions ==> Stored(log, d.attestationId))
  }

  lemma ApplyKeepsConsistent(log: Log, e: Event)
    requires Consistent(log)
    ensures Consistent(Apply(log, e))
  {
    var after := Apply(log, e);
    forall id | Stored(log, id) ensures Stored(after, id) {
      var a :| a in log.attestations && a.id == id;
      assert a in after.attestations;
    }
    match e
    case Attest(a) =>
      forall i, j | 0 <= i < j < |after.attestations|
        ensures after.attestations[i].id != after.attestations[j].id &&
                !SameRequest(after.attestations[i], after.attestations[j])
      {
        assert i < |log.attestations| ==> after.attestations[i] in log.attestations;
      }
    case Dispose(d) =>
      forall i, j | 0 <= i < j < |after.dispositions| ensures after.dispositions[i].id != after.dispositions[j].id {
        assert i < |log.dispositions| ==> after.dispositions[i] in log.dispositions;
      }
  }

  // ---- the latest disposition ----

  predicate NewerOrSame(d: Disposition, e: Disposition) {
    TextLess(e.recordedAt, d.recordedAt) || (e.recordedAt == d.recordedAt && TextAtMost(e.id, d.id))
  }

  /** The disposition of an attestation with the greatest (recorded_at, disposition_id). */
  function Latest(ds: seq<Disposition>, id: string): Option<Disposition> {
    if ds == [] then None
    else
      var best, last := Latest(ds[..|ds| - 1], id), ds[|ds| - 1];
      if last.attestationId == id && (best.None? || NewerOrSame(last, best.value)) then Some(last) else best
  }

  lemma NewerTotal(d: Disposition, e: Disposition, f: Disposition)
    ensures NewerOrSame(d, d)
    ensures NewerOrSame(d, e) || NewerOrSame(e, d)
    ensures NewerOrSame(d, e) && NewerOrSame(e, f) ==> NewerOrSame(d, f)
  {
    TextLessTrichotomy(d.recordedAt, e.recordedAt);
    TextAtMostTotal(d.id, e.id);
    if TextLess(f.recordedAt, e.recordedAt) && TextLess(e.recordedAt, d.recordedAt) {
      TextLessTransitive(f.recordedAt, e.recordedAt, d.recordedAt);
    }
    if TextAtMost(f.id, e.id) && TextAtMost(e.id, d.id) {
      TextAtMostTransitive(f.id, e.id, d.id);
    }
  }

  ghost predicate Answered(ds: seq<Disposition>, id: string) { exists d :: d in ds && d.attestationId == id }

  lemma {:induction false} LatestIsGreatest(ds: seq<Disposition>, id: string)
    ensures Latest(ds, id).Some? <==> Answered(ds, id)
    ensures Latest(ds, id).Some? ==> Latest(ds, id).value in ds && Latest(ds, id).value.attestationId == id
    ensures forall d :: d in ds && d.attestationId == id ==> NewerOrSame(Latest(ds, id).value, d)
  {
    if ds != [] {
      var init, last := ds[..|ds| - 1], ds[|ds| - 1];
      assert ds == init + [last];
      LatestIsGreatest(init, id);
      assert last in ds;
      forall d | d in ds && d.attestationId == id ensures Latest(ds, id).Some? && NewerOrSame(Latest(ds, id).value, d) {
        NewerTotal(last, if Latest(init, id).Some? then Latest(init, id).value else last, d);
        NewerTotal(Latest(ds, id).value, last, d);
        if d != last {
          assert d in init;
        }
      }
    }
  }

  function LatestVerdict(ds: seq<Disposition>, id: string): Option<Verdict> {
    match Latest(ds, id) case None => None case Some(d) => Some(d.verdict)
  }

  // ---- buckets and tallies ----

  datatype Kind = Supports | Contradicts | Unsures | Invalids

  datatype Bucket = Bucket(stale: bool, kind: Kind)

  function KindOf(stance: Stance): Kind {
    match stance case Support => Supports case Contradict => Contradicts case Unsure => Unsures
  }

  function BucketOf(ds: seq<Disposition>, digest: string, a: Attestation): Bucket {
    Bucket(a.digest != digest, if LatestVerdict(ds, a.id) == Some(Invalidated) then Invalids else KindOf(a.stance))
  }

  predicate IsIn(ds: seq<Disposition>, claim: ClaimKey, digest: string, b: Bucket, a: Attestation) {
    a.claim == claim && BucketOf(ds, digest, a) == b
  }

  function In(ds: seq<Disposition>, claim: ClaimKey, digest: string, b: Bucket): Attestation -> bool {
    a => IsIn(ds, claim, digest, b, a)
  }

  predicate IsOn(claim: ClaimKey, a: Attestation) { a.claim == claim }

  function On(claim: ClaimKey): Attestation -> bool { a => IsOn(claim, a) }

  function Count<T>(p: T -> bool, xs: seq<T>): nat { |Filter(p, xs)| }

  function Tally(xs: seq<Attestation>, ds: seq<Disposition>, claim: ClaimKey, digest: string, b: Bucket): nat {
    Count(In(ds, claim, digest, b), xs)
  }

  lemma CountSnoc<T(!new)>(p: T -> bool, xs: seq<T>, x: T)
    ensures Count(p, xs + [x]) == Count(p, xs) + (if p(x) then 1 else 0)
  {
    FilterAppend(p, xs, [x]);
    assert [x][1..] == [];
    assert Filter(p, [x]) == (if p(x) then [x] else []) + Filter(p, []);
  }

  /** Two predicates that differ at one member, which occurs once. */
  lemma {:induction false} CountChanged<T(!new)>(p: T -> bool, q: T -> bool, xs: seq<T>, x: T)
    requires forall y :: y in xs && y != x ==> p(y) == q(y)
    requires multiset(xs)[x] == 1
    ensures Count(q, xs) == Count(p, xs) - (if p(x) then 1 else 0) + (if q(x) then 1 else 0)
  {
    var head, tail := xs[0], xs[1..];
    assert xs == [head] + tail;
    assert multiset(xs)[x] == multiset([head])[x] + multiset(tail)[x];
    if head == x {
      CountSame(p, q, tail);
    } else {
      CountChanged(p, q, tail, x);
    }
  }

  lemma {:induction false} CountSame<T(!new)>(p: T -> bool, q: T -> bool, xs: seq<T>)
    requires forall y :: y in xs ==> p(y) == q(y)
    ensures Count(q, xs) == Count(p, xs)
  {
    if xs != [] {
      CountSame(p, q, xs[1..]);
    }
  }

  lemma CountShuffled<T(!new)>(p: T -> bool, xs: seq<T>, ys: seq<T>)
    requires multiset(xs) == multiset(ys)
    ensures Count(p, xs) == Count(p, ys)
  {
    forall x ensures multiset(Filter(p, xs))[x] == multiset(Filter(p, ys))[x] {
      FilterMultiset(p, xs, x);
      FilterMultiset(p, ys, x);
    }
    assert multiset(Filter(p, xs)) == multiset(Filter(p, ys));
    assert |multiset(Filter(p, xs))| == |Filter(p, xs)|;
    assert |multiset(Filter(p, ys))| == |Filter(p, ys)|;
  }

  function SumOfBuckets(xs: seq<Attestation>, ds: seq<Disposition>, claim: ClaimKey, digest: string, stale: bool): nat {
    Tally(xs, ds, claim, digest, Bucket(stale, Supports)) + Tally(xs, ds, claim, digest, Bucket(stale, Contradicts)) +
    Tally(xs, ds, claim, digest, Bucket(stale, Unsures)) + Tally(xs, ds, claim, digest, Bucket(stale, Invalids))
  }

  lemma TallySnoc(xs: seq<Attestation>, a: Attestation, ds: seq<Disposition>, claim: ClaimKey, digest: string,
                  b: Bucket)
    ensures Tally(xs + [a], ds, claim, digest, b) ==
            Tally(xs, ds, claim, digest, b) + (if a.claim == claim && b == BucketOf(ds, digest, a) then 1 else 0)
  {
    CountSnoc(In(ds, claim, digest, b), xs, a);
  }

  lemma BucketsSnoc(xs: seq<Attestation>, a: Attestation, ds: seq<Disposition>, claim: ClaimKey, digest: string,
                    stale: bool)
    ensures SumOfBuckets(xs + [a], ds, claim, digest, stale) ==
            SumOfBuckets(xs, ds, claim, digest, stale) +
              (if a.claim == claim && stale == (a.digest != digest) then 1 else 0)
  {
    TallySnoc(xs, a, ds, claim, digest, Bucket(stale, Supports));
    TallySnoc(xs, a, ds, claim, digest, Bucket(stale, Contradicts));
    TallySnoc(xs, a, ds, claim, digest, Bucket(stale, Unsures));
    TallySnoc(xs, a, ds, claim, digest, Bucket(stale, Invalids));
    assert BucketOf(ds, digest, a).kind in {Supports, Contradicts, Unsures, Invalids};
  }

  /** Every attestation on a claim is counted in exactly one of the eight buckets. */
  lemma {:induction false} EachCountedOnce(xs: seq<Attestation>, ds: seq<Disposition>, claim: ClaimKey, digest: string)
    ensures SumOfBuckets(xs, ds, claim, digest, false) + SumOfBuckets(xs, ds, claim, digest, true) ==
            Count(On(claim), xs)
  {
    if xs != [] {
      var init, last := xs[..|xs| - 1], xs[|xs| - 1];
      EachCountedOnce(init, ds, claim, digest);
      CountSnoc(On(claim), init, last);
      BucketsSnoc(init, last, ds, claim, digest, false);
      BucketsSnoc(init, last, ds, claim, digest, true);
      assert xs == init + [last];
    }
  }

  /** A fresh attestation has no disposition yet: it is counted under its stance, and nothing else changes. */
  lemma AttestRaisesOne(log: Log, a: Attestation, claim: ClaimKey, digest: string, b: Bucket)
    requires Consistent(log) && Accepts(log, Attest(a))
    ensures var after := Apply(log, Attest(a));
            Tally(after.attestations, after.dispositions, claim, digest, b) ==
            Tally(log.attestations, log.dispositions, claim, digest, b) +
            (if a.claim == claim && b == Bucket(a.digest != digest, KindOf(a.stance)) then 1 else 0)
  {
    LatestIsGreatest(log.dispositions, a.id);
    forall d | d in log.dispositions ensures d.attestationId != a.id {
      assert Stored(log, d.attestationId);
    }
    CountSnoc(In(log.dispositions, claim, digest, b), log.attestations, a);
  }

  lemma {:induction false} OccursOnce(xs: seq<Attestation>, a: Attestation)
    requires UniqueAttestations(xs) && a in xs
    ensures multiset(xs)[a] == 1
  {
    forall i, j | 0 <= i < j < |xs| ensures xs[i] != xs[j] {
      assert xs[i].id != xs[j].id;
    }
    MultisetDistinct(xs);
    assert a in multiset(xs);
  }

  /** A disposition takes its attestation out of one bucket and into one bucket, often the same; all else stays. */
  lemma DisposeMovesOne(log: Log, d: Disposition, a: Attestation, claim: ClaimKey, digest: string, b: Bucket)
    requires Consistent(log) && Accepts(log, Dispose(d)) && a in log.attestations && a.id == d.attestationId
    ensures var after := Apply(log, Dispose(d));
            var from, to := BucketOf(log.dispositions, digest, a), BucketOf(after.dispositions, digest, a);
            Tally(after.attestations, after.dispositions, claim, digest, b) ==
            Tally(log.attestations, log.dispositions, claim, digest, b)
            - (if a.claim == claim && b == from then 1 else 0) + (if a.claim == claim && b == to then 1 else 0)
  {
    var after := Apply(log, Dispose(d));
    var p, q := In(log.dispositions, claim, digest, b), In(after.dispositions, claim, digest, b);
    forall x | x in log.attestations && x != a ensures p(x) == q(x) {
      assert x.id != a.id by {
        var i :| 0 <= i < |log.attestations| && log.attestations[i] == x;
        var j :| 0 <= j < |log.attestations| && log.attestations[j] == a;
      }
    }
    OccursOnce(log.attestations, a);
    CountChanged(p, q, log.attestations, a);
  }

  // ---- open contradictions ----

  predicate IsOpen(log: Log, a: Attestation) {
    a.stance == Contradict && forall d :: d in log.dispositions ==> d.attestationId != a.id
  }

  /** A claim's current content has an unanswered contradiction. */
  ghost predicate OpenContradiction(log: Log, claim: ClaimKey, digest: string) {
    exists a :: a in log.attestations && IsOpen(log, a) && a.claim == claim && a.digest == digest
  }

  lemma {:induction false} AnsweredStaysAnswered(log: Log, events: seq<Event>, id: string)
    requires Answered(log.dispositions, id)
    ensures Answered(ApplyAll(log, events).dispositions, id)
    decreases |events|
  {
    if events != [] {
      var next := Apply(log, events[0]);
      var d :| d in log.dispositions && d.attestationId == id;
      assert d in next.dispositions;
      AnsweredStaysAnswered(next, events[1..], id);
    }
  }

  /** Once a contradiction is answered, no later history opens it again. */
  lemma AnsweredNeverReopens(log: Log, d: Disposition, events: seq<Event>, a: Attestation)
    requires Accepts(log, Dispose(d)) && a.id == d.attestationId
    ensures !IsOpen(ApplyAll(Apply(log, Dispose(d)), events), a)
  {
    var answered := Apply(log, Dispose(d));
    assert d in answered.dispositions;
    AnsweredStaysAnswered(answered, events, a.id);
  }

  /** Every log a history of inserts leads to has unique ids and no dangling reference, whatever was offered. */
  lemma {:induction false} HistoryConsistent(log: Log, events: seq<Event>)
    requires Consistent(log)
    ensures Consistent(ApplyAll(log, events))
    decreases |events|
  {
    if events != [] {
      ApplyKeepsConsistent(log, events[0]);
      HistoryConsistent(Apply(log, events[0]), events[1..]);
    }
  }

  lemma {:induction false} HistoryGrows(log: Log, events: seq<Event>)
    ensures log.attestations <= ApplyAll(log, events).attestations
    ensures log.dispositions <= ApplyAll(log, events).dispositions
    decreases |events|
  {
    if events != [] {
      HistoryGrows(Apply(log, events[0]), events[1..]);
    }
  }

  // ---- text-latest is time-latest ----

  /** The disposition the window query picks is the one recorded last in time. */
  lemma LatestIsLastInTime(ds: seq<Disposition>, d: Disposition, m: Moment, last: Moment)
    requires d in ds && Writes(m, d.recordedAt) && Latest(ds, d.attestationId).Some?
    requires Writes(last, Latest(ds, d.attestationId).value.recordedAt)
    ensures ClockTime(m) <= ClockTime(last)
  {
    LatestIsGreatest(ds, d.attestationId);
    TextOrderOfMoments(m, last);
    TextOrderOfMoments(last, m);
  }
}
