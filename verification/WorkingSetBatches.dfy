/**
 Which batches may be deduplicated on their own before they are folded into the known records.
 */
module WorkingSetBatches {
  import opened Sequences
  import opened WorkingSet

  // ---- what folding does to one identity ----

  /** The record stored for an identity. */
  function Held(ds: seq<Record>, id: Identity): (e: Option<Record>)
    ensures e.Some? <==> Has(ds, id)
    ensures e.Some? ==> Identify(e.value) == id && e.value in ds
  {
    if Has(ds, id) then Some(ds[IndexOf(ds, id)]) else None
  }

  /** The records of one identity, in order. */
  function OfId(rs: seq<Record>, id: Identity): (own: seq<Record>)
    ensures forall k :: 0 <= k < |own| ==> Identify(own[k]) == id && own[k] in rs
    ensures own != [] <==> Has(rs, id)
  {
    if rs == [] then []
    else
      HasCons(rs, id);
      (if Identify(rs[0]) == id then [rs[0]] else []) + OfId(rs[1..], id)
  }

  /** One record meets the record stored for its identity. */
  function Meet(e: Option<Record>, r: Record): Option<Record> {
    match e
    case None => Some(r)
    case Some(x) => if Wins(r, x) then Some(Merge(x, r)) else e
  }

  function Settle(e: Option<Record>, rs: seq<Record>): Option<Record>
    decreases |rs|
  {
    if rs == [] then e else Settle(Meet(e, rs[0]), rs[1..])
  }

  lemma HeldAt(ds: seq<Record>, k: nat)
    requires UniqueIds(ds) && k < |ds|
    ensures Held(ds, Identify(ds[k])) == Some(ds[k])
  {
    IndexUnique(ds, k);
  }

  lemma FoldOneHeld(ds: seq<Record>, r: Record, id: Identity)
    requires UniqueIds(ds)
    ensures Held(FoldOne(ds, r), id) == if Identify(r) == id then Meet(Held(ds, id), r) else Held(ds, id)
  {
    FoldOneUnique(ds, r);
    var next := FoldOne(ds, r);
    if Has(ds, id) {
      var k := IndexOf(ds, id);
      assert Identify(next[k]) == id;
      HeldAt(next, k);
    } else if Identify(r) == id {
      assert next[|ds|] == r;
      HeldAt(next, |ds|);
    }
  }

  /** Folding leaves for every identity what its own records settle. */
  lemma {:induction false} FoldHeld(ds: seq<Record>, rs: seq<Record>, id: Identity)
    requires UniqueIds(ds)
    ensures Held(Fold(ds, rs), id) == Settle(Held(ds, id), OfId(rs, id))
    decreases |rs|
  {
    if rs != [] {
      FoldOneUnique(ds, rs[0]);
      FoldOneHeld(ds, rs[0], id);
      FoldHeld(FoldOne(ds, rs[0]), rs[1..], id);
      if Identify(rs[0]) == id {
        assert OfId(rs, id)[1..] == OfId(rs[1..], id);
      } else {
        assert OfId(rs, id) == OfId(rs[1..], id);
      }
    }
  }

  /** Folding one deduplicated list into another: each identity meets at most one record. */
  lemma FoldTwo(ds: seq<Record>, es: seq<Record>, id: Identity)
    requires UniqueIds(ds) && UniqueIds(es)
    ensures Held(Fold(ds, es), id) == match Held(es, id) case None => Held(ds, id) case Some(r) => Meet(Held(ds, id), r)
  {
    FoldHeld(ds, es, id);
    OfIdUnique(es, id);
  }

  lemma {:induction false} OfIdUnique(ds: seq<Record>, id: Identity)
    requires UniqueIds(ds)
    ensures OfId(ds, id) == if Has(ds, id) then [Held(ds, id).value] else []
  {
    if ds != [] {
      HasCons(ds, id);
      assert forall k :: 0 <= k < |ds[1..]| ==> ds[1..][k] == ds[k + 1];
      OfIdUnique(ds[1..], id);
      if Identify(ds[0]) == id {
        HeldAt(ds, 0);
        assert !Has(ds[1..], id);
      } else if Has(ds[1..], id) {
        HeldAt(ds, IndexOf(ds[1..], id) + 1);
      }
    }
  }

  // ---- the order of the identities ----

  function Names(rs: seq<Record>): (ids: seq<Identity>)
    ensures |ids| == |rs| && forall k :: 0 <= k < |rs| ==> ids[k] == Identify(rs[k])
  {
    seq(|rs|, k requires 0 <= k < |rs| => Identify(rs[k]))
  }

  function AddOne(ids: seq<Identity>, id: Identity): seq<Identity> { if id in ids then ids else ids + [id] }

  function AddAll(ids: seq<Identity>, more: seq<Identity>): seq<Identity>
    decreases |more|
  {
    if more == [] then ids else AddAll(AddOne(ids, more[0]), more[1..])
  }

  lemma HasName(rs: seq<Record>, id: Identity)
    ensures Has(rs, id) <==> id in Names(rs)
  {
    if Has(rs, id) {
      assert Names(rs)[IndexOf(rs, id)] == id;
    }
    if k :| 0 <= k < |rs| && Names(rs)[k] == id {
      assert Identify(rs[k]) == id;
    }
  }

  lemma {:induction false} FoldNames(ds: seq<Record>, rs: seq<Record>)
    ensures Names(Fold(ds, rs)) == AddAll(Names(ds), Names(rs))
    decreases |rs|
  {
    if rs != [] {
      HasName(ds, Identify(rs[0]));
      assert Names(FoldOne(ds, rs[0])) == AddOne(Names(ds), Identify(rs[0]));
      FoldNames(FoldOne(ds, rs[0]), rs[1..]);
      assert Names(rs)[1..] == Names(rs[1..]);
    }
  }

  lemma {:induction false} AddAllMember(ids: seq<Identity>, more: seq<Identity>, id: Identity)
    ensures id in AddAll(ids, more) <==> id in ids || id in more
    decreases |more|
  {
    if more != [] {
      AddAllMember(AddOne(ids, more[0]), more[1..], id);
      assert more == [more[0]] + more[1..];
    }
  }

  lemma {:induction false} AddAllSnoc(ids: seq<Identity>, more: seq<Identity>, id: Identity)
    ensures AddAll(ids, more + [id]) == AddOne(AddAll(ids, more), id)
    decreases |more|
  {
    if more == [] {
      assert [] + [id] == [id] && [id][1..] == [];
      assert AddAll(ids, [id]) == AddAll(AddOne(ids, id), []);
    } else {
      assert (more + [id])[0] == more[0] && (more + [id])[1..] == more[1..] + [id];
      AddAllSnoc(AddOne(ids, more[0]), more[1..], id);
    }
  }

  lemma {:induction false} AddAllTwice(ids: seq<Identity>, mid: seq<Identity>, more: seq<Identity>)
    ensures AddAll(ids, AddAll(mid, more)) == AddAll(AddAll(ids, mid), more)
    decreases |more|
  {
    if more != [] {
      AddAllTwice(ids, AddOne(mid, more[0]), more[1..]);
      AddAllSnoc(ids, mid, more[0]);
      AddAllMember(ids, mid, more[0]);
    }
  }

  /** Deduplicating the batch first does not change the order of the identities. */
  lemma DedupeKeepsOrder(ds: seq<Record>, batch: seq<Record>)
    ensures Names(Fold(ds, Dedupe(batch))) == Names(Fold(ds, batch))
  {
    FoldNames(ds, Dedupe(batch));
    FoldNames([], batch);
    FoldNames(ds, batch);
    AddAllTwice(Names(ds), [], Names(batch));
  }

  lemma SameList(xs: seq<Record>, ys: seq<Record>)
    requires UniqueIds(xs) && UniqueIds(ys) && Names(xs) == Names(ys)
    requires forall id :: Held(xs, id) == Held(ys, id)
    ensures xs == ys
  {
    forall k | 0 <= k < |xs| ensures xs[k] == ys[k] {
      assert Names(xs)[k] == Names(ys)[k];
      HeldAt(xs, k);
      HeldAt(ys, k);
    }
  }

  // ---- one identity: the records that win the running dedupe ----

  lemma {:induction false} SettleAppend(e: Option<Record>, xs: seq<Record>, ys: seq<Record>)
    ensures Settle(e, xs + ys) == Settle(Settle(e, xs), ys)
    decreases |xs|
  {
    if xs == [] {
      assert xs + ys == ys;
    } else {
      assert (xs + ys)[0] == xs[0] && (xs + ys)[1..] == xs[1..] + ys;
      SettleAppend(Meet(e, xs[0]), xs[1..], ys);
    }
  }

  lemma SettleSnoc(e: Option<Record>, xs: seq<Record>, x: Record)
    ensures Settle(e, xs + [x]) == Meet(Settle(e, xs), x)
  {
    SettleAppend(e, xs, [x]);
    assert [x][1..] == [];
    assert Settle(Settle(e, xs), [x]) == Settle(Meet(Settle(e, xs), x), []);
  }

  function Last(rs: seq<Record>): Record
    requires rs != []
  {
    rs[|rs| - 1]
  }

  /** The records that win against everything before them: each at least as new as the last winner. */
  function Winners(rs: seq<Record>): (ws: seq<Record>)
    ensures ws == [] <==> rs == []
    ensures forall k :: 0 <= k < |ws| ==> ws[k] in rs
  {
    if rs == [] then []
    else
      var before, r := Winners(rs[..|rs| - 1]), Last(rs);
      if before == [] || Wins(r, Last(before)) then before + [r] else before
  }

  lemma WinsOrder(a: Record, b: Record, c: Record)
    ensures Wins(a, a) && (Wins(a, b) || Wins(b, a))
    ensures Wins(c, b) && Wins(b, a) ==> Wins(c, a)
  {
    TextAtMostTotal(AsOf(a), AsOf(b));
    if TextAtMost(AsOf(a), AsOf(b)) && TextAtMost(AsOf(b), AsOf(c)) {
      TextAtMostTransitive(AsOf(a), AsOf(b), AsOf(c));
    }
  }

  /** Every record is at least as new as the ones before it. */
  ghost predicate Rising(ws: seq<Record>) {
    forall i, j {:trigger Wins(ws[j], ws[i])} :: 0 <= i <= j < |ws| ==> Wins(ws[j], ws[i])
  }

  lemma RisingSnoc(ws: seq<Record>, w: Record)
    requires Rising(ws) && (ws != [] ==> Wins(w, Last(ws)))
    ensures Rising(ws + [w])
  {
    forall i | 0 <= i < |ws| ensures Wins(w, ws[i]) {
      WinsOrder(ws[i], Last(ws), w);
    }
    WinsOrder(w, w, w);
  }

  lemma {:induction false} WinnersRise(rs: seq<Record>)
    ensures Rising(Winners(rs))
  {
    if rs != [] {
      var init, r := rs[..|rs| - 1], Last(rs);
      WinnersRise(init);
      if Winners(init) == [] || Wins(r, Last(Winners(init))) {
        RisingSnoc(Winners(init), r);
      }
    }
  }

  /** What is settled is at least as new as every record met. */
  lemma {:induction false} SettledIsNewest(e: Option<Record>, ws: seq<Record>)
    requires Rising(ws) && ws != []
    ensures Settle(e, ws).Some? && Wins(Settle(e, ws).value, Last(ws))
    ensures Wins(Last(ws), Settle(e, ws).value) || Settle(e, ws) == e
    decreases |ws|
  {
    var init, w := ws[..|ws| - 1], Last(ws);
    assert ws == init + [w];
    SettleSnoc(e, init, w);
    WinsOrder(w, w, w);
    if init != [] {
      SettledIsNewest(e, init);
    }
    if Settle(e, init).Some? {
      WinsOrder(w, Settle(e, init).value, w);
      if init != [] {
        WinsOrder(Settle(e, init).value, Last(init), w);
      }
    }
  }

  /** Records that lose the running dedupe lose whatever was stored before. */
  lemma {:induction false} WinnersDecide(e: Option<Record>, rs: seq<Record>)
    ensures Settle(e, rs) == Settle(e, Winners(rs))
    decreases |rs|
  {
    if rs != [] {
      var init, r := rs[..|rs| - 1], Last(rs);
      var ws := Winners(init);
      assert rs == init + [r];
      SettleSnoc(e, init, r);
      SettleSnoc(e, ws, r);
      WinnersDecide(e, init);
      WinnersRise(init);
      if ws != [] && !Wins(r, Last(ws)) {
        SettledIsNewest(e, ws);
        WinsOrder(Last(ws), Settle(e, ws).value, r);
      }
    }
  }

  // ---- what the winners leave, concretely ----

  predicate Concrete(r: Record) { r.readRevision.Some? && r.configDigest.Some? }

  lemma MergeMaps(a: map<string, string>, b: map<string, string>, c: map<string, string>)
    ensures (a + b) + c == a + (b + c)
  {
  }

  /** The props of all the records together, later ones first. */
  function Props(ws: seq<Record>): map<string, string> {
    if ws == [] then map[] else ws[0].props + Props(ws[1..])
  }

  lemma {:induction false} PropsKeys(ws: seq<Record>, key: string)
    ensures key in Props(ws) <==> exists k :: 0 <= k < |ws| && key in ws[k].props
  {
    if ws != [] {
      PropsKeys(ws[1..], key);
      if k :| 0 <= k < |ws[1..]| && key in ws[1..][k].props {
        assert key in ws[k + 1].props;
      }
      if k :| 0 <= k < |ws| && key in ws[k].props && k > 0 {
        assert key in ws[1..][k - 1].props;
      }
    }
  }

  lemma {:induction false} PropsAppend(xs: seq<Record>, ys: seq<Record>)
    ensures Props(xs + ys) == Props(xs) + Props(ys)
  {
    if xs == [] {
      assert xs + ys == ys;
    } else {
      assert (xs + ys)[0] == xs[0] && (xs + ys)[1..] == xs[1..] + ys;
      PropsAppend(xs[1..], ys);
      MergeMaps(xs[0].props, Props(xs[1..]), Props(ys));
    }
  }

  /** Records that all lose leave the stored one alone. */
  lemma {:induction false} SettleLosing(x: Record, ws: seq<Record>)
    requires forall k :: 0 <= k < |ws| ==> !Wins(ws[k], x)
    ensures Settle(Some(x), ws) == Some(x)
  {
    if ws != [] {
      SettleLosing(x, ws[1..]);
    }
  }

  ghost predicate AllSame(ws: seq<Record>, r: Record) {
    forall k :: 0 <= k < |ws| ==> SameCoordinates(ws[k], r)
  }

  /** Rising records of one coordinate, met by a record they win against. */
  lemma {:induction false} SettleRun(x: Record, ws: seq<Record>)
    requires ws != [] && Rising(ws) && AllSame(ws, Last(ws)) && Wins(ws[0], x)
    ensures var shared := if SameCoordinates(Last(ws), x) then x.props else map[];
            Settle(Some(x), ws) == Some(Last(ws).(props := shared + Props(ws)))
    decreases |ws|
  {
    var w, rest := ws[0], ws[1..];
    var shared := if SameCoordinates(w, x) then x.props else map[];
    assert SameCoordinates(w, Last(ws));
    assert map[] + w.props == w.props && w.props + map[] == w.props;
    assert Meet(Some(x), w) == Some(w.(props := shared + w.props));
    if rest == [] {
      assert Props(ws) == w.props + map[];
    } else {
      assert Rising(rest) by {
        forall i, j | 0 <= i <= j < |rest| ensures Wins(rest[j], rest[i]) {
          assert Wins(ws[j + 1], ws[i + 1]);
        }
      }
      assert Last(rest) == Last(ws) && AllSame(rest, Last(rest));
      assert Wins(ws[1], ws[0]);
      SettleRun(w.(props := shared + w.props), rest);
      MergeMaps(shared, w.props, Props(rest));
    }
  }

  // ---- when the dedupe of one identity may come first ----

  /** The records of the greatest revision all carry the last one's config digest. */
  predicate OneDigest(ws: seq<Record>)
    requires ws != []
  {
    forall k :: 0 <= k < |ws| && Rank(ws[k]) == Rank(Last(ws)) ==> SameCoordinates(ws[k], Last(ws))
  }

  predicate KnownFrom(ws: seq<Record>, m: nat, key: string) {
    exists k :: m <= k < |ws| && key in ws[k].props
  }

  /** What the records of the greatest revision know before position m is known again from m on. */
  predicate Recurs(ws: seq<Record>, m: nat)
    requires ws != [] && m <= |ws|
  {
    forall k :: 0 <= k < m && Rank(ws[k]) == Rank(Last(ws)) ==>
      forall key :: key in ws[k].props ==> KnownFrom(ws, m, key)
  }

  /** The capture time grows at position m. */
  predicate Later(ws: seq<Record>, m: nat)
    requires m < |ws|
  {
    m > 0 && AsOf(ws[m - 1]) != AsOf(ws[m])
  }

  /** Nothing is at stake unless the last winner has a concrete coordinate to merge props at. */
  predicate Harmless(ws: seq<Record>) {
    ws != [] && Concrete(Last(ws)) ==> OneDigest(ws) && forall m :: 0 <= m < |ws| && Later(ws, m) ==> Recurs(ws, m)
  }

  /** The greatest revision starts at s. */
  ghost predicate TopAt(ws: seq<Record>, s: nat) {
    && s < |ws| && Rank(ws[s]) == Rank(Last(ws))
    && forall k :: 0 <= k < s ==> Rank(ws[k]) != Rank(Last(ws))
  }

  lemma TopExists(ws: seq<Record>, m: nat) returns (s: nat)
    requires m < |ws| && Rank(ws[m]) == Rank(Last(ws))
    ensures s <= m && TopAt(ws, s)
  {
    s := 0;
    while Rank(ws[s]) != Rank(Last(ws))
      invariant s <= m
      invariant forall k :: 0 <= k < s ==> Rank(ws[k]) != Rank(Last(ws))
      decreases m - s
    {
      s := s + 1;
    }
  }

  lemma RisingFrom(ws: seq<Record>, m: nat)
    requires Rising(ws) && m <= |ws|
    ensures Rising(ws[m..])
  {
    forall i, j | 0 <= i <= j < |ws[m..]| ensures Wins(ws[m..][j], ws[m..][i]) {
      assert Wins(ws[m + j], ws[m + i]);
    }
  }

  lemma TopIsSame(ws: seq<Record>, m: nat)
    requires m < |ws| && Rank(ws[m]) == Rank(Last(ws)) && Rising(ws) && OneDigest(ws)
    ensures Rising(ws[m..]) && Last(ws[m..]) == Last(ws) && AllSame(ws[m..], Last(ws))
  {
    RisingFrom(ws, m);
    forall k | 0 <= k < |ws[m..]| ensures SameCoordinates(ws[m..][k], Last(ws)) {
      assert Wins(ws[m + k], ws[m]) && Wins(Last(ws), ws[m + k]);
    }
  }

  lemma {:induction false} SettleBelow(e: Option<Record>, ws: seq<Record>, rank: int)
    requires (e.Some? ==> Rank(e.value) < rank) && forall k :: 0 <= k < |ws| ==> Rank(ws[k]) < rank
    ensures Settle(e, ws).Some? ==> Rank(Settle(e, ws).value) < rank
    decreases |ws|
  {
    if ws != [] {
      SettleBelow(Meet(e, ws[0]), ws[1..], rank);
    }
  }

  lemma LowSettles(e: Option<Record>, ws: seq<Record>, s: nat)
    requires TopAt(ws, s) && Rising(ws) && (e.Some? ==> Rank(e.value) < Rank(Last(ws)))
    ensures var below := Settle(e, ws[..s]); below.Some? ==> Rank(below.value) < Rank(Last(ws))
  {
    forall k | 0 <= k < s ensures Rank(ws[..s][k]) < Rank(Last(ws)) {
      assert Wins(Last(ws), ws[k]);
    }
    SettleBelow(e, ws[..s], Rank(Last(ws)));
  }

  lemma RunAfresh(e: Option<Record>, top: seq<Record>)
    requires top != [] && Rising(top) && AllSame(top, Last(top))
    requires e.Some? ==> Rank(e.value) < Rank(Last(top))
    ensures Settle(e, top) == Some(Last(top).(props := Props(top)))
  {
    assert SameCoordinates(top[0], Last(top));
    var x := Last(top).(readRevision := Some(Rank(Last(top)) - 1));
    assert Meet(e, top[0]) == Some(top[0]) == Meet(Some(x), top[0]);
    SettleRun(x, top);
    assert map[] + Props(top) == Props(top);
  }

  /** From nothing, or from a lower revision, the records of the greatest revision settle afresh. */
  lemma SettleAfresh(e: Option<Record>, ws: seq<Record>, s: nat)
    requires TopAt(ws, s) && Rising(ws) && OneDigest(ws)
    requires e.Some? ==> Rank(e.value) < Rank(Last(ws))
    ensures Settle(e, ws) == Some(Last(ws).(props := Props(ws[s..])))
  {
    assert ws == ws[..s] + ws[s..];
    SettleAppend(e, ws[..s], ws[s..]);
    LowSettles(e, ws, s);
    TopIsSame(ws, s);
    RunAfresh(Settle(e, ws[..s]), ws[s..]);
  }

  /** The first winner that wins against x. */
  ghost predicate FirstAgainst(ws: seq<Record>, x: Record, m: nat) {
    m < |ws| && Wins(ws[m], x) && forall k :: 0 <= k < m ==> !Wins(ws[k], x)
  }

  lemma FirstExists(ws: seq<Record>, x: Record) returns (m: nat)
    requires ws != [] && Wins(Last(ws), x)
    ensures FirstAgainst(ws, x, m)
  {
    m := 0;
    while !Wins(ws[m], x)
      invariant m < |ws|
      invariant forall k :: 0 <= k < m ==> !Wins(ws[k], x)
      decreases |ws| - m
    {
      m := m + 1;
    }
  }

  /** Met by a record of the greatest revision, the winners count from the first that wins against it. */
  lemma SettleFrom(x: Record, ws: seq<Record>, m: nat)
    requires ws != [] && Rising(ws) && OneDigest(ws) && Rank(x) == Rank(Last(ws)) && FirstAgainst(ws, x, m)
    ensures var shared := if SameCoordinates(Last(ws), x) then x.props else map[];
            Settle(Some(x), ws) == Some(Last(ws).(props := shared + Props(ws[m..])))
  {
    assert Wins(Last(ws), ws[m]);
    TopIsSame(ws, m);
    assert ws == ws[..m] + ws[m..];
    SettleAppend(Some(x), ws[..m], ws[m..]);
    SettleLosing(x, ws[..m]);
    SettleRun(x, ws[m..]);
  }

  lemma PropsAbsorbed(xs: seq<Record>, ys: seq<Record>)
    requires forall k, key :: 0 <= k < |xs| && key in xs[k].props ==> key in Props(ys)
    ensures Props(xs + ys) == Props(ys)
  {
    PropsAppend(xs, ys);
    forall key | key in Props(xs) ensures key in Props(ys) {
      PropsKeys(xs, key);
    }
  }

  lemma KnownInProps(ws: seq<Record>, m: nat, key: string)
    requires m <= |ws|
    ensures KnownFrom(ws, m, key) <==> key in Props(ws[m..])
  {
    PropsKeys(ws[m..], key);
    if k :| m <= k < |ws| && key in ws[k].props {
      assert key in ws[m..][k - m].props;
    }
    if k :| 0 <= k < |ws[m..]| && key in ws[m..][k].props {
      assert key in ws[m + k].props;
    }
  }

  lemma RankOnTop(ws: seq<Record>, s: nat, k: nat)
    requires TopAt(ws, s) && Rising(ws) && s <= k < |ws|
    ensures Rank(ws[k]) == Rank(Last(ws))
  {
    assert Wins(ws[k], ws[s]) && Wins(Last(ws), ws[k]);
  }

  lemma RecursAt(ws: seq<Record>, s: nat, m: nat, k: nat, key: string)
    requires TopAt(ws, s) && s <= k < m < |ws| && Rising(ws) && Recurs(ws, m) && key in ws[k].props
    ensures key in Props(ws[m..])
  {
    RankOnTop(ws, s, k);
    KnownInProps(ws, m, key);
  }

  lemma RecursProps(ws: seq<Record>, s: nat, m: nat)
    requires TopAt(ws, s) && s <= m < |ws| && Rising(ws) && Recurs(ws, m)
    ensures Props(ws[s..]) == Props(ws[m..])
  {
    var xs, ys := ws[s..m], ws[m..];
    assert ws[s..] == xs + ys;
    forall k, key | 0 <= k < |xs| && key in xs[k].props ensures key in Props(ys) {
      RecursAt(ws, s, m, s + k, key);
    }
    PropsAbsorbed(xs, ys);
  }

  /** Meeting e with the winners one by one, or with what they settle on their own. */
  ghost predicate Agrees(e: Option<Record>, ws: seq<Record>) {
    Settle(e, ws) == match Settle(None, ws) case None => e case Some(w) => Meet(e, w)
  }

  /** Against a newer record nothing happens either way. */
  lemma AgreesNewer(x: Record, ws: seq<Record>)
    requires ws != [] && Rising(ws) && !Wins(Last(ws), x)
    ensures Agrees(Some(x), ws)
  {
    forall k | 0 <= k < |ws| ensures !Wins(ws[k], x) {
      WinsOrder(x, ws[k], Last(ws));
    }
    SettleLosing(x, ws);
    SettledIsNewest(None, ws);
    WinsOrder(x, Settle(None, ws).value, Last(ws));
  }

  /** Without a concrete coordinate nothing is ever merged into the last winner. */
  lemma AgreesVague(x: Record, ws: seq<Record>)
    requires ws != [] && Rising(ws) && Wins(Last(ws), x) && !Concrete(Last(ws))
    ensures Agrees(Some(x), ws)
  {
    VagueSettles(Some(x), ws);
    VagueSettles(None, ws);
  }

  lemma VagueSettles(e: Option<Record>, ws: seq<Record>)
    requires ws != [] && Rising(ws) && !Concrete(Last(ws)) && (e.Some? ==> Wins(Last(ws), e.value))
    ensures Settle(e, ws) == Some(Last(ws))
  {
    var init, w := ws[..|ws| - 1], Last(ws);
    assert ws == init + [w];
    SettleSnoc(e, init, w);
    if init != [] {
      SettledIsNewest(e, init);
      WinsOrder(Settle(e, init).value, Last(init), w);
    }
  }

  lemma LevelProps(x: Record, ws: seq<Record>, s: nat, m: nat)
    requires Rising(ws) && TopAt(ws, s) && FirstAgainst(ws, x, m) && s <= m
    requires Concrete(Last(ws)) && Harmless(ws) && Rank(x) == Rank(Last(ws))
    ensures Props(ws[s..]) == Props(ws[m..])
  {
    if s < m {
      RankOnTop(ws, s, m - 1);
      RankOnTop(ws, s, m);
      assert Later(ws, m);
      RecursProps(ws, s, m);
    }
  }

  lemma MergeProps(x: Record, w: Record, props: map<string, string>)
    ensures var shared := if SameCoordinates(w, x) then x.props else map[];
            Merge(x, w.(props := props)) == w.(props := shared + props)
  {
    assert map[] + props == props;
  }

  lemma AgreesLevel(x: Record, ws: seq<Record>)
    requires ws != [] && Rising(ws) && Concrete(Last(ws)) && Harmless(ws)
    requires Wins(Last(ws), x) && Rank(x) == Rank(Last(ws))
    ensures Agrees(Some(x), ws)
  {
    var m := FirstExists(ws, x);
    assert Wins(Last(ws), ws[m]);
    var s := TopExists(ws, m);
    SettleFrom(x, ws, m);
    SettleAfresh(None, ws, s);
    LevelProps(x, ws, s, m);
    MergeProps(x, Last(ws), Props(ws[m..]));
  }

  lemma {:induction false} HarmlessAgrees(e: Option<Record>, ws: seq<Record>)
    requires Rising(ws) && Harmless(ws)
    ensures Agrees(e, ws)
  {
    if ws == [] {
    } else if e.None? {
      SettledIsNewest(None, ws);
    } else if !Wins(Last(ws), e.value) {
      AgreesNewer(e.value, ws);
    } else if !Concrete(Last(ws)) {
      AgreesVague(e.value, ws);
    } else if Rank(e.value) < Rank(Last(ws)) {
      var s := TopExists(ws, |ws| - 1);
      SettleAfresh(e, ws, s);
      SettleAfresh(None, ws, s);
    } else {
      AgreesLevel(e.value, ws);
    }
  }

  // ---- and when not: a stored record that shows it ----

  lemma {:induction false} NoNewKeys(e: Option<Record>, ws: seq<Record>, key: string)
    requires e.Some? ==> key !in e.value.props
    requires forall k :: 0 <= k < |ws| ==> key !in ws[k].props
    ensures Settle(e, ws).Some? ==> key !in Settle(e, ws).value.props
    decreases |ws|
  {
    if ws != [] {
      NoNewKeys(Meet(e, ws[0]), ws[1..], key);
    }
  }

  /** A key only the stored record knows goes once a winner of another digest supersedes it. */
  lemma LosesKey(x: Record, ws: seq<Record>, i: nat, key: string)
    requires Rising(ws) && i < |ws| && Concrete(x) && (forall k :: 0 <= k < |ws| ==> key !in ws[k].props)
    requires Rank(ws[i]) == Rank(x) && AsOf(x) == "" && !SameCoordinates(ws[i], x)
    ensures Settle(Some(x), ws).Some? && key !in Settle(Some(x), ws).value.props
  {
    var pre, rest := ws[..i], ws[i + 1..];
    assert ws == pre + [ws[i]] + rest;
    SettleAppend(Some(x), pre + [ws[i]], rest);
    SettleSnoc(Some(x), pre, ws[i]);
    Tracks(x, pre, key);
    assert Rising(pre) by {
      forall a, b | 0 <= a <= b < |pre| ensures Wins(pre[b], pre[a]) {
        assert Wins(ws[b], ws[a]);
      }
    }
    if pre != [] {
      SettledIsNewest(Some(x), pre);
      assert Wins(ws[i], ws[i - 1]);
      WinsOrder(Settle(Some(x), pre).value, Last(pre), ws[i]);
    }
    NoNewKeys(Settle(Some(x), pre + [ws[i]]), rest, key);
    SettledIsNewest(Some(x), ws);
  }

  lemma {:induction false} Tracks(x: Record, ws: seq<Record>, key: string)
    requires Concrete(x) && forall k :: 0 <= k < |ws| ==> key !in ws[k].props
    ensures Settle(Some(x), ws).Some?
    ensures key in Settle(Some(x), ws).value.props ==> SameCoordinates(Settle(Some(x), ws).value, x)
  {
    if ws != [] {
      var init, w := ws[..|ws| - 1], Last(ws);
      assert ws == init + [w];
      SettleSnoc(Some(x), init, w);
      Tracks(x, init, key);
    }
  }

  ghost function Longer(keys: set<string>): (n: nat)
    ensures forall key :: key in keys ==> |key| < n
  {
    if keys == {} then 0
    else
      var key :| key in keys;
      var n := Longer(keys - {key});
      if |key| < n then n else |key| + 1
  }

  lemma UnusedKey(ws: seq<Record>) returns (key: string)
    ensures forall k :: 0 <= k < |ws| ==> key !in ws[k].props
  {
    var used := set k, used | 0 <= k < |ws| && used in ws[k].props :: used;
    key := seq(Longer(used), _ => 'x');
    assert forall k, other :: 0 <= k < |ws| && other in ws[k].props ==> other in used && |other| < |key|;
  }

  lemma SettledFromNothing(ws: seq<Record>)
    requires ws != [] && Rising(ws)
    ensures Settle(None, ws).Some?
    ensures Settle(None, ws).value.(props := map[]) == Last(ws).(props := map[])
  {
    var init, w := ws[..|ws| - 1], Last(ws);
    assert ws == init + [w];
    SettleSnoc(None, init, w);
    if init != [] {
      assert Rising(init) by {
        forall a, b | 0 <= a <= b < |init| ensures Wins(init[b], init[a]) {
          assert Wins(ws[b], ws[a]);
        }
      }
      SettledIsNewest(None, init);
      assert Wins(w, ws[|ws| - 2]);
      WinsOrder(Settle(None, init).value, Last(init), w);
    }
  }

  lemma TwoDigestsShow(ws: seq<Record>) returns (x: Record)
    requires ws != [] && Rising(ws) && Concrete(Last(ws)) && !OneDigest(ws)
    ensures x.subject == Last(ws).subject && !Agrees(Some(x), ws)
  {
    var key := UnusedKey(ws);
    x := Last(ws).(asOf := None, props := map[key := ""]);
    var i :| 0 <= i < |ws| && Rank(ws[i]) == Rank(Last(ws)) && !SameCoordinates(ws[i], Last(ws));
    LosesKey(x, ws, i, key);
    SettledFromNothing(ws);
    var w := Settle(None, ws).value;
    assert TextAtMost("", AsOf(w));
    assert key in Meet(Some(x), w).value.props;
  }

  lemma LateRepeatShows(ws: seq<Record>, m: nat, k: nat, key: string) returns (x: Record)
    requires ws != [] && Rising(ws) && OneDigest(ws) && m < |ws| && Later(ws, m)
    requires 0 <= k < m && Rank(ws[k]) == Rank(Last(ws)) && key in ws[k].props && !KnownFrom(ws, m, key)
    ensures x.subject == Last(ws).subject && !Agrees(Some(x), ws)
  {
    x := Last(ws).(asOf := Some(AsOf(ws[m])), props := map[]);
    var s := TopExists(ws, k);
    RankOnTop(ws, s, m - 1);
    RankOnTop(ws, s, m);
    LosesBefore(x, ws, m);
    TextAtMostTotal(AsOf(ws[m]), AsOf(x));
    SettleFrom(x, ws, m);
    SettleAfresh(None, ws, s);
    KnownInProps(ws, m, key);
    assert KnownFrom(ws, s, key);
    KnownInProps(ws, s, key);
    assert Wins(Last(ws), ws[m]);
    assert key in Meet(Some(x), Settle(None, ws).value).value.props;
  }

  lemma LosesBefore(x: Record, ws: seq<Record>, m: nat)
    requires Rising(ws) && 0 < m < |ws| && AsOf(ws[m - 1]) != AsOf(ws[m]) == AsOf(x)
    requires Rank(ws[m - 1]) == Rank(ws[m]) == Rank(x)
    ensures forall j :: 0 <= j < m ==> !Wins(ws[j], x)
  {
    forall j | 0 <= j < m ensures !Wins(ws[j], x) {
      assert Wins(ws[m - 1], ws[j]) && Wins(ws[m], ws[m - 1]);
      WinsOrder(x, ws[j], ws[m - 1]);
      TextAtMostTotal(AsOf(ws[m - 1]), AsOf(x));
    }
  }

  lemma HarmShows(ws: seq<Record>) returns (x: Record)
    requires Rising(ws) && !Harmless(ws)
    ensures ws != [] && x.subject == Last(ws).subject && !Agrees(Some(x), ws)
  {
    if !OneDigest(ws) {
      x := TwoDigestsShow(ws);
    } else {
      var m :| 0 <= m < |ws| && Later(ws, m) && !Recurs(ws, m);
      var k :| 0 <= k < m && Rank(ws[k]) == Rank(Last(ws)) &&
               exists key :: key in ws[k].props && !KnownFrom(ws, m, key);
      var key :| key in ws[k].props && !KnownFrom(ws, m, key);
      x := LateRepeatShows(ws, m, k, key);
    }
  }

  // ---- whole batches ----

  /** A test on the batch alone, identity by identity, over the records that win its running dedupe. */
  predicate HarmlessBatch(batch: seq<Record>) {
    forall k :: 0 <= k < |batch| ==> HarmlessFor(batch, Identify(batch[k]))
  }

  predicate HarmlessFor(batch: seq<Record>, id: Identity) { Harmless(Winners(OfId(batch, id))) }

  lemma FoldAgrees(ds: seq<Record>, batch: seq<Record>, id: Identity)
    requires UniqueIds(ds)
    ensures Held(Fold(ds, Dedupe(batch)), id) == Held(Fold(ds, batch), id) <==>
            Agrees(Held(ds, id), Winners(OfId(batch, id)))
  {
    var own := OfId(batch, id);
    FoldUnique([], batch);
    FoldHeld(ds, batch, id);
    FoldTwo(ds, Dedupe(batch), id);
    FoldHeld([], batch, id);
    WinnersDecide(Held(ds, id), own);
    WinnersDecide(None, own);
  }

  ghost predicate FoldsAlike(ds: seq<Record>, batch: seq<Record>) {
    UniqueIds(ds) ==> Fold(ds, Dedupe(batch)) == Fold(ds, batch)
  }

  lemma HarmlessFolds(ds: seq<Record>, batch: seq<Record>)
    requires HarmlessBatch(batch)
    ensures FoldsAlike(ds, batch)
  {
    if UniqueIds(ds) {
      FoldUnique([], batch);
      FoldUnique(ds, batch);
      FoldUnique(ds, Dedupe(batch));
      DedupeKeepsOrder(ds, batch);
      forall id ensures Held(Fold(ds, Dedupe(batch)), id) == Held(Fold(ds, batch), id) {
        FoldAgrees(ds, batch, id);
        WinnersRise(OfId(batch, id));
        if Has(batch, id) {
          assert HarmlessFor(batch, Identify(batch[IndexOf(batch, id)]));
        }
        HarmlessAgrees(Held(ds, id), Winners(OfId(batch, id)));
      }
      SameList(Fold(ds, Dedupe(batch)), Fold(ds, batch));
    }
  }

  lemma ShownBy(x: Record, batch: seq<Record>)
    requires !Agrees(Some(x), Winners(OfId(batch, Identify(x))))
    ensures !FoldsAlike([x], batch)
  {
    HeldAt([x], 0);
    FoldAgrees([x], batch, Identify(x));
  }

  lemma HarmfulShows(batch: seq<Record>, id: Identity) returns (x: Record)
    requires !HarmlessFor(batch, id)
    ensures !FoldsAlike([x], batch)
  {
    var ws := Winners(OfId(batch, id));
    WinnersRise(OfId(batch, id));
    x := HarmShows(ws);
    assert Identify(x) == Identify(Last(ws)) == id;
    ShownBy(x, batch);
  }

  /** Deduplicating a batch before folding it into any deduplicated list changes nothing exactly for these batches. */
  lemma FoldDedupedExactly(batch: seq<Record>)
    ensures (forall ds :: FoldsAlike(ds, batch)) <==> HarmlessBatch(batch)
  {
    if HarmlessBatch(batch) {
      forall ds ensures FoldsAlike(ds, batch) {
        HarmlessFolds(ds, batch);
      }
    } else {
      var k :| 0 <= k < |batch| && !HarmlessFor(batch, Identify(batch[k]));
      var x := HarmfulShows(batch, Identify(batch[k]));
    }
  }

  /** The file reads back as the dedupe of the old records followed by the batch. */
  ghost predicate Refines(f: File, batch: seq<Record>, oversized: bool) {
    Read(AppendSpec(f, batch, oversized)) == Dedupe(Read(f) + batch)
  }

  lemma RefinesIffFolds(f: File, batch: seq<Record>, oversized: bool)
    requires batch != []
    ensures Refines(f, batch, oversized) <==> FoldsAlike(Dedupe(Read(f)), batch)
  {
    AppendReads(f, batch, oversized);
    FoldUnique([], Read(f));
    FoldAppend([], Read(f), batch);
  }

  /**
   `append_records` refines the simple fold, on every file and whichever path it takes, exactly for the
   batches whose own dedupe is harmless.
   */
  lemma AppendRefinesExactly(batch: seq<Record>)
    requires batch != []
    ensures (forall f, oversized :: Refines(f, batch, oversized)) <==> HarmlessBatch(batch)
  {
    if HarmlessBatch(batch) {
      forall f, oversized ensures Refines(f, batch, oversized) {
        RefinesIffFolds(f, batch, oversized);
        HarmlessFolds(Dedupe(Read(f)), batch);
      }
    } else {
      var k :| 0 <= k < |batch| && !HarmlessFor(batch, Identify(batch[k]));
      var x := HarmfulShows(batch, Identify(batch[k]));
      var f := Lines(Entries([x]));
      EntriesRoundTrip([x]);
      DedupeUnique([x]);
      RefinesIffFolds(f, batch, false);
    }
  }

  // ---- batches that are harmless ----

  lemma {:induction false} WinnersOne(rs: seq<Record>)
    requires |rs| <= 1
    ensures Winners(rs) == rs && Harmless(rs)
  {
    if rs != [] {
      assert [] + [rs[0]] == rs;
    }
  }

  /** A batch that names no identity twice. */
  lemma DistinctIsHarmless(batch: seq<Record>)
    requires UniqueIds(batch)
    ensures HarmlessBatch(batch)
  {
    forall k | 0 <= k < |batch| ensures HarmlessFor(batch, Identify(batch[k])) {
      OfIdUnique(batch, Identify(batch[k]));
      WinnersOne(OfId(batch, Identify(batch[k])));
    }
  }

  /** Same revision, same digest, same capture time: the stamp one capture gives all its records. */
  predicate SameStamp(a: Record, b: Record) {
    a.readRevision == b.readRevision && a.configDigest == b.configDigest && a.asOf == b.asOf
  }

  ghost predicate OneCoordinate(rs: seq<Record>) {
    forall r, s :: r in rs && s in rs ==> SameStamp(r, s)
  }

  /** A batch of one stamp. */
  lemma OneCoordinateIsHarmless(batch: seq<Record>)
    requires OneCoordinate(batch)
    ensures HarmlessBatch(batch)
  {
    forall k | 0 <= k < |batch| ensures HarmlessFor(batch, Identify(batch[k])) {
      var ws := Winners(OfId(batch, Identify(batch[k])));
      assert forall i, j :: 0 <= i < |ws| && 0 <= j < |ws| ==> SameStamp(ws[i], ws[j]);
    }
  }

  /** So after a nonempty harmless batch the file reads back as that dedupe, with one record per identity. */
  lemma AppendRefinesDedupe(f: File, batch: seq<Record>, oversized: bool)
    requires batch != [] && HarmlessBatch(batch)
    ensures Read(AppendSpec(f, batch, oversized)) == Dedupe(Read(f) + batch)
    ensures UniqueIds(Read(AppendSpec(f, batch, oversized)))
  {
    RefinesIffFolds(f, batch, oversized);
    HarmlessFolds(Dedupe(Read(f)), batch);
    FoldUnique([], Read(f) + batch);
  }

  // ---- and one that is not ----

  /** One entity, always read at the same revision and digest. */
  function Sample(props: map<string, string>, asOf: string): Record {
    Record(Entity("asset", "a1"), props, "", Some(7), Some("d"), Some(asOf))
  }

  /** Two readings of one entity, the later one without a key of the earlier one. */
  function MixedBatch(): seq<Record> { [Sample(map["y" := "2"], "4"), Sample(map["x" := "3"], "6")] }

  /** With mixed capture times in one batch the refinement can fail: a reading the fold would discard survives. */
  lemma MixedBatchDiffers()
    ensures exists f, oversized :: !Refines(f, MixedBatch(), oversized)
  {
    MixedBatchWins();
    var batch := MixedBatch();
    assert Later(batch, 1);
    assert "y" in batch[0].props && !KnownFrom(batch, 1, "y");
    assert !Recurs(batch, 1);
    assert !HarmlessFor(batch, Identify(batch[0]));
    AppendRefinesExactly(batch);
  }

  lemma MixedBatchWins()
    ensures var batch := MixedBatch(); Winners(OfId(batch, Identify(batch[0]))) == batch
  {
    var batch := MixedBatch();
    var id, rest := Identify(batch[0]), batch[1..];
    assert OfId(rest, id) == rest + OfId(rest[1..], id) == rest;
    assert OfId(batch, id) == [batch[0]] + rest == batch;
    WinnersOne(batch[..1]);
    assert Winners(batch) == batch[..1] + [batch[1]] == batch;
  }
}
