/**
 Sequence vocabulary shared by the models: distinct elements, filtering, flat-mapping, real-valued
 sums, Python's stable `sorted`, and the order Python gives to strings.

 Function arguments are always passed as the value of a named function (`Extender(view, start)` and
 the like), so that the same term denotes the same function value everywhere. The models sort with `Sort`, the
 stable insertion sort, wherever the source calls `sorted` or `list.sort`, and compare text with
 `TextLess`, code point by code point.
 */
module Sequences {

  datatype Option<+T> = None | Some(value: T) {
    function GetOr<U>(default: U, f: T -> U): U {
      match this
      case Some(v) => f(v)
      case None => default
    }
  }

  ghost predicate Distinct<T>(xs: seq<T>) {
    forall i, j :: 0 <= i < j < |xs| ==> xs[i] != xs[j]
  }

  lemma {:induction false} DistinctSize<T(!new)>(xs: seq<T>)
    requires Distinct(xs)
    ensures |set x | x in xs| == |xs|
  {
    if xs == [] {
    } else {
      var head, tail := xs[0], xs[1..];
      DistinctSize(tail);
      assert (set x | x in xs) == (set x | x in tail) + {head};
      assert head !in tail;
    }
  }

  lemma {:induction false} SubsetSize<T>(a: set<T>, b: set<T>)
    requires a <= b
    ensures |a| <= |b|
  {
    assert b == a + (b - a);
  }

  lemma ConcatAssociates<T>(a: seq<T>, b: seq<T>, c: seq<T>)
    ensures (a + b) + c == a + (b + c)
  {
  }

  // ---- filtering ----

  function Filter<T>(keep: T -> bool, xs: seq<T>): seq<T> {
    if xs == [] then []
    else (if keep(xs[0]) then [xs[0]] else []) + Filter(keep, xs[1..])
  }

  lemma {:induction false} FilterMember<T(!new)>(keep: T -> bool, xs: seq<T>, y: T)
    ensures y in Filter(keep, xs) <==> y in xs && keep(y)
  {
    if xs != [] {
      FilterMember(keep, xs[1..], y);
    }
  }

  lemma {:induction false} FilterAppend<T(!new)>(keep: T -> bool, xs: seq<T>, ys: seq<T>)
    ensures Filter(keep, xs + ys) == Filter(keep, xs) + Filter(keep, ys)
  {
    if xs == [] {
      assert xs + ys == ys;
    } else {
      var zs := xs + ys;
      assert zs[0] == xs[0] && zs[1..] == xs[1..] + ys;
      FilterAppend(keep, xs[1..], ys);
      ConcatAssociates(if keep(xs[0]) then [xs[0]] else [], Filter(keep, xs[1..]), Filter(keep, ys));
    }
  }

  lemma {:induction false} FilterDistinct<T(!new)>(keep: T -> bool, xs: seq<T>)
    requires Distinct(xs)
    ensures Distinct(Filter(keep, xs))
  {
    if xs == [] {
    } else {
      FilterDistinct(keep, xs[1..]);
      FilterMember(keep, xs[1..], xs[0]);
    }
  }

  lemma {:induction false} FilterMultiset<T(!new)>(keep: T -> bool, xs: seq<T>, x: T)
    ensures multiset(Filter(keep, xs))[x] == if keep(x) then multiset(xs)[x] else 0
  {
    if xs == [] {
    } else {
      FilterMultiset(keep, xs[1..], x);
      assert xs == [xs[0]] + xs[1..];
    }
  }

  lemma FilterNext<T(!new)>(keep: T -> bool, xs: seq<T>, k: nat)
    requires k < |xs|
    ensures keep(xs[k]) ==> Filter(keep, xs[..k + 1]) == Filter(keep, xs[..k]) + [xs[k]]
    ensures !keep(xs[k]) ==> Filter(keep, xs[..k + 1]) == Filter(keep, xs[..k])
  {
    assert xs[..k + 1] == xs[..k] + [xs[k]];
    FilterAppend(keep, xs[..k], [xs[k]]);
    assert [xs[k]][1..] == [];
  }

  lemma {:induction false} FilterNone<T(!new)>(keep: T -> bool, xs: seq<T>)
    requires forall x :: x in xs ==> !keep(x)
    ensures Filter(keep, xs) == []
  {
    if xs != [] {
      FilterNone(keep, xs[1..]);
    }
  }

  // ---- flat-mapping ----

  function FlatMap<A, B>(f: A -> seq<B>, xs: seq<A>): seq<B> {
    if xs == [] then [] else f(xs[0]) + FlatMap(f, xs[1..])
  }

  lemma {:induction false} FlatMapAppend<A(!new), B(!new)>(f: A -> seq<B>, xs: seq<A>, ys: seq<A>)
    ensures FlatMap(f, xs + ys) == FlatMap(f, xs) + FlatMap(f, ys)
  {
    if xs == [] {
      assert xs + ys == ys;
    } else {
      var zs := xs + ys;
      assert zs[0] == xs[0] && zs[1..] == xs[1..] + ys;
      FlatMapAppend(f, xs[1..], ys);
      ConcatAssociates(f(xs[0]), FlatMap(f, xs[1..]), FlatMap(f, ys));
    }
  }

  lemma {:induction false} FlatMapMember<A(!new), B(!new)>(f: A -> seq<B>, xs: seq<A>, y: B)
    ensures y in FlatMap(f, xs) <==> exists x :: x in xs && y in f(x)
  {
    if xs == [] {
    } else {
      FlatMapMember(f, xs[1..], y);
      assert forall x :: x in xs <==> x == xs[0] || x in xs[1..];
    }
  }

  lemma DistinctAppend<T(!new)>(xs: seq<T>, ys: seq<T>)
    requires Distinct(xs) && Distinct(ys)
    requires forall x :: x in xs ==> x !in ys
    ensures Distinct(xs + ys)
  {
    forall i, j | 0 <= i < j < |xs + ys| ensures (xs + ys)[i] != (xs + ys)[j] {
      if j < |xs| {
        assert xs[i] != xs[j];
      } else if i < |xs| {
        assert xs[i] in xs && ys[j - |xs|] in ys;
      } else {
        assert ys[i - |xs|] != ys[j - |xs|];
      }
    }
  }

  // ---- real-valued sums ----

  function SumBy<T>(f: T -> real, xs: seq<T>): real {
    if xs == [] then 0.0 else f(xs[0]) + SumBy(f, xs[1..])
  }

  lemma {:induction false} SumByAppend<T(!new)>(f: T -> real, xs: seq<T>, ys: seq<T>)
    ensures SumBy(f, xs + ys) == SumBy(f, xs) + SumBy(f, ys)
  {
    if xs == [] {
      assert xs + ys == ys;
    } else {
      assert (xs + ys)[1..] == xs[1..] + ys;
      SumByAppend(f, xs[1..], ys);
    }
  }

  lemma {:induction false} SumByExtend<T(!new)>(f: T -> real, xs: seq<T>, k: nat)
    requires k < |xs|
    ensures SumBy(f, xs[..k + 1]) == SumBy(f, xs[..k]) + f(xs[k])
  {
    assert xs[..k + 1] == xs[..k] + [xs[k]];
    SumByAppend(f, xs[..k], [xs[k]]);
    assert SumBy(f, [xs[k]]) == f(xs[k]) + SumBy(f, []);
  }

  lemma {:induction false} SumByLinear<T(!new)>(f: T -> real, g: T -> real, s: real, h: T -> real, xs: seq<T>)
    requires forall x :: x in xs ==> h(x) == f(x) + s * g(x)
    ensures SumBy(h, xs) == SumBy(f, xs) + s * SumBy(g, xs)
  {
    if xs == [] {
    } else {
      SumByLinear(f, g, s, h, xs[1..]);
    }
  }

  lemma {:induction false} SumByEqual<T(!new)>(f: T -> real, g: T -> real, xs: seq<T>)
    requires forall x :: x in xs ==> f(x) == g(x)
    ensures SumBy(f, xs) == SumBy(g, xs)
  {
    if xs == [] {
    } else {
      SumByEqual(f, g, xs[1..]);
    }
  }

  /** Two duplicate-free lists matched one to one by `image` have equal sums. */
  lemma {:induction false} SumByBijection<A(!new), B(!new)>(f: A -> real, xs: seq<A>, g: B -> real, ys: seq<B>,
                                            image: A -> B)
    requires Distinct(xs) && Distinct(ys)
    requires forall x :: x in xs ==> image(x) in ys && g(image(x)) == f(x)
    requires forall x, x' :: x in xs && x' in xs && image(x) == image(x') ==> x == x'
    requires forall y :: y in ys ==> exists x :: x in xs && image(x) == y
    ensures SumBy(f, xs) == SumBy(g, ys)
  {
    assert ys != [] ==> ys[0] in ys;
    if xs == [] {
    } else {
      assert xs[0] in xs && image(xs[0]) in ys;
      var k :| 0 <= k < |ys| && ys[k] == image(xs[0]);
      var rest := ys[..k] + ys[k + 1..];
      BijectionRest(xs, ys, image, rest);
      SumByBijection(f, xs[1..], g, rest, image);
      SumByWithout(g, ys, k);
    }
  }

  lemma BijectionRest<A(!new), B(!new)>(xs: seq<A>, ys: seq<B>, image: A -> B, rest: seq<B>)
    requires Distinct(xs) && xs != []
    requires forall x :: x in xs ==> image(x) in ys
    requires forall x, x' :: x in xs && x' in xs && image(x) == image(x') ==> x == x'
    requires forall y :: y in ys ==> exists x :: x in xs && image(x) == y
    requires forall y :: y in rest <==> y in ys && y != image(xs[0])
    ensures forall x :: x in xs[1..] ==> image(x) in rest
    ensures forall y :: y in rest ==> exists x :: x in xs[1..] && image(x) == y
  {
    forall x | x in xs[1..] ensures image(x) in rest {
      assert x in xs && x != xs[0];
    }
    forall y | y in rest ensures exists x :: x in xs[1..] && image(x) == y {
      var x :| x in xs && image(x) == y;
      assert x in xs[1..];
    }
  }

  lemma SumByWithout<T(!new)>(f: T -> real, xs: seq<T>, k: nat)
    requires k < |xs|
    ensures SumBy(f, xs) == f(xs[k]) + SumBy(f, xs[..k] + xs[k + 1..])
  {
    assert xs == xs[..k + 1] + xs[k + 1..];
    SumByAppend(f, xs[..k + 1], xs[k + 1..]);
    SumByExtend(f, xs, k);
    SumByAppend(f, xs[..k], xs[k + 1..]);
  }

  /** Positive terms over a sublist sum to less, and to the same only if nothing is left out. */
  lemma {:induction false} SumByInclusion<T(!new)>(f: T -> real, xs: seq<T>, ys: seq<T>)
    requires Distinct(xs) && Distinct(ys)
    requires forall x :: x in xs ==> x in ys
    requires forall y :: y in ys ==> f(y) > 0.0
    ensures SumBy(f, xs) <= SumBy(f, ys)
    ensures SumBy(f, xs) == SumBy(f, ys) <==> forall y :: y in ys ==> y in xs
  {
    if xs == [] {
      if ys != [] {
        SumByInclusion(f, [], ys[1..]);
        assert ys[0] in ys && ys[0] !in xs;
      }
    } else {
      assert xs[0] in ys;
      var k :| 0 <= k < |ys| && ys[k] == xs[0];
      var rest := ys[..k] + ys[k + 1..];
      assert forall y :: y in rest <==> y in ys && y != xs[0];
      SumByInclusion(f, xs[1..], rest);
      SumByWithout(f, ys, k);
    }
  }

  lemma SumBySameMembers<T(!new)>(f: T -> real, xs: seq<T>, ys: seq<T>)
    requires Distinct(xs) && Distinct(ys) && forall x :: x in xs <==> x in ys
    ensures SumBy(f, xs) == SumBy(f, ys)
  {
    SumByBijection(f, xs, f, ys, x => x);
  }

  function Fix<A, B>(f: (A, B) -> real, x: A): B -> real { y => f(x, y) }

  function RowSum<A, B>(f: (A, B) -> real, x: A, ys: seq<B>): real { SumBy(Fix(f, x), ys) }

  function RowSums<A, B>(f: (A, B) -> real, ys: seq<B>): A -> real { x => RowSum(f, x, ys) }

  function ColumnSum<A, B>(f: (A, B) -> real, xs: seq<A>, y: B): real {
    if xs == [] then 0.0 else f(xs[0], y) + ColumnSum(f, xs[1..], y)
  }

  function ColumnTotal<A, B>(f: (A, B) -> real, xs: seq<A>, y: B): real { ColumnSum(f, xs, y) }

  function ColumnSums<A, B>(f: (A, B) -> real, xs: seq<A>): B -> real { y => ColumnTotal(f, xs, y) }

  /** A double sum may be taken rows first or columns first. */
  lemma {:induction false} SwapSums<A(!new), B(!new)>(f: (A, B) -> real, xs: seq<A>, ys: seq<B>)
    ensures SumBy(RowSums(f, ys), xs) == SumBy(ColumnSums(f, xs), ys)
  {
    if xs == [] {
      ZeroSum(ColumnSums(f, xs), ys);
    } else {
      SwapSums(f, xs[1..], ys);
      SumByLinear(ColumnSums(f, xs[1..]), Fix(f, xs[0]), 1.0, ColumnSums(f, xs), ys);
    }
  }

  lemma {:induction false} ZeroSum<T(!new)>(f: T -> real, xs: seq<T>)
    requires forall x :: x in xs ==> f(x) == 0.0
    ensures SumBy(f, xs) == 0.0
  {
    if xs != [] {
      ZeroSum(f, xs[1..]);
    }
  }

  /** A function that vanishes everywhere but at one member of a duplicate-free list sums to its value there. */
  lemma {:induction false} SingleSum<T(!new)>(f: T -> real, xs: seq<T>, y: T)
    requires Distinct(xs) && y in xs
    requires forall x :: x in xs && x != y ==> f(x) == 0.0
    ensures SumBy(f, xs) == f(y)
  {
    if xs[0] == y {
      assert y !in xs[1..];
      ZeroSum(f, xs[1..]);
    } else {
      SingleSum(f, xs[1..], y);
    }
  }

  /** Filtering out terms that count as zero does not change a sum. */
  lemma {:induction false} SumByFilter<T(!new)>(h: T -> real, f: T -> real, keep: T -> bool, xs: seq<T>)
    requires forall x :: x in xs ==> h(x) == if keep(x) then f(x) else 0.0
    ensures SumBy(h, xs) == SumBy(f, Filter(keep, xs))
  {
    if xs != [] {
      SumByFilter(h, f, keep, xs[1..]);
      var rest := Filter(keep, xs[1..]);
      if keep(xs[0]) {
        var all := [xs[0]] + rest;
        assert Filter(keep, xs) == all && all[0] == xs[0] && all[1..] == rest;
      } else {
        assert Filter(keep, xs) == rest;
      }
    }
  }

  // ---- Python's sorted(): stable insertion ----

  function Insert<T(!new)>(leq: (T, T) -> bool, x: T, ys: seq<T>): (zs: seq<T>)
    ensures multiset(zs) == multiset{x} + multiset(ys)
  {
    if ys == [] || leq(x, ys[0]) then [x] + ys
    else
      assert ys == [ys[0]] + ys[1..];
      [ys[0]] + Insert(leq, x, ys[1..])
  }

  /** The stable sort: an element equal to a later one stays before it. */
  function Sort<T(!new)>(leq: (T, T) -> bool, xs: seq<T>): (ys: seq<T>)
    ensures multiset(ys) == multiset(xs)
  {
    if xs == [] then []
    else
      assert xs == [xs[0]] + xs[1..];
      Insert(leq, xs[0], Sort(leq, xs[1..]))
  }

  ghost predicate SortedBy<T(!new)>(leq: (T, T) -> bool, xs: seq<T>) {
    forall i, j :: 0 <= i < j < |xs| ==> leq(xs[i], xs[j])
  }

  ghost predicate TotalPreorderOn<T(!new)>(leq: (T, T) -> bool, xs: seq<T>) {
    && (forall x, y :: x in xs && y in xs ==> leq(x, y) || leq(y, x))
    && (forall x, y, z :: x in xs && y in xs && z in xs && leq(x, y) && leq(y, z) ==> leq(x, z))
  }

  lemma MultisetMembers<T(!new)>(xs: seq<T>, ys: seq<T>)
    requires multiset(xs) == multiset(ys)
    ensures |xs| == |ys| && forall x :: x in xs <==> x in ys
  {
    assert |multiset(xs)| == |multiset(ys)|;
    forall x ensures x in xs <==> x in ys {
      assert x in multiset(xs) <==> x in xs;
      assert x in multiset(ys) <==> x in ys;
    }
  }

  lemma {:induction false} MultisetDistinct<T(!new)>(xs: seq<T>)
    ensures Distinct(xs) <==> forall x :: multiset(xs)[x] <= 1
  {
    if xs == [] {
    } else {
      MultisetDistinct(xs[1..]);
      assert xs == [xs[0]] + xs[1..];
      if Distinct(xs) {
        assert xs[0] !in xs[1..];
        forall x ensures multiset(xs)[x] <= 1 {
          assert multiset(xs)[x] == multiset([xs[0]])[x] + multiset(xs[1..])[x];
        }
      }
      if forall x :: multiset(xs)[x] <= 1 {
        forall x ensures multiset(xs[1..])[x] <= 1 {
          assert multiset(xs)[x] == multiset([xs[0]])[x] + multiset(xs[1..])[x];
        }
        assert multiset(xs)[xs[0]] == 1 + multiset(xs[1..])[xs[0]];
        assert xs[0] !in xs[1..];
      }
    }
  }

  lemma {:induction false} InsertSorted<T(!new)>(leq: (T, T) -> bool, x: T, ys: seq<T>)
    requires TotalPreorderOn(leq, [x] + ys) && SortedBy(leq, ys)
    ensures SortedBy(leq, Insert(leq, x, ys))
  {
    assert x in [x] + ys;
    assert forall y :: y in ys ==> y in [x] + ys;
    if ys == [] {
    } else if leq(x, ys[0]) {
      var zs := [x] + ys;
      forall j | 0 < j < |zs| ensures leq(x, zs[j]) {
        assert zs[j] == ys[j - 1];
        assert ys[j - 1] in ys;
        if j > 1 { assert leq(ys[0], ys[j - 1]); }
      }
    } else {
      assert forall y :: y in [x] + ys[1..] ==> y in [x] + ys;
      InsertSorted(leq, x, ys[1..]);
      var tail := Insert(leq, x, ys[1..]);
      forall y | y in tail ensures leq(ys[0], y) {
        assert y in multiset(tail);
        if y in ys[1..] {
          var k :| 0 <= k < |ys[1..]| && ys[1..][k] == y;
          assert leq(ys[0], ys[k + 1]);
        } else {
          assert y == x && leq(ys[0], x);
        }
      }
    }
  }

  lemma {:induction false} SortSorted<T(!new)>(leq: (T, T) -> bool, xs: seq<T>)
    requires TotalPreorderOn(leq, xs)
    ensures SortedBy(leq, Sort(leq, xs))
  {
    if xs == [] {
    } else {
      SortSorted(leq, xs[1..]);
      var tail := Sort(leq, xs[1..]);
      MultisetMembers(tail, xs[1..]);
      assert forall y :: y in [xs[0]] + tail ==> y in xs;
      InsertSorted(leq, xs[0], tail);
    }
  }

  /** The sort is stable: r may decide ties by the order the elements came in. */
  ghost predicate Settles<T(!new)>(leq: (T, T) -> bool, r: (T, T) -> bool, x: T, y: T) {
    if leq(x, y) then r(x, y) else r(y, x)
  }

  ghost predicate TransitiveOn<T(!new)>(r: (T, T) -> bool) {
    forall x, y, z :: r(x, y) && r(y, z) ==> r(x, z)
  }

  lemma {:induction false} InsertStable<T(!new)>(leq: (T, T) -> bool, r: (T, T) -> bool, x: T, ys: seq<T>)
    requires TransitiveOn(r) && SortedBy(r, ys) && forall y :: y in ys ==> Settles(leq, r, x, y)
    ensures SortedBy(r, Insert(leq, x, ys))
  {
    var zs := Insert(leq, x, ys);
    if ys == [] {
    } else if leq(x, ys[0]) {
      assert Settles(leq, r, x, ys[0]);
      assert forall j :: 0 < j < |ys| ==> r(ys[0], ys[j]);
    } else {
      assert Settles(leq, r, x, ys[0]);
      InsertStable(leq, r, x, ys[1..]);
      var rest := Insert(leq, x, ys[1..]);
      MultisetMembers(rest, [x] + ys[1..]);
      forall j | 0 <= j < |rest| ensures r(ys[0], rest[j]) {
        assert rest[j] in rest;
        assert rest[j] in [x] + ys[1..];
      }
    }
  }

  lemma {:induction false} SortStable<T(!new)>(leq: (T, T) -> bool, r: (T, T) -> bool, xs: seq<T>)
    requires TransitiveOn(r) && forall i, j :: 0 <= i < j < |xs| ==> Settles(leq, r, xs[i], xs[j])
    ensures SortedBy(r, Sort(leq, xs))
  {
    if xs != [] {
      var tail := Sort(leq, xs[1..]);
      SortStable(leq, r, xs[1..]);
      MultisetMembers(tail, xs[1..]);
      forall y | y in tail ensures Settles(leq, r, xs[0], y) {
        var j :| 0 <= j < |xs[1..]| && xs[1..][j] == y;
        assert xs[j + 1] == y;
      }
      InsertStable(leq, r, xs[0], tail);
    }
  }

  lemma {:induction false} FilterSorted<T(!new)>(keep: T -> bool, r: (T, T) -> bool, xs: seq<T>)
    requires SortedBy(r, xs)
    ensures SortedBy(r, Filter(keep, xs))
  {
    if xs != [] {
      FilterSorted(keep, r, xs[1..]);
      var rest := Filter(keep, xs[1..]);
      forall j | 0 <= j < |rest| ensures r(xs[0], rest[j]) {
        assert rest[j] in rest;
        FilterMember(keep, xs[1..], rest[j]);
        var k :| 0 <= k < |xs[1..]| && xs[1..][k] == rest[j];
        assert xs[k + 1] == rest[j];
      }
    }
  }

  // ---- Python's order on strings: code point by code point ----

  predicate TextLess(a: string, b: string)
    decreases |a|
  {
    if b == [] then false
    else if a == [] then true
    else if a[0] != b[0] then a[0] < b[0]
    else TextLess(a[1..], b[1..])
  }

  predicate TextAtMost(a: string, b: string) {
    a == b || TextLess(a, b)
  }

  lemma {:induction false} TextLessTrichotomy(a: string, b: string)
    ensures TextLess(a, b) || a == b || TextLess(b, a)
    ensures !(TextLess(a, b) && TextLess(b, a))
    ensures !TextLess(a, a)
    decreases |a|
  {
    if a != [] && b != [] && a[0] == b[0] {
      TextLessTrichotomy(a[1..], b[1..]);
      assert a == [a[0]] + a[1..] && b == [b[0]] + b[1..];
    } else if a != [] {
      TextLessTrichotomy(a[1..], a[1..]);
    }
  }

  lemma {:induction false} TextLessTransitive(a: string, b: string, c: string)
    requires TextLess(a, b) && TextLess(b, c)
    ensures TextLess(a, c)
    decreases |a|
  {
    if a != [] && b != [] && c != [] && a[0] == b[0] == c[0] {
      TextLessTransitive(a[1..], b[1..], c[1..]);
    }
  }

  /** Up to some position the strings agree, and there the first one ends or has the smaller code point. */
  lemma {:induction false} TextLessExactly(a: string, b: string)
    ensures TextLess(a, b) <==>
            exists k :: 0 <= k <= |a| && k < |b| && a[..k] == b[..k] && (k == |a| || a[k] < b[k])
    decreases |a|
  {
    if a != [] && b != [] && a[0] == b[0] {
      TextLessExactly(a[1..], b[1..]);
      var s, t := a[1..], b[1..];
      if k :| 0 <= k <= |s| && k < |t| && s[..k] == t[..k] && (k == |s| || s[k] < t[k]) {
        assert a[..k + 1] == [a[0]] + a[1..][..k] && b[..k + 1] == [b[0]] + b[1..][..k];
      }
      if k :| 0 <= k <= |a| && k < |b| && a[..k] == b[..k] && (k == |a| || a[k] < b[k]) {
        assert k > 0;
        assert a[1..][..k - 1] == a[..k][1..] == b[..k][1..] == b[1..][..k - 1];
        assert k == |a| || a[1..][k - 1] < b[1..][k - 1];
      }
    } else if a == [] && b != [] {
      assert a[..0] == b[..0];
    } else if a != [] && b != [] {
      assert a[..0] == b[..0];
      if k :| 0 <= k <= |a| && k < |b| && a[..k] == b[..k] && (k == |a| || a[k] < b[k]) {
        assert k > 0 ==> a[..k][0] == b[..k][0];
      }
    }
  }

  lemma TextAtMostTotal(a: string, b: string)
    ensures TextAtMost(a, b) || TextAtMost(b, a)
    ensures TextAtMost(a, b) && TextAtMost(b, a) ==> a == b
  {
    TextLessTrichotomy(a, b);
  }

  lemma TextAtMostTransitive(a: string, b: string, c: string)
    requires TextAtMost(a, b) && TextAtMost(b, c)
    ensures TextAtMost(a, c)
  {
    if a != b && b != c {
      TextLessTransitive(a, b, c);
    }
  }
}
