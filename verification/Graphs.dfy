/**
 Finite directed graphs given as a set of links, with the two notions the models need: a node from
 which no walk ever repeats (`Grounded`: no cycle is reachable), and the length of the longest walk
 out of such a node (`Height`), the measure behind every recursion over an acyclic region. The bill of
 materials uses both on its followed edges, the workflow order on its dependencies turned around, and
 the row flow uses reachability alone.
 */
module Graphs {
  import opened Sequences

  ghost predicate Walk<N(!new)>(links: set<(N, N)>, w: seq<N>) {
    |w| > 0 && forall k :: 0 <= k < |w| - 1 ==> (w[k], w[k + 1]) in links
  }

  ghost predicate WalkFrom<N(!new)>(links: set<(N, N)>, x: N, w: seq<N>) {
    Walk(links, w) && w[0] == x
  }

  ghost predicate Reaches<N(!new)>(links: set<(N, N)>, x: N, y: N) {
    exists w {:trigger WalkFrom(links, x, w)} :: WalkFrom(links, x, w) && w[|w| - 1] == y
  }

  /** A closed walk of at least one link goes through x. */
  ghost predicate OnCycle<N(!new)>(links: set<(N, N)>, x: N) {
    exists w {:trigger WalkFrom(links, x, w)} :: WalkFrom(links, x, w) && |w| > 1 && w[|w| - 1] == x
  }

  /** No walk out of x ever visits a node twice. */
  ghost predicate Grounded<N(!new)>(links: set<(N, N)>, x: N) {
    forall w {:trigger WalkFrom(links, x, w)} :: WalkFrom(links, x, w) ==> Distinct(w)
  }

  lemma ReachesSelf<N(!new)>(links: set<(N, N)>, x: N)
    ensures Reaches(links, x, x)
  {
    assert WalkFrom(links, x, [x]);
  }

  lemma WalkCons<N(!new)>(links: set<(N, N)>, x: N, w: seq<N>)
    requires Walk(links, w) && (x, w[0]) in links
    ensures WalkFrom(links, x, [x] + w)
  {
    var v := [x] + w;
    forall k | 0 <= k < |v| - 1 ensures (v[k], v[k + 1]) in links {
      if k > 0 {
        assert (w[k - 1], w[k]) in links;
      }
    }
  }

  lemma ReachesCons<N(!new)>(links: set<(N, N)>, x: N, y: N, z: N)
    requires (x, y) in links && Reaches(links, y, z)
    ensures Reaches(links, x, z)
  {
    var w :| WalkFrom(links, y, w) && w[|w| - 1] == z;
    WalkCons(links, x, w);
    assert ([x] + w)[|w|] == z;
  }

  /** Reaching another node goes through a successor. */
  lemma ReachesStep<N(!new)>(links: set<(N, N)>, x: N, y: N)
    ensures Reaches(links, x, y) <==> x == y || exists z :: (x, z) in links && Reaches(links, z, y)
  {
    if Reaches(links, x, y) && x != y {
      var w :| WalkFrom(links, x, w) && w[|w| - 1] == y;
      var v := w[1..];
      forall k | 0 <= k < |v| - 1 ensures (v[k], v[k + 1]) in links {
        assert (w[k + 1], w[k + 2]) in links;
      }
      assert WalkFrom(links, w[1], v) && v[|v| - 1] == y;
      assert (w[0], w[1]) in links;
      assert Reaches(links, w[1], y);
    }
    if x == y {
      ReachesSelf(links, x);
    }
    if z :| (x, z) in links && Reaches(links, z, y) {
      ReachesCons(links, x, z, y);
    }
  }

  /** `Grounded` is exactly "no reachable node lies on a cycle". */
  lemma GroundedIffNoReachableCycle<N(!new)>(links: set<(N, N)>, x: N)
    ensures Grounded(links, x) <==> !exists y :: Reaches(links, x, y) && OnCycle(links, y)
  {
    if y :| Reaches(links, x, y) && OnCycle(links, y) {
      var w :| WalkFrom(links, x, w) && w[|w| - 1] == y;
      var c :| WalkFrom(links, y, c) && |c| > 1 && c[|c| - 1] == y;
      var wc := w + c[1..];
      forall k | 0 <= k < |wc| - 1 ensures (wc[k], wc[k + 1]) in links {
        if k < |w| - 1 {
          assert (w[k], w[k + 1]) in links;
        } else {
          assert (c[k - |w| + 1], c[k - |w| + 2]) in links;
        }
      }
      assert WalkFrom(links, x, wc);
      assert wc[|w| - 1] == y && wc[|wc| - 1] == c[|c| - 1] == y;
      assert !Distinct(wc);
    }
    if !Grounded(links, x) {
      var w :| WalkFrom(links, x, w) && !Distinct(w);
      var i, j :| 0 <= i < j < |w| && w[i] == w[j];
      WalkSlice(links, w, 0, i);
      WalkSlice(links, w, i, j);
      assert WalkFrom(links, x, w[..i + 1]) && w[..i + 1][i] == w[i];
      assert Reaches(links, x, w[i]);
      var c := w[i..j + 1];
      assert WalkFrom(links, w[i], c) && c[|c| - 1] == w[i];
    }
  }

  lemma WalkSlice<N(!new)>(links: set<(N, N)>, w: seq<N>, i: nat, j: nat)
    requires Walk(links, w) && i <= j < |w|
    ensures Walk(links, w[i..j + 1])
  {
    var v := w[i..j + 1];
    forall k | 0 <= k < |v| - 1 ensures (v[k], v[k + 1]) in links {
      assert (w[i + k], w[i + k + 1]) in links;
    }
  }

  lemma GroundedSuccessor<N(!new)>(links: set<(N, N)>, x: N, y: N)
    requires Grounded(links, x) && (x, y) in links
    ensures Grounded(links, y)
  {
    forall w | WalkFrom(links, y, w) ensures Distinct(w) {
      WalkCons(links, x, w);
      var v := [x] + w;
      assert Distinct(v);
      forall i, j | 0 <= i < j < |w| ensures w[i] != w[j] {
        assert v[i + 1] != v[j + 1];
      }
    }
  }

  /** A node from which a cycle can be reached has a successor of the same kind. */
  lemma UngroundedSuccessor<N(!new)>(links: set<(N, N)>, x: N) returns (y: N)
    requires !Grounded(links, x)
    ensures (x, y) in links && !Grounded(links, y)
  {
    GroundedIffNoReachableCycle(links, x);
    var z :| Reaches(links, x, z) && OnCycle(links, z);
    ReachesStep(links, x, z);
    if x == z {
      var c :| WalkFrom(links, x, c) && |c| > 1 && c[|c| - 1] == x;
      y := c[1];
      assert (c[0], c[1]) in links;
      WalkSlice(links, c, 1, |c| - 1);
      assert WalkFrom(links, y, c[1..|c|]) && c[1..|c|][|c| - 2] == x;
    } else {
      y :| (x, y) in links && Reaches(links, y, z);
    }
    GroundedIffNoReachableCycle(links, y);
  }

  // ---- height ----

  ghost predicate HasWalk<N(!new)>(links: set<(N, N)>, x: N, n: nat) {
    exists w {:trigger WalkFrom(links, x, w)} :: WalkFrom(links, x, w) && |w| == n + 1
  }

  ghost predicate IsHeight<N(!new)>(links: set<(N, N)>, x: N, n: nat) {
    HasWalk(links, x, n) && forall w {:trigger WalkFrom(links, x, w)} :: WalkFrom(links, x, w) ==> |w| <= n + 1
  }

  lemma GroundedWalkBound<N(!new)>(links: set<(N, N)>, x: N, w: seq<N>)
    requires Grounded(links, x) && WalkFrom(links, x, w)
    ensures |w| <= |links| + 1
  {
    var nodes := {x} + set l | l in links :: l.1;
    assert (set y | y in w) <= nodes by {
      forall k | 0 <= k < |w| ensures w[k] in nodes {
        if k > 0 {
          assert (w[k - 1], w[k]) in links;
        }
      }
    }
    DistinctSize(w);
    SubsetSize((set y | y in w), nodes);
    TargetsSize(links);
  }

  lemma {:induction false} TargetsSize<N>(links: set<(N, N)>)
    ensures |set l | l in links :: l.1| <= |links|
  {
    if links == {} {
      assert (set l | l in links :: l.1) == {};
    } else {
      var l0 :| l0 in links;
      var rest := links - {l0};
      TargetsSize(rest);
      assert (set l | l in links :: l.1) == (set l | l in rest :: l.1) + {l0.1};
    }
  }

  lemma {:induction false} HeightExists<N(!new)>(links: set<(N, N)>, x: N, n: nat)
    requires Grounded(links, x) && HasWalk(links, x, n)
    ensures exists h: nat :: IsHeight(links, x, h)
    decreases |links| + 1 - n
  {
    if w :| WalkFrom(links, x, w) && |w| > n + 1 {
      GroundedWalkBound(links, x, w);
      assert HasWalk(links, x, |w| - 1);
      HeightExists(links, x, |w| - 1);
    } else {
      assert IsHeight(links, x, n);
    }
  }

  /** The number of links in the longest walk out of x. */
  ghost function Height<N(!new)>(links: set<(N, N)>, x: N): (h: nat)
    requires Grounded(links, x)
    ensures IsHeight(links, x, h)
  {
    assert WalkFrom(links, x, [x]);
    assert HasWalk(links, x, 0);
    HeightExists(links, x, 0);
    var n: nat :| IsHeight(links, x, n);
    n
  }

  lemma HeightDecreases<N(!new)>(links: set<(N, N)>, x: N, y: N)
    requires Grounded(links, x) && (x, y) in links
    ensures Grounded(links, y) && Height(links, y) < Height(links, x)
  {
    GroundedSuccessor(links, x, y);
    var h := Height(links, y);
    assert HasWalk(links, y, h);
    var w :| WalkFrom(links, y, w) && |w| == h + 1;
    WalkCons(links, x, w);
    assert |[x] + w| <= Height(links, x) + 1;
  }
}
