/**
 The bookkeeping of the downward walk's queue of (assembly, multiplier) pairs: what it still carries,
 what it still costs and what it can still reach, and how popping one pair and pushing its children
 changes each of the three. The first is the loop's invariant on amounts, the second its termination
 measure, the third its invariant on which keys appear.
 */
module WorkQueue {
  import opened Graphs
  import opened Bom

  type Queue = seq<(Id, real)>

  /** What the queue still carries when one unit of assembly x is worth f(x). */
  ghost function QueueSum(f: Id -> real, queue: Queue): real {
    if queue == [] then 0.0 else queue[0].1 * f(queue[0].0) + QueueSum(f, queue[1..])
  }

  /** The number of pops the queue still costs when assembly x costs c(x). */
  ghost function QueueCost(c: Id -> nat, queue: Queue): nat {
    if queue == [] then 0 else c(queue[0].0) + QueueCost(c, queue[1..])
  }

  ghost predicate QueueReaches(links: set<(Id, Id)>, queue: Queue, a: Id) {
    exists k {:trigger queue[k]} :: 0 <= k < |queue| && Reaches(links, queue[k].0, a)
  }

  ghost predicate AllGrounded(links: set<(Id, Id)>, queue: Queue) {
    forall k :: 0 <= k < |queue| ==> Grounded(links, queue[k].0)
  }

  ghost function EdgeSum(f: Id -> real, es: seq<AssemblyEdge>): real {
    if es == [] then 0.0 else es[0].props.Quantity() * f(es[0].child) + EdgeSum(f, es[1..])
  }

  ghost function EdgeCost(c: Id -> nat, es: seq<AssemblyEdge>): nat {
    if es == [] then 0 else c(es[0].child) + EdgeCost(c, es[1..])
  }

  function Scaled(m: real, e: AssemblyEdge): (Id, real) {
    (e.child, m * e.props.Quantity())
  }

  /** The pairs pushed for edges es when their parent was popped with multiplier m. */
  function Pushed(m: real, es: seq<AssemblyEdge>): Queue {
    if es == [] then [] else [Scaled(m, es[0])] + Pushed(m, es[1..])
  }

  lemma {:induction false} PushedAppend(m: real, es: seq<AssemblyEdge>, e: AssemblyEdge)
    ensures Pushed(m, es + [e]) == Pushed(m, es) + [Scaled(m, e)]
  {
    if es == [] {
      assert es + [e] == [e] && [e][1..] == [];
    } else {
      var all := es + [e];
      assert all[0] == es[0] && all[1..] == es[1..] + [e];
      PushedAppend(m, es[1..], e);
    }
  }

  lemma {:induction false} PushedMember(m: real, es: seq<AssemblyEdge>)
    ensures |Pushed(m, es)| == |es| && forall k :: 0 <= k < |es| ==> Pushed(m, es)[k].0 == es[k].child
  {
    if es != [] {
      PushedMember(m, es[1..]);
    }
  }

  lemma {:induction false} QueueSumAppend(f: Id -> real, p: Queue, q: Queue)
    ensures QueueSum(f, p + q) == QueueSum(f, p) + QueueSum(f, q)
  {
    if p == [] {
      assert p + q == q;
    } else {
      assert (p + q)[0] == p[0] && (p + q)[1..] == p[1..] + q;
      QueueSumAppend(f, p[1..], q);
    }
  }

  lemma {:induction false} QueueCostAppend(c: Id -> nat, p: Queue, q: Queue)
    ensures QueueCost(c, p + q) == QueueCost(c, p) + QueueCost(c, q)
  {
    if p == [] {
      assert p + q == q;
    } else {
      assert (p + q)[0] == p[0] && (p + q)[1..] == p[1..] + q;
      QueueCostAppend(c, p[1..], q);
    }
  }

  lemma {:induction false} PushedSum(f: Id -> real, m: real, es: seq<AssemblyEdge>)
    ensures QueueSum(f, Pushed(m, es)) == m * EdgeSum(f, es)
  {
    if es == [] {
    } else {
      PushedSum(f, m, es[1..]);
      assert Pushed(m, es)[1..] == Pushed(m, es[1..]);
    }
  }

  lemma {:induction false} PushedCost(c: Id -> nat, m: real, es: seq<AssemblyEdge>)
    ensures QueueCost(c, Pushed(m, es)) == EdgeCost(c, es)
  {
    if es == [] {
    } else {
      PushedCost(c, m, es[1..]);
      assert Pushed(m, es)[1..] == Pushed(m, es[1..]);
    }
  }

  /** Popping (x, m) and pushing its children takes exactly m * own out of what the queue carries. */
  lemma PopSum(f: Id -> real, own: real, x: Id, m: real, rest: Queue, es: seq<AssemblyEdge>)
    requires f(x) == own + EdgeSum(f, es)
    ensures QueueSum(f, [(x, m)] + rest) == m * own + QueueSum(f, rest + Pushed(m, es))
  {
    QueueSumAppend(f, rest, Pushed(m, es));
    PushedSum(f, m, es);
    assert ([(x, m)] + rest)[1..] == rest;
  }

  lemma PopCost(c: Id -> nat, x: Id, m: real, rest: Queue, es: seq<AssemblyEdge>)
    requires c(x) == 1 + EdgeCost(c, es)
    ensures QueueCost(c, [(x, m)] + rest) == 1 + QueueCost(c, rest + Pushed(m, es))
  {
    QueueCostAppend(c, rest, Pushed(m, es));
    PushedCost(c, m, es);
    assert ([(x, m)] + rest)[1..] == rest;
  }

  /** es leads from x to exactly x's successors. */
  ghost predicate Successors(links: set<(Id, Id)>, x: Id, es: seq<AssemblyEdge>) {
    forall y :: (x, y) in links <==> exists k :: 0 <= k < |es| && es[k].child == y
  }

  lemma PopReaches(links: set<(Id, Id)>, x: Id, m: real, rest: Queue, es: seq<AssemblyEdge>, a: Id)
    requires Successors(links, x, es)
    ensures QueueReaches(links, [(x, m)] + rest, a) <==> a == x || QueueReaches(links, rest + Pushed(m, es), a)
  {
    var queue, next := [(x, m)] + rest, rest + Pushed(m, es);
    PushedMember(m, es);
    ReachesStep(links, x, a);
    if k :| 0 <= k < |queue| && Reaches(links, queue[k].0, a) {
      if k > 0 {
        assert next[k - 1] == queue[k];
      } else if a != x {
        var y :| (x, y) in links && Reaches(links, y, a);
        var j :| 0 <= j < |es| && es[j].child == y;
        assert next[|rest| + j].0 == y;
      }
    }
    if a == x {
      assert queue[0].0 == a;
    }
    if k :| 0 <= k < |next| && Reaches(links, next[k].0, a) {
      if k < |rest| {
        assert queue[k + 1] == next[k];
      } else {
        assert (x, es[k - |rest|].child) in links;
        ReachesCons(links, x, es[k - |rest|].child, a);
        assert queue[0].0 == x;
      }
    }
  }

  lemma PopGrounded(links: set<(Id, Id)>, x: Id, m: real, rest: Queue, es: seq<AssemblyEdge>)
    requires Successors(links, x, es) && AllGrounded(links, [(x, m)] + rest)
    ensures AllGrounded(links, rest + Pushed(m, es))
  {
    var queue, next := [(x, m)] + rest, rest + Pushed(m, es);
    PushedMember(m, es);
    assert Grounded(links, queue[0].0);
    forall k | 0 <= k < |next| ensures Grounded(links, next[k].0) {
      if k < |rest| {
        assert queue[k + 1] == next[k];
      } else {
        assert (x, es[k - |rest|].child) in links;
        GroundedSuccessor(links, x, es[k - |rest|].child);
      }
    }
  }

  /** A queue that holds an assembly from which a cycle can be reached still does after a pop. */
  lemma PopUngrounded(links: set<(Id, Id)>, x: Id, m: real, rest: Queue, es: seq<AssemblyEdge>)
    requires Successors(links, x, es) && !AllGrounded(links, [(x, m)] + rest)
    ensures !AllGrounded(links, rest + Pushed(m, es))
  {
    var queue, next := [(x, m)] + rest, rest + Pushed(m, es);
    PushedMember(m, es);
    var k :| 0 <= k < |queue| && !Grounded(links, queue[k].0);
    if k > 0 {
      assert next[k - 1] == queue[k];
    } else {
      var y := UngroundedSuccessor(links, x);
      var j :| 0 <= j < |es| && es[j].child == y;
      assert next[|rest| + j].0 == y;
    }
  }
}
