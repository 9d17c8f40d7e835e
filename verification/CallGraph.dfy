/**
 Paths in a finite graph, and the rank of a node off every cycle.
 */
module CallGraph {

  type Graph<V> = map<V, set<V>>

  ghost predicate Edge<V>(g: Graph<V>, a: V, b: V) {
    a in g && b in g[a]
  }

  ghost predicate Path<V>(g: Graph<V>, p: seq<V>) {
    forall i :: 0 <= i < |p| - 1 ==> Edge(g, p[i], p[i + 1])
  }

  ghost predicate PathFromTo<V>(g: Graph<V>, p: seq<V>, a: V, b: V) {
    |p| >= 2 && p[0] == a && p[|p| - 1] == b && Path(g, p)
  }

  /** There is a non-empty path from `a` to `b`. */
  ghost predicate Reaches<V(!new)>(g: Graph<V>, a: V, b: V) {
    exists p :: PathFromTo(g, p, a, b)
  }

  ghost predicate OnCycle<V(!new)>(g: Graph<V>, a: V) {
    Reaches(g, a, a)
  }

  lemma EdgeReaches<V(!new)>(g: Graph<V>, a: V, b: V)
    requires Edge(g, a, b)
    ensures Reaches(g, a, b)
  {
    assert PathFromTo(g, [a, b], a, b);
  }

  lemma NoEdgeNoCycle<V(!new)>(g: Graph<V>)
    requires forall a, b :: !Edge(g, a, b)
    ensures forall a :: !OnCycle(g, a)
  {
    forall a, q
      ensures !PathFromTo(g, q, a, a)
    {
      assert |q| >= 2 ==> !Edge(g, q[0], q[1]);
    }
  }

  lemma ReachesTransitive<V(!new)>(g: Graph<V>, a: V, b: V, c: V)
    requires Reaches(g, a, b) && Reaches(g, b, c)
    ensures Reaches(g, a, c)
  {
    var p :| PathFromTo(g, p, a, b);
    var q :| PathFromTo(g, q, b, c);
    var r := p + q[1..];
    forall i | 0 <= i < |r| - 1
      ensures Edge(g, r[i], r[i + 1])
    {
      if i >= |p| - 1 {
        assert r[i] == q[i - (|p| - 1)] && r[i + 1] == q[i + 1 - (|p| - 1)];
      }
    }
    assert PathFromTo(g, r, a, c);
  }

  /** A set that is closed under edges, none of which leads to `target`, cannot reach `target`. */
  lemma ClosedCannotReach<V(!new)>(g: Graph<V>, closed: set<V>, p: seq<V>, target: V)
    requires forall a, b :: a in closed && Edge(g, a, b) ==> b in closed && b != target
    requires |p| >= 1 && p[0] in closed && Path(g, p)
    ensures |p| >= 2 ==> p[|p| - 1] != target
  {
    if |p| >= 2 {
      assert Edge(g, p[0], p[1]);
      ClosedCannotReach(g, closed, p[1..], target);
    }
  }

  /** The nodes of `g` reachable from `a`; its size ranks the nodes of an acyclic graph. */
  ghost function ReachSet<V(!new)>(g: Graph<V>, a: V): set<V> {
    set b | b in g && Reaches(g, a, b)
  }

  ghost function Rank<V(!new)>(g: Graph<V>, a: V): nat {
    |ReachSet(g, a)|
  }

  lemma SubsetSize<V>(a: set<V>, b: set<V>)
    requires a < b
    ensures |a| < |b|
  {
    var x :| x in b && x !in a;
    assert a <= b - {x};
    SubsetSizeLe(a, b - {x});
  }

  lemma SubsetSizeLe<V>(a: set<V>, b: set<V>)
    requires a <= b
    ensures |a| <= |b|
  {
    if a != {} {
      var x :| x in a;
      SubsetSizeLe(a - {x}, b - {x});
    }
  }

  lemma RankDrops<V(!new)>(g: Graph<V>, a: V, b: V)
    requires Edge(g, a, b) && b in g && !OnCycle(g, b)
    ensures Rank(g, b) < Rank(g, a)
  {
    EdgeReaches(g, a, b);
    forall c | c in ReachSet(g, b)
      ensures c in ReachSet(g, a)
    {
      ReachesTransitive(g, a, b, c);
    }
    assert b in ReachSet(g, a) && b !in ReachSet(g, b);
    SubsetSize(ReachSet(g, b), ReachSet(g, a));
  }

  /** Nodes all within the graph and on no cycle never repeat on a path, so a path has at most |g| nodes. */
  lemma {:induction false} AcyclicPathIsShort<V(!new)>(g: Graph<V>, p: seq<V>)
    requires |p| >= 1 && Path(g, p)
    requires forall a :: a in p ==> a in g && !OnCycle(g, a)
    ensures |p| <= Rank(g, p[0]) + 1
  {
    if |p| >= 2 {
      assert Edge(g, p[0], p[1]);
      RankDrops(g, p[0], p[1]);
      AcyclicPathIsShort(g, p[1..]);
    }
  }

  /** Going round a cycle gives paths of every length. */
  lemma {:induction false} CycleGivesLongPath<V(!new)>(g: Graph<V>, a: V, n: nat) returns (p: seq<V>)
    requires OnCycle(g, a)
    ensures |p| > n && p[0] == a && p[|p| - 1] == a && Path(g, p)
  {
    if n == 0 {
      p := [a];
    } else {
      var q := CycleGivesLongPath(g, a, n - 1);
      var loop :| PathFromTo(g, loop, a, a);
      p := q + loop[1..];
      forall i | 0 <= i < |p| - 1
        ensures Edge(g, p[i], p[i + 1])
      {
        if i >= |q| - 1 {
          assert p[i] == loop[i - (|q| - 1)] && p[i + 1] == loop[i + 1 - (|q| - 1)];
        } else {
          assert p[i] == q[i] && p[i + 1] == q[i + 1];
        }
      }
    }
  }
}
