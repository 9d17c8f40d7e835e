/**
 Detection of the functions that must not be inlined: those on a cycle of the call graph.
 */
module Recursion {
  import opened Syntax
  import opened CallGraph

  /** The collected call graph: each function to the known functions its statements call. */
  ghost function CollectedGraph(funcs: Functions): Graph<Symbol> {
    map f | f in funcs :: CallsBody(funcs[f]) * funcs.Keys
  }

  ghost predicate Represents(calls: map<Symbol, seq<Symbol>>, g: Graph<Symbol>) {
    calls.Keys == g.Keys && forall f :: f in g ==> forall x :: x in calls[f] <==> x in g[f]
  }

  method SetToSeq<V>(s: set<V>) returns (q: seq<V>)
    ensures forall x :: x in q <==> x in s
  {
    q := [];
    var rest := s;
    while rest != {}
      invariant rest <= s
      invariant forall x :: x in q <==> x in s - rest
    {
      var x :| x in rest;
      rest := rest - {x};
      q := q + [x];
    }
  }

  class Detector {
    const funcs: Functions
    /** Names found so far by the collector. */
    var called: set<Symbol>
    /** Adjacency lists, in whatever order the hash set gave. */
    var calls: map<Symbol, seq<Symbol>>
    var visited: set<Symbol>

    constructor (funcs: Functions)
      ensures this.funcs == funcs
    {
      this.funcs := funcs;
      called, calls, visited := {}, map[], {};
    }

    method CollectExpr(e: Expr)
      modifies this`called
      ensures called == old(called) + CallsE(e) * funcs.Keys
      decreases e, 1
    {
      match e
      case Value(_) =>
      case Ident(_) =>
      case FuncCall(f, args) =>
        if f in funcs {
          called := called + {f};
        }
        CollectExprs(args);
      case Op(_, operands) =>
        CollectExprs(operands);
    }

    method CollectExprs(es: seq<Expr>)
      modifies this`called
      ensures called == old(called) + CallsEs(es) * funcs.Keys
      decreases es, 0
    {
      if es != [] {
        CollectExpr(es[0]);
        CollectExprs(es[1..]);
      }
    }

    method CollectStmt(s: Stmt)
      modifies this`called
      ensures called == old(called) + CallsS(s) * funcs.Keys
      decreases s, 1
    {
      match s
      case Block(ss) =>
        CollectStmts(ss);
      case IfElse(c, t, e) =>
        CollectExpr(c);
        CollectStmt(t);
        CollectStmt(e);
      case BlockingAssign(_, rhs) =>
        CollectExpr(rhs);
    }

    method CollectStmts(ss: seq<Stmt>)
      modifies this`called
      ensures called == old(called) + CallsSs(ss) * funcs.Keys
      decreases ss, 0
    {
      if ss != [] {
        CollectStmt(ss[0]);
        CollectStmts(ss[1..]);
      }
    }

    method BuildCallGraph()
      modifies this`called, this`calls
      ensures Represents(calls, CollectedGraph(funcs))
    {
      calls := map[];
      var rest := funcs.Keys;
      while rest != {}
        invariant rest <= funcs.Keys
        invariant calls.Keys == funcs.Keys - rest
        invariant forall f :: f in calls ==> forall x :: x in calls[f] <==> x in CollectedGraph(funcs)[f]
      {
        var f :| f in rest;
        rest := rest - {f};
        called := {};
        CollectStmts(funcs[f].stmts);
        CollectExpr(funcs[f].ret);
        var targets := SetToSeq(called);
        calls := calls[f := targets];
      }
    }

    /**
     Whether `cur` leads back to `start`, not looking again at visited names. A visited name that is
     still being explored may lead to `start`; every name explored to its end here does not.
     */
    method DfsReachesSelf(start: Symbol, cur: Symbol) returns (found: bool)
      modifies this`visited
      ensures old(visited) <= visited
      ensures found ==> exists g :: Represents(calls, g) && Reaches(g, cur, start)
      ensures !found ==> cur in visited
      ensures !found ==> forall a :: a in visited && a !in old(visited) && a in calls ==>
                forall b :: b in calls[a] ==> b in visited && b != start
      ensures !found && old(visited) == {} ==> forall g :: Represents(calls, g) ==> !Reaches(g, cur, start)
      decreases calls.Keys - visited, 1
    {
      if cur in visited {
        return false;
      }
      ghost var before := visited;
      visited := visited + {cur};
      if cur in calls {
        ghost var g := map f | f in calls :: set x | x in calls[f];
        var i := 0;
        while i < |calls[cur]|
          invariant 0 <= i <= |calls[cur]|
          invariant before + {cur} <= visited
          invariant forall k :: 0 <= k < i ==> calls[cur][k] in visited && calls[cur][k] != start
          invariant forall a :: a in visited && a !in before && a != cur && a in calls ==>
                      forall b :: b in calls[a] ==> b in visited && b != start
        {
          var next := calls[cur][i];
          assert Edge(g, cur, next);
          if next == start {
            EdgeReaches(g, cur, next);
            return true;
          }
          var below := DfsReachesSelf(start, next);
          if below {
            ghost var h :| Represents(calls, h) && Reaches(h, next, start);
            assert Edge(h, cur, next);
            EdgeReaches(h, cur, next);
            ReachesTransitive(h, cur, next, start);
            return true;
          }
          i := i + 1;
        }
      }
      forall g | before == {} && Represents(calls, g)
        ensures !Reaches(g, cur, start)
      {
        NotReached(calls, g, visited, cur, start);
      }
      return false;
    }

    /** Exactly the functions on a cycle of the collected graph, direct or mutual, of any length. */
    method DetectRecursive() returns (recursive: set<Symbol>)
      modifies this
      ensures recursive == set f | f in funcs && OnCycle(CollectedGraph(funcs), f)
    {
      BuildCallGraph();
      ghost var g := CollectedGraph(funcs);
      recursive := {};
      var rest := funcs.Keys;
      while rest != {}
        invariant rest <= funcs.Keys
        invariant Represents(calls, g)
        invariant recursive == set f | f in funcs && f !in rest && OnCycle(g, f)
      {
        var start :| start in rest;
        rest := rest - {start};
        visited := {};
        var found := DfsReachesSelf(start, start);
        if found {
          ghost var h :| Represents(calls, h) && Reaches(h, start, start);
          SameGraph(calls, g, h);
          recursive := recursive + {start};
        }
      }
    }
  }

  lemma SameGraph(calls: map<Symbol, seq<Symbol>>, g: Graph<Symbol>, h: Graph<Symbol>)
    requires Represents(calls, g) && Represents(calls, h)
    ensures g == h
  {
    forall f | f in g
      ensures g[f] == h[f]
    {
      assert forall x :: x in g[f] <==> x in h[f];
    }
  }

  lemma NotReached(calls: map<Symbol, seq<Symbol>>, g: Graph<Symbol>, visited: set<Symbol>, cur: Symbol, start: Symbol)
    requires Represents(calls, g) && cur in visited
    requires forall a :: a in visited && a in calls ==>
               forall b :: b in calls[a] ==> b in visited && b != start
    ensures !Reaches(g, cur, start)
  {
    if Reaches(g, cur, start) {
      var p :| PathFromTo(g, p, cur, start);
      ClosedCannotReach(g, visited, p, start);
    }
  }
}
