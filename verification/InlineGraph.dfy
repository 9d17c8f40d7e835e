/**
 Which expansions lead to which, and what that says of the depth guard: a call that leads to a cycle
 always runs into it.
 */
module InlineGraph {
  import opened Basics
  import opened Syntax
  import opened CallGraph
  import opened Semantics
  import opened InlineSpec
  import Recursion

  // ---- the calls that the inliner expands ----

  /** Recursive calls stay but their arguments are rewritten; below an unknown function nothing is. */
  function LiveE(p: Program, e: Expr): set<Symbol>
    decreases e, 1
  {
    match e
    case Value(_) => {}
    case Ident(_) => {}
    case FuncCall(f, args) =>
      if f in p.recursive then LiveEs(p, args)
      else if f !in p.funcs then {}
      else {f} + LiveEs(p, args)
    case Op(_, operands) => LiveEs(p, operands)
  }

  function LiveEs(p: Program, es: seq<Expr>): set<Symbol>
    decreases es, 0
  {
    if es == [] then {} else LiveE(p, es[0]) + LiveEs(p, es[1..])
  }

  function LiveS(p: Program, s: Stmt): set<Symbol>
    decreases s, 1
  {
    match s
    case Block(ss) => LiveSs(p, ss)
    case IfElse(c, t, e) => LiveE(p, c) + LiveS(p, t) + LiveS(p, e)
    case BlockingAssign(_, rhs) => LiveE(p, rhs)
  }

  function LiveSs(p: Program, ss: seq<Stmt>): set<Symbol>
    decreases ss, 0
  {
    if ss == [] then {} else LiveS(p, ss[0]) + LiveSs(p, ss[1..])
  }

  function LiveInits(p: Program, ls: seq<Local>): set<Symbol> {
    if ls == [] then {} else LiveE(p, ls[0].init) + LiveInits(p, ls[1..])
  }

  function LiveBody(p: Program, d: FuncDecl): set<Symbol> {
    LiveSs(p, d.stmts) + LiveE(p, d.ret)
  }

  function LiveFunc(p: Program, d: FuncDecl): set<Symbol> {
    LiveInits(p, d.locals) + LiveBody(p, d)
  }

  /** Which expansion leads directly to which. */
  ghost function ExpansionGraph(p: Program): Graph<Symbol> {
    map f | f in p.funcs && f !in p.recursive :: LiveFunc(p, p.funcs[f])
  }

  /** No expansion leads to an expansion of the same function. */
  ghost predicate Acyclic(p: Program) {
    forall f {:trigger OnCycle(ExpansionGraph(p), f)} :: Inlinable(p, f) ==> !OnCycle(ExpansionGraph(p), f)
  }

  ghost predicate AllInlinable(p: Program, fs: set<Symbol>) {
    forall f :: f in fs ==> Inlinable(p, f)
  }

  lemma {:induction false} LiveIsCalledE(p: Program, e: Expr)
    ensures LiveE(p, e) <= CallsE(e) && AllInlinable(p, LiveE(p, e))
    decreases e, 1
  {
    match e
    case Value(_) =>
    case Ident(_) =>
    case FuncCall(_, args) => LiveIsCalledEs(p, args);
    case Op(_, operands) => LiveIsCalledEs(p, operands);
  }

  lemma {:induction false} LiveIsCalledEs(p: Program, es: seq<Expr>)
    ensures LiveEs(p, es) <= CallsEs(es) && AllInlinable(p, LiveEs(p, es))
    decreases es, 0
  {
    if es != [] {
      LiveIsCalledE(p, es[0]);
      LiveIsCalledEs(p, es[1..]);
    }
  }

  lemma {:induction false} LiveIsCalledS(p: Program, s: Stmt)
    ensures LiveS(p, s) <= CallsS(s) && AllInlinable(p, LiveS(p, s))
    decreases s, 1
  {
    match s
    case Block(ss) => LiveIsCalledSs(p, ss);
    case IfElse(c, t, e) =>
      LiveIsCalledE(p, c);
      LiveIsCalledS(p, t);
      LiveIsCalledS(p, e);
    case BlockingAssign(_, rhs) => LiveIsCalledE(p, rhs);
  }

  lemma {:induction false} LiveIsCalledSs(p: Program, ss: seq<Stmt>)
    ensures LiveSs(p, ss) <= CallsSs(ss) && AllInlinable(p, LiveSs(p, ss))
    decreases ss, 0
  {
    if ss != [] {
      LiveIsCalledS(p, ss[0]);
      LiveIsCalledSs(p, ss[1..]);
    }
  }

  lemma {:induction false} LiveIsCalledInits(p: Program, ls: seq<Local>)
    ensures LiveInits(p, ls) <= CallsInits(ls) && AllInlinable(p, LiveInits(p, ls))
  {
    if ls != [] {
      LiveIsCalledE(p, ls[0].init);
      LiveIsCalledInits(p, ls[1..]);
    }
  }

  lemma LiveIsInlinable(p: Program, d: FuncDecl)
    ensures AllInlinable(p, LiveFunc(p, d))
  {
    LiveIsCalledInits(p, d.locals);
    LiveIsCalledSs(p, d.stmts);
    LiveIsCalledE(p, d.ret);
  }

  // ---- an expanded body leads where its function leads ----

  lemma {:induction false} RenamedLiveE(p: Program, e: Expr, rho: Renaming)
    requires CallsE(e) !! rho.Keys
    ensures LiveE(p, RenameE(e, rho)) == LiveE(p, e)
    decreases e, 1
  {
    match e
    case Value(_) =>
    case Ident(_) =>
    case FuncCall(_, args) => RenamedLiveEs(p, args, rho);
    case Op(_, operands) => RenamedLiveEs(p, operands, rho);
  }

  lemma {:induction false} RenamedLiveEs(p: Program, es: seq<Expr>, rho: Renaming)
    requires CallsEs(es) !! rho.Keys
    ensures LiveEs(p, RenameEs(es, rho)) == LiveEs(p, es)
    decreases es, 0
  {
    if es != [] {
      RenamedLiveE(p, es[0], rho);
      RenamedLiveEs(p, es[1..], rho);
      assert RenameEs(es, rho)[1..] == RenameEs(es[1..], rho);
    }
  }

  lemma {:induction false} RenamedLiveS(p: Program, s: Stmt, rho: Renaming)
    requires CallsS(s) !! rho.Keys
    ensures LiveS(p, RenameS(s, rho)) == LiveS(p, s)
    decreases s, 1
  {
    match s
    case Block(ss) => RenamedLiveSs(p, ss, rho);
    case IfElse(c, t, e) =>
      RenamedLiveE(p, c, rho);
      RenamedLiveS(p, t, rho);
      RenamedLiveS(p, e, rho);
    case BlockingAssign(_, rhs) => RenamedLiveE(p, rhs, rho);
  }

  lemma {:induction false} RenamedLiveSs(p: Program, ss: seq<Stmt>, rho: Renaming)
    requires CallsSs(ss) !! rho.Keys
    ensures LiveSs(p, RenameSs(ss, rho)) == LiveSs(p, ss)
    decreases ss, 0
  {
    if ss != [] {
      RenamedLiveS(p, ss[0], rho);
      RenamedLiveSs(p, ss[1..], rho);
      assert RenameSs(ss, rho)[1..] == RenameSs(ss[1..], rho);
    }
  }

  lemma {:induction false} RenamedLiveInits(p: Program, f: Symbol, c: nat, ls: seq<Local>, rho: Renaming)
    requires CallsInits(ls) !! rho.Keys
    ensures LiveSs(p, InitAssigns(f, c, ls, rho)) == LiveInits(p, ls)
  {
    if ls != [] {
      RenamedLiveE(p, ls[0].init, rho);
      RenamedLiveInits(p, f, c, ls[1..], rho);
      assert InitAssigns(f, c, ls, rho)[1..] == InitAssigns(f, c, ls[1..], rho);
    }
  }

  lemma {:induction false} AppendLive(p: Program, a: seq<Stmt>, b: seq<Stmt>)
    ensures LiveSs(p, a + b) == LiveSs(p, a) + LiveSs(p, b)
  {
    if a == [] {
      assert a + b == b;
    } else {
      AppendLive(p, a[1..], b);
      assert (a + b)[1..] == a[1..] + b;
    }
  }

  lemma BodyLive(p: Program, f: Symbol, c: nat, args: seq<Expr>)
    requires WellFormed(p) && Inlinable(p, f) && |args| == |p.funcs[f].formals|
    ensures LiveSs(p, ExpandedBody(f, c, p.funcs[f], args)) == LiveFunc(p, p.funcs[f])
  {
    var d := p.funcs[f];
    var rho := RenameMap(f, c, d, args);
    assert WellScoped(p.funcs, f);
    RenameMapIs(f, c, d, args);
    RenamedLiveInits(p, f, c, d.locals, rho);
    RenamedLiveSs(p, d.stmts, rho);
    RenamedLiveE(p, d.ret, rho);
    var inits := InitAssigns(f, c, d.locals, rho);
    var last := [BlockingAssign(Temp(f, c, Result), RenameE(d.ret, rho))];
    AppendLive(p, inits, RenameSs(d.stmts, rho));
    AppendLive(p, inits + RenameSs(d.stmts, rho), last);
    assert last[1..] == [] && LiveSs(p, last) == LiveE(p, RenameE(d.ret, rho));
  }

  lemma {:induction false} ArgAssignsLive(p: Program, f: Symbol, c: nat, formals: seq<Symbol>, args: seq<Expr>)
    requires |formals| == |args|
    ensures LiveSs(p, ArgAssigns(f, c, formals, args)) == LiveEs(p, args)
  {
    if formals != [] {
      ArgAssignsLive(p, f, c, formals[1..], args[1..]);
      if !args[0].Ident? {
        var rest := ArgAssigns(f, c, formals[1..], args[1..]);
        assert ArgAssigns(f, c, formals, args)[1..] == rest;
      } else {
        assert ArgAssigns(f, c, formals, args) == ArgAssigns(f, c, formals[1..], args[1..]);
      }
    }
  }

  /** The preamble of an expansion has the live calls of its three parts. */
  lemma ExpandLive(p: Program, f: Symbol, c: nat, a: ExprsOut, depth: nat)
    requires WellFormed(p) && Inlinable(p, f) && |a.es| == |p.funcs[f].formals|
    ensures OkSs(p.funcs, ExpandedBody(f, c, p.funcs[f], a.es))
    ensures LiveSs(p, Expand(p, f, c, a, depth).pre)
            == LiveSs(p, a.pre) + LiveEs(p, a.es)
               + LiveSs(p, InlineSs(p, ExpandedBody(f, c, p.funcs[f], a.es), a.c, depth).ss)
  {
    var d := p.funcs[f];
    BodyFits(p, f, c, a.es);
    var assigns := ArgAssigns(f, c, d.formals, a.es);
    ArgAssignsLive(p, f, c, d.formals, a.es);
    AppendLive(p, a.pre, assigns);
    AppendLive(p, a.pre + assigns, InlineSs(p, ExpandedBody(f, c, d, a.es), a.c, depth).ss);
  }

  lemma PreambleLive(p: Program, pre: seq<Stmt>, main: Stmt)
    ensures LiveS(p, WithPreamble(pre, main)) == LiveSs(p, pre) + LiveS(p, main)
  {
    assert [main][1..] == [];
    AppendLive(p, pre, [main]);
  }

  // ---- a cycle runs into the guard ----

  ghost predicate LeadsToCycle(p: Program, f: Symbol) {
    exists g :: OnCycle(ExpansionGraph(p), g) && (g == f || Reaches(ExpansionGraph(p), f, g))
  }

  ghost predicate SomeLeadsToCycle(p: Program, fs: set<Symbol>) {
    exists f :: f in fs && LeadsToCycle(p, f)
  }

  /** A path begins with an edge, after which it goes on or has arrived. */
  lemma FirstEdge(g: Graph<Symbol>, a: Symbol, b: Symbol) returns (next: Symbol)
    requires Reaches(g, a, b)
    ensures Edge(g, a, next) && (next == b || Reaches(g, next, b))
  {
    var q :| PathFromTo(g, q, a, b);
    next := q[1];
    assert Edge(g, q[0], q[1]);
    if |q| > 2 {
      forall i | 0 <= i < |q[1..]| - 1
        ensures Edge(g, q[1..][i], q[1..][i + 1])
      {
        assert Edge(g, q[i + 1], q[i + 2]);
      }
      assert PathFromTo(g, q[1..], next, b);
    }
  }

  lemma BodyLeadsToCycle(p: Program, f: Symbol)
    requires Inlinable(p, f) && LeadsToCycle(p, f)
    ensures SomeLeadsToCycle(p, LiveFunc(p, p.funcs[f]))
  {
    var g := ExpansionGraph(p);
    var a :| OnCycle(g, a) && (a == f || Reaches(g, f, a));
    var next := FirstEdge(g, f, a);
    assert LeadsToCycle(p, next) && next in LiveFunc(p, p.funcs[f]);
  }

  /** A live call that leads to a cycle leaves a live call, at every depth: the guard has stopped expansion. */
  lemma {:induction false} CycleHitsGuardE(p: Program, e: Expr, c: nat, depth: nat)
    requires WellFormed(p) && OkE(p.funcs, e) && SomeLeadsToCycle(p, LiveE(p, e))
    ensures var r := InlineE(p, e, c, depth); LiveE(p, r.e) + LiveSs(p, r.pre) != {}
    decreases Left(depth), 0, 1
  {
    var bad :| bad in LiveE(p, e) && LeadsToCycle(p, bad);
    if depth <= TRAVERSAL_LIMIT {
      match e
      case Op(_, operands) => CycleHitsGuardEs(p, operands, c, depth + 1);
      case FuncCall(f, args) =>
        if f in p.recursive {
          CycleHitsGuardEs(p, args, c, depth + 1);
        } else if depth + 1 <= CALL_LIMIT {
          CycleHitsGuardCall(p, e, c, depth);
        }
    }
  }

  lemma {:induction false} CycleHitsGuardCall(p: Program, e: Expr, c: nat, depth: nat)
    requires WellFormed(p) && OkE(p.funcs, e) && SomeLeadsToCycle(p, LiveE(p, e))
    requires e.FuncCall? && Inlinable(p, e.func) && depth + 1 <= CALL_LIMIT
    ensures LiveSs(p, InlineE(p, e, c, depth).pre) != {}
    decreases Left(depth), 0, 0
  {
    var f := e.func;
    var a := InlineEs(p, e.args, c + 1, depth + 1);
    var body := ExpandedBody(f, c, p.funcs[f], a.es);
    ExpandLive(p, f, c, a, depth + 1);
    if SomeLeadsToCycle(p, LiveEs(p, e.args)) {
      CycleHitsGuardEs(p, e.args, c + 1, depth + 1);
    } else {
      BodyLeadsToCycle(p, f);
      BodyLive(p, f, c, a.es);
      CycleHitsGuardSs(p, body, a.c, depth + 1);
    }
  }

  lemma {:induction false} CycleHitsGuardEs(p: Program, es: seq<Expr>, c: nat, depth: nat)
    requires WellFormed(p) && OkEs(p.funcs, es) && SomeLeadsToCycle(p, LiveEs(p, es))
    ensures var r := InlineEs(p, es, c, depth); LiveEs(p, r.es) + LiveSs(p, r.pre) != {}
    decreases Left(depth), 1, es
  {
    var h := InlineE(p, es[0], c, depth);
    var t := InlineEs(p, es[1..], h.c, depth);
    AppendLive(p, h.pre, t.pre);
    assert ([h.e] + t.es)[1..] == t.es;
    if SomeLeadsToCycle(p, LiveE(p, es[0])) {
      CycleHitsGuardE(p, es[0], c, depth);
    } else {
      CycleHitsGuardEs(p, es[1..], h.c, depth);
    }
  }

  lemma {:induction false} CycleHitsGuardS(p: Program, s: Stmt, c: nat, depth: nat)
    requires WellFormed(p) && OkS(p.funcs, s) && SomeLeadsToCycle(p, LiveS(p, s))
    ensures LiveS(p, InlineS(p, s, c, depth).s) != {}
    decreases Left(depth), 0, 1
  {
    if depth <= TRAVERSAL_LIMIT {
      match s
      case Block(ss) => CycleHitsGuardSs(p, ss, c, depth + 1);
      case IfElse(cond, thn, els) =>
        var rc := InlineE(p, cond, c, depth + 1);
        var rt := InlineS(p, thn, rc.c, depth + 1);
        PreambleLive(p, rc.pre, IfElse(rc.e, rt.s, InlineS(p, els, rt.c, depth + 1).s));
        if SomeLeadsToCycle(p, LiveE(p, cond)) {
          CycleHitsGuardE(p, cond, c, depth + 1);
        } else if SomeLeadsToCycle(p, LiveS(p, thn)) {
          CycleHitsGuardS(p, thn, rc.c, depth + 1);
        } else {
          CycleHitsGuardS(p, els, rt.c, depth + 1);
        }
      case BlockingAssign(x, rhs) =>
        CycleHitsGuardE(p, rhs, c, depth + 1);
        var r := InlineE(p, rhs, c, depth + 1);
        PreambleLive(p, r.pre, BlockingAssign(x, r.e));
    }
  }

  lemma {:induction false} CycleHitsGuardSs(p: Program, ss: seq<Stmt>, c: nat, depth: nat)
    requires WellFormed(p) && OkSs(p.funcs, ss) && SomeLeadsToCycle(p, LiveSs(p, ss))
    ensures LiveSs(p, InlineSs(p, ss, c, depth).ss) != {}
    decreases Left(depth), 1, ss
  {
    var h := InlineS(p, ss[0], c, depth);
    var t := InlineSs(p, ss[1..], h.c, depth);
    assert ([h.s] + t.ss)[1..] == t.ss;
    if SomeLeadsToCycle(p, LiveS(p, ss[0])) {
      CycleHitsGuardS(p, ss[0], c, depth);
    } else {
      CycleHitsGuardSs(p, ss[1..], h.c, depth);
    }
  }

  // ---- chains of expansions ----

  /** An expansion chain: each function is expanded inside the expansion of the one before it. */
  ghost predicate Chain(p: Program, fs: seq<Symbol>) {
    (forall f :: f in fs ==> Inlinable(p, f)) && Path(ExpansionGraph(p), fs)
  }

  ghost predicate ChainsWithin(p: Program, n: nat) {
    forall fs :: Chain(p, fs) ==> |fs| <= n
  }

  /** Chains are bounded exactly if no function's expansion leads back to it, and then by the number of functions. */
  lemma ChainsBoundedIffAcyclic(p: Program)
    ensures Acyclic(p) <==> exists n: nat :: ChainsWithin(p, n)
    ensures Acyclic(p) ==> ChainsWithin(p, |p.funcs|)
  {
    var g := ExpansionGraph(p);
    if Acyclic(p) {
      forall fs | Chain(p, fs)
        ensures |fs| <= |p.funcs|
      {
        if fs != [] {
          AcyclicChain(p, fs);
        }
      }
      assert ChainsWithin(p, |p.funcs|);
    } else {
      var f :| Inlinable(p, f) && OnCycle(g, f);
      forall n: nat
        ensures !ChainsWithin(p, n)
      {
        var fs := CycleGivesLongPath(g, f, n);
        CyclePathInlinable(p, fs);
        assert Chain(p, fs) && |fs| > n;
      }
    }
  }

  lemma AcyclicChain(p: Program, fs: seq<Symbol>)
    requires Acyclic(p) && Chain(p, fs) && fs != []
    ensures |fs| <= |p.funcs|
  {
    var g := ExpansionGraph(p);
    forall f | f in fs
      ensures f in g && !OnCycle(g, f)
    {
      assert Inlinable(p, f);
    }
    AcyclicPathIsShort(g, fs);
    var a := fs[0];
    assert Inlinable(p, a) && !OnCycle(g, a);
    SubsetSizeLe(ReachSet(g, a), p.funcs.Keys - {a});
    assert |p.funcs.Keys - {a}| == |p.funcs.Keys| - 1;
    assert |p.funcs.Keys| == |p.funcs|;
  }

  lemma CyclePathInlinable(p: Program, fs: seq<Symbol>)
    requires |fs| > 0 && Path(ExpansionGraph(p), fs) && Inlinable(p, fs[|fs| - 1])
    ensures Chain(p, fs)
  {
    forall i | 0 <= i < |fs|
      ensures Inlinable(p, fs[i])
    {
      if i < |fs| - 1 {
        assert Edge(ExpansionGraph(p), fs[i], fs[i + 1]);
      }
    }
  }

  // ---- what detection achieves ----

  /** The detector's answer. */
  ghost predicate Detected(p: Program) {
    p.recursive == set f | f in p.funcs && OnCycle(Recursion.CollectedGraph(p.funcs), f)
  }

  /** Expanding `g` leads to an expansion of `f`. */
  ghost predicate LeadsTo(p: Program, g: Symbol, f: Symbol) {
    g == f || Reaches(ExpansionGraph(p), g, f)
  }

  /** Some initialiser of `f` calls a function whose expansion leads back to `f`. */
  ghost predicate LoopsThroughInit(p: Program, f: Symbol) {
    Inlinable(p, f) && exists g :: g in LiveInits(p, p.funcs[f].locals) && LeadsTo(p, g, f)
  }

  /**
   With the detector's answer expansion is acyclic exactly if it never leads back through a call in an
   initialiser, where the collector does not look.
   */
  lemma DetectionStopsExpansion(p: Program)
    requires Detected(p)
    ensures Acyclic(p) <==> forall f :: !LoopsThroughInit(p, f)
  {
    var g := ExpansionGraph(p);
    forall f | LoopsThroughInit(p, f)
      ensures !Acyclic(p)
    {
      var next :| next in LiveInits(p, p.funcs[f].locals) && LeadsTo(p, next, f);
      assert Edge(g, f, next);
      EdgeReaches(g, f, next);
      if next != f {
        ReachesTransitive(g, f, next, f);
      }
      assert OnCycle(g, f);
    }
    forall f | Inlinable(p, f) && OnCycle(g, f)
      ensures exists a :: LoopsThroughInit(p, a)
    {
      CycleLoopsThroughInit(p, f);
    }
  }

  lemma CycleLoopsThroughInit(p: Program, f: Symbol)
    requires Detected(p) && Inlinable(p, f) && OnCycle(ExpansionGraph(p), f)
    ensures exists a :: LoopsThroughInit(p, a)
  {
    var g, h := ExpansionGraph(p), Recursion.CollectedGraph(p.funcs);
    var q :| PathFromTo(g, q, f, f);
    if forall a :: !LoopsThroughInit(p, a) {
      forall i | 0 <= i < |q| - 1
        ensures Edge(h, q[i], q[i + 1])
      {
        assert Edge(g, q[i], q[i + 1]);
        CycleComesBack(g, q, f, i);
        assert !LoopsThroughInit(p, q[i]) && LeadsTo(p, q[i + 1], q[i]);
        LiveIsInlinable(p, p.funcs[q[i]]);
        LiveIsCalledSs(p, p.funcs[q[i]].stmts);
        LiveIsCalledE(p, p.funcs[q[i]].ret);
      }
      assert PathFromTo(h, q, f, f);
      assert OnCycle(h, f);
    }
  }

  lemma Segment(g: Graph<Symbol>, q: seq<Symbol>, i: nat, j: nat)
    requires Path(g, q) && i < j < |q|
    ensures Reaches(g, q[i], q[j])
  {
    var r := q[i..j + 1];
    forall k | 0 <= k < |r| - 1
      ensures Edge(g, r[k], r[k + 1])
    {
      assert Edge(g, q[i + k], q[i + k + 1]);
    }
    assert PathFromTo(g, r, q[i], q[j]);
  }

  /** From the end of each edge of a cycle the cycle leads back to its start. */
  lemma CycleComesBack(g: Graph<Symbol>, q: seq<Symbol>, f: Symbol, i: nat)
    requires PathFromTo(g, q, f, f) && i < |q| - 1
    ensures q[i + 1] == q[i] || Reaches(g, q[i + 1], q[i])
  {
    if i + 1 < |q| - 1 {
      Segment(g, q, i + 1, |q| - 1);
    }
    if i > 0 {
      Segment(g, q, 0, i);
    }
    if i > 0 && i + 1 < |q| - 1 {
      ReachesTransitive(g, q[i + 1], f, q[i]);
    }
  }

  // ---- recursion that escapes detection ----

  /** `function f(x); int n = g(x); return n;` */
  function CallsInInit(g: Symbol): FuncDecl {
    FuncDecl([User("x")], [Local(User("n"), FuncCall(g, [Ident(User("x"))]))], [], Ident(User("n")))
  }

  /** Two functions that call each other in initialisers. */
  function Mutual(): Program {
    Program(map[User("f") := CallsInInit(User("g")), User("g") := CallsInInit(User("f"))], {})
  }

  lemma MutualIsScoped(f: Symbol, g: Symbol)
    requires Mutual().funcs.Keys == {f, g} && f != g
    requires Mutual().funcs[f] == CallsInInit(g)
    ensures WellScoped(Mutual().funcs, f) && CallsExpansion(CallsInInit(g)) == {g}
    ensures LiveInits(Mutual(), CallsInInit(g).locals) == {g} && CallsBody(CallsInInit(g)) == {}
  {
    var d, fs := CallsInInit(g), Mutual().funcs;
    var x := [Ident(User("x"))];
    assert x[1..] == [] && d.locals[1..] == [];
    assert LocalNames(d.locals) == [User("n")];
    assert Declared(d) == [User("x"), User("n")];
    assert OkEs(fs, x) && CallsEs(x) == {} && VarsEs(x) == {User("x")} && LiveEs(Mutual(), x) == {};
    assert fs[g].formals == [User("x")];
    assert OkE(fs, d.locals[0].init) && CallsE(d.locals[0].init) == {g};
    assert VarsInits(d.locals) == {User("x")} && CallsInits(d.locals) == {g};
  }

  lemma MutualIsUndetected()
    ensures Detected(Mutual())
  {
    var p := Mutual();
    var h := Recursion.CollectedGraph(p.funcs);
    MutualIsScoped(User("f"), User("g"));
    MutualIsScoped(User("g"), User("f"));
    NoEdgeNoCycle(h);
  }

  lemma MutualIsCyclic()
    ensures OnCycle(ExpansionGraph(Mutual()), User("f"))
  {
    var e, f, g := ExpansionGraph(Mutual()), User("f"), User("g");
    MutualIsScoped(f, g);
    MutualIsScoped(g, f);
    assert Edge(e, f, g) && Edge(e, g, f);
    EdgeReaches(e, f, g);
    EdgeReaches(e, g, f);
    ReachesTransitive(e, f, g, f);
  }

  /** `y = f(1);` */
  function OneCall(): seq<Stmt> {
    [BlockingAssign(User("y"), FuncCall(User("f"), [Value(1)]))]
  }

  lemma OneCallFits()
    ensures OkSs(Mutual().funcs, OneCall()) && User("f") in LiveSs(Mutual(), OneCall())
  {
    var p, ss, one := Mutual(), OneCall(), [Value(1)];
    assert one[1..] == [] && ss[1..] == [] && ss[0].rhs == FuncCall(User("f"), one);
    assert OkEs(p.funcs, one) && OkE(p.funcs, ss[0].rhs) && OkS(p.funcs, ss[0]);
    assert LiveE(p, ss[0].rhs) == {User("f")} + LiveEs(p, one) && LiveS(p, ss[0]) == LiveE(p, ss[0].rhs);
  }

  /**
   Recursion through initialisers is not detected, and the guard is what stops its expansion: whatever the
   counter and the depth, a call that could be expanded is left.
   */
  lemma InitialiserRecursionEscapes(c: nat, depth: nat)
    ensures var p := Mutual();
            && Detected(p) && WellFormed(p) && !Acyclic(p) && OkSs(p.funcs, OneCall())
            && LiveSs(p, InlineSs(p, OneCall(), c, depth).ss) != {}
  {
    var p, f := Mutual(), User("f");
    MutualIsScoped(f, User("g"));
    MutualIsScoped(User("g"), f);
    MutualIsUndetected();
    MutualIsCyclic();
    OneCallFits();
    assert Inlinable(p, f);
    hide CallsInInit, WellScoped, ExpansionGraph, OnCycle, LiveSs, OkSs, InlineSs, OneCall;
    assert LeadsToCycle(p, f);
    CycleHitsGuardSs(p, OneCall(), c, depth);
  }

  // ---- a function that calls itself in an initialiser ----

  function Image(rho: Renaming, xs: set<Symbol>): set<Symbol> {
    set x | x in xs :: Ren(rho, x)
  }

  lemma {:induction false} RenamedCallsE(e: Expr, rho: Renaming)
    ensures CallsE(RenameE(e, rho)) == Image(rho, CallsE(e))
    decreases e, 1
  {
    match e
    case Value(_) =>
    case Ident(_) =>
    case FuncCall(_, args) => RenamedCallsEs(args, rho);
    case Op(_, operands) => RenamedCallsEs(operands, rho);
  }

  lemma {:induction false} RenamedCallsEs(es: seq<Expr>, rho: Renaming)
    ensures CallsEs(RenameEs(es, rho)) == Image(rho, CallsEs(es))
    decreases es, 0
  {
    if es != [] {
      RenamedCallsE(es[0], rho);
      RenamedCallsEs(es[1..], rho);
      assert RenameEs(es, rho)[1..] == RenameEs(es[1..], rho);
    }
  }

  lemma {:induction false} RenamedCallsS(s: Stmt, rho: Renaming)
    ensures CallsS(RenameS(s, rho)) == Image(rho, CallsS(s))
    decreases s, 1
  {
    match s
    case Block(ss) => RenamedCallsSs(ss, rho);
    case IfElse(c, t, e) =>
      RenamedCallsE(c, rho);
      RenamedCallsS(t, rho);
      RenamedCallsS(e, rho);
    case BlockingAssign(_, rhs) => RenamedCallsE(rhs, rho);
  }

  lemma {:induction false} RenamedCallsSs(ss: seq<Stmt>, rho: Renaming)
    ensures CallsSs(RenameSs(ss, rho)) == Image(rho, CallsSs(ss))
    decreases ss, 0
  {
    if ss != [] {
      RenamedCallsS(ss[0], rho);
      RenamedCallsSs(ss[1..], rho);
      assert RenameSs(ss, rho)[1..] == RenameSs(ss[1..], rho);
    }
  }

  lemma {:induction false} RenamedCallsInits(f: Symbol, c: nat, ls: seq<Local>, rho: Renaming)
    ensures CallsSs(InitAssigns(f, c, ls, rho)) == Image(rho, CallsInits(ls))
  {
    if ls != [] {
      RenamedCallsE(ls[0].init, rho);
      RenamedCallsInits(f, c, ls[1..], rho);
      assert InitAssigns(f, c, ls, rho)[1..] == InitAssigns(f, c, ls[1..], rho);
    }
  }

  /**
   The renaming applies to called names too, and a function's own name stands for its result: a call of
   itself becomes a call of the result temporary, which names no function. All other calls stay.
   */
  lemma SelfCallIsSpoiled(fs: Functions, f: Symbol, c: nat, d: FuncDecl, args: seq<Expr>)
    requires |args| == |d.formals| && Distinct(Declared(d))
    requires f !in Names(Declared(d)) && Names(Declared(d)) !! CallsExpansion(d)
    ensures CallsSs(ExpandedBody(f, c, d, args))
            == if f in CallsExpansion(d) then CallsExpansion(d) - {f} + {Temp(f, c, Result)} else CallsExpansion(d)
  {
    var rho := RenameMap(f, c, d, args);
    RenameMapIs(f, c, d, args);
    BodyCallsImage(fs, f, c, d, args);
    assert forall x :: x in CallsExpansion(d) ==> Ren(rho, x) == if x == f then Temp(f, c, Result) else x;
    hide CallsExpansion, CallsSs, RenameMap, ExpandedBody, Declared, Distinct, Names;
    assert f in CallsExpansion(d) ==> Ren(rho, f) in Image(rho, CallsExpansion(d));
  }

  lemma BodyCallsImage(fs: Functions, f: Symbol, c: nat, d: FuncDecl, args: seq<Expr>)
    requires |args| == |d.formals| && Distinct(Declared(d)) && f !in Names(Declared(d))
    ensures CallsSs(ExpandedBody(f, c, d, args)) == Image(RenameMap(f, c, d, args), CallsExpansion(d))
  {
    var rho := RenameMap(f, c, d, args);
    RenameMapIs(f, c, d, args);
    var inits := InitAssigns(f, c, d.locals, rho);
    var last := [BlockingAssign(Temp(f, c, Result), RenameE(d.ret, rho))];
    RenamedCallsInits(f, c, d.locals, rho);
    RenamedCallsSs(d.stmts, rho);
    RenamedCallsE(d.ret, rho);
    AppendSs(fs, inits, RenameSs(d.stmts, rho));
    AppendSs(fs, inits + RenameSs(d.stmts, rho), last);
    assert last[1..] == [] && CallsSs(last) == CallsE(RenameE(d.ret, rho));
  }
}
