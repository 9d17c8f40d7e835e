/**
 After inlining, the functions that may be expanded are deleted from the module and only the recursive
 ones are kept. When the module that is left still means what the original did.
 */
module Deletion {
  import opened Outcomes
  import opened Syntax
  import opened CallGraph
  import opened Semantics
  import opened InlineComplete
  import opened InlineGraph
  import opened InlineMeaning
  import opened InlineRenaming
  import opened InlineSpec
  import opened Running

  /** The functions the module keeps. */
  function Kept(p: Program): Functions {
    map f | f in p.funcs && f in p.recursive :: p.funcs[f]
  }

  // ---- running depends on the functions that are called ----

  ghost predicate AllIn(calls: set<Symbol>, names: iset<Symbol>) {
    forall f :: f in calls ==> f in names
  }

  /** The meanings agree on the operators and on calls of these names. */
  ghost predicate SameOn(names: iset<Symbol>, a: Meaning, b: Meaning) {
    && a.ops == b.ops
    && forall f, vals, g :: f in names ==> a.call(f, vals, g) == b.call(f, vals, g)
  }

  lemma {:induction false} SameE(names: iset<Symbol>, a: Meaning, b: Meaning, e: Expr, env: Env)
    requires SameOn(names, a, b) && AllIn(CallsE(e), names)
    ensures EvalE(a, e, env) == EvalE(b, e, env)
    decreases e, 1
  {
    match e
    case Value(_) =>
    case Ident(_) =>
    case FuncCall(_, args) => SameEs(names, a, b, args, env);
    case Op(_, operands) => SameEs(names, a, b, operands, env);
  }

  lemma {:induction false} SameEs(names: iset<Symbol>, a: Meaning, b: Meaning, es: seq<Expr>, env: Env)
    requires SameOn(names, a, b) && AllIn(CallsEs(es), names)
    ensures EvalEs(a, es, env) == EvalEs(b, es, env)
    decreases es, 0
  {
    if es != [] {
      SameE(names, a, b, es[0], env);
      SameEs(names, a, b, es[1..], env);
    }
  }

  lemma {:induction false} SameS(names: iset<Symbol>, a: Meaning, b: Meaning, s: Stmt, env: Env)
    requires SameOn(names, a, b) && AllIn(CallsS(s), names)
    ensures ExecS(a, s, env) == ExecS(b, s, env)
    decreases s, 1
  {
    match s
    case Block(ss) => SameSs(names, a, b, ss, env);
    case IfElse(c, t, e) =>
      SameE(names, a, b, c, env);
      SameS(names, a, b, t, env);
      SameS(names, a, b, e, env);
    case BlockingAssign(_, rhs) => SameE(names, a, b, rhs, env);
  }

  lemma {:induction false} SameSs(names: iset<Symbol>, a: Meaning, b: Meaning, ss: seq<Stmt>, env: Env)
    requires SameOn(names, a, b) && AllIn(CallsSs(ss), names)
    ensures ExecSs(a, ss, env) == ExecSs(b, ss, env)
    decreases ss, 0
  {
    if ss != [] {
      SameS(names, a, b, ss[0], env);
      var o := ExecS(a, ss[0], env);
      if o.Some? {
        SameSs(names, a, b, ss[1..], o.value);
      }
    }
  }

  lemma {:induction false} SameInits(names: iset<Symbol>, a: Meaning, b: Meaning, ls: seq<Local>, env: Env)
    requires SameOn(names, a, b) && AllIn(CallsInits(ls), names)
    ensures RunInits(a, ls, env) == RunInits(b, ls, env)
  {
    if ls != [] {
      SameE(names, a, b, ls[0].init, env);
      var v := EvalE(a, ls[0].init, env);
      if v.Some? {
        SameInits(names, a, b, ls[1..], env.(frame := env.frame[ls[0].name := v.value]));
      }
    }
  }

  lemma SameCall(names: iset<Symbol>, a: Meaning, b: Meaning, d: FuncDecl, vals: seq<int>, g: State)
    requires SameOn(names, a, b) && AllIn(CallsExpansion(d), names) && |vals| == |d.formals|
    ensures CallBody(a, d, vals, g) == CallBody(b, d, vals, g)
  {
    var start := Env(g, BindFormals(d.formals, vals));
    SameInits(names, a, b, d.locals, start);
    var ready := RunInits(a, d.locals, start);
    if ready.Some? {
      SameSs(names, a, b, d.stmts, ready.value);
      var done := ExecSs(a, d.stmts, ready.value);
      if done.Some? {
        SameE(names, a, b, d.ret, done.value);
      }
    }
  }

  /** Two tables hold the same functions under these names, whose bodies call no others. */
  ghost predicate SameTables(names: iset<Symbol>, fs: Functions, gs: Functions) {
    forall f {:trigger f in names} :: f in names ==>
      && (f in fs <==> f in gs)
      && (f in fs ==> fs[f] == gs[f] && AllIn(CallsExpansion(fs[f]), names))
  }

  lemma {:induction false} SameWithin(names: iset<Symbol>, fs: Functions, gs: Functions, base: Meaning, n: nat)
    requires SameTables(names, fs, gs)
    ensures SameOn(names, Within(fs, base, n), Within(gs, base, n))
  {
    forall f, vals, g | f in names
      ensures Within(fs, base, n).call(f, vals, g) == Within(gs, base, n).call(f, vals, g)
    {
      if f in fs && |vals| == |fs[f].formals| && n > 0 {
        SameWithin(names, fs, gs, base, n - 1);
        SameCall(names, Within(fs, base, n - 1), Within(gs, base, n - 1), fs[f], vals, g);
      }
    }
  }

  lemma SameEnds(names: iset<Symbol>, fs: Functions, gs: Functions, base: Meaning, ss: seq<Stmt>, env: Env, r: Env)
    requires SameTables(names, fs, gs) && AllIn(CallsSs(ss), names)
    ensures EndsIn(fs, base, ss, env, r) <==> EndsIn(gs, base, ss, env, r)
  {
    forall n: nat
      ensures ExecSs(Within(fs, base, n), ss, env) == ExecSs(Within(gs, base, n), ss, env)
    {
      SameWithin(names, fs, gs, base, n);
      SameSs(names, Within(fs, base, n), Within(gs, base, n), ss, env);
    }
  }

  // ---- what a module needs ----

  ghost function NameGraph(fs: Functions): Graph<Symbol> {
    map f | f in fs :: CallsExpansion(fs[f])
  }

  /** The statements call the name, or a function they call, in some number of steps, does. */
  ghost predicate Needs(fs: Functions, ss: seq<Stmt>, g: Symbol) {
    g in CallsSs(ss) || exists f :: f in CallsSs(ss) && Reaches(NameGraph(fs), f, g)
  }

  ghost function AllNeeded(fs: Functions, ss: seq<Stmt>): iset<Symbol> {
    iset g | Needs(fs, ss, g)
  }

  /** Everything needed is a function of the table or known from elsewhere. */
  ghost predicate SelfContained(fs: Functions, known: set<Symbol>, ss: seq<Stmt>) {
    forall g :: Needs(fs, ss, g) ==> g in fs || g in known
  }

  lemma NeededCalls(fs: Functions, ss: seq<Stmt>, f: Symbol, g: Symbol)
    requires Needs(fs, ss, f) && f in fs && g in CallsExpansion(fs[f])
    ensures Needs(fs, ss, g)
  {
    var graph := NameGraph(fs);
    assert Edge(graph, f, g);
    EdgeReaches(graph, f, g);
    if f !in CallsSs(ss) {
      var e :| e in CallsSs(ss) && Reaches(graph, e, f);
      ReachesTransitive(graph, e, f, g);
    }
  }

  /** The kept functions that the statements call need no deleted one. */
  ghost predicate KeptNeedNoDeleted(p: Program, out: seq<Stmt>) {
    forall f, g :: f in CallsSs(out) && f in Kept(p) && Reaches(NameGraph(p.funcs), f, g) ==> !Inlinable(p, g)
  }

  lemma KeptReaches(p: Program, f: Symbol, g: Symbol)
    requires Reaches(NameGraph(Kept(p)), f, g)
    ensures f in Kept(p) && Reaches(NameGraph(p.funcs), f, g)
  {
    var q :| PathFromTo(NameGraph(Kept(p)), q, f, g);
    forall i | 0 <= i < |q| - 1
      ensures Edge(NameGraph(p.funcs), q[i], q[i + 1])
    {
      assert Edge(NameGraph(Kept(p)), q[i], q[i + 1]);
    }
    assert Edge(NameGraph(Kept(p)), q[0], q[1]);
    assert PathFromTo(NameGraph(p.funcs), q, f, g);
  }

  /** From a kept function to a deleted one, some deleted one is reached through kept ones. */
  lemma {:induction false} FirstDeleted(p: Program, q: seq<Symbol>) returns (d: Symbol)
    requires |q| >= 2 && Path(NameGraph(p.funcs), q) && q[0] in Kept(p) && Inlinable(p, q[|q| - 1])
    ensures Inlinable(p, d) && Reaches(NameGraph(Kept(p)), q[0], d)
    decreases |q|
  {
    var graph := NameGraph(Kept(p));
    assert Edge(NameGraph(p.funcs), q[0], q[1]);
    assert Edge(graph, q[0], q[1]);
    EdgeReaches(graph, q[0], q[1]);
    if Inlinable(p, q[1]) {
      d := q[1];
    } else {
      var rest := q[1..];
      forall i | 0 <= i < |rest| - 1
        ensures Edge(NameGraph(p.funcs), rest[i], rest[i + 1])
      {
        assert Edge(NameGraph(p.funcs), q[i + 1], q[i + 2]);
      }
      assert Edge(NameGraph(p.funcs), rest[0], rest[1]);
      d := FirstDeleted(p, rest);
      ReachesTransitive(graph, q[0], q[1], d);
    }
  }

  // ---- the rewritten statements need no more than the original ones ----

  lemma {:induction false} CallsAreNeededE(p: Program, e: Expr, c: nat, depth: nat, names: iset<Symbol>)
    requires WellFormed(p) && OkE(p.funcs, e) && Closed(p, names) && AllIn(CallsE(e), names)
    ensures var r := InlineE(p, e, c, depth); AllIn(CallsE(r.e) + CallsSs(r.pre), names)
    decreases Left(depth), 0, 1
  {
    if depth <= TRAVERSAL_LIMIT {
      match e
      case Value(_) =>
      case Ident(_) =>
      case Op(_, operands) => CallsAreNeededEs(p, operands, c, depth + 1, names);
      case FuncCall(f, args) =>
        if f in p.recursive {
          CallsAreNeededEs(p, args, c, depth + 1, names);
        } else if depth + 1 <= CALL_LIMIT && f in p.funcs {
          CallsAreNeededCall(p, e, c, depth, names);
        }
    }
  }

  /** These names are all that their functions' bodies call. */
  ghost predicate Closed(p: Program, names: iset<Symbol>) {
    forall f {:trigger f in names} :: f in names && Inlinable(p, f) ==> AllIn(CallsExpansion(p.funcs[f]), names)
  }

  lemma {:induction false} CallsAreNeededCall(p: Program, e: Expr, c: nat, depth: nat, names: iset<Symbol>)
    requires WellFormed(p) && OkE(p.funcs, e) && Closed(p, names) && AllIn(CallsE(e), names)
    requires e.FuncCall? && Inlinable(p, e.func) && depth + 1 <= CALL_LIMIT
    ensures var r := InlineE(p, e, c, depth); AllIn(CallsE(r.e) + CallsSs(r.pre), names)
    decreases Left(depth), 0, 0
  {
    var f, d := e.func, p.funcs[e.func];
    var a := InlineEs(p, e.args, c + 1, depth + 1);
    CallsAreNeededEs(p, e.args, c + 1, depth + 1, names);
    BodyFits(p, f, c, a.es);
    var body := ExpandedBody(f, c, d, a.es);
    CallsAreNeededSs(p, body, a.c, depth + 1, names);
    var assigns := ArgAssigns(f, c, d.formals, a.es);
    ArgAssignsCall(f, c, d.formals, a.es);
    AppendSs(p.funcs, a.pre, assigns);
    AppendSs(p.funcs, a.pre + assigns, InlineSs(p, body, a.c, depth + 1).ss);
  }

  lemma {:induction false} ArgAssignsCall(f: Symbol, c: nat, formals: seq<Symbol>, args: seq<Expr>)
    requires |formals| == |args|
    ensures CallsSs(ArgAssigns(f, c, formals, args)) == CallsEs(args)
  {
    if formals != [] {
      ArgAssignsCall(f, c, formals[1..], args[1..]);
      if !args[0].Ident? {
        assert ArgAssigns(f, c, formals, args)[1..] == ArgAssigns(f, c, formals[1..], args[1..]);
      } else {
        assert ArgAssigns(f, c, formals, args) == ArgAssigns(f, c, formals[1..], args[1..]);
      }
    }
  }

  lemma {:induction false} CallsAreNeededEs(p: Program, es: seq<Expr>, c: nat, depth: nat, names: iset<Symbol>)
    requires WellFormed(p) && OkEs(p.funcs, es) && Closed(p, names) && AllIn(CallsEs(es), names)
    ensures var r := InlineEs(p, es, c, depth); AllIn(CallsEs(r.es) + CallsSs(r.pre), names)
    decreases Left(depth), 1, es
  {
    if es != [] {
      CallsAreNeededE(p, es[0], c, depth, names);
      var h := InlineE(p, es[0], c, depth);
      CallsAreNeededEs(p, es[1..], h.c, depth, names);
      var t := InlineEs(p, es[1..], h.c, depth);
      AppendSs(p.funcs, h.pre, t.pre);
      assert ([h.e] + t.es)[1..] == t.es;
    }
  }

  lemma PreambleCalls(fs: Functions, pre: seq<Stmt>, main: Stmt)
    ensures CallsS(WithPreamble(pre, main)) == CallsSs(pre) + CallsS(main)
  {
    assert [main][1..] == [];
    AppendSs(fs, pre, [main]);
  }

  lemma {:induction false} CallsAreNeededS(p: Program, s: Stmt, c: nat, depth: nat, names: iset<Symbol>)
    requires WellFormed(p) && OkS(p.funcs, s) && Closed(p, names) && AllIn(CallsS(s), names)
    ensures AllIn(CallsS(InlineS(p, s, c, depth).s), names)
    decreases Left(depth), 0, 1
  {
    if depth <= TRAVERSAL_LIMIT {
      match s
      case Block(ss) => CallsAreNeededSs(p, ss, c, depth + 1, names);
      case IfElse(cond, thn, els) =>
        CallsAreNeededE(p, cond, c, depth + 1, names);
        var rc := InlineE(p, cond, c, depth + 1);
        CallsAreNeededS(p, thn, rc.c, depth + 1, names);
        var rt := InlineS(p, thn, rc.c, depth + 1);
        CallsAreNeededS(p, els, rt.c, depth + 1, names);
        PreambleCalls(p.funcs, rc.pre, IfElse(rc.e, rt.s, InlineS(p, els, rt.c, depth + 1).s));
      case BlockingAssign(x, rhs) =>
        CallsAreNeededE(p, rhs, c, depth + 1, names);
        var r := InlineE(p, rhs, c, depth + 1);
        PreambleCalls(p.funcs, r.pre, BlockingAssign(x, r.e));
    }
  }

  lemma {:induction false} CallsAreNeededSs(p: Program, ss: seq<Stmt>, c: nat, depth: nat, names: iset<Symbol>)
    requires WellFormed(p) && OkSs(p.funcs, ss) && Closed(p, names) && AllIn(CallsSs(ss), names)
    ensures AllIn(CallsSs(InlineSs(p, ss, c, depth).ss), names)
    decreases Left(depth), 1, ss
  {
    if ss != [] {
      CallsAreNeededS(p, ss[0], c, depth, names);
      var h := InlineS(p, ss[0], c, depth);
      CallsAreNeededSs(p, ss[1..], h.c, depth, names);
      assert InlineSs(p, ss, c, depth).ss[1..] == InlineSs(p, ss[1..], h.c, depth).ss;
    }
  }

  /** Whatever the rewritten statements call, the original ones need. */
  lemma OutputCallsNeeded(p: Program, ss: seq<Stmt>, c: nat, depth: nat)
    requires WellFormed(p) && OkSs(p.funcs, ss)
    ensures forall f :: f in CallsSs(InlineSs(p, ss, c, depth).ss) ==> Needs(p.funcs, ss, f)
  {
    var names := AllNeeded(p.funcs, ss);
    forall f, g | f in names && Inlinable(p, f) && g in CallsExpansion(p.funcs[f])
      ensures g in names
    {
      NeededCalls(p.funcs, ss, f, g);
    }
    CallsAreNeededSs(p, ss, c, depth, names);
  }

  // ---- a clean output calls no deleted function ----

  lemma {:induction false} CleanCallsE(p: Program, e: Expr)
    ensures CleanE(p, e) <==> forall f :: f in CallsE(e) ==> !Inlinable(p, f)
    decreases e, 1
  {
    match e
    case Value(_) =>
    case Ident(_) =>
    case FuncCall(_, args) => CleanCallsEs(p, args);
    case Op(_, operands) => CleanCallsEs(p, operands);
  }

  lemma {:induction false} CleanCallsEs(p: Program, es: seq<Expr>)
    ensures CleanEs(p, es) <==> forall f :: f in CallsEs(es) ==> !Inlinable(p, f)
    decreases es, 0
  {
    if es != [] {
      CleanCallsE(p, es[0]);
      CleanCallsEs(p, es[1..]);
    }
  }

  lemma {:induction false} CleanCallsS(p: Program, s: Stmt)
    ensures CleanS(p, s) <==> forall f :: f in CallsS(s) ==> !Inlinable(p, f)
    decreases s, 1
  {
    match s
    case Block(ss) => CleanCallsSs(p, ss);
    case IfElse(c, t, e) =>
      CleanCallsE(p, c);
      CleanCallsS(p, t);
      CleanCallsS(p, e);
    case BlockingAssign(_, rhs) => CleanCallsE(p, rhs);
  }

  lemma {:induction false} CleanCallsSs(p: Program, ss: seq<Stmt>)
    ensures CleanSs(p, ss) <==> forall f :: f in CallsSs(ss) ==> !Inlinable(p, f)
    decreases ss, 0
  {
    if ss != [] {
      CleanCallsS(p, ss[0]);
      CleanCallsSs(p, ss[1..]);
    }
  }

  /**
   The module that is left is self-contained exactly if no call of a deleted function is left in its
   statements and no kept function they call needs one.
   */
  lemma SelfContainedIff(p: Program, known: set<Symbol>, ss: seq<Stmt>, c: nat, depth: nat)
    requires WellFormed(p) && OkSs(p.funcs, ss) && SelfContained(p.funcs, known, ss) && known !! p.funcs.Keys
    ensures var out := InlineSs(p, ss, c, depth).ss;
            SelfContained(Kept(p), known, out) <==> CleanSs(p, out) && KeptNeedNoDeleted(p, out)
  {
    var out := InlineSs(p, ss, c, depth).ss;
    CleanCallsSs(p, out);
    if SelfContained(Kept(p), known, out) {
      forall f | f in CallsSs(out)
        ensures !Inlinable(p, f)
      {
        assert Needs(Kept(p), out, f);
      }
      forall f, g | f in CallsSs(out) && f in Kept(p) && Reaches(NameGraph(p.funcs), f, g)
        ensures !Inlinable(p, g)
      {
        MissesDeleted(p, known, out, f, g);
      }
    }
    if CleanSs(p, out) && KeptNeedNoDeleted(p, out) {
      OutputCallsNeeded(p, ss, c, depth);
      forall g | Needs(Kept(p), out, g)
        ensures g in Kept(p) || g in known
      {
        NeededIsKept(p, ss, out, g);
        assert g in p.funcs || g in known;
      }
    }
  }

  lemma MissesDeleted(p: Program, known: set<Symbol>, out: seq<Stmt>, f: Symbol, g: Symbol)
    requires SelfContained(Kept(p), known, out) && known !! p.funcs.Keys
    requires f in CallsSs(out) && f in Kept(p) && Reaches(NameGraph(p.funcs), f, g)
    ensures !Inlinable(p, g)
  {
    if Inlinable(p, g) {
      var q :| PathFromTo(NameGraph(p.funcs), q, f, g);
      var d := FirstDeleted(p, q);
      assert Needs(Kept(p), out, d);
    }
  }

  /** What the output needs of the kept functions the original needs, and it is not deleted. */
  lemma NeededIsKept(p: Program, ss: seq<Stmt>, out: seq<Stmt>, g: Symbol)
    requires CleanSs(p, out) && KeptNeedNoDeleted(p, out) && Needs(Kept(p), out, g)
    requires forall f :: f in CallsSs(out) ==> Needs(p.funcs, ss, f)
    ensures Needs(p.funcs, ss, g) && !Inlinable(p, g)
  {
    CleanCallsSs(p, out);
    if g !in CallsSs(out) {
      var f :| f in CallsSs(out) && Reaches(NameGraph(Kept(p)), f, g);
      KeptReaches(p, f, g);
      if f !in CallsSs(ss) {
        var e :| e in CallsSs(ss) && Reaches(NameGraph(p.funcs), e, f);
        ReachesTransitive(NameGraph(p.funcs), e, f, g);
      }
    }
  }

  // ---- the module that is left runs as the original ----

  /** Under those conditions the deleted functions are not missed. */
  lemma KeptSuffice(p: Program, base: Meaning, out: seq<Stmt>, env: Env, r: Env)
    requires CleanSs(p, out) && KeptNeedNoDeleted(p, out)
    ensures EndsIn(Kept(p), base, out, env, r) <==> EndsIn(p.funcs, base, out, env, r)
  {
    var names := AllNeeded(Kept(p), out);
    CleanCallsSs(p, out);
    forall f | f in names
      ensures !Inlinable(p, f)
    {
      if f !in CallsSs(out) {
        var e :| e in CallsSs(out) && Reaches(NameGraph(Kept(p)), e, f);
        KeptReaches(p, e, f);
      }
    }
    forall f, g | f in names && f in Kept(p) && g in CallsExpansion(Kept(p)[f])
      ensures g in names
    {
      NeededCalls(Kept(p), out, f, g);
    }
    SameEnds(names, Kept(p), p.funcs, base, out, env, r);
  }

  /**
   The module that is left, run with the functions it keeps, ends wherever the original ends, and the
   other way round, in states that no original variable tells apart: if no call of a deleted function is
   left in it and no kept function it calls needs one.
   */
  lemma ModulePreserved(p: Program, base: Meaning, ss: seq<Stmt>, c: nat, depth: nat, t: State)
    requires WellFormed(p) && OkSs(p.funcs, ss)
    requires forall x :: x in ReadsSs(ss) + WritesSs(ss) ==> x.User?
    requires var out := InlineSs(p, ss, c, depth).ss; CleanSs(p, out) && KeptNeedNoDeleted(p, out)
    ensures SameRuns(p, base, ss, InlineSs(p, ss, c, depth).ss, t)
  {
    RunsPreserved(p, base, ss, c, depth, t);
    forall r
      ensures var out := InlineSs(p, ss, c, depth).ss;
              EndsIn(Kept(p), base, out, Outside(t), r) <==> EndsIn(p.funcs, base, out, Outside(t), r)
    {
      KeptSuffice(p, base, InlineSs(p, ss, c, depth).ss, Outside(t), r);
    }
  }

  /** The original statements with all functions and others with the kept ones end in states alike. */
  ghost predicate SameRuns(p: Program, base: Meaning, ss: seq<Stmt>, out: seq<Stmt>, t: State) {
    && (forall r :: EndsIn(p.funcs, base, ss, Outside(t), r) ==>
          exists r' :: EndsIn(Kept(p), base, out, Outside(t), r') && UsersAgree(r.globals, r'.globals))
    && (forall r' :: EndsIn(Kept(p), base, out, Outside(t), r') ==>
          exists r :: EndsIn(p.funcs, base, ss, Outside(t), r) && UsersAgree(r.globals, r'.globals))
  }

  /** The elaborator accepts statements whose calls are all of functions of the module or known from elsewhere. */
  ghost predicate Elaborates(fs: Functions, known: set<Symbol>, ss: seq<Stmt>) {
    CallsSs(ss) <= fs.Keys + known
  }

  /**
   Of a self-contained original: the module that is left is self-contained and runs the same, from every
   state and whatever unknown names mean, if and only if no call of a deleted function is left in its
   statements and no kept function that they call needs one.
   */
  lemma ModuleKeptIff(p: Program, known: set<Symbol>, ss: seq<Stmt>, c: nat, depth: nat)
    requires WellFormed(p) && OkSs(p.funcs, ss) && SelfContained(p.funcs, known, ss) && known !! p.funcs.Keys
    requires forall x :: x in ReadsSs(ss) + WritesSs(ss) ==> x.User?
    ensures var out := InlineSs(p, ss, c, depth).ss;
            SelfContained(Kept(p), known, out) && (forall base: Meaning, t: State :: SameRuns(p, base, ss, out, t))
            <==> CleanSs(p, out) && KeptNeedNoDeleted(p, out)
  {
    var out := InlineSs(p, ss, c, depth).ss;
    SelfContainedIff(p, known, ss, c, depth);
    if CleanSs(p, out) && KeptNeedNoDeleted(p, out) {
      forall base: Meaning, t: State
        ensures SameRuns(p, base, ss, out, t)
      {
        ModulePreserved(p, base, ss, c, depth, t);
      }
    }
  }

  /** The elaborator, which looks at the statements, accepts what is left exactly if no call of a deleted function is left. */
  lemma AcceptedIffClean(p: Program, known: set<Symbol>, ss: seq<Stmt>, c: nat, depth: nat)
    requires WellFormed(p) && OkSs(p.funcs, ss) && SelfContained(p.funcs, known, ss) && known !! p.funcs.Keys
    ensures Elaborates(p.funcs, known, ss)
    ensures var out := InlineSs(p, ss, c, depth).ss; Elaborates(Kept(p), known, out) <==> CleanSs(p, out)
  {
    var out := InlineSs(p, ss, c, depth).ss;
    CleanCallsSs(p, out);
    OutputCallsNeeded(p, ss, c, depth);
    forall f | f in CallsSs(ss)
      ensures f in p.funcs || f in known
    {
      assert Needs(p.funcs, ss, f);
    }
    forall f | f in CallsSs(out)
      ensures f in Kept(p).Keys + known <==> !Inlinable(p, f)
    {
      assert Needs(p.funcs, ss, f);
    }
  }

  // ---- without the conditions ----

  /** The same, but calls of these names fail. */
  function Without(base: Meaning, deleted: set<Symbol>): Meaning {
    Meaning(base.ops, (f, vals, g) => if f in deleted then None else base.call(f, vals, g))
  }

  ghost function Deleted(p: Program): set<Symbol> {
    set f | f in p.funcs && f !in p.recursive
  }

  /** Another answer for the names of deleted functions, such as a function imported from a package or a stub. */
  ghost predicate Fallback(p: Program, base: Meaning, other: Meaning) {
    && other.ops == base.ops
    && forall f, vals, g :: f !in Deleted(p) ==> other.call(f, vals, g) == base.call(f, vals, g)
  }

  lemma {:induction false} KeptRefine(p: Program, gs: Functions, base: Meaning, other: Meaning, n: nat)
    requires Fallback(p, base, other)
    requires gs == Kept(p) || gs == p.funcs
    ensures Refines(Within(Kept(p), Without(base, Deleted(p)), n), Within(gs, other, n))
  {
    var a, b := Within(Kept(p), Without(base, Deleted(p)), n), Within(gs, other, n);
    forall f, vals, g | a.call(f, vals, g).Some?
      ensures b.call(f, vals, g) == a.call(f, vals, g)
    {
      if f in Kept(p) && |vals| == |Kept(p)[f].formals| && n > 0 {
        KeptRefine(p, gs, base, other, n - 1);
        KeepsCall(Within(Kept(p), Without(base, Deleted(p)), n - 1), Within(gs, other, n - 1), Kept(p)[f], vals, g);
      }
    }
  }

  lemma TrappedEnds(p: Program, gs: Functions, base: Meaning, other: Meaning, ss: seq<Stmt>, env: Env, r: Env)
    requires Fallback(p, base, other) && (gs == Kept(p) || gs == p.funcs)
    requires EndsIn(Kept(p), Without(base, Deleted(p)), ss, env, r)
    ensures EndsIn(gs, other, ss, env, r)
  {
    var n: nat :| ExecSs(Within(Kept(p), Without(base, Deleted(p)), n), ss, env) == Some(r);
    KeptRefine(p, gs, base, other, n);
    KeepsSs(Within(Kept(p), Without(base, Deleted(p)), n), Within(gs, other, n), ss, env);
  }

  /**
   A run of the module that is left, in which calls of deleted functions fail, never ends wrongly: if it
   ends, the original ends, and no original variable tells the ends apart.
   */
  lemma NeverWrong(p: Program, base: Meaning, ss: seq<Stmt>, c: nat, depth: nat, t: State, r': Env)
    requires WellFormed(p) && OkSs(p.funcs, ss)
    requires forall x :: x in ReadsSs(ss) + WritesSs(ss) ==> x.User?
    requires EndsIn(Kept(p), Without(base, Deleted(p)), InlineSs(p, ss, c, depth).ss, Outside(t), r')
    ensures exists r :: EndsIn(p.funcs, base, ss, Outside(t), r) && UsersAgree(r.globals, r'.globals)
  {
    TrappedEnds(p, p.funcs, base, base, InlineSs(p, ss, c, depth).ss, Outside(t), r');
    RunsPreserved(p, base, ss, c, depth, t);
  }

  /**
   What the names of deleted functions fall back to does not matter to a run exactly if the run ends when
   they fall back to nothing, that is, if it never calls them.
   */
  lemma FallbackIff(p: Program, base: Meaning, out: seq<Stmt>, env: Env, r: Env)
    ensures (forall other :: Fallback(p, base, other) ==> EndsIn(Kept(p), other, out, env, r))
            <==> EndsIn(Kept(p), Without(base, Deleted(p)), out, env, r)
  {
    if EndsIn(Kept(p), Without(base, Deleted(p)), out, env, r) {
      forall other | Fallback(p, base, other)
        ensures EndsIn(Kept(p), other, out, env, r)
      {
        TrappedEnds(p, Kept(p), base, other, out, env, r);
      }
    } else {
      assert Fallback(p, base, Without(base, Deleted(p)));
    }
  }
}
