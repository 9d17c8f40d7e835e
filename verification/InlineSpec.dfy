/**
 The inliner as a function: what it makes of an expression or a statement, given the call counter and
 the traversal depth.
 */
module InlineSpec {
  import opened Basics
  import opened Syntax
  import opened Semantics

  /** Beyond this depth a subtree is returned as it is. */
  const TRAVERSAL_LIMIT: nat := 256
  /** Beyond this depth a call is not expanded. */
  const CALL_LIMIT: nat := 200

  type Renaming = map<Symbol, Symbol>

  function Ren(rho: Renaming, x: Symbol): Symbol {
    if x in rho then rho[x] else x
  }

  function RenameE(e: Expr, rho: Renaming): Expr
    decreases e, 1
  {
    match e
    case Value(_) => e
    case Ident(x) => Ident(Ren(rho, x))
    case FuncCall(f, args) => FuncCall(Ren(rho, f), RenameEs(args, rho))
    case Op(op, operands) => Op(op, RenameEs(operands, rho))
  }

  function RenameEs(es: seq<Expr>, rho: Renaming): (r: seq<Expr>)
    ensures |r| == |es|
    decreases es, 0
  {
    if es == [] then [] else [RenameE(es[0], rho)] + RenameEs(es[1..], rho)
  }

  function RenameS(s: Stmt, rho: Renaming): Stmt
    decreases s, 1
  {
    match s
    case Block(ss) => Block(RenameSs(ss, rho))
    case IfElse(c, t, e) => IfElse(RenameE(c, rho), RenameS(t, rho), RenameS(e, rho))
    case BlockingAssign(x, rhs) => BlockingAssign(Ren(rho, x), RenameE(rhs, rho))
  }

  function RenameSs(ss: seq<Stmt>, rho: Renaming): (r: seq<Stmt>)
    ensures |r| == |ss|
    decreases ss, 0
  {
    if ss == [] then [] else [RenameS(ss[0], rho)] + RenameSs(ss[1..], rho)
  }

  // ---- one expansion ----

  /** An argument that is a plain variable stands for the formal itself; others get a temporary. */
  function ArgSymbol(f: Symbol, c: nat, formal: Symbol, arg: Expr): Symbol {
    if arg.Ident? then arg.name else Temp(f, c, Var(formal))
  }

  function BindPorts(f: Symbol, c: nat, formals: seq<Symbol>, args: seq<Expr>, rho: Renaming): Renaming
    requires |formals| == |args|
  {
    if formals == [] then rho
    else BindPorts(f, c, formals[1..], args[1..], rho[formals[0] := ArgSymbol(f, c, formals[0], args[0])])
  }

  /** A local that repeats a name already bound is skipped. */
  function BindLocals(f: Symbol, c: nat, ls: seq<Local>, rho: Renaming): Renaming {
    if ls == [] then rho
    else if ls[0].name in rho then BindLocals(f, c, ls[1..], rho)
    else BindLocals(f, c, ls[1..], rho[ls[0].name := Temp(f, c, Var(ls[0].name))])
  }

  function PortMap(f: Symbol, c: nat, d: FuncDecl, args: seq<Expr>): Renaming
    requires |args| == |d.formals|
  {
    BindPorts(f, c, d.formals, args, map[f := Temp(f, c, Result)])
  }

  function RenameMap(f: Symbol, c: nat, d: FuncDecl, args: seq<Expr>): Renaming
    requires |args| == |d.formals|
  {
    BindLocals(f, c, d.locals, PortMap(f, c, d, args))
  }

  function ArgAssigns(f: Symbol, c: nat, formals: seq<Symbol>, args: seq<Expr>): seq<Stmt>
    requires |formals| == |args|
  {
    if formals == [] then []
    else (if args[0].Ident? then [] else [BlockingAssign(Temp(f, c, Var(formals[0])), args[0])])
         + ArgAssigns(f, c, formals[1..], args[1..])
  }

  function ArgTemps(f: Symbol, c: nat, formals: seq<Symbol>, args: seq<Expr>): seq<Symbol>
    requires |formals| == |args|
  {
    if formals == [] then []
    else (if args[0].Ident? then [] else [Temp(f, c, Var(formals[0]))]) + ArgTemps(f, c, formals[1..], args[1..])
  }

  /** The locals that get a temporary: those whose name was not yet bound. */
  function FreshLocals(ls: seq<Local>, bound: set<Symbol>): seq<Local> {
    if ls == [] then []
    else if ls[0].name in bound then FreshLocals(ls[1..], bound)
    else [ls[0]] + FreshLocals(ls[1..], bound + {ls[0].name})
  }

  function LocalTemps(f: Symbol, c: nat, ls: seq<Local>): seq<Symbol> {
    if ls == [] then [] else [Temp(f, c, Var(ls[0].name))] + LocalTemps(f, c, ls[1..])
  }

  function InitAssigns(f: Symbol, c: nat, ls: seq<Local>, rho: Renaming): seq<Stmt> {
    if ls == [] then []
    else [BlockingAssign(Temp(f, c, Var(ls[0].name)), RenameE(ls[0].init, rho))] + InitAssigns(f, c, ls[1..], rho)
  }

  /** Initialisers, renamed body, and the return turned into an assignment of the result. */
  function ExpandedBody(f: Symbol, c: nat, d: FuncDecl, args: seq<Expr>): seq<Stmt>
    requires |args| == |d.formals|
  {
    var rho := RenameMap(f, c, d, args);
    InitAssigns(f, c, FreshLocals(d.locals, PortMap(f, c, d, args).Keys), rho)
    + RenameSs(d.stmts, rho)
    + [BlockingAssign(Temp(f, c, Result), RenameE(d.ret, rho))]
  }

  function OwnTemps(f: Symbol, c: nat, d: FuncDecl, args: seq<Expr>): seq<Symbol>
    requires |args| == |d.formals|
  {
    ArgTemps(f, c, d.formals, args)
    + LocalTemps(f, c, FreshLocals(d.locals, PortMap(f, c, d, args).Keys))
  }

  // ---- renaming keeps the shape ----

  lemma {:induction false} RenameKeepsE(fs: Functions, e: Expr, rho: Renaming)
    requires CallsE(e) !! rho.Keys
    ensures CallsE(RenameE(e, rho)) == CallsE(e)
    ensures OkE(fs, RenameE(e, rho)) == OkE(fs, e)
    decreases e, 1
  {
    match e
    case Value(_) =>
    case Ident(_) =>
    case FuncCall(f, args) => RenameKeepsEs(fs, args, rho);
    case Op(_, operands) => RenameKeepsEs(fs, operands, rho);
  }

  lemma {:induction false} RenameKeepsEs(fs: Functions, es: seq<Expr>, rho: Renaming)
    requires CallsEs(es) !! rho.Keys
    ensures CallsEs(RenameEs(es, rho)) == CallsEs(es)
    ensures OkEs(fs, RenameEs(es, rho)) == OkEs(fs, es)
    decreases es, 0
  {
    if es != [] {
      RenameKeepsE(fs, es[0], rho);
      RenameKeepsEs(fs, es[1..], rho);
      assert RenameEs(es, rho)[1..] == RenameEs(es[1..], rho);
    }
  }

  lemma {:induction false} RenameKeepsS(fs: Functions, s: Stmt, rho: Renaming)
    requires CallsS(s) !! rho.Keys
    ensures CallsS(RenameS(s, rho)) == CallsS(s)
    ensures OkS(fs, RenameS(s, rho)) == OkS(fs, s)
    decreases s, 1
  {
    match s
    case Block(ss) => RenameKeepsSs(fs, ss, rho);
    case IfElse(c, t, e) =>
      RenameKeepsE(fs, c, rho);
      RenameKeepsS(fs, t, rho);
      RenameKeepsS(fs, e, rho);
    case BlockingAssign(_, rhs) => RenameKeepsE(fs, rhs, rho);
  }

  lemma {:induction false} RenameKeepsSs(fs: Functions, ss: seq<Stmt>, rho: Renaming)
    requires CallsSs(ss) !! rho.Keys
    ensures CallsSs(RenameSs(ss, rho)) == CallsSs(ss)
    ensures OkSs(fs, RenameSs(ss, rho)) == OkSs(fs, ss)
    decreases ss, 0
  {
    if ss != [] {
      RenameKeepsS(fs, ss[0], rho);
      RenameKeepsSs(fs, ss[1..], rho);
      assert RenameSs(ss, rho)[1..] == RenameSs(ss[1..], rho);
    }
  }

  lemma {:induction false} AppendSs(fs: Functions, a: seq<Stmt>, b: seq<Stmt>)
    ensures OkSs(fs, a + b) == (OkSs(fs, a) && OkSs(fs, b))
    ensures CallsSs(a + b) == CallsSs(a) + CallsSs(b)
    ensures WritesSs(a + b) == WritesSs(a) + WritesSs(b)
    ensures ReadsSs(a + b) == ReadsSs(a) + ReadsSs(b)
  {
    if a == [] {
      assert a + b == b;
    } else {
      AppendSs(fs, a[1..], b);
      assert (a + b)[1..] == a[1..] + b;
    }
  }

  // ---- what the renaming of one expansion is ----

  lemma {:induction false} BindPortsIs(f: Symbol, c: nat, formals: seq<Symbol>, args: seq<Expr>, rho: Renaming)
    requires |formals| == |args| && Distinct(formals)
    ensures var r := BindPorts(f, c, formals, args, rho);
            && r.Keys == rho.Keys + Names(formals)
            && (forall i :: 0 <= i < |formals| ==> r[formals[i]] == ArgSymbol(f, c, formals[i], args[i]))
            && (forall x :: x in rho && x !in formals ==> r[x] == rho[x])
  {
    if formals != [] {
      var rho' := rho[formals[0] := ArgSymbol(f, c, formals[0], args[0])];
      BindPortsIs(f, c, formals[1..], args[1..], rho');
      var r := BindPorts(f, c, formals[1..], args[1..], rho');
      assert formals[0] !in formals[1..];
      assert Names(formals) == {formals[0]} + Names(formals[1..]);
      forall i | 0 <= i < |formals|
        ensures r[formals[i]] == ArgSymbol(f, c, formals[i], args[i])
      {
        if i > 0 {
          assert formals[i] == formals[1..][i - 1] && args[i] == args[1..][i - 1];
        }
      }
    }
  }

  lemma {:induction false} BindLocalsIs(f: Symbol, c: nat, ls: seq<Local>, rho: Renaming)
    requires Distinct(LocalNames(ls)) && Names(LocalNames(ls)) !! rho.Keys
    ensures FreshLocals(ls, rho.Keys) == ls
    ensures var r := BindLocals(f, c, ls, rho);
            && r.Keys == rho.Keys + Names(LocalNames(ls))
            && (forall x :: x in LocalNames(ls) ==> r[x] == Temp(f, c, Var(x)))
            && (forall x :: x in rho ==> r[x] == rho[x])
  {
    if ls != [] {
      var names := LocalNames(ls);
      assert names[1..] == LocalNames(ls[1..]) && names[0] == ls[0].name;
      assert names[0] in Names(names);
      assert names[0] !in names[1..];
      assert Names(names) == {names[0]} + Names(names[1..]);
      var rho' := rho[ls[0].name := Temp(f, c, Var(ls[0].name))];
      assert rho'.Keys == rho.Keys + {ls[0].name};
      BindLocalsIs(f, c, ls[1..], rho');
    }
  }

  /** What every name of the function becomes. */
  ghost predicate RenamesFor(f: Symbol, c: nat, d: FuncDecl, args: seq<Expr>, rho: Renaming)
    requires |args| == |d.formals|
  {
    && rho.Keys == {f} + Names(Declared(d))
    && rho[f] == Temp(f, c, Result)
    && (forall i :: 0 <= i < |d.formals| ==>
          d.formals[i] in rho && rho[d.formals[i]] == ArgSymbol(f, c, d.formals[i], args[i]))
    && (forall x :: x in LocalNames(d.locals) ==> x in rho && rho[x] == Temp(f, c, Var(x)))
  }

  lemma DeclaredNames(d: FuncDecl)
    requires Distinct(Declared(d))
    ensures Distinct(d.formals) && Distinct(LocalNames(d.locals))
    ensures Names(d.formals) !! Names(LocalNames(d.locals))
    ensures Names(Declared(d)) == Names(d.formals) + Names(LocalNames(d.locals))
  {
    var all, n := Declared(d), |d.formals|;
    assert forall i :: 0 <= i < n ==> all[i] == d.formals[i];
    assert forall j :: 0 <= j < |d.locals| ==> all[n + j] == LocalNames(d.locals)[j];
  }

  lemma RenameMapIs(f: Symbol, c: nat, d: FuncDecl, args: seq<Expr>)
    requires |args| == |d.formals| && Distinct(Declared(d)) && f !in Names(Declared(d))
    ensures RenamesFor(f, c, d, args, RenameMap(f, c, d, args))
    ensures FreshLocals(d.locals, PortMap(f, c, d, args).Keys) == d.locals
  {
    DeclaredNames(d);
    BindPortsIs(f, c, d.formals, args, map[f := Temp(f, c, Result)]);
    BindLocalsIs(f, c, d.locals, PortMap(f, c, d, args));
  }

  lemma {:induction false} InitAssignsFit(fs: Functions, f: Symbol, c: nat, ls: seq<Local>, rho: Renaming)
    requires CallsInits(ls) !! rho.Keys && OkLocals(fs, ls)
    ensures OkSs(fs, InitAssigns(f, c, ls, rho)) && CallsSs(InitAssigns(f, c, ls, rho)) == CallsInits(ls)
  {
    if ls != [] {
      RenameKeepsE(fs, ls[0].init, rho);
      InitAssignsFit(fs, f, c, ls[1..], rho);
      assert InitAssigns(f, c, ls, rho)[1..] == InitAssigns(f, c, ls[1..], rho);
    }
  }

  /** The expanded body is well formed and calls what the function calls. */
  lemma BodyFits(p: Program, f: Symbol, c: nat, args: seq<Expr>)
    requires WellFormed(p) && Inlinable(p, f) && |args| == |p.funcs[f].formals|
    ensures OkSs(p.funcs, ExpandedBody(f, c, p.funcs[f], args))
    ensures CallsSs(ExpandedBody(f, c, p.funcs[f], args)) == CallsExpansion(p.funcs[f])
  {
    var d := p.funcs[f];
    var rho := RenameMap(f, c, d, args);
    assert WellScoped(p.funcs, f);
    RenameMapIs(f, c, d, args);
    InitAssignsFit(p.funcs, f, c, d.locals, rho);
    RenameKeepsSs(p.funcs, d.stmts, rho);
    RenameKeepsE(p.funcs, d.ret, rho);
    var inits := InitAssigns(f, c, d.locals, rho);
    var last := [BlockingAssign(Temp(f, c, Result), RenameE(d.ret, rho))];
    AppendSs(p.funcs, inits, RenameSs(d.stmts, rho));
    AppendSs(p.funcs, inits + RenameSs(d.stmts, rho), last);
    assert last[1..] == [] && CallsSs(last) == CallsE(RenameE(d.ret, rho));
  }

  // ---- the inliner ----

  datatype ExprOut = ExprOut(e: Expr, pre: seq<Stmt>, c: nat, temps: seq<Symbol>)
  datatype ExprsOut = ExprsOut(es: seq<Expr>, pre: seq<Stmt>, c: nat, temps: seq<Symbol>)
  datatype StmtOut = StmtOut(s: Stmt, c: nat, temps: seq<Symbol>)
  datatype StmtsOut = StmtsOut(ss: seq<Stmt>, c: nat, temps: seq<Symbol>)

  /** The levels of traversal that are left: the depth guard is what ends expansion. */
  function Left(depth: nat): nat {
    if depth <= TRAVERSAL_LIMIT then TRAVERSAL_LIMIT + 1 - depth else 0
  }

  function WithPreamble(pre: seq<Stmt>, main: Stmt): Stmt {
    if pre == [] then main else Block(pre + [main])
  }

  ghost function InlineE(p: Program, e: Expr, c: nat, depth: nat): (r: ExprOut)
    requires WellFormed(p) && OkE(p.funcs, e)
    ensures r.c >= c
    decreases Left(depth), 0
  {
    if depth > TRAVERSAL_LIMIT then ExprOut(e, [], c, [])
    else
      match e
      case Value(_) => ExprOut(e, [], c, [])
      case Ident(_) => ExprOut(e, [], c, [])
      case Op(op, operands) =>
        var r := InlineEs(p, operands, c, depth + 1);
        ExprOut(Op(op, r.es), r.pre, r.c, r.temps)
      case FuncCall(f, args) =>
        if f in p.recursive then
          var r := InlineEs(p, args, c, depth + 1);
          ExprOut(FuncCall(f, r.es), r.pre, r.c, r.temps)
        else if depth + 1 > CALL_LIMIT || f !in p.funcs then ExprOut(e, [], c, [])
        else
          var a := InlineEs(p, args, c + 1, depth + 1);
          Expand(p, f, c, a, depth + 1)
  }

  ghost function InlineEs(p: Program, es: seq<Expr>, c: nat, depth: nat): (r: ExprsOut)
    requires WellFormed(p) && OkEs(p.funcs, es)
    ensures r.c >= c && |r.es| == |es|
    decreases Left(depth), 1, es
  {
    if es == [] then ExprsOut([], [], c, [])
    else
      var h := InlineE(p, es[0], c, depth);
      var t := InlineEs(p, es[1..], h.c, depth);
      ExprsOut([h.e] + t.es, h.pre + t.pre, t.c, h.temps + t.temps)
  }

  /** Expands call number `c` of `f`, its arguments already inlined as `a`. */
  ghost function Expand(p: Program, f: Symbol, c: nat, a: ExprsOut, depth: nat): (r: ExprOut)
    requires WellFormed(p) && Inlinable(p, f) && |a.es| == |p.funcs[f].formals|
    ensures r.c >= a.c
    decreases Left(depth), 2
  {
    var d := p.funcs[f];
    BodyFits(p, f, c, a.es);
    var body := InlineSs(p, ExpandedBody(f, c, d, a.es), a.c, depth);
    ExprOut(Ident(Temp(f, c, Result)),
            a.pre + ArgAssigns(f, c, d.formals, a.es) + body.ss,
            body.c,
            [Temp(f, c, Result)] + a.temps + OwnTemps(f, c, d, a.es) + body.temps)
  }

  ghost function InlineS(p: Program, s: Stmt, c: nat, depth: nat): (r: StmtOut)
    requires WellFormed(p) && OkS(p.funcs, s)
    ensures r.c >= c
    decreases Left(depth), 0
  {
    if depth > TRAVERSAL_LIMIT then StmtOut(s, c, [])
    else
      match s
      case Block(ss) =>
        var r := InlineSs(p, ss, c, depth + 1);
        StmtOut(Block(r.ss), r.c, r.temps)
      case IfElse(cond, thn, els) =>
        var rc := InlineE(p, cond, c, depth + 1);
        var rt := InlineS(p, thn, rc.c, depth + 1);
        var re := InlineS(p, els, rt.c, depth + 1);
        StmtOut(WithPreamble(rc.pre, IfElse(rc.e, rt.s, re.s)), re.c, rc.temps + rt.temps + re.temps)
      case BlockingAssign(x, rhs) =>
        var r := InlineE(p, rhs, c, depth + 1);
        StmtOut(WithPreamble(r.pre, BlockingAssign(x, r.e)), r.c, r.temps)
  }

  ghost function InlineSs(p: Program, ss: seq<Stmt>, c: nat, depth: nat): (r: StmtsOut)
    requires WellFormed(p) && OkSs(p.funcs, ss)
    ensures r.c >= c && |r.ss| == |ss|
    decreases Left(depth), 1, ss
  {
    if ss == [] then StmtsOut([], c, [])
    else
      var h := InlineS(p, ss[0], c, depth);
      var t := InlineSs(p, ss[1..], h.c, depth);
      StmtsOut([h.s] + t.ss, t.c, h.temps + t.temps)
  }
}
