/**
 What a program means before and after inlining. A meaning gives every called name a result; for the
 functions that may be expanded it has to be what running their bodies gives. A call may diverge, and
 then so does what needs its value.
 */
module Semantics {
  import opened Basics
  import opened Outcomes
  import opened Syntax

  type State = map<Symbol, int>

  /** Module variables, and the frame of the function being run (empty outside functions). */
  datatype Env = Env(globals: State, frame: State)

  /** The functions of a module, and those the inliner leaves alone. */
  datatype Program = Program(funcs: Functions, recursive: set<Symbol>)

  /** Operators, and calls: of a name, with argument values, in a state of the original variables. */
  datatype Meaning = Meaning(
    ops: (Operator, seq<int>) -> int,
    call: (Symbol, seq<int>, State) -> Option<int>)

  function Get(st: State, x: Symbol): int {
    if x in st then st[x] else 0
  }

  function Look(env: Env, x: Symbol): int {
    if x in env.frame then env.frame[x] else Get(env.globals, x)
  }

  function Write(env: Env, x: Symbol, v: int): Env {
    if x in env.frame then env.(frame := env.frame[x := v]) else env.(globals := env.globals[x := v])
  }

  /** What a called function can see of the module: its original variables. */
  function Users(st: State): State {
    map x | x in st && x.User? && st[x] != 0 :: st[x]
  }

  predicate Inlinable(p: Program, f: Symbol) {
    f in p.funcs && f !in p.recursive
  }

  // ---- variables and writes ----

  function VarsE(e: Expr): set<Symbol>
    decreases e, 1
  {
    match e
    case Value(_) => {}
    case Ident(x) => {x}
    case FuncCall(_, args) => VarsEs(args)
    case Op(_, operands) => VarsEs(operands)
  }

  function VarsEs(es: seq<Expr>): set<Symbol>
    decreases es, 0
  {
    if es == [] then {} else VarsE(es[0]) + VarsEs(es[1..])
  }

  function ReadsS(s: Stmt): set<Symbol>
    decreases s, 1
  {
    match s
    case Block(ss) => ReadsSs(ss)
    case IfElse(c, t, e) => VarsE(c) + ReadsS(t) + ReadsS(e)
    case BlockingAssign(_, rhs) => VarsE(rhs)
  }

  function ReadsSs(ss: seq<Stmt>): set<Symbol>
    decreases ss, 0
  {
    if ss == [] then {} else ReadsS(ss[0]) + ReadsSs(ss[1..])
  }

  function WritesS(s: Stmt): set<Symbol>
    decreases s, 1
  {
    match s
    case Block(ss) => WritesSs(ss)
    case IfElse(_, t, e) => WritesS(t) + WritesS(e)
    case BlockingAssign(x, _) => {x}
  }

  function WritesSs(ss: seq<Stmt>): set<Symbol>
    decreases ss, 0
  {
    if ss == [] then {} else WritesS(ss[0]) + WritesSs(ss[1..])
  }

  // ---- well-formed programs ----

  /** Every call of a known function supplies all its arguments. */
  ghost predicate OkE(fs: Functions, e: Expr)
    decreases e, 1
  {
    match e
    case Value(_) => true
    case Ident(_) => true
    case FuncCall(f, args) => OkEs(fs, args) && (f in fs ==> |args| == |fs[f].formals|)
    case Op(_, operands) => OkEs(fs, operands)
  }

  ghost predicate OkEs(fs: Functions, es: seq<Expr>)
    decreases es, 0
  {
    es == [] || (OkE(fs, es[0]) && OkEs(fs, es[1..]))
  }

  ghost predicate OkS(fs: Functions, s: Stmt)
    decreases s, 1
  {
    match s
    case Block(ss) => OkSs(fs, ss)
    case IfElse(c, t, e) => OkE(fs, c) && OkS(fs, t) && OkS(fs, e)
    case BlockingAssign(_, rhs) => OkE(fs, rhs)
  }

  ghost predicate OkSs(fs: Functions, ss: seq<Stmt>)
    decreases ss, 0
  {
    ss == [] || (OkS(fs, ss[0]) && OkSs(fs, ss[1..]))
  }

  ghost predicate OkLocals(fs: Functions, ls: seq<Local>)
  {
    ls == [] || (OkE(fs, ls[0].init) && OkLocals(fs, ls[1..]))
  }

  function LocalNames(ls: seq<Local>): (names: seq<Symbol>)
    ensures |names| == |ls|
  {
    if ls == [] then [] else [ls[0].name] + LocalNames(ls[1..])
  }

  function Declared(f: FuncDecl): (names: seq<Symbol>)
    ensures |names| == |f.formals| + |f.locals|
  {
    f.formals + LocalNames(f.locals)
  }

  /** Initialisers read no local declared at or after their own. */
  ghost predicate InitsInOrder(ls: seq<Local>) {
    ls == [] || (VarsE(ls[0].init) !! Names(LocalNames(ls)) && InitsInOrder(ls[1..]))
  }

  function Names(xs: seq<Symbol>): set<Symbol> {
    set x | x in xs
  }

  function VarsInits(ls: seq<Local>): set<Symbol> {
    if ls == [] then {} else VarsE(ls[0].init) + VarsInits(ls[1..])
  }

  function ReadsFunc(f: FuncDecl): set<Symbol> {
    VarsInits(f.locals) + ReadsSs(f.stmts) + VarsE(f.ret)
  }

  /**
   Scoping rules of an inlinable function: formals and locals are distinct, name no called function,
   only locals are written, and the function's own name is neither a variable nor called (a call of
   itself in an initialiser is what the collector overlooks, and the renaming spoils it).
   */
  ghost predicate WellScoped(fs: Functions, f: Symbol)
    requires f in fs
  {
    var d := fs[f];
    && Distinct(Declared(d))
    && Names(Declared(d)) + {f} !! CallsExpansion(d)
    && f !in Names(Declared(d)) + ReadsFunc(d)
    && WritesSs(d.stmts) <= Names(LocalNames(d.locals))
    && InitsInOrder(d.locals)
    && (forall x :: x in Names(Declared(d)) + ReadsFunc(d) ==> x.User?)
    && OkLocals(fs, d.locals) && OkSs(fs, d.stmts) && OkE(fs, d.ret)
  }

  ghost predicate WellFormed(p: Program) {
    forall f {:trigger WellScoped(p.funcs, f)} :: Inlinable(p, f) ==> WellScoped(p.funcs, f)
  }

  // ---- evaluation ----

  function EvalE(m: Meaning, e: Expr, env: Env): Option<int>
    decreases e, 1
  {
    match e
    case Value(n) => Some(n)
    case Ident(x) => Some(Look(env, x))
    case FuncCall(f, args) =>
      var vals :- EvalEs(m, args, env);
      m.call(f, vals, Users(env.globals))
    case Op(op, operands) =>
      var vals :- EvalEs(m, operands, env);
      Some(m.ops(op, vals))
  }

  function EvalEs(m: Meaning, es: seq<Expr>, env: Env): (vals: Option<seq<int>>)
    ensures vals.Some? ==> |vals.value| == |es|
    decreases es, 0
  {
    if es == [] then Some([]) else
      var v :- EvalE(m, es[0], env);
      var rest :- EvalEs(m, es[1..], env);
      Some([v] + rest)
  }

  function ExecS(m: Meaning, s: Stmt, env: Env): Option<Env>
    decreases s, 1
  {
    match s
    case Block(ss) => ExecSs(m, ss, env)
    case IfElse(c, t, e) =>
      var v :- EvalE(m, c, env);
      if v != 0 then ExecS(m, t, env) else ExecS(m, e, env)
    case BlockingAssign(x, rhs) =>
      var v :- EvalE(m, rhs, env);
      Some(Write(env, x, v))
  }

  function ExecSs(m: Meaning, ss: seq<Stmt>, env: Env): Option<Env>
    decreases ss, 0
  {
    if ss == [] then Some(env) else
      var next :- ExecS(m, ss[0], env);
      ExecSs(m, ss[1..], next)
  }

  function RunInits(m: Meaning, ls: seq<Local>, env: Env): Option<Env> {
    if ls == [] then Some(env) else
      var v :- EvalE(m, ls[0].init, env);
      RunInits(m, ls[1..], env.(frame := env.frame[ls[0].name := v]))
  }

  function BindFormals(formals: seq<Symbol>, vals: seq<int>): State
    requires |formals| == |vals|
  {
    if formals == [] then map[] else BindFormals(formals[1..], vals[1..])[formals[0] := vals[0]]
  }

  /** One call: bind formals, run the initialisers in order, run the body, return. */
  function CallBody(m: Meaning, d: FuncDecl, vals: seq<int>, globals: State): Option<int>
    requires |vals| == |d.formals|
  {
    var ready :- RunInits(m, d.locals, Env(globals, BindFormals(d.formals, vals)));
    var done :- ExecSs(m, d.stmts, ready);
    EvalE(m, d.ret, done)
  }

  /**
   The meaning runs every inlinable function's body. What a recursive or unknown function gives is
   left open.
   */
  ghost predicate Solves(p: Program, m: Meaning) {
    forall f, vals, g {:trigger m.call(f, vals, g)} ::
      Inlinable(p, f) && |vals| == |p.funcs[f].formals| && g == Users(g) ==>
        m.call(f, vals, g) == CallBody(m, p.funcs[f], vals, g)
  }
}
