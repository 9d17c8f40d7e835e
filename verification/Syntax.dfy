/**
 The part of the syntax tree that the inliner rewrites.

 Every operator form that both the call collector and the inliner walk through
 (unary, binary, ternary, concatenation, replication, parentheses, selects) is one
 `Op` node: a tag and its operands from left to right.
 */
module Syntax {

  /** A declared name, or a temporary made by the inliner for call number `counter` of `func`. */
  datatype Symbol = User(id: string) | Temp(func: Symbol, counter: nat, slot: Slot)

  datatype Slot = Result | Var(name: Symbol)

  datatype Operator =
    | Unary(unary: string)
    | Binary(binary: string)
    | Ternary
    | Concat
    | Replicate(count: int)
    | Paren
    | RangeSelect
    | BitSelect
    | PartSelect

  datatype Expr =
    | Value(n: int)
    | Ident(name: Symbol)
    | FuncCall(func: Symbol, args: seq<Expr>)
    | Op(op: Operator, operands: seq<Expr>)

  /** A missing `else` branch is the empty block. */
  datatype Stmt =
    | Block(stmts: seq<Stmt>)
    | IfElse(cond: Expr, thn: Stmt, els: Stmt)
    | BlockingAssign(lhs: Symbol, rhs: Expr)

  datatype Local = Local(name: Symbol, init: Expr)

  /** A function: formals, initialised locals, a body, and the one top-level `return ret`. */
  datatype FuncDecl = FuncDecl(formals: seq<Symbol>, locals: seq<Local>, stmts: seq<Stmt>, ret: Expr)

  type Functions = map<Symbol, FuncDecl>

  /** The names called anywhere in an expression. */
  function CallsE(e: Expr): set<Symbol>
    decreases e, 1
  {
    match e
    case Value(_) => {}
    case Ident(_) => {}
    case FuncCall(f, args) => {f} + CallsEs(args)
    case Op(_, operands) => CallsEs(operands)
  }

  function CallsEs(es: seq<Expr>): set<Symbol>
    decreases es, 0
  {
    if es == [] then {} else CallsE(es[0]) + CallsEs(es[1..])
  }

  function CallsS(s: Stmt): set<Symbol>
    decreases s, 1
  {
    match s
    case Block(ss) => CallsSs(ss)
    case IfElse(c, t, e) => CallsE(c) + CallsS(t) + CallsS(e)
    case BlockingAssign(_, rhs) => CallsE(rhs)
  }

  function CallsSs(ss: seq<Stmt>): set<Symbol>
    decreases ss, 0
  {
    if ss == [] then {} else CallsS(ss[0]) + CallsSs(ss[1..])
  }

  function CallsInits(ls: seq<Local>): set<Symbol> {
    if ls == [] then {} else CallsE(ls[0].init) + CallsInits(ls[1..])
  }

  /** What the collector sees of a function: its statements, not its initialisers. */
  function CallsBody(f: FuncDecl): set<Symbol> {
    CallsSs(f.stmts) + CallsE(f.ret)
  }

  /** Everything an expansion of the function may expand in turn. */
  function CallsExpansion(f: FuncDecl): set<Symbol> {
    CallsInits(f.locals) + CallsBody(f)
  }
}
