/**
 Which calls survive inlining within the depth limit, and which temporaries it declares.
 */
module InlineComplete {
  import opened Basics
  import opened Syntax
  import opened CallGraph
  import opened Semantics
  import opened InlineGraph
  import opened InlineMeaning
  import opened InlineSpec
  import Recursion

  // ---- the measure that bounds nested expansion in an acyclic program ----

  ghost function RankOf(p: Program, f: Symbol): nat {
    Rank(ExpansionGraph(p), f)
  }

  ghost function HeightE(p: Program, e: Expr): nat
    decreases e, 1
  {
    match e
    case Value(_) => 0
    case Ident(_) => 0
    case FuncCall(f, args) =>
      if f in p.recursive then HeightEs(p, args)
      else if f !in p.funcs then 0
      else Max(HeightEs(p, args), 1 + RankOf(p, f))
    case Op(_, operands) => HeightEs(p, operands)
  }

  ghost function HeightEs(p: Program, es: seq<Expr>): nat
    decreases es, 0
  {
    if es == [] then 0 else Max(HeightE(p, es[0]), HeightEs(p, es[1..]))
  }

  ghost function HeightS(p: Program, s: Stmt): nat
    decreases s, 1
  {
    match s
    case Block(ss) => HeightSs(p, ss)
    case IfElse(c, t, e) => Max(HeightE(p, c), Max(HeightS(p, t), HeightS(p, e)))
    case BlockingAssign(_, rhs) => HeightE(p, rhs)
  }

  ghost function HeightSs(p: Program, ss: seq<Stmt>): nat
    decreases ss, 0
  {
    if ss == [] then 0 else Max(HeightS(p, ss[0]), HeightSs(p, ss[1..]))
  }

  ghost function HeightInits(p: Program, ls: seq<Local>): nat {
    if ls == [] then 0 else Max(HeightE(p, ls[0].init), HeightInits(p, ls[1..]))
  }

  ghost predicate RanksBelow(p: Program, calls: set<Symbol>, n: nat) {
    forall f :: f in calls ==> RankOf(p, f) < n
  }

  lemma {:induction false} HeightBoundE(p: Program, e: Expr, n: nat)
    requires RanksBelow(p, LiveE(p, e), n)
    ensures HeightE(p, e) <= n
    decreases e, 1
  {
    match e
    case Value(_) =>
    case Ident(_) =>
    case FuncCall(f, args) =>
      if f in p.recursive || f in p.funcs {
        HeightBoundEs(p, args, n);
      }
    case Op(_, operands) => HeightBoundEs(p, operands, n);
  }

  lemma {:induction false} HeightBoundEs(p: Program, es: seq<Expr>, n: nat)
    requires RanksBelow(p, LiveEs(p, es), n)
    ensures HeightEs(p, es) <= n
    decreases es, 0
  {
    if es != [] {
      HeightBoundE(p, es[0], n);
      HeightBoundEs(p, es[1..], n);
    }
  }

  lemma {:induction false} HeightBoundS(p: Program, s: Stmt, n: nat)
    requires RanksBelow(p, LiveS(p, s), n)
    ensures HeightS(p, s) <= n
    decreases s, 1
  {
    match s
    case Block(ss) => HeightBoundSs(p, ss, n);
    case IfElse(c, t, e) =>
      HeightBoundE(p, c, n);
      HeightBoundS(p, t, n);
      HeightBoundS(p, e, n);
    case BlockingAssign(_, rhs) => HeightBoundE(p, rhs, n);
  }

  lemma {:induction false} HeightBoundSs(p: Program, ss: seq<Stmt>, n: nat)
    requires RanksBelow(p, LiveSs(p, ss), n)
    ensures HeightSs(p, ss) <= n
    decreases ss, 0
  {
    if ss != [] {
      HeightBoundS(p, ss[0], n);
      HeightBoundSs(p, ss[1..], n);
    }
  }

  lemma {:induction false} HeightBoundInits(p: Program, ls: seq<Local>, n: nat)
    requires RanksBelow(p, LiveInits(p, ls), n)
    ensures HeightInits(p, ls) <= n
  {
    if ls != [] {
      HeightBoundE(p, ls[0].init, n);
      HeightBoundInits(p, ls[1..], n);
    }
  }

  /** In an acyclic program a function's expansion only expands functions of smaller rank. */
  lemma BodyHeight(p: Program, f: Symbol)
    requires Acyclic(p) && Inlinable(p, f)
    ensures HeightInits(p, p.funcs[f].locals) <= RankOf(p, f)
    ensures HeightSs(p, p.funcs[f].stmts) <= RankOf(p, f)
    ensures HeightE(p, p.funcs[f].ret) <= RankOf(p, f)
  {
    var d := p.funcs[f];
    LiveIsInlinable(p, d);
    forall g | g in LiveFunc(p, d)
      ensures RankOf(p, g) < RankOf(p, f)
    {
      assert Edge(ExpansionGraph(p), f, g);
      RankDrops(ExpansionGraph(p), f, g);
    }
    HeightBoundInits(p, d.locals, RankOf(p, f));
    HeightBoundSs(p, d.stmts, RankOf(p, f));
    HeightBoundE(p, d.ret, RankOf(p, f));
  }

  // ---- surviving calls ----

  /** No call of an inlinable function is left. */
  predicate CleanE(p: Program, e: Expr)
    decreases e, 1
  {
    match e
    case Value(_) => true
    case Ident(_) => true
    case FuncCall(f, args) => !Inlinable(p, f) && CleanEs(p, args)
    case Op(_, operands) => CleanEs(p, operands)
  }

  predicate CleanEs(p: Program, es: seq<Expr>)
    decreases es, 0
  {
    es == [] || (CleanE(p, es[0]) && CleanEs(p, es[1..]))
  }

  predicate CleanS(p: Program, s: Stmt)
    decreases s, 1
  {
    match s
    case Block(ss) => CleanSs(p, ss)
    case IfElse(c, t, e) => CleanE(p, c) && CleanS(p, t) && CleanS(p, e)
    case BlockingAssign(_, rhs) => CleanE(p, rhs)
  }

  predicate CleanSs(p: Program, ss: seq<Stmt>)
    decreases ss, 0
  {
    ss == [] || (CleanS(p, ss[0]) && CleanSs(p, ss[1..]))
  }

  /**
   Somewhere in the full expansion an inlinable call stands among the arguments of an unknown function
   (a system function, say): the inliner returns such a call with its arguments untouched.
   */
  ghost predicate ShieldedE(p: Program, e: Expr)
    requires Acyclic(p)
    decreases HeightE(p, e), 0, e, 1
  {
    match e
    case Value(_) => false
    case Ident(_) => false
    case FuncCall(f, args) =>
      if f in p.recursive then ShieldedEs(p, args)
      else if f !in p.funcs then !CleanEs(p, args)
      else ShieldedEs(p, args) || ShieldedFunc(p, f)
    case Op(_, operands) => ShieldedEs(p, operands)
  }

  ghost predicate ShieldedEs(p: Program, es: seq<Expr>)
    requires Acyclic(p)
    decreases HeightEs(p, es), 0, es, 0
  {
    es != [] && (ShieldedE(p, es[0]) || ShieldedEs(p, es[1..]))
  }

  ghost predicate ShieldedFunc(p: Program, f: Symbol)
    requires Acyclic(p) && Inlinable(p, f)
    decreases RankOf(p, f), 2
  {
    BodyHeight(p, f);
    ShieldedInits(p, p.funcs[f].locals) || ShieldedSs(p, p.funcs[f].stmts) || ShieldedE(p, p.funcs[f].ret)
  }

  ghost predicate ShieldedInits(p: Program, ls: seq<Local>)
    requires Acyclic(p)
    decreases HeightInits(p, ls), 1, ls
  {
    ls != [] && (ShieldedE(p, ls[0].init) || ShieldedInits(p, ls[1..]))
  }

  ghost predicate ShieldedS(p: Program, s: Stmt)
    requires Acyclic(p)
    decreases HeightS(p, s), 0, s, 1
  {
    match s
    case Block(ss) => ShieldedSs(p, ss)
    case IfElse(c, t, e) => ShieldedE(p, c) || ShieldedS(p, t) || ShieldedS(p, e)
    case BlockingAssign(_, rhs) => ShieldedE(p, rhs)
  }

  ghost predicate ShieldedSs(p: Program, ss: seq<Stmt>)
    requires Acyclic(p)
    decreases HeightSs(p, ss), 0, ss, 0
  {
    ss != [] && (ShieldedS(p, ss[0]) || ShieldedSs(p, ss[1..]))
  }

  /** How deep the traversal goes, expansions included. */
  ghost function NestE(p: Program, e: Expr): nat
    requires Acyclic(p)
    decreases HeightE(p, e), 0, e, 1
  {
    match e
    case Value(_) => 1
    case Ident(_) => 1
    case FuncCall(f, args) =>
      if f in p.recursive then 1 + NestEs(p, args)
      else if f !in p.funcs then 1
      else 1 + Max(NestEs(p, args), NestFunc(p, f))
    case Op(_, operands) => 1 + NestEs(p, operands)
  }

  ghost function NestEs(p: Program, es: seq<Expr>): nat
    requires Acyclic(p)
    decreases HeightEs(p, es), 0, es, 0
  {
    if es == [] then 0 else Max(NestE(p, es[0]), NestEs(p, es[1..]))
  }

  ghost function NestFunc(p: Program, f: Symbol): nat
    requires Acyclic(p) && Inlinable(p, f)
    decreases RankOf(p, f), 2
  {
    BodyHeight(p, f);
    Max(NestInits(p, p.funcs[f].locals), Max(NestSs(p, p.funcs[f].stmts), 1 + NestE(p, p.funcs[f].ret)))
  }

  ghost function NestInits(p: Program, ls: seq<Local>): nat
    requires Acyclic(p)
    decreases HeightInits(p, ls), 1, ls
  {
    if ls == [] then 0 else Max(1 + NestE(p, ls[0].init), NestInits(p, ls[1..]))
  }

  ghost function NestS(p: Program, s: Stmt): nat
    requires Acyclic(p)
    decreases HeightS(p, s), 0, s, 1
  {
    1 + match s
        case Block(ss) => NestSs(p, ss)
        case IfElse(c, t, e) => Max(NestE(p, c), Max(NestS(p, t), NestS(p, e)))
        case BlockingAssign(_, rhs) => NestE(p, rhs)
  }

  ghost function NestSs(p: Program, ss: seq<Stmt>): nat
    requires Acyclic(p)
    decreases HeightSs(p, ss), 0, ss, 0
  {
    if ss == [] then 0 else Max(NestS(p, ss[0]), NestSs(p, ss[1..]))
  }

  // Renaming changes neither.

  lemma {:induction false} RenamedSameE(p: Program, e: Expr, rho: Renaming)
    requires Acyclic(p) && CallsE(e) !! rho.Keys
    ensures CleanE(p, RenameE(e, rho)) == CleanE(p, e)
    ensures ShieldedE(p, RenameE(e, rho)) == ShieldedE(p, e)
    ensures NestE(p, RenameE(e, rho)) == NestE(p, e)
    decreases e, 1
  {
    match e
    case Value(_) =>
    case Ident(_) =>
    case FuncCall(_, args) => RenamedSameEs(p, args, rho);
    case Op(_, operands) => RenamedSameEs(p, operands, rho);
  }

  lemma {:induction false} RenamedSameEs(p: Program, es: seq<Expr>, rho: Renaming)
    requires Acyclic(p) && CallsEs(es) !! rho.Keys
    ensures CleanEs(p, RenameEs(es, rho)) == CleanEs(p, es)
    ensures ShieldedEs(p, RenameEs(es, rho)) == ShieldedEs(p, es)
    ensures NestEs(p, RenameEs(es, rho)) == NestEs(p, es)
    decreases es, 0
  {
    if es != [] {
      RenamedSameE(p, es[0], rho);
      RenamedSameEs(p, es[1..], rho);
      assert RenameEs(es, rho)[1..] == RenameEs(es[1..], rho);
    }
  }

  lemma {:induction false} RenamedSameS(p: Program, s: Stmt, rho: Renaming)
    requires Acyclic(p) && CallsS(s) !! rho.Keys
    ensures ShieldedS(p, RenameS(s, rho)) == ShieldedS(p, s)
    ensures NestS(p, RenameS(s, rho)) == NestS(p, s)
    decreases s, 1
  {
    match s
    case Block(ss) => RenamedSameSs(p, ss, rho);
    case IfElse(c, t, e) =>
      RenamedSameE(p, c, rho);
      RenamedSameS(p, t, rho);
      RenamedSameS(p, e, rho);
    case BlockingAssign(_, rhs) => RenamedSameE(p, rhs, rho);
  }

  lemma {:induction false} RenamedSameSs(p: Program, ss: seq<Stmt>, rho: Renaming)
    requires Acyclic(p) && CallsSs(ss) !! rho.Keys
    ensures ShieldedSs(p, RenameSs(ss, rho)) == ShieldedSs(p, ss)
    ensures NestSs(p, RenameSs(ss, rho)) == NestSs(p, ss)
    decreases ss, 0
  {
    if ss != [] {
      RenamedSameS(p, ss[0], rho);
      RenamedSameSs(p, ss[1..], rho);
      assert RenameSs(ss, rho)[1..] == RenameSs(ss[1..], rho);
    }
  }

  lemma {:induction false} RenamedSameInits(p: Program, f: Symbol, c: nat, ls: seq<Local>, rho: Renaming)
    requires Acyclic(p) && CallsInits(ls) !! rho.Keys
    ensures ShieldedSs(p, InitAssigns(f, c, ls, rho)) == ShieldedInits(p, ls)
    ensures NestSs(p, InitAssigns(f, c, ls, rho)) <= NestInits(p, ls)
  {
    if ls != [] {
      RenamedSameE(p, ls[0].init, rho);
      RenamedSameInits(p, f, c, ls[1..], rho);
      var rest := InitAssigns(f, c, ls[1..], rho);
      var first := BlockingAssign(Temp(f, c, Var(ls[0].name)), RenameE(ls[0].init, rho));
      assert InitAssigns(f, c, ls, rho) == [first] + rest && ([first] + rest)[1..] == rest;
      assert ShieldedS(p, first) == ShieldedE(p, ls[0].init);
    }
  }

  lemma {:induction false} AppendClean(p: Program, a: seq<Stmt>, b: seq<Stmt>)
    ensures CleanSs(p, a + b) == (CleanSs(p, a) && CleanSs(p, b))
  {
    if a == [] {
      assert a + b == b;
    } else {
      AppendClean(p, a[1..], b);
      assert (a + b)[1..] == a[1..] + b;
    }
  }

  lemma {:induction false} AppendShielded(p: Program, a: seq<Stmt>, b: seq<Stmt>)
    requires Acyclic(p)
    ensures ShieldedSs(p, a + b) == (ShieldedSs(p, a) || ShieldedSs(p, b))
    ensures NestSs(p, a + b) == Max(NestSs(p, a), NestSs(p, b))
  {
    if a == [] {
      assert a + b == b;
    } else {
      AppendShielded(p, a[1..], b);
      assert (a + b)[1..] == a[1..] + b;
    }
  }

  /** An expanded body shields what the function shields, and nests no deeper. */
  lemma BodySame(p: Program, f: Symbol, c: nat, args: seq<Expr>)
    requires WellFormed(p) && Acyclic(p) && Inlinable(p, f) && |args| == |p.funcs[f].formals|
    ensures ShieldedSs(p, ExpandedBody(f, c, p.funcs[f], args)) == ShieldedFunc(p, f)
    ensures NestSs(p, ExpandedBody(f, c, p.funcs[f], args)) <= NestFunc(p, f)
  {
    var d := p.funcs[f];
    var rho := RenameMap(f, c, d, args);
    assert WellScoped(p.funcs, f);
    RenameMapIs(f, c, d, args);
    RenamedSameInits(p, f, c, d.locals, rho);
    RenamedSameSs(p, d.stmts, rho);
    RenamedSameE(p, d.ret, rho);
    var inits := InitAssigns(f, c, d.locals, rho);
    var last := BlockingAssign(Temp(f, c, Result), RenameE(d.ret, rho));
    assert [last][1..] == [] && [last][0] == last;
    AppendShielded(p, inits, RenameSs(d.stmts, rho));
    AppendShielded(p, inits + RenameSs(d.stmts, rho), [last]);
  }

  lemma {:induction false} ArgAssignsClean(p: Program, f: Symbol, c: nat, formals: seq<Symbol>, args: seq<Expr>)
    requires |formals| == |args|
    ensures CleanSs(p, ArgAssigns(f, c, formals, args)) == CleanEs(p, args)
  {
    if formals != [] {
      var first := ArgAssign(f, c, formals[0], args[0]);
      ArgAssignsClean(p, f, c, formals[1..], args[1..]);
      AppendClean(p, first, ArgAssigns(f, c, formals[1..], args[1..]));
      assert first != [] ==> first[1..] == [];
    }
  }

  /** Within the depth limit every live call is expanded, and nothing inlinable is left exactly when nothing is shielded. */
  lemma {:induction false} CleanIffE(p: Program, e: Expr, c: nat, depth: nat)
    requires WellFormed(p) && Acyclic(p) && OkE(p.funcs, e) && depth + NestE(p, e) <= CALL_LIMIT
    ensures var r := InlineE(p, e, c, depth);
            && LiveE(p, r.e) + LiveSs(p, r.pre) == {}
            && (CleanE(p, r.e) && CleanSs(p, r.pre) <==> !ShieldedE(p, e))
    decreases Left(depth), 0, 1
  {
    match e
    case Value(_) =>
    case Ident(_) =>
    case Op(_, operands) => CleanIffEs(p, operands, c, depth + 1);
    case FuncCall(f, args) =>
      if f in p.recursive {
        CleanIffEs(p, args, c, depth + 1);
      } else if f in p.funcs {
        CleanIffInlinedCall(p, e, c, depth);
      }
  }

  lemma {:induction false} CleanIffInlinedCall(p: Program, e: Expr, c: nat, depth: nat)
    requires WellFormed(p) && Acyclic(p) && OkE(p.funcs, e) && depth + NestE(p, e) <= CALL_LIMIT
    requires e.FuncCall? && Inlinable(p, e.func)
    ensures var r := InlineE(p, e, c, depth);
            && LiveE(p, r.e) + LiveSs(p, r.pre) == {}
            && (CleanE(p, r.e) && CleanSs(p, r.pre) <==> !ShieldedE(p, e))
    decreases Left(depth), 0, 0
  {
    CleanIffEs(p, e.args, c + 1, depth + 1);
    CleanIffCall(p, e.func, c, InlineEs(p, e.args, c + 1, depth + 1), depth + 1);
  }

  lemma {:induction false} CleanIffCall(p: Program, f: Symbol, c: nat, a: ExprsOut, depth: nat)
    requires WellFormed(p) && Acyclic(p) && Inlinable(p, f) && |a.es| == |p.funcs[f].formals|
    requires depth + NestFunc(p, f) <= CALL_LIMIT
    ensures CleanSs(p, Expand(p, f, c, a, depth).pre)
            <==> CleanEs(p, a.es) && CleanSs(p, a.pre) && !ShieldedFunc(p, f)
    ensures LiveSs(p, Expand(p, f, c, a, depth).pre) == LiveSs(p, a.pre) + LiveEs(p, a.es)
    decreases Left(depth), 2
  {
    var d := p.funcs[f];
    BodyFits(p, f, c, a.es);
    BodySame(p, f, c, a.es);
    var body := ExpandedBody(f, c, d, a.es);
    CleanIffSs(p, body, a.c, depth);
    ArgAssignsClean(p, f, c, d.formals, a.es);
    var assigns := ArgAssigns(f, c, d.formals, a.es);
    AppendClean(p, a.pre, assigns);
    AppendClean(p, a.pre + assigns, InlineSs(p, body, a.c, depth).ss);
    ExpandLive(p, f, c, a, depth);
  }

  lemma {:induction false} CleanIffEs(p: Program, es: seq<Expr>, c: nat, depth: nat)
    requires WellFormed(p) && Acyclic(p) && OkEs(p.funcs, es) && depth + NestEs(p, es) <= CALL_LIMIT
    ensures var r := InlineEs(p, es, c, depth);
            && LiveEs(p, r.es) + LiveSs(p, r.pre) == {}
            && (CleanEs(p, r.es) && CleanSs(p, r.pre) <==> !ShieldedEs(p, es))
    decreases Left(depth), 1, es
  {
    if es != [] {
      CleanIffE(p, es[0], c, depth);
      var h := InlineE(p, es[0], c, depth);
      CleanIffEs(p, es[1..], h.c, depth);
      var t := InlineEs(p, es[1..], h.c, depth);
      AppendClean(p, h.pre, t.pre);
      AppendLive(p, h.pre, t.pre);
      assert ([h.e] + t.es)[1..] == t.es;
    }
  }

  lemma PreambleClean(p: Program, pre: seq<Stmt>, main: Stmt)
    ensures CleanS(p, WithPreamble(pre, main)) == (CleanSs(p, pre) && CleanS(p, main))
  {
    assert [main][1..] == [];
    AppendClean(p, pre, [main]);
  }

  lemma {:induction false} CleanIffS(p: Program, s: Stmt, c: nat, depth: nat)
    requires WellFormed(p) && Acyclic(p) && OkS(p.funcs, s) && depth + NestS(p, s) <= CALL_LIMIT
    ensures LiveS(p, InlineS(p, s, c, depth).s) == {}
    ensures CleanS(p, InlineS(p, s, c, depth).s) <==> !ShieldedS(p, s)
    decreases Left(depth), 0, 0
  {
    match s
    case Block(ss) => CleanIffSs(p, ss, c, depth + 1);
    case IfElse(cond, thn, els) =>
      CleanIffE(p, cond, c, depth + 1);
      var rc := InlineE(p, cond, c, depth + 1);
      CleanIffS(p, thn, rc.c, depth + 1);
      var rt := InlineS(p, thn, rc.c, depth + 1);
      CleanIffS(p, els, rt.c, depth + 1);
      var main := IfElse(rc.e, rt.s, InlineS(p, els, rt.c, depth + 1).s);
      PreambleClean(p, rc.pre, main);
      PreambleLive(p, rc.pre, main);
    case BlockingAssign(x, rhs) =>
      CleanIffE(p, rhs, c, depth + 1);
      var r := InlineE(p, rhs, c, depth + 1);
      PreambleClean(p, r.pre, BlockingAssign(x, r.e));
      PreambleLive(p, r.pre, BlockingAssign(x, r.e));
  }

  lemma {:induction false} CleanIffSs(p: Program, ss: seq<Stmt>, c: nat, depth: nat)
    requires WellFormed(p) && Acyclic(p) && OkSs(p.funcs, ss) && depth + NestSs(p, ss) <= CALL_LIMIT
    ensures LiveSs(p, InlineSs(p, ss, c, depth).ss) == {}
    ensures CleanSs(p, InlineSs(p, ss, c, depth).ss) <==> !ShieldedSs(p, ss)
    decreases Left(depth), 1, ss
  {
    if ss != [] {
      CleanIffS(p, ss[0], c, depth);
      var h := InlineS(p, ss[0], c, depth);
      CleanIffSs(p, ss[1..], h.c, depth);
      var t := InlineSs(p, ss[1..], h.c, depth);
      assert ([h.s] + t.ss)[1..] == t.ss;
    }
  }

  // ---- temporaries ----

  /** New distinct names, covering every name added to the writes. */
  ghost predicate Declares(temps: seq<Symbol>, after: set<Symbol>, before: set<Symbol>, lo: nat, hi: nat) {
    && Distinct(temps)
    && (forall x :: x in temps ==> Fresh(x, lo, hi))
    && (forall x :: x in after ==> x in before || x in temps)
  }

  lemma DeclaresJoin(t1: seq<Symbol>, t2: seq<Symbol>, a1: set<Symbol>, a2: set<Symbol>,
                     b1: set<Symbol>, b2: set<Symbol>, lo: nat, mid: nat, hi: nat)
    requires lo <= mid <= hi && Declares(t1, a1, b1, lo, mid) && Declares(t2, a2, b2, mid, hi)
    ensures Declares(t1 + t2, a1 + a2, b1 + b2, lo, hi)
  {
    var t := t1 + t2;
    forall i, j | 0 <= i < j < |t|
      ensures t[i] != t[j]
    {
      if i < |t1| <= j {
        assert t[i] in t1 && t[j] in t2;
      }
    }
  }

  lemma {:induction false} DeclaresE(p: Program, e: Expr, c: nat, depth: nat)
    requires WellFormed(p) && OkE(p.funcs, e)
    ensures var r := InlineE(p, e, c, depth); Declares(r.temps, WritesSs(r.pre), {}, c, r.c)
    decreases Left(depth), 0, 1
  {
    if depth <= TRAVERSAL_LIMIT {
      match e
      case Value(_) =>
      case Ident(_) =>
      case Op(_, operands) => DeclaresEs(p, operands, c, depth + 1);
      case FuncCall(f, args) =>
        if f in p.recursive {
          DeclaresEs(p, args, c, depth + 1);
        } else if depth + 1 <= CALL_LIMIT && f in p.funcs {
          DeclaresInlinedCall(p, e, c, depth);
        }
    }
  }

  lemma {:induction false} DeclaresInlinedCall(p: Program, e: Expr, c: nat, depth: nat)
    requires WellFormed(p) && OkE(p.funcs, e) && e.FuncCall? && Inlinable(p, e.func) && depth + 1 <= CALL_LIMIT
    ensures var r := InlineE(p, e, c, depth); Declares(r.temps, WritesSs(r.pre), {}, c, r.c)
    decreases Left(depth), 0, 0
  {
    DeclaresEs(p, e.args, c + 1, depth + 1);
    DeclaresCall(p, e.func, c, InlineEs(p, e.args, c + 1, depth + 1), depth + 1);
  }

  lemma {:induction false} DeclaresEs(p: Program, es: seq<Expr>, c: nat, depth: nat)
    requires WellFormed(p) && OkEs(p.funcs, es)
    ensures var r := InlineEs(p, es, c, depth); Declares(r.temps, WritesSs(r.pre), {}, c, r.c)
    decreases Left(depth), 1, es
  {
    if es != [] {
      DeclaresE(p, es[0], c, depth);
      var h := InlineE(p, es[0], c, depth);
      DeclaresEs(p, es[1..], h.c, depth);
      var t := InlineEs(p, es[1..], h.c, depth);
      AppendSs(p.funcs, h.pre, t.pre);
      DeclaresJoin(h.temps, t.temps, WritesSs(h.pre), WritesSs(t.pre), {}, {}, c, h.c, t.c);
    }
  }

  /** Temporaries of call `c` for names among `names`. */
  ghost predicate SlotsOf(f: Symbol, c: nat, names: seq<Symbol>, ts: seq<Symbol>) {
    forall x :: x in ts ==> x.Temp? && x.func == f && x.counter == c && x.slot.Var? && x.slot.name in names
  }

  lemma DistinctOwn(f: Symbol, c: nat, formals: seq<Symbol>, locals: seq<Symbol>, ats: seq<Symbol>, lts: seq<Symbol>)
    requires Names(formals) !! Names(locals)
    requires Distinct(ats) && SlotsOf(f, c, formals, ats) && Distinct(lts) && SlotsOf(f, c, locals, lts)
    ensures Distinct([Temp(f, c, Result)] + (ats + lts))
    ensures forall x :: x in [Temp(f, c, Result)] + (ats + lts) ==> Fresh(x, c, c + 1)
  {
    var own := [Temp(f, c, Result)] + (ats + lts);
    forall i, j | 0 <= i < j < |own|
      ensures own[i] != own[j]
    {
      if i == 0 {
        assert own[j] in ats + lts;
      } else if i - 1 < |ats| <= j - 1 {
        assert own[i] in ats && own[j] in lts;
        assert own[i].slot.name in Names(formals) && own[j].slot.name in Names(locals);
      }
    }
  }

  /** The temporaries a call makes for itself: the result, the arguments that need one, the locals. */
  lemma OwnTempsDeclare(p: Program, f: Symbol, c: nat, args: seq<Expr>)
    requires WellFormed(p) && Inlinable(p, f) && |args| == |p.funcs[f].formals|
    ensures var own := [Temp(f, c, Result)] + OwnTemps(f, c, p.funcs[f], args);
            && Distinct(own) && (forall x :: x in own ==> Fresh(x, c, c + 1))
            && (forall x :: x in WritesSs(ArgAssigns(f, c, p.funcs[f].formals, args)) ==> x in own)
            && (forall x :: x in WritesSs(ExpandedBody(f, c, p.funcs[f], args)) ==> x in own)
  {
    var d := p.funcs[f];
    assert WellScoped(p.funcs, f);
    hide WellFormed, WellScoped;
    DeclaredNames(d);
    RenameMapIs(f, c, d, args);
    ArgTempsAre(f, c, d.formals, args);
    LocalTempsAre(f, c, d.locals);
    BodyWrites(p, f, c, args);
    var ats, lts := ArgTemps(f, c, d.formals, args), LocalTemps(f, c, d.locals);
    assert OwnTemps(f, c, d, args) == ats + lts;
    hide *;
    DistinctOwn(f, c, d.formals, LocalNames(d.locals), ats, lts);
  }

  lemma {:induction false} ArgTempsAre(f: Symbol, c: nat, formals: seq<Symbol>, args: seq<Expr>)
    requires |formals| == |args| && Distinct(formals)
    ensures var ts := ArgTemps(f, c, formals, args);
            && Distinct(ts) && SlotsOf(f, c, formals, ts)
            && forall x :: x in WritesSs(ArgAssigns(f, c, formals, args)) ==> x in ts
  {
    if formals != [] {
      ArgTempsAre(f, c, formals[1..], args[1..]);
      assert formals[0] !in formals[1..];
      if args[0].Ident? {
        assert ArgAssigns(f, c, formals, args) == ArgAssigns(f, c, formals[1..], args[1..]);
        assert ArgTemps(f, c, formals, args) == ArgTemps(f, c, formals[1..], args[1..]);
      } else {
        var rest := ArgAssigns(f, c, formals[1..], args[1..]);
        var first := BlockingAssign(Temp(f, c, Var(formals[0])), args[0]);
        assert ArgAssigns(f, c, formals, args) == [first] + rest && ([first] + rest)[1..] == rest;
        assert WritesSs([first] + rest) == {Temp(f, c, Var(formals[0]))} + WritesSs(rest);
      }
    }
  }

  lemma {:induction false} LocalTempsAre(f: Symbol, c: nat, ls: seq<Local>)
    requires Distinct(LocalNames(ls))
    ensures var ts := LocalTemps(f, c, ls);
            && Distinct(ts) && SlotsOf(f, c, LocalNames(ls), ts)
            && forall x :: x in LocalNames(ls) ==> Temp(f, c, Var(x)) in ts
  {
    if ls != [] {
      assert LocalNames(ls)[1..] == LocalNames(ls[1..]);
      LocalTempsAre(f, c, ls[1..]);
      assert LocalNames(ls)[0] !in LocalNames(ls[1..]);
    }
  }

  lemma BodyWrites(p: Program, f: Symbol, c: nat, args: seq<Expr>)
    requires WellFormed(p) && Inlinable(p, f) && |args| == |p.funcs[f].formals|
    ensures forall x :: x in WritesSs(ExpandedBody(f, c, p.funcs[f], args)) ==>
              x == Temp(f, c, Result) || x in LocalTemps(f, c, p.funcs[f].locals)
  {
    var d := p.funcs[f];
    var rho := RenameMap(f, c, d, args);
    assert WellScoped(p.funcs, f);
    DeclaredNames(d);
    RenameMapIs(f, c, d, args);
    LocalTempsAre(f, c, d.locals);
    RenamedVarsSs(d.stmts, rho);
    InitAssignsWrite(f, c, d.locals, rho);
    AppendThree(p, InitAssigns(f, c, d.locals, rho), RenameSs(d.stmts, rho),
                BlockingAssign(Temp(f, c, Result), RenameE(d.ret, rho)));
    forall y | y in WritesSs(RenameSs(d.stmts, rho))
      ensures y in LocalTemps(f, c, d.locals)
    {
      var x :| x in WritesSs(d.stmts) && y == Ren(rho, x);
      assert x in Names(LocalNames(d.locals));
    }
  }

  lemma {:induction false} InitAssignsWrite(f: Symbol, c: nat, ls: seq<Local>, rho: Renaming)
    ensures forall x :: x in WritesSs(InitAssigns(f, c, ls, rho)) ==> x in LocalTemps(f, c, ls)
  {
    if ls != [] {
      InitAssignsWrite(f, c, ls[1..], rho);
      var rest := InitAssigns(f, c, ls[1..], rho);
      var first := BlockingAssign(Temp(f, c, Var(ls[0].name)), RenameE(ls[0].init, rho));
      assert InitAssigns(f, c, ls, rho) == [first] + rest && ([first] + rest)[1..] == rest;
      assert WritesSs([first] + rest) == {Temp(f, c, Var(ls[0].name))} + WritesSs(rest);
    }
  }

  lemma {:induction false} DeclaresCall(p: Program, f: Symbol, c: nat, a: ExprsOut, depth: nat)
    requires WellFormed(p) && Inlinable(p, f) && |a.es| == |p.funcs[f].formals| && c < a.c
    requires Declares(a.temps, WritesSs(a.pre), {}, c + 1, a.c)
    ensures var r := Expand(p, f, c, a, depth); Declares(r.temps, WritesSs(r.pre), {}, c, r.c)
    decreases Left(depth), 2
  {
    var d := p.funcs[f];
    BodyFits(p, f, c, a.es);
    var body := ExpandedBody(f, c, d, a.es);
    DeclaresSs(p, body, a.c, depth);
    var r := InlineSs(p, body, a.c, depth);
    OwnTempsDeclare(p, f, c, a.es);
    var assigns := ArgAssigns(f, c, d.formals, a.es);
    AppendSs(p.funcs, a.pre, assigns);
    AppendSs(p.funcs, a.pre + assigns, r.ss);
    DeclaresOwn(f, c, OwnTemps(f, c, d, a.es), a.temps, r.temps, WritesSs(a.pre),
                WritesSs(assigns), WritesSs(r.ss), WritesSs(body), a.c, r.c);
  }

  lemma DeclaresOwn(f: Symbol, c: nat, own: seq<Symbol>, ta: seq<Symbol>, tb: seq<Symbol>, wa: set<Symbol>,
                    ws: set<Symbol>, wb: set<Symbol>, body: set<Symbol>, mid: nat, hi: nat)
    requires c < mid <= hi
    requires Declares(ta, wa, {}, c + 1, mid) && Declares(tb, wb, body, mid, hi)
    requires Distinct([Temp(f, c, Result)] + own)
    requires forall x :: x in [Temp(f, c, Result)] + own ==> Fresh(x, c, c + 1)
    requires forall x :: x in ws + body ==> x in [Temp(f, c, Result)] + own
    ensures Declares([Temp(f, c, Result)] + ta + own + tb, wa + ws + wb, {}, c, hi)
  {
    var res := Temp(f, c, Result);
    var t := [res] + ta + own + tb;
    var o := [res] + own;
    var n1, n2 := 1 + |ta|, 1 + |ta| + |own|;
    assert forall i :: 0 < i < n1 ==> t[i] == ta[i - 1];
    assert forall i :: n1 <= i < n2 ==> t[i] == own[i - n1] == o[i - n1 + 1];
    assert forall i :: n2 <= i < |t| ==> t[i] == tb[i - n2];
    assert t[0] == o[0];
    forall i, j | 0 <= i < j < |t|
      ensures t[i] != t[j]
    {
      if n1 <= i < j < n2 {
        assert o[i - n1 + 1] != o[j - n1 + 1];
      } else if i == 0 && n1 <= j < n2 {
        assert o[0] != o[j - n1 + 1];
      } else {
        assert i >= n2 ==> tb[i - n2] != tb[j - n2];
        assert (0 < i && j < n1) ==> ta[i - 1] != ta[j - 1];
        assert (i == 0 || n1 <= i < n2) ==> t[i] in o;
        assert (0 < i < n1) ==> t[i] in ta;
        assert (n1 <= j < n2) ==> t[j] in o;
        assert (0 < j < n1) ==> t[j] in ta;
        assert j >= n2 ==> t[j] in tb;
      }
    }
    forall x | x in t
      ensures Fresh(x, c, hi)
    {
      assert x in o || x in ta || x in tb;
    }
    forall x | x in wa + ws + wb
      ensures x in t
    {
      assert x in o || x in ta || x in tb;
    }
  }

  lemma {:induction false} DeclaresS(p: Program, s: Stmt, c: nat, depth: nat)
    requires WellFormed(p) && OkS(p.funcs, s)
    ensures var r := InlineS(p, s, c, depth); Declares(r.temps, WritesS(r.s), WritesS(s), c, r.c)
    decreases Left(depth), 0, 1
  {
    if depth <= TRAVERSAL_LIMIT {
      match s
      case Block(ss) => DeclaresSs(p, ss, c, depth + 1);
      case IfElse(_, _, _) => DeclaresIf(p, s, c, depth);
      case BlockingAssign(x, rhs) =>
        DeclaresE(p, rhs, c, depth + 1);
        var r := InlineE(p, rhs, c, depth + 1);
        PreambleWrites(p, r.pre, BlockingAssign(x, r.e));
    }
  }

  lemma {:induction false} DeclaresIf(p: Program, s: Stmt, c: nat, depth: nat)
    requires WellFormed(p) && OkS(p.funcs, s) && s.IfElse? && depth <= TRAVERSAL_LIMIT
    ensures var r := InlineS(p, s, c, depth); Declares(r.temps, WritesS(r.s), WritesS(s), c, r.c)
    decreases Left(depth), 0, 0
  {
    var d := depth + 1;
    DeclaresE(p, s.cond, c, d);
    var rc := InlineE(p, s.cond, c, d);
    DeclaresS(p, s.thn, rc.c, d);
    var rt := InlineS(p, s.thn, rc.c, d);
    DeclaresS(p, s.els, rt.c, d);
    var re := InlineS(p, s.els, rt.c, d);
    var w1, w2, w3 := WritesSs(rc.pre), WritesS(rt.s), WritesS(re.s);
    PreambleWrites(p, rc.pre, IfElse(rc.e, rt.s, re.s));
    DeclaresJoin(rc.temps, rt.temps, w1, w2, {}, WritesS(s.thn), c, rc.c, rt.c);
    DeclaresJoin(rc.temps + rt.temps, re.temps, w1 + w2, w3, {} + WritesS(s.thn), WritesS(s.els), c, rt.c, re.c);
    var all := rc.temps + rt.temps + re.temps;
    assert Declares(all, w1 + w2 + w3, {} + WritesS(s.thn) + WritesS(s.els), c, re.c);
    assert InlineS(p, s, c, depth) == StmtOut(WithPreamble(rc.pre, IfElse(rc.e, rt.s, re.s)), re.c, all);
  }

  lemma PreambleWrites(p: Program, pre: seq<Stmt>, main: Stmt)
    ensures WritesS(WithPreamble(pre, main)) == WritesSs(pre) + WritesS(main)
  {
    assert [main][1..] == [];
    AppendSs(p.funcs, pre, [main]);
  }

  /**
   The temporaries declared for a list of statements are pairwise distinct, numbered from the counter
   on, and include every variable that the rewritten statements write and the original ones do not.
   */
  lemma {:induction false} DeclaresSs(p: Program, ss: seq<Stmt>, c: nat, depth: nat)
    requires WellFormed(p) && OkSs(p.funcs, ss)
    ensures var r := InlineSs(p, ss, c, depth); Declares(r.temps, WritesSs(r.ss), WritesSs(ss), c, r.c)
    decreases Left(depth), 1, ss
  {
    if ss != [] {
      DeclaresS(p, ss[0], c, depth);
      var h := InlineS(p, ss[0], c, depth);
      DeclaresSs(p, ss[1..], h.c, depth);
      var t := InlineSs(p, ss[1..], h.c, depth);
      assert ([h.s] + t.ss)[1..] == t.ss;
      DeclaresJoin(h.temps, t.temps, WritesS(h.s), WritesSs(t.ss), WritesS(ss[0]), WritesSs(ss[1..]), c, h.c, t.c);
    }
  }

  // ---- which original variables an expansion writes ----

  lemma {:induction false} RenamedWritesS(s: Stmt, rho: Renaming)
    ensures WritesS(RenameS(s, rho)) == Image(rho, WritesS(s))
    decreases s, 1
  {
    match s
    case Block(ss) => RenamedWritesSs(ss, rho);
    case IfElse(_, t, e) =>
      RenamedWritesS(t, rho);
      RenamedWritesS(e, rho);
    case BlockingAssign(_, _) =>
  }

  lemma {:induction false} RenamedWritesSs(ss: seq<Stmt>, rho: Renaming)
    ensures WritesSs(RenameSs(ss, rho)) == Image(rho, WritesSs(ss))
    decreases ss, 0
  {
    if ss != [] {
      RenamedWritesS(ss[0], rho);
      RenamedWritesSs(ss[1..], rho);
      assert RenameSs(ss, rho)[1..] == RenameSs(ss[1..], rho);
    }
  }

  /** Assigning `x` in the function assigns the caller's `z`: as a formal given by that variable, or as itself. */
  ghost predicate AssignsCallers(f: Symbol, d: FuncDecl, args: seq<Expr>, x: Symbol, z: Symbol)
    requires |args| == |d.formals|
  {
    || (exists i :: 0 <= i < |args| && d.formals[i] == x && args[i] == Ident(z))
    || (x == z && x != f && x !in Names(Declared(d)))
  }

  /**
   An expansion assigns an original variable of the caller exactly if the function assigns a formal for
   which that plain variable was given, or the variable itself. Such a function is not `WellScoped`.
   */
  lemma ExpansionAssignsIff(p: Program, f: Symbol, c: nat, d: FuncDecl, args: seq<Expr>, z: Symbol)
    requires |args| == |d.formals| && Distinct(Declared(d)) && f !in Names(Declared(d)) && z.User?
    ensures z in WritesSs(ExpandedBody(f, c, d, args))
            <==> exists x :: x in WritesSs(d.stmts) && AssignsCallers(f, d, args, x, z)
  {
    var rho := RenameMap(f, c, d, args);
    RenameMapIs(f, c, d, args);
    RenamedWritesSs(d.stmts, rho);
    InitAssignsWrite(f, c, d.locals, rho);
    LocalTempsAreTemps(f, c, d.locals);
    AppendThree(p, InitAssigns(f, c, d.locals, rho), RenameSs(d.stmts, rho),
                BlockingAssign(Temp(f, c, Result), RenameE(d.ret, rho)));
    forall x
      ensures Ren(rho, x) == z <==> AssignsCallers(f, d, args, x, z)
    {
      RenamedToCallers(f, c, d, args, x, z);
    }
    hide RenameMap, AssignsCallers, ExpandedBody;
    assert z in WritesSs(ExpandedBody(f, c, d, args)) <==> z in Image(rho, WritesSs(d.stmts));
  }

  lemma {:induction false} LocalTempsAreTemps(f: Symbol, c: nat, ls: seq<Local>)
    ensures forall x :: x in LocalTemps(f, c, ls) ==> x.Temp?
  {
    if ls != [] {
      LocalTempsAreTemps(f, c, ls[1..]);
    }
  }

  lemma RenamedToCallers(f: Symbol, c: nat, d: FuncDecl, args: seq<Expr>, x: Symbol, z: Symbol)
    requires |args| == |d.formals| && Distinct(Declared(d)) && f !in Names(Declared(d)) && z.User?
    ensures Ren(RenameMap(f, c, d, args), x) == z <==> AssignsCallers(f, d, args, x, z)
  {
    RenameMapIs(f, c, d, args);
    DeclaredNames(d);
    if x in d.formals {
      var i :| 0 <= i < |d.formals| && d.formals[i] == x;
      assert x in Names(Declared(d));
    }
  }

  // ---- an example ----

  /** `function f(a); int r = 0; r = a; return r;` */
  ghost function CopyFunction(): FuncDecl {
    FuncDecl([User("a")], [Local(User("r"), Value(0))], [BlockingAssign(User("r"), Ident(User("a")))], Ident(User("r")))
  }

  ghost function CopyProgram(): Program {
    Program(map[User("f") := CopyFunction()], {})
  }

  /** `x = f(f(y));` */
  function NestedCall(): seq<Stmt> {
    [BlockingAssign(User("x"), FuncCall(User("f"), [FuncCall(User("f"), [Ident(User("y"))])]))]
  }

  /**
   The conditions can be met: a program with nested calls over original variables, detected, well formed,
   acyclic and within the depth limit, whose calls are all inlined.
   */
  lemma ExampleIsInlined()
    ensures var (p, ss) := (CopyProgram(), NestedCall());
            && WellFormed(p) && Detected(p) && Acyclic(p) && Inlinable(p, User("f"))
            && OkSs(p.funcs, ss) && (forall x :: x in ReadsSs(ss) + WritesSs(ss) ==> x.User?)
            && NestSs(p, ss) <= CALL_LIMIT && !ShieldedSs(p, ss) && !CleanSs(p, ss)
  {
    var (p, ss) := (CopyProgram(), NestedCall());
    CopyIsScoped(p.funcs);
    CopyIsAcyclic();
    CopyNests();
    CallNests();
  }

  lemma CopyIsAcyclic()
    ensures Acyclic(CopyProgram()) && Detected(CopyProgram())
  {
    var p := CopyProgram();
    CopyIsScoped(p.funcs);
    LiveIsCalledFunc(p, CopyFunction());
    assert CallsBody(CopyFunction()) == {};
    NoEdgeNoCycle(ExpansionGraph(p));
    NoEdgeNoCycle(Recursion.CollectedGraph(p.funcs));
  }

  lemma LiveIsCalledFunc(p: Program, d: FuncDecl)
    ensures LiveFunc(p, d) <= CallsExpansion(d)
  {
    LiveIsCalledInits(p, d.locals);
    LiveIsCalledSs(p, d.stmts);
    LiveIsCalledE(p, d.ret);
  }

  /** The function nests two deep, and shields nothing. */
  lemma CopyNests()
    requires Acyclic(CopyProgram())
    ensures var p := CopyProgram(); NestFunc(p, User("f")) == 2 && !ShieldedFunc(p, User("f"))
  {
    var p, d := CopyProgram(), CopyFunction();
    assert d.locals[1..] == [] && d.stmts[1..] == [];
    assert NestE(p, Value(0)) == 1 && NestE(p, Ident(User("a"))) == 1 && NestE(p, Ident(User("r"))) == 1;
    assert NestS(p, d.stmts[0]) == 2 && NestSs(p, d.stmts) == 2 && NestInits(p, d.locals) == 2;
    assert !ShieldedE(p, Value(0)) && !ShieldedE(p, Ident(User("a"))) && !ShieldedE(p, Ident(User("r")));
    assert !ShieldedS(p, d.stmts[0]) && !ShieldedSs(p, d.stmts) && !ShieldedInits(p, d.locals);
  }

  lemma CallNests()
    requires Acyclic(CopyProgram()) && NestFunc(CopyProgram(), User("f")) == 2
    requires !ShieldedFunc(CopyProgram(), User("f"))
    ensures var (p, ss) := (CopyProgram(), NestedCall());
            && OkSs(p.funcs, ss) && (forall x :: x in ReadsSs(ss) + WritesSs(ss) ==> x.User?)
            && NestSs(p, ss) == 5 && !ShieldedSs(p, ss) && !CleanSs(p, ss)
  {
    var p, ss, y := CopyProgram(), NestedCall(), Ident(User("y"));
    var inner := FuncCall(User("f"), [y]);
    var rhs := FuncCall(User("f"), [inner]);
    assert ss == [BlockingAssign(User("x"), rhs)] && ss[1..] == [] && [inner][1..] == [] && [y][1..] == [];
    hide NestFunc, ShieldedFunc;
    assert OkEs(p.funcs, [y]) && OkE(p.funcs, inner) && OkEs(p.funcs, [inner]);
    assert VarsEs([y]) == {User("y")} && VarsE(inner) == {User("y")} && VarsEs([inner]) == {User("y")};
    assert NestEs(p, [y]) == 1 && NestE(p, inner) == 3 && NestEs(p, [inner]) == 3 && NestE(p, rhs) == 4;
    assert !ShieldedEs(p, [y]) && !ShieldedE(p, inner) && !ShieldedEs(p, [inner]) && !ShieldedE(p, rhs);
    assert NestS(p, ss[0]) == 5 && !ShieldedS(p, ss[0]);
  }

  lemma CopyIsScoped(fs: Functions)
    requires fs == map[User("f") := CopyFunction()]
    ensures WellScoped(fs, User("f")) && CallsExpansion(CopyFunction()) == {}
  {
    var d := CopyFunction();
    assert d.locals[1..] == [] && d.stmts[1..] == [];
    assert LocalNames(d.locals) == [User("r")];
    assert Declared(d) == [User("a"), User("r")];
    assert WritesSs(d.stmts) == {User("r")};
    assert Names([User("r")]) == {User("r")};
    assert User("r") in LocalNames(d.locals);
  }
}
