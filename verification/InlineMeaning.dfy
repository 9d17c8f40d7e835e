/**
 Inlining preserves meaning: from every state, the rewritten statement ends if the original does, and
 leaves every original variable with the value the original gives it.
 */
module InlineMeaning {
  import opened Basics
  import opened Outcomes
  import opened Syntax
  import opened Semantics
  import opened InlineSpec
  import opened InlineRenaming
  import opened Running

  /** Original variables, and temporaries of calls numbered under `k`. */
  predicate Below(x: Symbol, k: nat) {
    x.Temp? ==> x.counter < k
  }

  predicate Fresh(x: Symbol, lo: nat, hi: nat) {
    x.Temp? && lo <= x.counter < hi
  }

  ghost predicate AllBelow(xs: set<Symbol>, k: nat) {
    forall x :: x in xs ==> Below(x, k)
  }

  ghost predicate AllFresh(xs: set<Symbol>, lo: nat, hi: nat) {
    forall x :: x in xs ==> Fresh(x, lo, hi)
  }

  /** Only fresh names were added. */
  ghost predicate Extends(after: set<Symbol>, before: set<Symbol>, lo: nat, hi: nat) {
    before <= after && forall x :: x in after ==> x in before || Fresh(x, lo, hi)
  }

  ghost predicate AgreeBelow(k: nat, a: State, b: State) {
    forall x :: Below(x, k) ==> Get(a, x) == Get(b, x)
  }

  function Outside(t: State): Env {
    Env(t, map[])
  }

  // ---- execution changes only what it writes ----

  ghost predicate Keeps(writes: set<Symbol>, t: State, o: Option<Env>) {
    o.Some? ==> o.value.frame == map[] && forall x :: x !in writes ==> Get(o.value.globals, x) == Get(t, x)
  }

  lemma {:induction false} ExecKeepsS(m: Meaning, s: Stmt, t: State)
    ensures Keeps(WritesS(s), t, ExecS(m, s, Outside(t)))
    decreases s, 1
  {
    match s
    case Block(ss) => ExecKeepsSs(m, ss, t);
    case IfElse(c, a, b) =>
      ExecKeepsS(m, a, t);
      ExecKeepsS(m, b, t);
    case BlockingAssign(_, _) =>
  }

  lemma {:induction false} ExecKeepsSs(m: Meaning, ss: seq<Stmt>, t: State)
    ensures Keeps(WritesSs(ss), t, ExecSs(m, ss, Outside(t)))
    decreases ss, 0
  {
    if ss != [] {
      ExecKeepsS(m, ss[0], t);
      var o := ExecS(m, ss[0], Outside(t));
      if o.Some? {
        ExecKeepsSs(m, ss[1..], o.value.globals);
      }
    }
  }

  lemma EvalAgrees(m: Meaning, e: Expr, k: nat, a: State, b: State)
    requires AllBelow(VarsE(e), k) && AgreeBelow(k, a, b)
    ensures EvalE(m, e, Outside(a)) == EvalE(m, e, Outside(b))
  {
    SimulateE(m, e, map[], Outside(a), Outside(b));
    RenameNothingE(e);
  }

  // ---- what the inliner writes and mentions ----

  /** The result mentions original names and this run's temporaries; the preamble writes only the latter. */
  lemma {:induction false} ShapeE(p: Program, e: Expr, c: nat, depth: nat, k: nat)
    requires WellFormed(p) && OkE(p.funcs, e) && AllBelow(VarsE(e), k) && k <= c
    ensures var r := InlineE(p, e, c, depth);
            && OkE(p.funcs, r.e) && OkSs(p.funcs, r.pre) && AllFresh(WritesSs(r.pre), c, r.c)
            && forall x :: x in VarsE(r.e) ==> Below(x, k) || Fresh(x, c, r.c)
    decreases Left(depth), 0, 1
  {
    if depth <= TRAVERSAL_LIMIT {
      match e
      case Value(_) =>
      case Ident(_) =>
      case Op(_, operands) => ShapeEs(p, operands, c, depth + 1, k);
      case FuncCall(f, args) =>
        if f in p.recursive {
          ShapeEs(p, args, c, depth + 1, k);
        } else if depth + 1 <= CALL_LIMIT && f in p.funcs {
          ShapeInlinedCall(p, e, c, depth, k);
        }
    }
  }

  lemma {:induction false} ShapeInlinedCall(p: Program, e: Expr, c: nat, depth: nat, k: nat)
    requires WellFormed(p) && OkE(p.funcs, e) && AllBelow(VarsE(e), k) && k <= c
    requires e.FuncCall? && Inlinable(p, e.func) && depth + 1 <= CALL_LIMIT
    ensures var r := InlineE(p, e, c, depth);
            r.e == Ident(Temp(e.func, c, Result)) && c < r.c && OkSs(p.funcs, r.pre) && AllFresh(WritesSs(r.pre), c, r.c)
    decreases Left(depth), 0, 0
  {
    ShapeEs(p, e.args, c + 1, depth + 1, k);
    ShapeCall(p, e.func, c, InlineEs(p, e.args, c + 1, depth + 1), depth + 1);
  }

  lemma {:induction false} ShapeEs(p: Program, es: seq<Expr>, c: nat, depth: nat, k: nat)
    requires WellFormed(p) && OkEs(p.funcs, es) && AllBelow(VarsEs(es), k) && k <= c
    ensures var r := InlineEs(p, es, c, depth);
            && OkEs(p.funcs, r.es) && OkSs(p.funcs, r.pre) && AllFresh(WritesSs(r.pre), c, r.c)
            && forall x :: x in VarsEs(r.es) ==> Below(x, k) || Fresh(x, c, r.c)
    decreases Left(depth), 1, es
  {
    if es != [] {
      ShapeE(p, es[0], c, depth, k);
      var h := InlineE(p, es[0], c, depth);
      ShapeEs(p, es[1..], h.c, depth, k);
      var t := InlineEs(p, es[1..], h.c, depth);
      AppendSs(p.funcs, h.pre, t.pre);
      assert ([h.e] + t.es)[1..] == t.es;
    }
  }

  lemma {:induction false} ShapeCall(p: Program, f: Symbol, c: nat, a: ExprsOut, depth: nat)
    requires WellFormed(p) && Inlinable(p, f) && |a.es| == |p.funcs[f].formals| && c < a.c
    requires OkEs(p.funcs, a.es) && OkSs(p.funcs, a.pre) && AllFresh(WritesSs(a.pre), c, a.c)
    requires AllBelow(VarsEs(a.es), a.c) && AvoidsCall(a.es, c)
    ensures var r := Expand(p, f, c, a, depth); OkSs(p.funcs, r.pre) && AllFresh(WritesSs(r.pre), c, r.c)
    decreases Left(depth), 2
  {
    var d := p.funcs[f];
    BodyFits(p, f, c, a.es);
    BodyMentions(p, f, c, a.es, a.c);
    var body := ExpandedBody(f, c, d, a.es);
    ShapeSs(p, body, a.c, depth, a.c);
    var r := InlineSs(p, body, a.c, depth);
    ArgAssignsShape(p, f, c, d.formals, a.es);
    AppendSs(p.funcs, a.pre, ArgAssigns(f, c, d.formals, a.es));
    AppendSs(p.funcs, a.pre + ArgAssigns(f, c, d.formals, a.es), r.ss);
  }

  lemma {:induction false} ArgAssignsShape(p: Program, f: Symbol, c: nat, formals: seq<Symbol>, args: seq<Expr>)
    requires |formals| == |args| && OkEs(p.funcs, args)
    ensures OkSs(p.funcs, ArgAssigns(f, c, formals, args))
    ensures AllFresh(WritesSs(ArgAssigns(f, c, formals, args)), c, c + 1)
  {
    if formals != [] {
      ArgAssignsShape(p, f, c, formals[1..], args[1..]);
      if !args[0].Ident? {
        var one := [BlockingAssign(Temp(f, c, Var(formals[0])), args[0])];
        assert one[1..] == [];
        AppendSs(p.funcs, one, ArgAssigns(f, c, formals[1..], args[1..]));
      } else {
        assert [] + ArgAssigns(f, c, formals[1..], args[1..]) == ArgAssigns(f, c, formals[1..], args[1..]);
      }
    }
  }

  lemma RenamedBelow(p: Program, f: Symbol, c: nat, args: seq<Expr>, k: nat, x: Symbol)
    requires WellFormed(p) && Inlinable(p, f) && |args| == |p.funcs[f].formals|
    requires c < k && AllBelow(VarsEs(args), k) && x.User?
    ensures Below(Ren(RenameMap(f, c, p.funcs[f], args), x), k)
  {
    var d := p.funcs[f];
    assert WellScoped(p.funcs, f);
    RenameMapIs(f, c, d, args);
    DeclaredNames(d);
    if x in d.formals {
      var i :| 0 <= i < |d.formals| && d.formals[i] == x;
      if args[i].Ident? {
        ArgIdentIn(args, i);
      }
    }
  }

  /** The expanded body of call `c` writes only temporaries of that call and mentions nothing numbered `k` or above. */
  lemma BodyMentions(p: Program, f: Symbol, c: nat, args: seq<Expr>, k: nat)
    requires WellFormed(p) && Inlinable(p, f) && |args| == |p.funcs[f].formals|
    requires c < k && AllBelow(VarsEs(args), k)
    ensures var body := ExpandedBody(f, c, p.funcs[f], args);
            AllFresh(WritesSs(body), c, c + 1) && AllBelow(ReadsSs(body), k)
  {
    var d := p.funcs[f];
    var rho := RenameMap(f, c, d, args);
    assert WellScoped(p.funcs, f);
    forall x | x in ReadsFunc(d)
      ensures Below(Ren(rho, x), k)
    {
      RenamedBelow(p, f, c, args, k, x);
    }
    RenameMapIs(f, c, d, args);
    var inits := InitAssigns(f, c, d.locals, rho);
    var ret := RenameE(d.ret, rho);
    InitsMention(f, c, d.locals, rho, k);
    RenamedVarsSs(d.stmts, rho);
    RenamedVarsE(d.ret, rho);
    AppendThree(p, inits, RenameSs(d.stmts, rho), BlockingAssign(Temp(f, c, Result), ret));
  }

  lemma AppendThree(p: Program, a: seq<Stmt>, b: seq<Stmt>, last: Stmt)
    ensures WritesSs(a + b + [last]) == WritesSs(a) + WritesSs(b) + WritesS(last)
    ensures ReadsSs(a + b + [last]) == ReadsSs(a) + ReadsSs(b) + ReadsS(last)
  {
    AppendSs(p.funcs, a, b);
    AppendSs(p.funcs, a + b, [last]);
    assert [last][1..] == [];
  }

  lemma {:induction false} InitsMention(f: Symbol, c: nat, ls: seq<Local>, rho: Renaming, k: nat)
    requires c < k && forall x :: x in VarsInits(ls) ==> Below(Ren(rho, x), k)
    ensures AllFresh(WritesSs(InitAssigns(f, c, ls, rho)), c, c + 1)
    ensures AllBelow(ReadsSs(InitAssigns(f, c, ls, rho)), k)
  {
    if ls != [] {
      RenamedVarsE(ls[0].init, rho);
      InitsMention(f, c, ls[1..], rho, k);
      var rest := InitAssigns(f, c, ls[1..], rho);
      var first := BlockingAssign(Temp(f, c, Var(ls[0].name)), RenameE(ls[0].init, rho));
      assert InitAssigns(f, c, ls, rho) == [first] + rest && ([first] + rest)[1..] == rest;
      assert WritesSs([first] + rest) == {Temp(f, c, Var(ls[0].name))} + WritesSs(rest);
    }
  }

  lemma {:induction false} RenamedVarsE(e: Expr, rho: Renaming)
    ensures forall y :: y in VarsE(RenameE(e, rho)) ==> exists x :: x in VarsE(e) && y == Ren(rho, x)
    decreases e, 1
  {
    match e
    case Value(_) =>
    case Ident(_) =>
    case FuncCall(_, args) => RenamedVarsEs(args, rho);
    case Op(_, operands) => RenamedVarsEs(operands, rho);
  }

  lemma {:induction false} RenamedVarsEs(es: seq<Expr>, rho: Renaming)
    ensures forall y :: y in VarsEs(RenameEs(es, rho)) ==> exists x :: x in VarsEs(es) && y == Ren(rho, x)
    decreases es, 0
  {
    if es != [] {
      RenamedVarsE(es[0], rho);
      RenamedVarsEs(es[1..], rho);
      assert RenameEs(es, rho)[1..] == RenameEs(es[1..], rho);
    }
  }

  lemma {:induction false} RenamedVarsS(s: Stmt, rho: Renaming)
    ensures forall y :: y in ReadsS(RenameS(s, rho)) ==> exists x :: x in ReadsS(s) && y == Ren(rho, x)
    ensures forall y :: y in WritesS(RenameS(s, rho)) ==> exists x :: x in WritesS(s) && y == Ren(rho, x)
    decreases s, 1
  {
    match s
    case Block(ss) => RenamedVarsSs(ss, rho);
    case IfElse(c, a, b) =>
      RenamedVarsE(c, rho);
      RenamedVarsS(a, rho);
      RenamedVarsS(b, rho);
    case BlockingAssign(_, rhs) => RenamedVarsE(rhs, rho);
  }

  lemma {:induction false} RenamedVarsSs(ss: seq<Stmt>, rho: Renaming)
    ensures forall y :: y in ReadsSs(RenameSs(ss, rho)) ==> exists x :: x in ReadsSs(ss) && y == Ren(rho, x)
    ensures forall y :: y in WritesSs(RenameSs(ss, rho)) ==> exists x :: x in WritesSs(ss) && y == Ren(rho, x)
    decreases ss, 0
  {
    if ss != [] {
      RenamedVarsS(ss[0], rho);
      RenamedVarsSs(ss[1..], rho);
      assert RenameSs(ss, rho)[1..] == RenameSs(ss[1..], rho);
    }
  }

  lemma PreambleShape(p: Program, pre: seq<Stmt>, main: Stmt)
    requires OkSs(p.funcs, pre) && OkS(p.funcs, main)
    ensures OkS(p.funcs, WithPreamble(pre, main)) && WritesS(WithPreamble(pre, main)) == WritesSs(pre) + WritesS(main)
  {
    assert [main][1..] == [];
    AppendSs(p.funcs, pre, [main]);
  }

  lemma {:induction false} ShapeS(p: Program, s: Stmt, c: nat, depth: nat, k: nat)
    requires WellFormed(p) && OkS(p.funcs, s) && AllBelow(ReadsS(s), k) && k <= c
    ensures var r := InlineS(p, s, c, depth);
            OkS(p.funcs, r.s) && Extends(WritesS(r.s), WritesS(s), c, r.c)
    decreases Left(depth), 0
  {
    if depth <= TRAVERSAL_LIMIT {
      match s
      case Block(ss) => ShapeSs(p, ss, c, depth + 1, k);
      case IfElse(cond, thn, els) =>
        ShapeE(p, cond, c, depth + 1, k);
        var rc := InlineE(p, cond, c, depth + 1);
        ShapeS(p, thn, rc.c, depth + 1, k);
        var rt := InlineS(p, thn, rc.c, depth + 1);
        ShapeS(p, els, rt.c, depth + 1, k);
        var re := InlineS(p, els, rt.c, depth + 1);
        PreambleShape(p, rc.pre, IfElse(rc.e, rt.s, re.s));
      case BlockingAssign(x, rhs) =>
        ShapeE(p, rhs, c, depth + 1, k);
        var r := InlineE(p, rhs, c, depth + 1);
        PreambleShape(p, r.pre, BlockingAssign(x, r.e));
    }
  }

  lemma {:induction false} ShapeSs(p: Program, ss: seq<Stmt>, c: nat, depth: nat, k: nat)
    requires WellFormed(p) && OkSs(p.funcs, ss) && AllBelow(ReadsSs(ss), k) && k <= c
    ensures var r := InlineSs(p, ss, c, depth);
            OkSs(p.funcs, r.ss) && Extends(WritesSs(r.ss), WritesSs(ss), c, r.c)
    decreases Left(depth), 1, ss
  {
    if ss != [] {
      ShapeS(p, ss[0], c, depth, k);
      var h := InlineS(p, ss[0], c, depth);
      ShapeSs(p, ss[1..], h.c, depth, k);
      var t := InlineSs(p, ss[1..], h.c, depth);
      assert ([h.s] + t.ss)[1..] == t.ss;
    }
  }

  // ---- preservation ----

  /** The value of an expression after some statements. */
  function After(m: Meaning, pre: seq<Stmt>, e: Expr, env: Env): Option<int> {
    var next :- ExecSs(m, pre, env);
    EvalE(m, e, next)
  }

  function AllAfter(m: Meaning, pre: seq<Stmt>, es: seq<Expr>, env: Env): Option<seq<int>> {
    var next :- ExecSs(m, pre, env);
    EvalEs(m, es, next)
  }

  /** Running the preamble and then evaluating the rewritten expression gives the value of the original. */
  lemma {:induction false} InlineEPreserves(p: Program, m: Meaning, e: Expr, c: nat, depth: nat, k: nat, a: State, b: State)
    requires WellFormed(p) && Solves(p, m) && OkE(p.funcs, e)
    requires AllBelow(VarsE(e), k) && k <= c && AgreeBelow(k, a, b)
    ensures var r := InlineE(p, e, c, depth);
            && After(m, r.pre, r.e, Outside(b)) == EvalE(m, e, Outside(a))
            && var o := ExecSs(m, r.pre, Outside(b));
               o.Some? ==> o.value.frame == map[] && AgreeBelow(c, b, o.value.globals)
    decreases Left(depth), 0, 1
  {
    ShapeE(p, e, c, depth, k);
    var r := InlineE(p, e, c, depth);
    ExecKeepsSs(m, r.pre, b);
    if r == ExprOut(e, [], c, []) {
      EvalAgrees(m, e, k, a, b);
    } else if e.Op? {
      InlineEsPreserves(p, m, e.operands, c, depth + 1, k, a, b);
    } else if e.func in p.recursive {
      InlineEsPreserves(p, m, e.args, c, depth + 1, k, a, b);
      LeftCallPreserves(p, m, e, c, depth, a, b);
    } else {
      InlineCallPreserves(p, m, e, c, depth, k, a, b);
    }
  }

  /** A call that stays sees the same original variables after the preamble of its arguments. */
  lemma LeftCallPreserves(p: Program, m: Meaning, e: Expr, c: nat, depth: nat, a: State, b: State)
    requires WellFormed(p) && OkE(p.funcs, e) && e.FuncCall? && e.func in p.recursive
    requires depth <= TRAVERSAL_LIMIT && AgreeBelow(0, a, b)
    requires var r := InlineEs(p, e.args, c, depth + 1);
             && AllAfter(m, r.pre, r.es, Outside(b)) == EvalEs(m, e.args, Outside(a))
             && var o := ExecSs(m, r.pre, Outside(b));
                o.Some? ==> o.value.frame == map[] && AgreeBelow(0, b, o.value.globals)
    ensures var r := InlineE(p, e, c, depth); After(m, r.pre, r.e, Outside(b)) == EvalE(m, e, Outside(a))
  {
    var r := InlineEs(p, e.args, c, depth + 1);
    var o := ExecSs(m, r.pre, Outside(b));
    if o.Some? {
      SameUsersBelow(a, b);
      SameUsersBelow(b, o.value.globals);
    }
  }

  lemma SameUsersBelow(a: State, b: State)
    requires AgreeBelow(0, a, b)
    ensures UsersAgree(a, b) && Users(a) == Users(b)
  {
    forall x: Symbol | x.User?
      ensures Get(a, x) == Get(b, x)
    {
      assert Below(x, 0);
    }
    SameUsers(a, b);
  }

  lemma {:induction false} InlineCallPreserves(p: Program, m: Meaning, e: Expr, c: nat, depth: nat, k: nat, a: State, b: State)
    requires WellFormed(p) && Solves(p, m) && OkE(p.funcs, e)
    requires AllBelow(VarsE(e), k) && k <= c && AgreeBelow(k, a, b)
    requires e.FuncCall? && Inlinable(p, e.func) && depth + 1 <= CALL_LIMIT
    ensures var r := InlineE(p, e, c, depth); After(m, r.pre, r.e, Outside(b)) == EvalE(m, e, Outside(a))
    decreases Left(depth), 0, 0
  {
    var f, args := e.func, e.args;
    InlineEsPreserves(p, m, args, c + 1, depth + 1, k, a, b);
    ShapeEs(p, args, c + 1, depth + 1, k);
    var o := InlineEs(p, args, c + 1, depth + 1);
    ExpandPreserves(p, m, f, c, o, depth + 1, b);
    var vals := EvalEs(m, args, Outside(a));
    if vals.Some? {
      CallIs(p, m, f, vals.value, a);
      var b1 := ExecSs(m, o.pre, Outside(b)).value.globals;
      SameUsersBelow(a, b);
      SameUsersBelow(b, b1);
      CallReadsUsers(p, m, f, vals.value, a, b1);
    }
  }

  lemma {:induction false} InlineEsPreserves(p: Program, m: Meaning, es: seq<Expr>, c: nat, depth: nat, k: nat, a: State, b: State)
    requires WellFormed(p) && Solves(p, m) && OkEs(p.funcs, es)
    requires AllBelow(VarsEs(es), k) && k <= c && AgreeBelow(k, a, b)
    ensures var r := InlineEs(p, es, c, depth);
            && AllAfter(m, r.pre, r.es, Outside(b)) == EvalEs(m, es, Outside(a))
            && var o := ExecSs(m, r.pre, Outside(b));
               o.Some? ==> o.value.frame == map[] && AgreeBelow(c, b, o.value.globals)
    decreases Left(depth), 1, es
  {
    if es != [] {
      ShapeE(p, es[0], c, depth, k);
      InlineEPreserves(p, m, es[0], c, depth, k, a, b);
      var h := InlineE(p, es[0], c, depth);
      var t := InlineEs(p, es[1..], h.c, depth);
      ExecAppend(m, h.pre, t.pre, Outside(b));
      var o1 := ExecSs(m, h.pre, Outside(b));
      if o1.Some? {
        var b1 := o1.value.globals;
        InlineEsPreserves(p, m, es[1..], h.c, depth, k, a, b1);
        var o2 := ExecSs(m, t.pre, Outside(b1));
        if o2.Some? {
          EvalAgrees(m, h.e, h.c, b1, o2.value.globals);
        }
      }
      assert ([h.e] + t.es)[1..] == t.es;
    }
  }

  function ArgAssign(f: Symbol, c: nat, formal: Symbol, arg: Expr): seq<Stmt> {
    if arg.Ident? then [] else [BlockingAssign(Temp(f, c, Var(formal)), arg)]
  }

  /** One argument assignment changes at most the formal's temporary. */
  lemma ArgAssignValue(m: Meaning, f: Symbol, c: nat, formal: Symbol, arg: Expr, b: State)
    ensures var o, v := ExecSs(m, ArgAssign(f, c, formal, arg), Outside(b)), EvalE(m, arg, Outside(b));
            && o.Some? == v.Some?
            && (o.Some? ==>
                  && o.value.frame == map[]
                  && (forall x :: x != Temp(f, c, Var(formal)) ==> Get(o.value.globals, x) == Get(b, x))
                  && Get(o.value.globals, ArgSymbol(f, c, formal, arg)) == v.value)
  {
    if !arg.Ident? {
      var one := ArgAssign(f, c, formal, arg);
      assert one[1..] == [] && one[0] == BlockingAssign(Temp(f, c, Var(formal)), arg);
    }
  }

  /** The argument assignments leave each formal's image holding its argument. */
  ghost predicate Assigned(f: Symbol, c: nat, formals: seq<Symbol>, args: seq<Expr>, vals: seq<int>, b: State, b': Env)
    requires |formals| == |args| == |vals|
  {
    && b'.frame == map[]
    && (forall x: Symbol :: !(x.Temp? && x.counter == c) ==> Get(b'.globals, x) == Get(b, x))
    && (forall x :: x !in formals ==> Get(b'.globals, Temp(f, c, Var(x))) == Get(b, Temp(f, c, Var(x))))
    && forall i :: 0 <= i < |formals| ==> Get(b'.globals, ArgSymbol(f, c, formals[i], args[i])) == vals[i]
  }

  lemma {:induction false} ArgAssignsValues(m: Meaning, f: Symbol, c: nat, formals: seq<Symbol>, args: seq<Expr>, b: State)
    requires |formals| == |args| && AvoidsCall(args, c) && Distinct(formals)
    ensures var o, vals := ExecSs(m, ArgAssigns(f, c, formals, args), Outside(b)), EvalEs(m, args, Outside(b));
            && o.Some? == vals.Some?
            && (o.Some? ==> Assigned(f, c, formals, args, vals.value, b, o.value))
  {
    if formals != [] {
      var first, rest := ArgAssign(f, c, formals[0], args[0]), ArgAssigns(f, c, formals[1..], args[1..]);
      ArgAssignValue(m, f, c, formals[0], args[0], b);
      ExecAppend(m, first, rest, Outside(b));
      var o1 := ExecSs(m, first, Outside(b));
      if o1.Some? {
        ArgAssignsValues(m, f, c, formals[1..], args[1..], o1.value.globals);
        AvoidEvals(m, args[1..], c, b, o1.value.globals);
        var o2 := ExecSs(m, rest, o1.value);
        if o2.Some? {
          ArgsAssignedCons(m, f, c, formals, args, b, o1.value, o2.value);
        }
      }
    }
  }

  lemma ArgsAssignedCons(m: Meaning, f: Symbol, c: nat, formals: seq<Symbol>, args: seq<Expr>, b: State, b1: Env, b2: Env)
    requires |formals| == |args| && formals != [] && AvoidsCall(args, c) && Distinct(formals)
    requires ExecSs(m, ArgAssign(f, c, formals[0], args[0]), Outside(b)) == Some(b1)
    requires EvalEs(m, args[1..], Outside(b)).Some?
    requires Assigned(f, c, formals[1..], args[1..], EvalEs(m, args[1..], Outside(b)).value, b1.globals, b2)
    ensures EvalEs(m, args, Outside(b)).Some?
    ensures Assigned(f, c, formals, args, EvalEs(m, args, Outside(b)).value, b, b2)
  {
    ArgAssignValue(m, f, c, formals[0], args[0], b);
    assert formals[0] !in formals[1..];
    if args[0].Ident? {
      ArgIdentIn(args, 0);
    }
    forall i | 0 <= i < |formals|
      ensures Get(b2.globals, ArgSymbol(f, c, formals[i], args[i])) == EvalEs(m, args, Outside(b)).value[i]
    {
      if i > 0 {
        assert formals[i] == formals[1..][i - 1] && args[i] == args[1..][i - 1];
      }
    }
  }

  lemma AvoidEvals(m: Meaning, es: seq<Expr>, c: nat, a: State, b: State)
    requires AvoidsCall(es, c)
    requires forall x: Symbol :: !(x.Temp? && x.counter == c) ==> Get(a, x) == Get(b, x)
    ensures EvalEs(m, es, Outside(a)) == EvalEs(m, es, Outside(b))
  {
    SimulateEs(m, es, map[], Outside(a), Outside(b));
    RenameNothingEs(es);
  }

  /** After the expansion's preamble the result temporary holds the value of the call. */
  lemma {:induction false} ExpandPreserves(p: Program, m: Meaning, f: Symbol, c: nat, o: ExprsOut, depth: nat, b: State)
    requires WellFormed(p) && Solves(p, m) && Inlinable(p, f) && |o.es| == |p.funcs[f].formals| && c < o.c
    requires OkEs(p.funcs, o.es) && OkSs(p.funcs, o.pre) && AllFresh(WritesSs(o.pre), c, o.c)
    requires AllBelow(VarsEs(o.es), o.c) && AvoidsCall(o.es, c)
    ensures var r := Expand(p, f, c, o, depth);
            var b1 := ExecSs(m, o.pre, Outside(b));
            var vals := AllAfter(m, o.pre, o.es, Outside(b));
            After(m, r.pre, r.e, Outside(b))
            == if vals.Some? then CallBody(m, p.funcs[f], vals.value, b1.value.globals) else None
    decreases Left(depth), 2
  {
    var d := p.funcs[f];
    var args, body := ArgAssigns(f, c, d.formals, o.es), ExpandedBody(f, c, d, o.es);
    BodyFits(p, f, c, o.es);
    var r := InlineSs(p, body, o.c, depth);
    ExecAppend(m, o.pre, args, Outside(b));
    ExecAppend(m, o.pre + args, r.ss, Outside(b));
    ExecKeepsSs(m, o.pre, b);
    var o1 := ExecSs(m, o.pre, Outside(b));
    if o1.Some? {
      assert WellScoped(p.funcs, f);
      DeclaredNames(d);
      ArgAssignsValues(m, f, c, d.formals, o.es, o1.value.globals);
      var o2 := ExecSs(m, args, o1.value);
      if o2.Some? {
        ExpandBodyPreserves(p, m, f, c, o, depth, o1.value.globals, o2.value.globals);
      }
    }
  }

  /** The inlined body, run where the arguments are assigned, ends with the value of the call. */
  lemma {:induction false} ExpandBodyPreserves(p: Program, m: Meaning, f: Symbol, c: nat, o: ExprsOut, depth: nat,
                                               b1: State, b2: State)
    requires WellFormed(p) && Solves(p, m) && Inlinable(p, f) && |o.es| == |p.funcs[f].formals| && c < o.c
    requires AllBelow(VarsEs(o.es), o.c) && AvoidsCall(o.es, c)
    requires EvalEs(m, o.es, Outside(b1)).Some?
    requires Assigned(f, c, p.funcs[f].formals, o.es, EvalEs(m, o.es, Outside(b1)).value, b1, Outside(b2))
    ensures OkSs(p.funcs, ExpandedBody(f, c, p.funcs[f], o.es))
    ensures var r := InlineSs(p, ExpandedBody(f, c, p.funcs[f], o.es), o.c, depth);
            ResultOf(ExecSs(m, r.ss, Outside(b2)), Temp(f, c, Result))
            == CallBody(m, p.funcs[f], EvalEs(m, o.es, Outside(b1)).value, b1)
    decreases Left(depth), 1, 1, 0
  {
    var vals, body := EvalEs(m, o.es, Outside(b1)).value, ExpandedBody(f, c, p.funcs[f], o.es);
    ExpandedBodyValue(p, m, f, c, o.es, vals, b2);
    CallReadsUsers(p, m, f, vals, b1, b2);
    BodyFits(p, f, c, o.es);
    BodyMentions(p, f, c, o.es, o.c);
    InlineSsPreserves(p, m, body, o.c, depth, o.c, b2, b2);
  }

  /** Both runs diverge, or both end, outside any function, agreeing below `k`. */
  ghost predicate EndAgreeing(k: nat, a: Option<Env>, b: Option<Env>) {
    && a.Some? == b.Some?
    && (a.Some? ==> a.value.frame == b.value.frame == map[] && AgreeBelow(k, a.value.globals, b.value.globals))
  }

  lemma {:induction false} InlineSPreserves(p: Program, m: Meaning, s: Stmt, c: nat, depth: nat, k: nat, a: State, b: State)
    requires WellFormed(p) && Solves(p, m) && OkS(p.funcs, s)
    requires AllBelow(ReadsS(s) + WritesS(s), k) && k <= c && AgreeBelow(k, a, b)
    ensures EndAgreeing(k, ExecS(m, s, Outside(a)), ExecS(m, InlineS(p, s, c, depth).s, Outside(b)))
    decreases Left(depth), 0, 1
  {
    if depth > TRAVERSAL_LIMIT {
      SameStmtAgrees(m, s, k, a, b);
    } else {
      match s
      case Block(ss) => InlineSsPreserves(p, m, ss, c, depth + 1, k, a, b);
      case IfElse(_, _, _) => InlineIfPreserves(p, m, s, c, depth, k, a, b);
      case BlockingAssign(x, rhs) =>
        InlineEPreserves(p, m, rhs, c, depth + 1, k, a, b);
        var r := InlineE(p, rhs, c, depth + 1);
        RunPreamble(m, r.pre, BlockingAssign(x, r.e), b);
    }
  }

  lemma {:induction false} InlineIfPreserves(p: Program, m: Meaning, s: Stmt, c: nat, depth: nat, k: nat, a: State, b: State)
    requires WellFormed(p) && Solves(p, m) && OkS(p.funcs, s)
    requires AllBelow(ReadsS(s) + WritesS(s), k) && k <= c && AgreeBelow(k, a, b)
    requires s.IfElse? && depth <= TRAVERSAL_LIMIT
    ensures EndAgreeing(k, ExecS(m, s, Outside(a)), ExecS(m, InlineS(p, s, c, depth).s, Outside(b)))
    decreases Left(depth), 0, 0
  {
    InlineEPreserves(p, m, s.cond, c, depth + 1, k, a, b);
    var rc := InlineE(p, s.cond, c, depth + 1);
    var rt := InlineS(p, s.thn, rc.c, depth + 1);
    var re := InlineS(p, s.els, rt.c, depth + 1);
    RunPreamble(m, rc.pre, IfElse(rc.e, rt.s, re.s), b);
    var v := EvalE(m, s.cond, Outside(a));
    if v.Some? {
      var b1 := ExecSs(m, rc.pre, Outside(b)).value.globals;
      if v.value != 0 {
        InlineSPreserves(p, m, s.thn, rc.c, depth + 1, k, a, b1);
      } else {
        InlineSPreserves(p, m, s.els, rt.c, depth + 1, k, a, b1);
      }
    }
  }

  lemma RunPreamble(m: Meaning, pre: seq<Stmt>, main: Stmt, b: State)
    ensures ExecS(m, WithPreamble(pre, main), Outside(b))
            == (var o := ExecSs(m, pre, Outside(b)); if o.Some? then ExecS(m, main, o.value) else None)
  {
    var o := ExecSs(m, pre, Outside(b));
    if o.Some? {
      assert [main][1..] == [] && ExecSs(m, [main], o.value) == ExecS(m, main, o.value);
    }
    ExecAppend(m, pre, [main], Outside(b));
  }

  lemma {:induction false} SameStmtAgrees(m: Meaning, s: Stmt, k: nat, a: State, b: State)
    requires AllBelow(ReadsS(s) + WritesS(s), k) && AgreeBelow(k, a, b)
    ensures EndAgreeing(k, ExecS(m, s, Outside(a)), ExecS(m, s, Outside(b)))
    decreases s, 1
  {
    match s
    case Block(ss) => SameStmtsAgree(m, ss, k, a, b);
    case IfElse(c, t, e) =>
      EvalAgrees(m, c, k, a, b);
      SameStmtAgrees(m, t, k, a, b);
      SameStmtAgrees(m, e, k, a, b);
    case BlockingAssign(_, rhs) => EvalAgrees(m, rhs, k, a, b);
  }

  lemma {:induction false} SameStmtsAgree(m: Meaning, ss: seq<Stmt>, k: nat, a: State, b: State)
    requires AllBelow(ReadsSs(ss) + WritesSs(ss), k) && AgreeBelow(k, a, b)
    ensures EndAgreeing(k, ExecSs(m, ss, Outside(a)), ExecSs(m, ss, Outside(b)))
    decreases ss, 0
  {
    if ss != [] {
      SameStmtAgrees(m, ss[0], k, a, b);
      var o1, o2 := ExecS(m, ss[0], Outside(a)), ExecS(m, ss[0], Outside(b));
      if o1.Some? {
        SameStmtsAgree(m, ss[1..], k, o1.value.globals, o2.value.globals);
      }
    }
  }

  lemma {:induction false} InlineSsPreserves(p: Program, m: Meaning, ss: seq<Stmt>, c: nat, depth: nat, k: nat, a: State, b: State)
    requires WellFormed(p) && Solves(p, m) && OkSs(p.funcs, ss)
    requires AllBelow(ReadsSs(ss) + WritesSs(ss), k) && k <= c && AgreeBelow(k, a, b)
    ensures EndAgreeing(k, ExecSs(m, ss, Outside(a)), ExecSs(m, InlineSs(p, ss, c, depth).ss, Outside(b)))
    decreases Left(depth), 1, 0, ss
  {
    if ss != [] {
      InlineSPreserves(p, m, ss[0], c, depth, k, a, b);
      var h := InlineS(p, ss[0], c, depth);
      var o1, o2 := ExecS(m, ss[0], Outside(a)), ExecS(m, h.s, Outside(b));
      if o1.Some? {
        InlineSsPreserves(p, m, ss[1..], h.c, depth, k, o1.value.globals, o2.value.globals);
      }
      assert InlineSs(p, ss, c, depth).ss[1..] == InlineSs(p, ss[1..], h.c, depth).ss;
    }
  }

  /** Both end or neither does, and no original variable tells them apart. */
  ghost predicate SameForUsers(a: Option<Env>, b: Option<Env>) {
    && a.Some? == b.Some?
    && (a.Some? ==> UsersAgree(a.value.globals, b.value.globals))
  }

  /**
   Meaning preservation for the statements of a module: from every state, at every traversal depth and
   with any call counter, the rewritten statements end exactly if the original ones do, and then give
   every original variable the original value.
   */
  lemma InliningPreservesMeaning(p: Program, m: Meaning, ss: seq<Stmt>, c: nat, depth: nat, t: State)
    requires WellFormed(p) && Solves(p, m) && OkSs(p.funcs, ss)
    requires forall x :: x in ReadsSs(ss) + WritesSs(ss) ==> x.User?
    ensures SameForUsers(ExecSs(m, ss, Outside(t)), ExecSs(m, InlineSs(p, ss, c, depth).ss, Outside(t)))
  {
    InlineSsPreserves(p, m, ss, c, depth, 0, t, t);
    var a, b := ExecSs(m, ss, Outside(t)), ExecSs(m, InlineSs(p, ss, c, depth).ss, Outside(t));
    if a.Some? {
      SameUsersBelow(a.value.globals, b.value.globals);
    }
  }

  /**
   So it is when calls are run: with calls nested deep enough, wherever the original statements end the
   rewritten ones end, and the other way round, in states that no original variable tells apart.
   */
  lemma RunsPreserved(p: Program, base: Meaning, ss: seq<Stmt>, c: nat, depth: nat, t: State)
    requires WellFormed(p) && OkSs(p.funcs, ss)
    requires forall x :: x in ReadsSs(ss) + WritesSs(ss) ==> x.User?
    ensures var out := InlineSs(p, ss, c, depth).ss;
            && (forall r :: EndsIn(p.funcs, base, ss, Outside(t), r) ==>
                  exists r' :: EndsIn(p.funcs, base, out, Outside(t), r') && UsersAgree(r.globals, r'.globals))
            && (forall r' :: EndsIn(p.funcs, base, out, Outside(t), r') ==>
                  exists r :: EndsIn(p.funcs, base, ss, Outside(t), r) && UsersAgree(r.globals, r'.globals))
  {
    var m, out := Run(p.funcs, base), InlineSs(p, ss, c, depth).ss;
    RunSolves(p, base);
    InliningPreservesMeaning(p, m, ss, c, depth, t);
    var a, b := ExecSs(m, ss, Outside(t)), ExecSs(m, out, Outside(t));
    if a.Some? {
      RunIsReached(p.funcs, base, ss, Outside(t), a.value);
      RunIsReached(p.funcs, base, out, Outside(t), b.value);
    }
    forall r
      ensures EndsIn(p.funcs, base, ss, Outside(t), r) ==> a == Some(r)
      ensures EndsIn(p.funcs, base, out, Outside(t), r) ==> b == Some(r)
    {
      RunIsReached(p.funcs, base, ss, Outside(t), r);
      RunIsReached(p.funcs, base, out, Outside(t), r);
    }
  }
}
