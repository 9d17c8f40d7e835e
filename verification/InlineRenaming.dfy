/**
 Renaming a function body to its temporaries does not change what it computes.
 */
module InlineRenaming {
  import opened Basics
  import opened Outcomes
  import opened Syntax
  import opened Semantics
  import opened InlineSpec

  ghost predicate UsersAgree(a: State, b: State) {
    forall x: Symbol :: x.User? ==> Get(a, x) == Get(b, x)
  }

  /** Under the renaming, `b` gives every variable of `vars` the value it has in `a`. */
  ghost predicate Corresponds(rho: Renaming, vars: set<Symbol>, a: Env, b: Env) {
    UsersAgree(a.globals, b.globals) && forall x :: x in vars ==> Look(a, x) == Look(b, Ren(rho, x))
  }

  /** Each written name is local to `a`, and its image is local to `b` or a temporary, shared with no other variable. */
  ghost predicate Separate(rho: Renaming, vars: set<Symbol>, writes: set<Symbol>, a: Env, b: Env) {
    forall x :: x in writes ==>
      && x in vars && x in a.frame && (Ren(rho, x) in b.frame || Ren(rho, x).Temp?)
      && forall y :: y in vars && y != x ==> Ren(rho, y) != Ren(rho, x)
  }

  lemma {:induction false} RenameNothingE(e: Expr)
    ensures RenameE(e, map[]) == e
    decreases e, 1
  {
    match e
    case Value(_) =>
    case Ident(_) =>
    case FuncCall(_, args) => RenameNothingEs(args);
    case Op(_, operands) => RenameNothingEs(operands);
  }

  lemma {:induction false} RenameNothingEs(es: seq<Expr>)
    ensures RenameEs(es, map[]) == es
    decreases es, 0
  {
    if es != [] {
      RenameNothingE(es[0]);
      RenameNothingEs(es[1..]);
    }
  }

  lemma {:induction false} RenameNothingS(s: Stmt)
    ensures RenameS(s, map[]) == s
    decreases s, 1
  {
    match s
    case Block(ss) => RenameNothingSs(ss);
    case IfElse(c, t, e) =>
      RenameNothingE(c);
      RenameNothingS(t);
      RenameNothingS(e);
    case BlockingAssign(_, rhs) => RenameNothingE(rhs);
  }

  lemma {:induction false} RenameNothingSs(ss: seq<Stmt>)
    ensures RenameSs(ss, map[]) == ss
    decreases ss, 0
  {
    if ss != [] {
      RenameNothingS(ss[0]);
      RenameNothingSs(ss[1..]);
    }
  }

  // ---- simulation ----

  lemma SameUsers(a: State, b: State)
    requires UsersAgree(a, b)
    ensures Users(a) == Users(b)
  {
    forall x | x in Users(a) || x in Users(b)
      ensures x in Users(a) && x in Users(b) && Users(a)[x] == Users(b)[x]
    {
      assert Get(a, x) == Get(b, x);
    }
  }

  lemma {:induction false} SimulateE(m: Meaning, e: Expr, rho: Renaming, a: Env, b: Env)
    requires CallsE(e) !! rho.Keys && Corresponds(rho, VarsE(e), a, b)
    ensures EvalE(m, RenameE(e, rho), b) == EvalE(m, e, a)
    decreases e, 1
  {
    match e
    case Value(_) =>
    case Ident(_) =>
    case FuncCall(f, args) =>
      SimulateEs(m, args, rho, a, b);
      SameUsers(a.globals, b.globals);
    case Op(_, operands) =>
      SimulateEs(m, operands, rho, a, b);
  }

  lemma {:induction false} SimulateEs(m: Meaning, es: seq<Expr>, rho: Renaming, a: Env, b: Env)
    requires CallsEs(es) !! rho.Keys && Corresponds(rho, VarsEs(es), a, b)
    ensures EvalEs(m, RenameEs(es, rho), b) == EvalEs(m, es, a)
    decreases es, 0
  {
    if es != [] {
      SimulateE(m, es[0], rho, a, b);
      SimulateEs(m, es[1..], rho, a, b);
      assert RenameEs(es, rho)[1..] == RenameEs(es[1..], rho);
    }
  }

  /** Both runs diverge, or both end in corresponding environments whose frames have the names they had. */
  ghost predicate EndAlike(rho: Renaming, vars: set<Symbol>, a: Env, b: Env, a': Option<Env>, b': Option<Env>) {
    && a'.Some? == b'.Some?
    && (a'.Some? ==>
          && Corresponds(rho, vars, a'.value, b'.value)
          && a'.value.frame.Keys == a.frame.Keys && b'.value.frame.Keys == b.frame.Keys)
  }

  lemma {:induction false} SimulateS(m: Meaning, s: Stmt, rho: Renaming, vars: set<Symbol>, a: Env, b: Env)
    requires CallsS(s) !! rho.Keys && ReadsS(s) <= vars
    requires Corresponds(rho, vars, a, b) && Separate(rho, vars, WritesS(s), a, b)
    ensures EndAlike(rho, vars, a, b, ExecS(m, s, a), ExecS(m, RenameS(s, rho), b))
    decreases s, 1
  {
    match s
    case Block(ss) =>
      SimulateSs(m, ss, rho, vars, a, b);
    case IfElse(c, t, e) =>
      SimulateE(m, c, rho, a, b);
      SimulateS(m, t, rho, vars, a, b);
      SimulateS(m, e, rho, vars, a, b);
    case BlockingAssign(x, rhs) =>
      SimulateAssign(m, x, rhs, rho, vars, a, b);
  }

  lemma SimulateAssign(m: Meaning, x: Symbol, rhs: Expr, rho: Renaming, vars: set<Symbol>, a: Env, b: Env)
    requires CallsE(rhs) !! rho.Keys && VarsE(rhs) <= vars
    requires Corresponds(rho, vars, a, b) && Separate(rho, vars, {x}, a, b)
    ensures var s := BlockingAssign(x, rhs); EndAlike(rho, vars, a, b, ExecS(m, s, a), ExecS(m, RenameS(s, rho), b))
  {
    SimulateE(m, rhs, rho, a, b);
    var v := EvalE(m, rhs, a);
    if v.Some? {
      SimulateWrite(rho, vars, x, v.value, a, b);
    }
  }

  lemma SimulateWrite(rho: Renaming, vars: set<Symbol>, x: Symbol, v: int, a: Env, b: Env)
    requires Corresponds(rho, vars, a, b) && Separate(rho, vars, {x}, a, b)
    ensures Corresponds(rho, vars, Write(a, x, v), Write(b, Ren(rho, x), v))
    ensures Write(a, x, v).frame.Keys == a.frame.Keys && Write(b, Ren(rho, x), v).frame.Keys == b.frame.Keys
  {
    assert x in {x};
  }

  lemma {:induction false} SimulateSs(m: Meaning, ss: seq<Stmt>, rho: Renaming, vars: set<Symbol>, a: Env, b: Env)
    requires CallsSs(ss) !! rho.Keys && ReadsSs(ss) <= vars
    requires Corresponds(rho, vars, a, b) && Separate(rho, vars, WritesSs(ss), a, b)
    ensures EndAlike(rho, vars, a, b, ExecSs(m, ss, a), ExecSs(m, RenameSs(ss, rho), b))
    decreases ss, 0
  {
    if ss != [] {
      SimulateS(m, ss[0], rho, vars, a, b);
      var a1, b1 := ExecS(m, ss[0], a), ExecS(m, RenameS(ss[0], rho), b);
      if a1.Some? {
        assert Separate(rho, vars, WritesSs(ss[1..]), a1.value, b1.value);
        SimulateSs(m, ss[1..], rho, vars, a1.value, b1.value);
      }
      assert RenameSs(ss, rho)[1..] == RenameSs(ss[1..], rho);
    }
  }

  // ---- a call sees the original variables only ----

  /** Initialisers fill the frame with exactly the locals. */
  lemma {:induction false} InitsFrame(m: Meaning, ls: seq<Local>, env: Env)
    ensures var o := RunInits(m, ls, env);
            o.Some? ==> o.value.globals == env.globals && o.value.frame.Keys == env.frame.Keys + Names(LocalNames(ls))
  {
    if ls != [] {
      var v := EvalE(m, ls[0].init, env);
      if v.Some? {
        InitsFrame(m, ls[1..], env.(frame := env.frame[ls[0].name := v.value]));
      }
      var names := LocalNames(ls);
      assert names[1..] == LocalNames(ls[1..]) && names[0] == ls[0].name;
      assert Names(names) == {names[0]} + Names(names[1..]);
    }
  }

  lemma {:induction false} InitsReadUsers(m: Meaning, ls: seq<Local>, l: State, g1: State, g2: State)
    requires UsersAgree(g1, g2)
    requires forall x :: x in VarsInits(ls) ==> x.User?
    ensures var o1, o2 := RunInits(m, ls, Env(g1, l)), RunInits(m, ls, Env(g2, l));
            o1.Some? == o2.Some? && (o1.Some? ==> o1.value.frame == o2.value.frame)
  {
    if ls != [] {
      var e := ls[0].init;
      SimulateE(m, e, map[], Env(g1, l), Env(g2, l));
      RenameNothingE(e);
      var v := EvalE(m, e, Env(g1, l));
      if v.Some? {
        InitsReadUsers(m, ls[1..], l[ls[0].name := v.value], g1, g2);
      }
    }
  }

  lemma CallReadsUsers(p: Program, m: Meaning, f: Symbol, vals: seq<int>, g1: State, g2: State)
    requires WellFormed(p) && Inlinable(p, f) && |vals| == |p.funcs[f].formals|
    requires UsersAgree(g1, g2)
    ensures CallBody(m, p.funcs[f], vals, g1) == CallBody(m, p.funcs[f], vals, g2)
  {
    var d := p.funcs[f];
    assert WellScoped(p.funcs, f);
    var l := BindFormals(d.formals, vals);
    InitsReadUsers(m, d.locals, l, g1, g2);
    InitsFrame(m, d.locals, Env(g1, l));
    InitsFrame(m, d.locals, Env(g2, l));
    var o1, o2 := RunInits(m, d.locals, Env(g1, l)), RunInits(m, d.locals, Env(g2, l));
    if o1.Some? {
      BodyReadsUsers(m, d, o1.value, o2.value);
    }
  }

  lemma BodyReadsUsers(m: Meaning, d: FuncDecl, a: Env, b: Env)
    requires UsersAgree(a.globals, b.globals) && a.frame == b.frame
    requires forall x :: x in ReadsFunc(d) ==> x.User?
    requires WritesSs(d.stmts) <= Names(LocalNames(d.locals)) <= a.frame.Keys
    ensures var o1, o2 := ExecSs(m, d.stmts, a), ExecSs(m, d.stmts, b);
            && o1.Some? == o2.Some?
            && (o1.Some? ==> EvalE(m, d.ret, o1.value) == EvalE(m, d.ret, o2.value))
  {
    var vars := ReadsFunc(d) + WritesSs(d.stmts);
    SimulateSs(m, d.stmts, map[], vars, a, b);
    RenameNothingSs(d.stmts);
    RenameNothingE(d.ret);
    var o1, o2 := ExecSs(m, d.stmts, a), ExecSs(m, d.stmts, b);
    if o1.Some? {
      SimulateE(m, d.ret, map[], o1.value, o2.value);
    }
  }

  /** In every state, a call means what the function's body does there. */
  lemma CallIs(p: Program, m: Meaning, f: Symbol, vals: seq<int>, g: State)
    requires WellFormed(p) && Solves(p, m) && Inlinable(p, f) && |vals| == |p.funcs[f].formals|
    ensures m.call(f, vals, Users(g)) == CallBody(m, p.funcs[f], vals, g)
  {
    assert Users(Users(g)) == Users(g);
    CallReadsUsers(p, m, f, vals, Users(g), g);
  }

  // ---- one expansion computes the value of the call ----

  /** Locals become temporaries that no other variable is renamed to. */
  ghost predicate LocalImages(f: Symbol, c: nat, names: seq<Symbol>, rho: Renaming, vars: set<Symbol>) {
    forall x :: x in names ==>
      && x in vars && x in rho && rho[x] == Temp(f, c, Var(x))
      && forall y :: y in vars && y != x ==> Ren(rho, y) != rho[x]
  }

  lemma SimulateInit(f: Symbol, c: nat, names: seq<Symbol>, rho: Renaming, vars: set<Symbol>, a: Env, b: Env, v: int)
    requires names != [] && LocalImages(f, c, names, rho, vars)
    requires b.frame == map[] && Corresponds(rho, vars - Names(names), a, b)
    ensures Corresponds(rho, vars - Names(names[1..]),
                        a.(frame := a.frame[names[0] := v]), Write(b, Temp(f, c, Var(names[0])), v))
    ensures Write(b, Temp(f, c, Var(names[0])), v).frame == map[]
  {
    var x := names[0];
    var a1, b1 := a.(frame := a.frame[x := v]), Write(b, Temp(f, c, Var(x)), v);
    assert x in names;
    forall y | y in vars - Names(names[1..])
      ensures Look(a1, y) == Look(b1, Ren(rho, y))
    {
      if y != x {
        assert y in vars - Names(names);
      }
    }
  }

  /** The renamed initialisers, run as assignments, build the frame that the call would have. */
  lemma {:induction false} SimulateInits(m: Meaning, f: Symbol, c: nat, ls: seq<Local>, rho: Renaming,
                                         vars: set<Symbol>, a: Env, b: Env)
    requires CallsInits(ls) !! rho.Keys && InitsInOrder(ls) && VarsInits(ls) <= vars
    requires LocalImages(f, c, LocalNames(ls), rho, vars)
    requires b.frame == map[] && Corresponds(rho, vars - Names(LocalNames(ls)), a, b)
    ensures var a', b' := RunInits(m, ls, a), ExecSs(m, InitAssigns(f, c, ls, rho), b);
            a'.Some? == b'.Some? && (a'.Some? ==> Corresponds(rho, vars, a'.value, b'.value))
  {
    if ls == [] {
      assert vars - Names(LocalNames(ls)) == vars;
    } else {
      var x, e := ls[0].name, ls[0].init;
      var names := LocalNames(ls);
      assert names[1..] == LocalNames(ls[1..]) && names[0] == x;
      assert Names(names) == {x} + Names(names[1..]);
      assert InitAssigns(f, c, ls, rho)[1..] == InitAssigns(f, c, ls[1..], rho);
      SimulateE(m, e, rho, a, b);
      var v := EvalE(m, e, a);
      if v.Some? {
        SimulateInit(f, c, names, rho, vars, a, b, v.value);
        SimulateInits(m, f, c, ls[1..], rho, vars,
                      a.(frame := a.frame[x := v.value]), Write(b, Temp(f, c, Var(x)), v.value));
      }
    }
  }

  lemma {:induction false} BindFormalsIs(formals: seq<Symbol>, vals: seq<int>)
    requires |formals| == |vals| && Distinct(formals)
    ensures BindFormals(formals, vals).Keys == Names(formals)
    ensures forall i :: 0 <= i < |formals| ==> BindFormals(formals, vals)[formals[i]] == vals[i]
  {
    if formals != [] {
      BindFormalsIs(formals[1..], vals[1..]);
      assert formals[0] !in formals[1..];
      assert Names(formals) == {formals[0]} + Names(formals[1..]);
      forall i | 0 <= i < |formals|
        ensures BindFormals(formals, vals)[formals[i]] == vals[i]
      {
        if i > 0 {
          assert formals[i] == formals[1..][i - 1];
        }
      }
    }
  }

  /** No variable of the arguments is a temporary of call `c`. */
  ghost predicate AvoidsCall(args: seq<Expr>, c: nat) {
    forall x :: x in VarsEs(args) ==> !(x.Temp? && x.counter == c)
  }

  lemma {:induction false} ArgIdentIn(args: seq<Expr>, i: nat)
    requires i < |args| && args[i].Ident?
    ensures args[i].name in VarsEs(args)
  {
    if i > 0 {
      ArgIdentIn(args[1..], i - 1);
    }
  }

  lemma LocalImagesSeparate(p: Program, f: Symbol, c: nat, args: seq<Expr>, x: Symbol, y: Symbol)
    requires WellFormed(p) && Inlinable(p, f) && |args| == |p.funcs[f].formals| && AvoidsCall(args, c)
    requires x in LocalNames(p.funcs[f].locals) && y != x && y != f && y.User?
    ensures var rho := RenameMap(f, c, p.funcs[f], args);
            x in rho && rho[x] == Temp(f, c, Var(x)) && Ren(rho, y) != rho[x]
  {
    var d := p.funcs[f];
    var rho := RenameMap(f, c, d, args);
    assert WellScoped(p.funcs, f);
    RenameMapIs(f, c, d, args);
    DeclaredNames(d);
    if y in d.formals {
      var i :| 0 <= i < |d.formals| && d.formals[i] == y;
      if args[i].Ident? {
        ArgIdentIn(args, i);
      }
    }
  }

  /** Before the initialisers, every variable but the locals already corresponds. */
  lemma FormalsCorrespond(p: Program, f: Symbol, c: nat, args: seq<Expr>, vals: seq<int>, t: State, vars: set<Symbol>)
    requires WellFormed(p) && Inlinable(p, f) && |args| == |vals| == |p.funcs[f].formals|
    requires forall i :: 0 <= i < |vals| ==> Get(t, ArgSymbol(f, c, p.funcs[f].formals[i], args[i])) == vals[i]
    requires f !in vars
    ensures Corresponds(RenameMap(f, c, p.funcs[f], args), vars - Names(LocalNames(p.funcs[f].locals)),
                        Env(t, BindFormals(p.funcs[f].formals, vals)), Env(t, map[]))
  {
    var d := p.funcs[f];
    var rho := RenameMap(f, c, d, args);
    assert WellScoped(p.funcs, f);
    RenameMapIs(f, c, d, args);
    DeclaredNames(d);
    BindFormalsIs(d.formals, vals);
    forall x | x in vars - Names(LocalNames(d.locals))
      ensures Look(Env(t, BindFormals(d.formals, vals)), x) == Look(Env(t, map[]), Ren(rho, x))
    {
      if x in d.formals {
        var i :| 0 <= i < |d.formals| && d.formals[i] == x;
      }
    }
  }

  lemma LocalsSeparate(p: Program, f: Symbol, c: nat, args: seq<Expr>, vars: set<Symbol>)
    requires WellFormed(p) && Inlinable(p, f) && |args| == |p.funcs[f].formals| && AvoidsCall(args, c)
    requires f !in vars && (forall x :: x in vars ==> x.User?)
    requires Names(LocalNames(p.funcs[f].locals)) <= vars
    ensures LocalImages(f, c, LocalNames(p.funcs[f].locals), RenameMap(f, c, p.funcs[f], args), vars)
  {
    assert WellScoped(p.funcs, f);
    RenameMapIs(f, c, p.funcs[f], args);
    var locals := LocalNames(p.funcs[f].locals);
    forall x | x in locals
      ensures x in vars
    {
      assert x in Names(locals);
    }
    forall x, y | x in locals && y in vars && y != x
      ensures Ren(RenameMap(f, c, p.funcs[f], args), y) != Temp(f, c, Var(x))
    {
      LocalImagesSeparate(p, f, c, args, x, y);
    }
  }

  lemma {:induction false} ExecAppend(m: Meaning, x: seq<Stmt>, y: seq<Stmt>, env: Env)
    ensures ExecSs(m, x + y, env) == (var o := ExecSs(m, x, env); if o.Some? then ExecSs(m, y, o.value) else None)
  {
    if x == [] {
      assert x + y == y;
    } else {
      var o := ExecS(m, x[0], env);
      if o.Some? {
        ExecAppend(m, x[1..], y, o.value);
      }
      assert (x + y)[1..] == x[1..] + y;
    }
  }

  /** What is left in the result temporary, if the statements end. */
  function ResultOf(o: Option<Env>, x: Symbol): Option<int> {
    if o.Some? then Some(Look(o.value, x)) else None
  }

  /** The three parts of an expanded body run one after the other. */
  lemma ExecExpandedBody(m: Meaning, f: Symbol, c: nat, inits: seq<Stmt>, body: seq<Stmt>, ret: Expr, b: Env)
    ensures var o := ExecSs(m, inits + body + [BlockingAssign(Temp(f, c, Result), ret)], b);
            var b1 := ExecSs(m, inits, b);
            && (b1.None? ==> o == None)
            && (b1.Some? ==>
                  var b2 := ExecSs(m, body, b1.value);
                  && (b2.None? ==> o == None)
                  && (b2.Some? ==>
                        ResultOf(o, Temp(f, c, Result)) == EvalE(m, ret, b2.value)))
  {
    var last := [BlockingAssign(Temp(f, c, Result), ret)];
    ExecAppend(m, inits + body, last, b);
    ExecAppend(m, inits, body, b);
    var b2 := ExecSs(m, inits + body, b);
    if b2.Some? {
      assert last[1..] == [] && ExecSs(m, last, b2.value) == ExecS(m, last[0], b2.value);
    }
  }

  /**
   Once the formals' images hold the argument values, the expanded body leaves the call's value in the
   result temporary, and diverges if the call does.
   */
  lemma ExpandedBodyValue(p: Program, m: Meaning, f: Symbol, c: nat, args: seq<Expr>, vals: seq<int>, t: State)
    requires WellFormed(p) && Inlinable(p, f) && |args| == |vals| == |p.funcs[f].formals| && AvoidsCall(args, c)
    requires forall i :: 0 <= i < |vals| ==> Get(t, ArgSymbol(f, c, p.funcs[f].formals[i], args[i])) == vals[i]
    ensures ResultOf(ExecSs(m, ExpandedBody(f, c, p.funcs[f], args), Env(t, map[])), Temp(f, c, Result))
            == CallBody(m, p.funcs[f], vals, t)
  {
    var d := p.funcs[f];
    var rho := RenameMap(f, c, d, args);
    assert WellScoped(p.funcs, f);
    DeclaredNames(d);
    RenameMapIs(f, c, d, args);
    var vars := ReadsFunc(d) + Names(LocalNames(d.locals));
    var a, b := Env(t, BindFormals(d.formals, vals)), Env(t, map[]);
    FormalsCorrespond(p, f, c, args, vals, t, vars);
    LocalsSeparate(p, f, c, args, vars);
    SimulateInits(m, f, c, d.locals, rho, vars, a, b);
    InitsFrame(m, d.locals, a);
    ExecExpandedBody(m, f, c, InitAssigns(f, c, d.locals, rho), RenameSs(d.stmts, rho), RenameE(d.ret, rho), b);
    var a1, b1 := RunInits(m, d.locals, a), ExecSs(m, InitAssigns(f, c, d.locals, rho), b);
    if a1.Some? {
      SimulateBody(m, f, c, d, rho, vars, a1.value, b1.value);
    }
  }

  lemma SimulateBody(m: Meaning, f: Symbol, c: nat, d: FuncDecl, rho: Renaming, vars: set<Symbol>, a: Env, b: Env)
    requires CallsBody(d) !! rho.Keys
    requires WritesSs(d.stmts) <= Names(LocalNames(d.locals)) <= a.frame.Keys
    requires ReadsSs(d.stmts) + VarsE(d.ret) <= vars
    requires LocalImages(f, c, LocalNames(d.locals), rho, vars) && Corresponds(rho, vars, a, b)
    ensures var a', b' := ExecSs(m, d.stmts, a), ExecSs(m, RenameSs(d.stmts, rho), b);
            && a'.Some? == b'.Some?
            && (a'.Some? ==> EvalE(m, RenameE(d.ret, rho), b'.value) == EvalE(m, d.ret, a'.value))
  {
    assert Separate(rho, vars, WritesSs(d.stmts), a, b);
    SimulateSs(m, d.stmts, rho, vars, a, b);
    var a', b' := ExecSs(m, d.stmts, a), ExecSs(m, RenameSs(d.stmts, rho), b);
    if a'.Some? {
      SimulateE(m, d.ret, rho, a'.value, b'.value);
    }
  }
}
