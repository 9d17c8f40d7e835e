/**
 The meaning of a module's functions by running them: calls are nested up to some depth, and a call
 diverges if no depth is enough. It is a meaning in the sense of `Semantics.Solves`, recursion or not.
 */
module Running {
  import opened Outcomes
  import opened Syntax
  import opened Semantics

  /** Every known function runs its body, in calls nested less than `n` deep; `base` gives the unknown ones. */
  function Within(fs: Functions, base: Meaning, n: nat): Meaning {
    Meaning(base.ops, (f, vals, g) =>
      if f in fs && |vals| == |fs[f].formals| then
        if n == 0 then None else CallBody(Within(fs, base, n - 1), fs[f], vals, g)
      else base.call(f, vals, g))
  }

  ghost predicate Ends(fs: Functions, base: Meaning, f: Symbol, vals: seq<int>, g: State, n: nat) {
    Within(fs, base, n).call(f, vals, g).Some?
  }

  ghost function RunCall(fs: Functions, base: Meaning, f: Symbol, vals: seq<int>, g: State): (r: Option<int>)
    ensures r.Some? ==> exists n: nat :: Ends(fs, base, f, vals, g, n) && Within(fs, base, n).call(f, vals, g) == r
    ensures r.None? ==> forall n: nat :: !Ends(fs, base, f, vals, g, n)
  {
    if n: nat :| Ends(fs, base, f, vals, g, n) then Within(fs, base, n).call(f, vals, g) else None
  }

  ghost function Run(fs: Functions, base: Meaning): Meaning {
    Meaning(base.ops, (f, vals, g) => RunCall(fs, base, f, vals, g))
  }

  // ---- what has a value keeps it when calls do ----

  ghost predicate Refines(a: Meaning, b: Meaning) {
    && a.ops == b.ops
    && forall f, vals, g :: a.call(f, vals, g).Some? ==> b.call(f, vals, g) == a.call(f, vals, g)
  }

  lemma {:induction false} KeepsE(a: Meaning, b: Meaning, e: Expr, env: Env)
    requires Refines(a, b) && EvalE(a, e, env).Some?
    ensures EvalE(b, e, env) == EvalE(a, e, env)
    decreases e, 1
  {
    match e
    case Value(_) =>
    case Ident(_) =>
    case FuncCall(_, args) => KeepsEs(a, b, args, env);
    case Op(_, operands) => KeepsEs(a, b, operands, env);
  }

  lemma {:induction false} KeepsEs(a: Meaning, b: Meaning, es: seq<Expr>, env: Env)
    requires Refines(a, b) && EvalEs(a, es, env).Some?
    ensures EvalEs(b, es, env) == EvalEs(a, es, env)
    decreases es, 0
  {
    if es != [] {
      KeepsE(a, b, es[0], env);
      KeepsEs(a, b, es[1..], env);
    }
  }

  lemma {:induction false} KeepsS(a: Meaning, b: Meaning, s: Stmt, env: Env)
    requires Refines(a, b) && ExecS(a, s, env).Some?
    ensures ExecS(b, s, env) == ExecS(a, s, env)
    decreases s, 1
  {
    match s
    case Block(ss) => KeepsSs(a, b, ss, env);
    case IfElse(c, t, e) =>
      KeepsE(a, b, c, env);
      if EvalE(a, c, env).value != 0 {
        KeepsS(a, b, t, env);
      } else {
        KeepsS(a, b, e, env);
      }
    case BlockingAssign(_, rhs) => KeepsE(a, b, rhs, env);
  }

  lemma {:induction false} KeepsSs(a: Meaning, b: Meaning, ss: seq<Stmt>, env: Env)
    requires Refines(a, b) && ExecSs(a, ss, env).Some?
    ensures ExecSs(b, ss, env) == ExecSs(a, ss, env)
    decreases ss, 0
  {
    if ss != [] {
      KeepsS(a, b, ss[0], env);
      KeepsSs(a, b, ss[1..], ExecS(a, ss[0], env).value);
    }
  }

  lemma {:induction false} KeepsInits(a: Meaning, b: Meaning, ls: seq<Local>, env: Env)
    requires Refines(a, b) && RunInits(a, ls, env).Some?
    ensures RunInits(b, ls, env) == RunInits(a, ls, env)
  {
    if ls != [] {
      KeepsE(a, b, ls[0].init, env);
      KeepsInits(a, b, ls[1..], env.(frame := env.frame[ls[0].name := EvalE(a, ls[0].init, env).value]));
    }
  }

  lemma KeepsCall(a: Meaning, b: Meaning, d: FuncDecl, vals: seq<int>, g: State)
    requires Refines(a, b) && |vals| == |d.formals| && CallBody(a, d, vals, g).Some?
    ensures CallBody(b, d, vals, g) == CallBody(a, d, vals, g)
  {
    var start := Env(g, BindFormals(d.formals, vals));
    KeepsInits(a, b, d.locals, start);
    var ready := RunInits(a, d.locals, start).value;
    KeepsSs(a, b, d.stmts, ready);
    KeepsE(a, b, d.ret, ExecSs(a, d.stmts, ready).value);
  }

  lemma {:induction false} DeeperKeeps(fs: Functions, base: Meaning, n: nat, k: nat)
    requires n <= k
    ensures Refines(Within(fs, base, n), Within(fs, base, k))
  {
    var a, b := Within(fs, base, n), Within(fs, base, k);
    forall f, vals, g | a.call(f, vals, g).Some?
      ensures b.call(f, vals, g) == a.call(f, vals, g)
    {
      if f in fs && |vals| == |fs[f].formals| {
        DeeperKeeps(fs, base, n - 1, k - 1);
        KeepsCall(Within(fs, base, n - 1), Within(fs, base, k - 1), fs[f], vals, g);
      }
    }
  }

  lemma RunKeeps(fs: Functions, base: Meaning, n: nat)
    ensures Refines(Within(fs, base, n), Run(fs, base))
  {
    var a, b := Within(fs, base, n), Run(fs, base);
    forall f, vals, g | a.call(f, vals, g).Some?
      ensures b.call(f, vals, g) == a.call(f, vals, g)
    {
      assert Ends(fs, base, f, vals, g, n);
      var k: nat :| Ends(fs, base, f, vals, g, k) && Within(fs, base, k).call(f, vals, g) == RunCall(fs, base, f, vals, g);
      if n <= k {
        DeeperKeeps(fs, base, n, k);
      } else {
        DeeperKeeps(fs, base, k, n);
      }
    }
  }

  // ---- a run that ends needs some depth only ----

  lemma {:induction false} DepthE(fs: Functions, base: Meaning, e: Expr, env: Env) returns (n: nat)
    requires EvalE(Run(fs, base), e, env).Some?
    ensures EvalE(Within(fs, base, n), e, env) == EvalE(Run(fs, base), e, env)
    decreases e, 1
  {
    match e
    case Value(_) => n := 0;
    case Ident(_) => n := 0;
    case FuncCall(f, args) =>
      n := DepthEs(fs, base, args, env);
      var vals, g := EvalEs(Run(fs, base), args, env).value, Users(env.globals);
      var k: nat :| Ends(fs, base, f, vals, g, k);
      var both := if n <= k then k else n;
      DeeperKeeps(fs, base, n, both);
      DeeperKeeps(fs, base, k, both);
      KeepsEs(Within(fs, base, n), Within(fs, base, both), args, env);
      RunKeeps(fs, base, both);
      n := both;
    case Op(_, operands) =>
      n := DepthEs(fs, base, operands, env);
  }

  lemma {:induction false} DepthEs(fs: Functions, base: Meaning, es: seq<Expr>, env: Env) returns (n: nat)
    requires EvalEs(Run(fs, base), es, env).Some?
    ensures EvalEs(Within(fs, base, n), es, env) == EvalEs(Run(fs, base), es, env)
    decreases es, 0
  {
    n := 0;
    if es != [] {
      var k := DepthE(fs, base, es[0], env);
      n := DepthEs(fs, base, es[1..], env);
      var both := if n <= k then k else n;
      DeeperKeeps(fs, base, n, both);
      DeeperKeeps(fs, base, k, both);
      KeepsE(Within(fs, base, k), Within(fs, base, both), es[0], env);
      KeepsEs(Within(fs, base, n), Within(fs, base, both), es[1..], env);
      n := both;
    }
  }

  lemma {:induction false} DepthS(fs: Functions, base: Meaning, s: Stmt, env: Env) returns (n: nat)
    requires ExecS(Run(fs, base), s, env).Some?
    ensures ExecS(Within(fs, base, n), s, env) == ExecS(Run(fs, base), s, env)
    decreases s, 1
  {
    match s
    case Block(ss) => n := DepthSs(fs, base, ss, env);
    case BlockingAssign(_, rhs) => n := DepthE(fs, base, rhs, env);
    case IfElse(c, t, e) =>
      var k := DepthE(fs, base, c, env);
      var arm := if EvalE(Run(fs, base), c, env).value != 0 then t else e;
      n := DepthS(fs, base, arm, env);
      var both := if n <= k then k else n;
      DeeperKeeps(fs, base, n, both);
      DeeperKeeps(fs, base, k, both);
      KeepsE(Within(fs, base, k), Within(fs, base, both), c, env);
      KeepsS(Within(fs, base, n), Within(fs, base, both), arm, env);
      n := both;
  }

  lemma {:induction false} DepthSs(fs: Functions, base: Meaning, ss: seq<Stmt>, env: Env) returns (n: nat)
    requires ExecSs(Run(fs, base), ss, env).Some?
    ensures ExecSs(Within(fs, base, n), ss, env) == ExecSs(Run(fs, base), ss, env)
    decreases ss, 0
  {
    n := 0;
    if ss != [] {
      var k := DepthS(fs, base, ss[0], env);
      var next := ExecS(Run(fs, base), ss[0], env).value;
      n := DepthSs(fs, base, ss[1..], next);
      var both := if n <= k then k else n;
      DeeperKeeps(fs, base, n, both);
      DeeperKeeps(fs, base, k, both);
      KeepsS(Within(fs, base, k), Within(fs, base, both), ss[0], env);
      KeepsSs(Within(fs, base, n), Within(fs, base, both), ss[1..], next);
      n := both;
    }
  }

  lemma {:induction false} DepthInits(fs: Functions, base: Meaning, ls: seq<Local>, env: Env) returns (n: nat)
    requires RunInits(Run(fs, base), ls, env).Some?
    ensures RunInits(Within(fs, base, n), ls, env) == RunInits(Run(fs, base), ls, env)
  {
    n := 0;
    if ls != [] {
      var k := DepthE(fs, base, ls[0].init, env);
      var next := env.(frame := env.frame[ls[0].name := EvalE(Run(fs, base), ls[0].init, env).value]);
      n := DepthInits(fs, base, ls[1..], next);
      var both := if n <= k then k else n;
      DeeperKeeps(fs, base, n, both);
      DeeperKeeps(fs, base, k, both);
      KeepsE(Within(fs, base, k), Within(fs, base, both), ls[0].init, env);
      KeepsInits(Within(fs, base, n), Within(fs, base, both), ls[1..], next);
      n := both;
    }
  }

  lemma DepthCall(fs: Functions, base: Meaning, d: FuncDecl, vals: seq<int>, g: State) returns (n: nat)
    requires |vals| == |d.formals| && CallBody(Run(fs, base), d, vals, g).Some?
    ensures CallBody(Within(fs, base, n), d, vals, g) == CallBody(Run(fs, base), d, vals, g)
  {
    var start := Env(g, BindFormals(d.formals, vals));
    var i := DepthInits(fs, base, d.locals, start);
    var ready := RunInits(Run(fs, base), d.locals, start).value;
    var j := DepthSs(fs, base, d.stmts, ready);
    var done := ExecSs(Run(fs, base), d.stmts, ready).value;
    var k := DepthE(fs, base, d.ret, done);
    n := i + j + k;
    DeeperKeeps(fs, base, i, n);
    DeeperKeeps(fs, base, j, n);
    DeeperKeeps(fs, base, k, n);
    KeepsInits(Within(fs, base, i), Within(fs, base, n), d.locals, start);
    KeepsSs(Within(fs, base, j), Within(fs, base, n), d.stmts, ready);
    KeepsE(Within(fs, base, k), Within(fs, base, n), d.ret, done);
  }

  /** Running is a meaning: whichever functions are left alone, a call is what its body does. */
  lemma RunSolves(p: Program, base: Meaning)
    ensures Solves(p, Run(p.funcs, base))
  {
    var fs, m := p.funcs, Run(p.funcs, base);
    forall f, vals, g | Inlinable(p, f) && |vals| == |fs[f].formals|
      ensures m.call(f, vals, g) == CallBody(m, fs[f], vals, g)
    {
      if n: nat :| Ends(fs, base, f, vals, g, n) {
        RunKeeps(fs, base, n);
        RunKeeps(fs, base, n - 1);
        KeepsCall(Within(fs, base, n - 1), m, fs[f], vals, g);
      } else if CallBody(m, fs[f], vals, g).Some? {
        var k := DepthCall(fs, base, fs[f], vals, g);
        assert Within(fs, base, k + 1).call(f, vals, g).Some?;
        assert Ends(fs, base, f, vals, g, k + 1);
      }
    }
  }

  /** The statements, run with calls nested to some depth, end in `r`. */
  ghost predicate EndsIn(fs: Functions, base: Meaning, ss: seq<Stmt>, env: Env, r: Env) {
    exists n: nat :: ExecSs(Within(fs, base, n), ss, env) == Some(r)
  }

  lemma RunIsReached(fs: Functions, base: Meaning, ss: seq<Stmt>, env: Env, r: Env)
    ensures ExecSs(Run(fs, base), ss, env) == Some(r) <==> EndsIn(fs, base, ss, env, r)
  {
    if ExecSs(Run(fs, base), ss, env) == Some(r) {
      var n := DepthSs(fs, base, ss, env);
    }
    forall n: nat | ExecSs(Within(fs, base, n), ss, env) == Some(r)
      ensures ExecSs(Run(fs, base), ss, env) == Some(r)
    {
      RunKeeps(fs, base, n);
      KeepsSs(Within(fs, base, n), Run(fs, base), ss, env);
    }
  }
}
