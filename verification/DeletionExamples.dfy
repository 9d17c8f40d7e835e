/**
 Inputs for which the module that inlining leaves no longer does what the original did, and one for
 which it does although the names alone do not show it.
 */
module DeletionExamples {
  import opened Outcomes
  import opened Syntax
  import opened CallGraph
  import opened Semantics
  import opened Deletion
  import opened InlineComplete
  import opened InlineGraph
  import opened InlineMeaning
  import opened InlineSpec
  import opened Running
  import Recursion

  // ---- running one statement ----

  lemma EvalOne(m: Meaning, e: Expr, env: Env)
    ensures var v := EvalE(m, e, env); EvalEs(m, [e], env) == if v.Some? then Some([v.value]) else None
  {
    assert [e][1..] == [] && EvalEs(m, [], env) == Some([]);
    var v := EvalE(m, e, env);
    assert v.Some? ==> [v.value] + [] == [v.value];
  }

  lemma ExecOne(m: Meaning, s: Stmt, env: Env)
    ensures ExecSs(m, [s], env) == ExecS(m, s, env)
  {
    assert [s][1..] == [];
  }

  lemma BindOne(x: Symbol, v: int)
    ensures BindFormals([x], [v]) == map[x := v]
  {
    assert [x][1..] == [] && [v][1..] == [];
  }

  lemma InitOne(m: Meaning, x: Symbol, v: int, env: Env)
    ensures RunInits(m, [Local(x, Value(v))], env) == Some(env.(frame := env.frame[x := v]))
  {
    assert [Local(x, Value(v))][1..] == [];
  }

  lemma CallsOne(e: Expr)
    ensures CallsEs([e]) == CallsE(e)
  {
    assert [e][1..] == [];
  }

  /** A call of a name that is nowhere defined makes the statement end at no depth. */
  lemma NowhereEnds(base: Meaning, x: Symbol, e: Expr, env: Env)
    requires forall n: nat :: EvalE(Within(map[], base, n), e, env) == None
    ensures forall r :: !EndsIn(map[], base, [BlockingAssign(x, e)], env, r)
  {
    forall n: nat
      ensures ExecSs(Within(map[], base, n), [BlockingAssign(x, e)], env) == None
    {
      ExecOne(Within(map[], base, n), BlockingAssign(x, e), env);
    }
  }

  lemma OneStatementEnds(fs: Functions, base: Meaning, x: Symbol, e: Expr, env: Env, n: nat, v: int)
    requires EvalE(Within(fs, base, n), e, env) == Some(v)
    ensures EndsIn(fs, base, [BlockingAssign(x, e)], env, Write(env, x, v))
  {
    ExecOne(Within(fs, base, n), BlockingAssign(x, e), env);
    assert ExecSs(Within(fs, base, n), [BlockingAssign(x, e)], env) == Some(Write(env, x, v));
  }

  lemma CopyReturns(base: Meaning, n: nat, v: int, g: State)
    requires n >= 1
    ensures Within(CopyProgram().funcs, base, n).call(User("f"), [v], g) == Some(v)
  {
    var m, d := Within(CopyProgram().funcs, base, n - 1), CopyFunction();
    var start, ready := Env(g, map[User("a") := v]), Env(g, map[User("a") := v, User("r") := 0]);
    BindOne(User("a"), v);
    InitOne(m, User("r"), 0, start);
    ExecOne(m, d.stmts[0], ready);
    assert ExecS(m, d.stmts[0], ready) == Some(Write(ready, User("r"), v));
    assert CallBody(m, d, [v], g) == Some(v);
  }

  // ---- a call that is shielded, and one that the depth guard leaves ----

  /** `$clog2(f(1))`: the call stands under a system function. */
  function Shielded(): Expr {
    FuncCall(User("$clog2"), [FuncCall(User("f"), [Value(1)])])
  }

  /** The shielded call stays and its function goes: the original ends, what is left does not. */
  lemma ShieldedIsLost(base: Meaning, c: nat, y: Symbol, v: int)
    requires base.call(User("$clog2"), [1], map[]) == Some(v)
    ensures var (p, ss, env) := (CopyProgram(), [BlockingAssign(y, Shielded())], Outside(map[]));
            && WellFormed(p) && OkSs(p.funcs, ss) && InlineSs(p, ss, c, 0).ss == ss && Kept(p) == map[]
            && EndsIn(p.funcs, base, ss, env, Write(env, y, v))
            && forall r :: !EndsIn(Kept(p), Without(base, Deleted(p)), ss, env, r)
  {
    var (p, ss, env) := (CopyProgram(), [BlockingAssign(y, Shielded())], Outside(map[]));
    CopyIsScoped(p.funcs);
    var one, inner := [Value(1)], FuncCall(User("f"), [Value(1)]);
    assert one[1..] == [] && [inner][1..] == [] && ss[1..] == [];
    assert OkEs(p.funcs, one) && OkE(p.funcs, inner) && OkEs(p.funcs, [inner]) && OkE(p.funcs, Shielded());
    assert InlineE(p, Shielded(), c, 1) == ExprOut(Shielded(), [], c, []);
    var m := Within(p.funcs, base, 1);
    CopyReturns(base, 1, 1, map[]);
    assert Users(map[]) == map[];
    EvalOne(m, Value(1), env);
    EvalOne(m, inner, env);
    assert EvalE(m, inner, env) == Some(1) && EvalE(m, Shielded(), env) == Some(v);
    OneStatementEnds(p.funcs, base, y, Shielded(), env, 1, v);
    LostCall(base, p);
    NowhereEnds(Without(base, Deleted(p)), y, Shielded(), env);
  }

  lemma LostCall(base: Meaning, p: Program)
    requires p == CopyProgram()
    ensures Kept(p) == map[] && Deleted(p) == {User("f")}
    ensures forall n: nat, env ::
              EvalE(Within(map[], Without(base, Deleted(p)), n), FuncCall(User("f"), [Value(1)]), env) == None
    ensures forall n: nat, env :: EvalE(Within(map[], Without(base, Deleted(p)), n), Shielded(), env) == None
  {
    assert Deleted(p) == {User("f")};
    var inner := FuncCall(User("f"), [Value(1)]);
    assert [inner][1..] == [];
    forall n: nat, env
      ensures EvalE(Within(map[], Without(base, Deleted(p)), n), inner, env) == None
      ensures EvalE(Within(map[], Without(base, Deleted(p)), n), Shielded(), env) == None
    {
      var m := Within(map[], Without(base, Deleted(p)), n);
      assert forall vals, g :: m.call(User("f"), vals, g) == None;
      assert EvalE(m, inner, env) == None && EvalEs(m, [inner], env) == None;
    }
  }

  /** A call under `k` pairs of parentheses. */
  function Nested(k: nat): Expr {
    if k == 0 then FuncCall(User("f"), [Value(1)]) else Op(Paren, [Nested(k - 1)])
  }

  lemma InlineOne(p: Program, e: Expr, c: nat, depth: nat)
    requires WellFormed(p) && OkE(p.funcs, e) && InlineE(p, e, c, depth) == ExprOut(e, [], c, [])
    ensures OkEs(p.funcs, [e]) && InlineEs(p, [e], c, depth) == ExprsOut([e], [], c, [])
  {
    assert [e][1..] == [] && OkEs(p.funcs, [e]);
    var t := InlineEs(p, [e][1..], c, depth);
    assert t == ExprsOut([], [], c, []);
    assert [e] + [] == [e];
  }

  lemma {:induction false} NestedStays(c: nat, depth: nat, k: nat)
    requires WellFormed(CopyProgram())
    ensures OkE(CopyProgram().funcs, Nested(k))
    ensures depth + k + 1 > CALL_LIMIT ==>
              InlineE(CopyProgram(), Nested(k), c, depth) == ExprOut(Nested(k), [], c, [])
    decreases k
  {
    if k == 0 {
      assert [Value(1)][1..] == [] && OkEs(CopyProgram().funcs, [Value(1)]);
    } else {
      NestedStays(c, depth + 1, k - 1);
      var inner := [Nested(k - 1)];
      assert inner[1..] == [] && OkEs(CopyProgram().funcs, inner);
      if depth + k + 1 > CALL_LIMIT {
        InlineOne(CopyProgram(), Nested(k - 1), c, depth + 1);
      }
    }
  }

  lemma {:induction false} NestedEnds(base: Meaning, k: nat) returns (v: int)
    ensures EvalE(Within(CopyProgram().funcs, base, 1), Nested(k), Outside(map[])) == Some(v)
    ensures forall n: nat, env ::
              EvalE(Within(map[], Without(base, Deleted(CopyProgram())), n), Nested(k), env) == None
    decreases k
  {
    var m := Within(CopyProgram().funcs, base, 1);
    LostCall(base, CopyProgram());
    if k == 0 {
      EvalOne(m, Value(1), Outside(map[]));
      assert Users(map[]) == map[];
      CopyReturns(base, 1, 1, map[]);
      v := 1;
    } else {
      var u := NestedEnds(base, k - 1);
      EvalOne(m, Nested(k - 1), Outside(map[]));
      v := base.ops(Paren, [u]);
      forall n: nat, env
        ensures EvalE(Within(map[], Without(base, Deleted(CopyProgram())), n), Nested(k), env) == None
      {
        EvalOne(Within(map[], Without(base, Deleted(CopyProgram())), n), Nested(k - 1), env);
      }
    }
  }

  lemma {:induction false} NestedGoes(c: nat, depth: nat, k: nat)
    requires WellFormed(CopyProgram()) && depth + k + 1 <= 200
    ensures OkE(CopyProgram().funcs, Nested(k))
    ensures CallsE(InlineE(CopyProgram(), Nested(k), c, depth).e) == {}
    decreases k
  {
    NestedStays(c, depth, k);
    if k > 0 {
      NestedGoes(c, depth + 1, k - 1);
      var inner := [Nested(k - 1)];
      var t := InlineEs(CopyProgram(), inner, c, depth + 1);
      assert inner[1..] == [] && OkEs(CopyProgram().funcs, inner);
      assert t.es == [InlineE(CopyProgram(), Nested(k - 1), c, depth + 1).e];
      CallsOne(t.es[0]);
    }
  }

  /** Where the depth guard stands: the call is expanded exactly under fewer than 199 operators. */
  lemma GuardStandsAt(c: nat, k: nat)
    requires WellFormed(CopyProgram())
    ensures OkE(CopyProgram().funcs, Nested(k))
    ensures CallsE(InlineE(CopyProgram(), Nested(k), c, 1).e) == {} <==> k < 199
  {
    NestedStays(c, 1, k);
    if k < 199 {
      NestedGoes(c, 1, k);
    } else {
      NestedCalls(k);
    }
  }

  lemma {:induction false} NestedCalls(k: nat)
    ensures User("f") in CallsE(Nested(k))
  {
    if k > 0 {
      NestedCalls(k - 1);
      CallsOne(Nested(k - 1));
    }
  }

  /** So it is with a call that the depth guard leaves: one under 199 or more operators. */
  lemma GuardedIsLost(base: Meaning, c: nat, y: Symbol, k: nat)
    requires k >= 199
    ensures var (p, ss, env) := (CopyProgram(), [BlockingAssign(y, Nested(k))], Outside(map[]));
            && WellFormed(p) && OkSs(p.funcs, ss) && InlineSs(p, ss, c, 0).ss == ss && Kept(p) == map[]
            && (exists r :: EndsIn(p.funcs, base, ss, env, r))
            && forall r :: !EndsIn(Kept(p), Without(base, Deleted(p)), ss, env, r)
  {
    var (p, ss, env) := (CopyProgram(), [BlockingAssign(y, Nested(k))], Outside(map[]));
    CopyIsScoped(p.funcs);
    NestedStays(c, 1, k);
    assert ss[1..] == [];
    var v := NestedEnds(base, k);
    OneStatementEnds(p.funcs, base, y, Nested(k), env, 1, v);
    LostCall(base, p);
    NowhereEnds(Without(base, Deleted(p)), y, Nested(k), env);
  }

  // ---- a kept function that needs a deleted one ----

  /** `function f(x); int r = 0; if (x) r = f(0); else r = h(0); return r;` and `function h(a); return 1;` */
  function Helped(): Program {
    var (f, h, x, r) := (User("f"), User("h"), User("x"), User("r"));
    Program(map[f := FuncDecl([x], [Local(r, Value(0))],
                              [IfElse(Ident(x), BlockingAssign(r, FuncCall(f, [Value(0)])),
                                      BlockingAssign(r, FuncCall(h, [Value(0)])))], Ident(r)),
                h := FuncDecl([User("a")], [], [], Value(1))],
            {f})
  }

  lemma HelpedCalls()
    ensures var p := Helped();
            && CallsBody(p.funcs[User("f")]) == {User("f"), User("h")} == CallsExpansion(p.funcs[User("f")])
            && CallsExpansion(p.funcs[User("h")]) == {}
  {
    var (p, f, h) := (Helped(), User("f"), User("h"));
    var d := p.funcs[f];
    CallsOne(Value(0));
    assert d.locals[1..] == [] && d.stmts[1..] == [];
    assert CallsE(FuncCall(f, [Value(0)])) == {f} && CallsE(FuncCall(h, [Value(0)])) == {h};
    assert CallsS(d.stmts[0]) == {f, h} && CallsSs(d.stmts) == {f, h};
    assert CallsInits(d.locals) == {};
    assert CallsInits(p.funcs[h].locals) == {} && CallsSs(p.funcs[h].stmts) == {};
  }

  lemma HelpedIsDetected()
    ensures var p := Helped(); WellFormed(p) && Detected(p) && Reaches(NameGraph(p.funcs), User("f"), User("h"))
    ensures var p := Helped(); Kept(p) == map[User("f") := p.funcs[User("f")]] && Inlinable(p, User("h"))
  {
    var (p, f, h) := (Helped(), User("f"), User("h"));
    var graph := Recursion.CollectedGraph(p.funcs);
    HelpedCalls();
    var none := p.funcs[h];
    assert Edge(graph, f, f) && Edge(NameGraph(p.funcs), f, h);
    EdgeReaches(graph, f, f);
    EdgeReaches(NameGraph(p.funcs), f, h);
    forall q
      ensures !PathFromTo(graph, q, h, h)
    {
      assert |q| >= 2 ==> !Edge(graph, h, q[1]);
    }
    assert Declared(none) == [User("a")] && WellScoped(p.funcs, h);
  }

  /** The value of `f(0)` where `h` gives `v`: the kept function's body as it is run. */
  lemma HelpedReturns(m: Meaning, g: State, v: int)
    requires m.call(User("h"), [0], Users(g)) == Some(v)
    ensures CallBody(m, Helped().funcs[User("f")], [0], g) == Some(v)
  {
    var d, x, r := Helped().funcs[User("f")], User("x"), User("r");
    var start, ready := Env(g, map[x := 0]), Env(g, map[x := 0, r := 0]);
    BindOne(x, 0);
    InitOne(m, r, 0, start);
    EvalOne(m, Value(0), ready);
    assert EvalE(m, d.stmts[0].els.rhs, ready) == Some(v);
    ExecOne(m, d.stmts[0], ready);
    assert ExecS(m, d.stmts[0], ready) == Some(Write(ready, r, v));
    assert RunInits(m, d.locals, start) == Some(ready) && ExecSs(m, d.stmts, ready) == Some(Write(ready, r, v));
  }

  /**
   A kept function that needs a deleted one: no call of a deleted function is left in the statements, and
   still the original gives 1 and what is left gives whatever the deleted name falls back to, such as 0.
   */
  lemma HelperIsLost(base: Meaning, c: nat, y: Symbol, v: int)
    requires base.call(User("h"), [0], map[]) == Some(v)
    ensures var (p, env) := (Helped(), Outside(map[]));
            var ss := [BlockingAssign(y, FuncCall(User("f"), [Value(0)]))];
            && WellFormed(p) && Detected(p) && OkSs(p.funcs, ss) && InlineSs(p, ss, c, 0).ss == ss
            && CleanSs(p, ss) && !KeptNeedNoDeleted(p, ss)
            && EndsIn(p.funcs, base, ss, env, Write(env, y, 1)) && EndsIn(Kept(p), base, ss, env, Write(env, y, v))
  {
    HelpedStays(c, y);
    HelpedNeeds(y);
    HelpedRuns(base, y, v);
  }

  lemma HelpedStays(c: nat, y: Symbol)
    ensures var p := Helped();
            var ss := [BlockingAssign(y, FuncCall(User("f"), [Value(0)]))];
            WellFormed(p) && Detected(p) && OkSs(p.funcs, ss) && InlineSs(p, ss, c, 0).ss == ss
  {
    var p, call, zero := Helped(), FuncCall(User("f"), [Value(0)]), [Value(0)];
    var s := BlockingAssign(y, call);
    HelpedIsDetected();
    hide Detected, WellFormed;
    assert zero[1..] == [] && OkEs(p.funcs, zero) && OkE(p.funcs, call);
    InlineOne(p, Value(0), c, 2);
    assert InlineE(p, call, c, 1) == ExprOut(call, [], c, []);
    assert OkS(p.funcs, s) && InlineS(p, s, c, 0) == StmtOut(s, c, []);
    OneStays(p, s, c);
  }

  lemma OneStays(p: Program, s: Stmt, c: nat)
    requires WellFormed(p) && OkS(p.funcs, s) && InlineS(p, s, c, 0) == StmtOut(s, c, [])
    ensures OkSs(p.funcs, [s]) && InlineSs(p, [s], c, 0).ss == [s]
  {
    var ss := [s];
    assert ss[1..] == [] && OkSs(p.funcs, []);
    hide WellFormed, InlineS;
    assert InlineSs(p, [], c, 0).ss == [];
    assert InlineSs(p, ss, c, 0).ss == [s] + [];
  }

  lemma HelpedNeeds(y: Symbol)
    ensures var ss := [BlockingAssign(y, FuncCall(User("f"), [Value(0)]))];
            CleanSs(Helped(), ss) && !KeptNeedNoDeleted(Helped(), ss)
  {
    var p, ss := Helped(), [BlockingAssign(y, FuncCall(User("f"), [Value(0)]))];
    HelpedIsDetected();
    assert [Value(0)][1..] == [] && ss[1..] == [];
    assert CallsE(FuncCall(User("f"), [Value(0)])) == {User("f")} && CallsSs(ss) == {User("f")};
    CleanCallsSs(p, ss);
  }

  lemma HelpedRuns(base: Meaning, y: Symbol, v: int)
    requires base.call(User("h"), [0], map[]) == Some(v)
    ensures var (p, env) := (Helped(), Outside(map[]));
            var ss := [BlockingAssign(y, FuncCall(User("f"), [Value(0)]))];
            EndsIn(p.funcs, base, ss, env, Write(env, y, 1)) && EndsIn(Kept(p), base, ss, env, Write(env, y, v))
  {
    var (p, f, env) := (Helped(), User("f"), Outside(map[]));
    var call := FuncCall(f, [Value(0)]);
    assert Users(map[]) == map[];
    var m, k := Within(p.funcs, base, 2), Within(Kept(p), base, 1);
    HelperReturns(base);
    HelpedReturns(Within(p.funcs, base, 1), map[], 1);
    HelpedReturns(Within(Kept(p), base, 0), map[], v);
    assert m.call(f, [0], map[]) == Some(1) && k.call(f, [0], map[]) == Some(v);
    EvalOne(m, Value(0), env);
    EvalOne(k, Value(0), env);
    OneStatementEnds(p.funcs, base, y, call, env, 2, 1);
    OneStatementEnds(Kept(p), base, y, call, env, 1, v);
  }

  lemma HelperReturns(base: Meaning)
    ensures Within(Helped().funcs, base, 1).call(User("h"), [0], map[]) == Some(1)
  {
    var m, d := Within(Helped().funcs, base, 0), Helped().funcs[User("h")];
    var start := Env(map[], map[User("a") := 0]);
    BindOne(User("a"), 0);
    assert RunInits(m, d.locals, start) == Some(start) && ExecSs(m, d.stmts, start) == Some(start);
    assert CallBody(m, d, [0], map[]) == Some(1);
  }

  /** `function f(x); int r = 0; if (0) r = h(f(0)); return r;`, with the same `h`. */
  function Idle(): Program {
    var (f, h, x, r) := (User("f"), User("h"), User("x"), User("r"));
    Program(map[f := FuncDecl([x], [Local(r, Value(0))],
                              [IfElse(Value(0), BlockingAssign(r, FuncCall(h, [FuncCall(f, [Value(0)])])), Block([]))],
                              Ident(r)),
                h := FuncDecl([User("a")], [], [], Value(1))],
            {f})
  }

  lemma IdleCalls()
    ensures var p := Idle();
            && CallsBody(p.funcs[User("f")]) == {User("f"), User("h")} == CallsExpansion(p.funcs[User("f")])
            && CallsExpansion(p.funcs[User("h")]) == {}
  {
    var (p, f, h) := (Idle(), User("f"), User("h"));
    var d := p.funcs[f];
    CallsOne(Value(0));
    CallsOne(FuncCall(f, [Value(0)]));
    assert d.locals[1..] == [] && d.stmts[1..] == [];
    assert CallsE(FuncCall(h, [FuncCall(f, [Value(0)])])) == {f, h};
    assert CallsS(d.stmts[0]) == {f, h} && CallsSs(d.stmts) == {f, h};
    assert CallsInits(d.locals) == {};
    assert CallsInits(p.funcs[h].locals) == {} && CallsSs(p.funcs[h].stmts) == {};
  }

  lemma IdleReturns(m: Meaning, g: State)
    ensures CallBody(m, Idle().funcs[User("f")], [0], g) == Some(0)
  {
    var d, x, r := Idle().funcs[User("f")], User("x"), User("r");
    var start, ready := Env(g, map[x := 0]), Env(g, map[x := 0, r := 0]);
    BindOne(x, 0);
    InitOne(m, r, 0, start);
    ExecOne(m, d.stmts[0], ready);
    assert ExecS(m, d.stmts[0], ready) == Some(ready);
    assert RunInits(m, d.locals, start) == Some(ready) && ExecSs(m, d.stmts, ready) == Some(ready);
  }

  /** A kept function whose call of a deleted one is never run: nothing is lost, even if that call would fail. */
  lemma DeadCallIsHarmless(base: Meaning, y: Symbol)
    ensures var (p, env) := (Idle(), Outside(map[]));
            var ss := [BlockingAssign(y, FuncCall(User("f"), [Value(0)]))];
            && CleanSs(p, ss) && !KeptNeedNoDeleted(p, ss)
            && EndsIn(p.funcs, base, ss, env, Write(env, y, 0))
            && EndsIn(Kept(p), Without(base, Deleted(p)), ss, env, Write(env, y, 0))
  {
    var (p, f, h, env) := (Idle(), User("f"), User("h"), Outside(map[]));
    var call, none := FuncCall(f, [Value(0)]), Without(base, Deleted(p));
    var ss := [BlockingAssign(y, call)];
    IdleCalls();
    assert Edge(NameGraph(p.funcs), f, h);
    EdgeReaches(NameGraph(p.funcs), f, h);
    CallsOne(Value(0));
    assert ss[1..] == [] && CallsE(call) == {f} && CallsSs(ss) == {f};
    CleanCallsSs(p, ss);
    assert Users(map[]) == map[] && f in Kept(p) && Inlinable(p, h);
    IdleReturns(Within(p.funcs, base, 0), map[]);
    IdleReturns(Within(Kept(p), none, 0), map[]);
    EvalOne(Within(p.funcs, base, 1), Value(0), env);
    EvalOne(Within(Kept(p), none, 1), Value(0), env);
    OneStatementEnds(p.funcs, base, y, call, env, 1, 0);
    OneStatementEnds(Kept(p), none, y, call, env, 1, 0);
  }
}
