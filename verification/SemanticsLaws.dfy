/**
 What the statements of the inliner's language do, in terms of each other: choices, sequences, assignments, and
 what a called function finds in its formals and locals.
 */
module SemanticsLaws {
  import opened Basics
  import opened Outcomes
  import opened Syntax
  import opened Semantics

  /** The conditional operator takes its second operand exactly for a first one that is not zero. */
  ghost predicate Chooses(m: Meaning) {
    forall c, a, b :: m.ops(Ternary, [c, a, b]) == if c != 0 then a else b
  }

  lemma ThreeOperands(m: Meaning, op: Operator, c: Expr, a: Expr, b: Expr, env: Env)
    ensures var (x, y, z) := (EvalE(m, c, env), EvalE(m, a, env), EvalE(m, b, env));
            EvalE(m, Op(op, [c, a, b]), env) ==
            if x.Some? && y.Some? && z.Some? then Some(m.ops(op, [x.value, y.value, z.value])) else None
  {
    var es := [c, a, b];
    assert es[1..] == [a, b] && es[1..][1..] == [b] && es[1..][1..][1..] == [];
    assert EvalEs(m, [], env) == Some([]);
    OneOperand(m, b, env);
    var z := EvalE(m, b, env);
    assert EvalEs(m, [a, b], env) == match EvalE(m, a, env)
                                     case Some(y) => (if z.Some? then Some([y] + [z.value]) else None)
                                     case None => None by {
      assert [a, b][1..] == [b] && [a, b][0] == a;
    }
    hide EvalEs;
    assert forall x, y, z: int :: [x] + ([y] + [z]) == [x, y, z];
    ManyOperands(m, op, es, env);
    FirstOperand(m, es, env);
  }

  lemma OneOperand(m: Meaning, e: Expr, env: Env)
    ensures EvalEs(m, [e], env) == match EvalE(m, e, env) case Some(v) => Some([v]) case None => None
  {
    assert [e][1..] == [] && EvalEs(m, [], env) == Some([]);
    assert forall v: int :: [v] + [] == [v];
    var es := [e];
    FirstOperand(m, es, env);
  }

  lemma FirstOperand(m: Meaning, es: seq<Expr>, env: Env)
    requires es != []
    ensures EvalEs(m, es, env) ==
            match EvalE(m, es[0], env)
            case Some(v) => (match EvalEs(m, es[1..], env) case Some(vs) => Some([v] + vs) case None => None)
            case None => None
  {
  }

  lemma ManyOperands(m: Meaning, op: Operator, es: seq<Expr>, env: Env)
    ensures EvalE(m, Op(op, es), env) == match EvalEs(m, es, env) case Some(vs) => Some(m.ops(op, vs)) case None => None
  {
  }

  /** `if (c) x = a; else x = b;` is `x = c ? a : b;` where both values exist. */
  lemma IfIsChoice(m: Meaning, c: Expr, x: Symbol, a: Expr, b: Expr, env: Env)
    requires Chooses(m) && EvalE(m, a, env).Some? && EvalE(m, b, env).Some?
    ensures ExecS(m, IfElse(c, BlockingAssign(x, a), BlockingAssign(x, b)), env)
            == ExecS(m, BlockingAssign(x, Op(Ternary, [c, a, b])), env)
  {
    ThreeOperands(m, Ternary, c, a, b, env);
    AssignIs(m, x, a, env);
    AssignIs(m, x, b, env);
    AssignIs(m, x, Op(Ternary, [c, a, b]), env);
    hide EvalE, Write;
    assert ExecS(m, IfElse(c, BlockingAssign(x, a), BlockingAssign(x, b)), env) ==
           match EvalE(m, c, env)
           case Some(v) => ExecS(m, if v != 0 then BlockingAssign(x, a) else BlockingAssign(x, b), env)
           case None => None;
  }

  lemma AssignIs(m: Meaning, x: Symbol, e: Expr, env: Env)
    ensures ExecS(m, BlockingAssign(x, e), env) ==
            match EvalE(m, e, env) case Some(v) => Some(Write(env, x, v)) case None => None
  {
  }

  /** A sequence runs its second part where the first one ends; a block is its statements. */
  lemma {:induction false} SequenceIs(m: Meaning, a: seq<Stmt>, b: seq<Stmt>, env: Env)
    ensures ExecSs(m, a + b, env) ==
            match ExecSs(m, a, env) case Some(next) => ExecSs(m, b, next) case None => None
    ensures ExecS(m, Block(a), env) == ExecSs(m, a, env)
  {
    if a == [] {
      assert a + b == b;
    } else {
      assert (a + b)[0] == a[0] && (a + b)[1..] == a[1..] + b;
      var next := ExecS(m, a[0], env);
      if next.Some? {
        SequenceIs(m, a[1..], b, next.value);
      }
    }
  }

  /** An assigned name has the value, and no other changes; a name of the running function's hides the module's. */
  lemma AssignedIsRead(m: Meaning, x: Symbol, e: Expr, env: Env, y: Symbol)
    requires EvalE(m, e, env).Some?
    ensures var r := ExecS(m, BlockingAssign(x, e), env);
            && r.Some? && Look(r.value, x) == EvalE(m, e, env).value && (y != x ==> Look(r.value, y) == Look(env, y))
            && (if x in env.frame then r.value.globals == env.globals else r.value.frame == env.frame)
  {
    AssignIs(m, x, e, env);
  }

  /** Each formal holds the argument at its place. */
  lemma {:induction false} FormalsHold(formals: seq<Symbol>, vals: seq<int>, i: nat)
    requires |formals| == |vals| && Distinct(formals) && i < |formals|
    ensures formals[i] in BindFormals(formals, vals) && BindFormals(formals, vals)[formals[i]] == vals[i]
  {
    if i > 0 {
      assert formals[i] == formals[1..][i - 1] && vals[i] == vals[1..][i - 1];
      FormalsHold(formals[1..], vals[1..], i - 1);
    }
  }

  /** A function that returns a formal gives the argument; one that returns a local gives its initialiser's value. */
  lemma CallGives(m: Meaning, formals: seq<Symbol>, vals: seq<int>, i: nat, x: Symbol, e: Expr, g: State)
    requires |formals| == |vals| && Distinct(formals) && i < |formals|
    ensures CallBody(m, FuncDecl(formals, [], [], Ident(formals[i])), vals, g) == Some(vals[i])
    ensures CallBody(m, FuncDecl(formals, [Local(x, e)], [], Ident(x)), vals, g)
            == EvalE(m, e, Env(g, BindFormals(formals, vals)))
  {
    FormalsHold(formals, vals, i);
    var env := Env(g, BindFormals(formals, vals));
    OneInit(m, x, e, env);
    assert RunInits(m, [], env) == Some(env);
    hide BindFormals;
  }

  lemma OneInit(m: Meaning, x: Symbol, e: Expr, env: Env)
    ensures RunInits(m, [Local(x, e)], env) ==
            match EvalE(m, e, env) case Some(v) => Some(env.(frame := env.frame[x := v])) case None => None
  {
    var ls := [Local(x, e)];
    assert ls[1..] == [];
  }

  /** Locals are initialised in order, the later ones in the frame the earlier ones leave. */
  lemma {:induction false} LocalsInOrder(m: Meaning, a: seq<Local>, b: seq<Local>, env: Env)
    ensures RunInits(m, a + b, env) == match RunInits(m, a, env) case Some(next) => RunInits(m, b, next) case None => None
  {
    if a == [] {
      assert a + b == b;
    } else {
      assert (a + b)[0] == a[0] && (a + b)[1..] == a[1..] + b;
      var v := EvalE(m, a[0].init, env);
      if v.Some? {
        LocalsInOrder(m, a[1..], b, env.(frame := env.frame[a[0].name := v.value]));
      }
    }
  }

  /** A called function sees the module's original variables, with their values, and nothing else. */
  lemma CalleeSees(st: State, x: Symbol)
    ensures Get(Users(st), x) == if x.User? then Get(st, x) else 0
  {
  }

  /** The body runs after the initialisers, and the result is evaluated where it ends. */
  lemma CallRunsBody(m: Meaning, d: FuncDecl, vals: seq<int>, g: State, s: Stmt)
    requires |vals| == |d.formals|
    ensures var ready := RunInits(m, d.locals, Env(g, BindFormals(d.formals, vals)));
            ready.Some? && ExecSs(m, d.stmts, ready.value).Some? ==>
              CallBody(m, d.(stmts := d.stmts + [s]), vals, g) ==
              match ExecS(m, s, ExecSs(m, d.stmts, ready.value).value)
              case Some(done) => EvalE(m, d.ret, done)
              case None => None
  {
    var ready := RunInits(m, d.locals, Env(g, BindFormals(d.formals, vals)));
    if ready.Some? {
      SequenceIs(m, d.stmts, [s], ready.value);
      var done := ExecSs(m, d.stmts, ready.value);
      if done.Some? {
        OneStatement(m, s, done.value);
      }
    }
    hide ExecSs, ExecS, EvalE, RunInits, BindFormals;
  }

  lemma OneStatement(m: Meaning, s: Stmt, env: Env)
    ensures ExecSs(m, [s], env) == ExecS(m, s, env)
  {
    assert [s][1..] == [];
  }
}
