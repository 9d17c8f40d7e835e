/**
 What the statements of package functions do, in terms of each other: choices, sequences, the three loops, assigned
 names and elements, parameters and locals.
 */
module FuncLaws {
  import opened Basics
  import opened Outcomes
  import opened ConstSyntax
  import opened ExtEval
  import opened ConstFunc
  import XL = ExtLaws

  // ---- choices and sequences ----

  /** `if (c) return a; else return b;` is `return c ? a : b;`. */
  lemma IfReturnIsChoice(c: Expr, a: Expr, b: Expr, env: Env, cur: Option<string>, call: Callee, turns: nat)
    ensures Exec(IfElse(c, Return(Some(a)), Some(Return(Some(b)))), env, cur, call, turns)
            == Exec(Return(Some(Ternary(c, a, b))), env, cur, call, turns)
  {
    ReturnIs(a, env, cur, call, turns);
    ReturnIs(b, env, cur, call, turns);
    ReturnIs(Ternary(c, a, b), env, cur, call, turns);
    ChoiceIs(c, a, b, env, cur, call);
    hide Eval;
  }

  lemma ChoiceIs(c: Expr, a: Expr, b: Expr, env: Env, cur: Option<string>, call: Callee)
    ensures Eval(Ternary(c, a, b), env, cur, call) ==
            match EvalScalar(c, env, cur, call)
            case Ok(n) => Eval(if n != 0 then a else b, env, cur, call)
            case Err => Err
  {
    var v := Eval(c, env, cur, call);
    if v.Ok? && v.value.Scalar? {
      XL.ChoiceIs(c, a, b, env, cur, call, v.value.n);
    }
  }

  /** A return gives the scalar value of its expression, or 0 without one, and leaves the tables. */
  lemma ReturnIs(e: Expr, env: Env, cur: Option<string>, call: Callee, turns: nat)
    ensures Exec(Return(Some(e)), env, cur, call, turns) ==
            match Eval(e, env, cur, call)
            case Ok(Scalar(n)) => Ok(Flow(env, Some(n)))
            case _ => Err
    ensures Exec(Return(None), env, cur, call, turns) == Ok(Flow(env, Some(0)))
  {
    hide Eval;
  }

  /** `if` runs its first statement exactly for a condition that is not zero, and nothing if there is no second. */
  lemma IfIs(c: Expr, thn: Stmt, els: Option<Stmt>, env: Env, cur: Option<string>, call: Callee, turns: nat, n: int)
    requires Eval(c, env, cur, call) == Ok(Scalar(n))
    ensures n != 0 ==> Exec(IfElse(c, thn, els), env, cur, call, turns) == Exec(thn, env, cur, call, turns)
    ensures n == 0 ==> Exec(IfElse(c, thn, els), env, cur, call, turns)
                       == Exec(if els.Some? then els.value else Null, env, cur, call, turns)
  {
    hide Eval;
  }

  /** A sequence runs the second part in the tables the first leaves, unless the first fails or returns. */
  lemma {:induction false} SequenceIs(a: seq<Stmt>, b: seq<Stmt>, env: Env, cur: Option<string>, call: Callee, turns: nat)
    ensures var r := ExecAll(a, env, cur, call, turns);
            ExecAll(a + b, env, cur, call, turns) ==
            if r.Ok? && r.value.returned.None? then ExecAll(b, r.value.env, cur, call, turns) else r
  {
    if a == [] {
      assert a + b == b;
    } else {
      assert (a + b)[0] == a[0] && (a + b)[1..] == a[1..] + b;
      var first := Exec(a[0], env, cur, call, turns);
      hide Exec;
      if first.Ok? && first.value.returned.None? {
        SequenceIs(a[1..], b, first.value.env, cur, call, turns);
      }
    }
  }

  /** A block is its statements, and one statement is itself. */
  lemma OneIs(s: Stmt, env: Env, cur: Option<string>, call: Callee, turns: nat)
    ensures ExecAll([s], env, cur, call, turns) == Exec(s, env, cur, call, turns)
    ensures Exec(Block([s]), env, cur, call, turns) == Exec(s, env, cur, call, turns)
  {
    var ss := [s];
    assert ss[0] == s && ss[1..] == [];
    var r := Exec(s, env, cur, call, turns);
    assert r.Ok? ==> ExecAll([], r.value.env, cur, call, turns) == Ok(Flow(r.value.env, None));
    assert ExecAll(ss, env, cur, call, turns) == if r.Ok? then Ok(r.value) else Err;
  }

  // ---- loops ----

  /** A loop that ends within its turns does the same with one more. */
  lemma {:induction false} MoreTurns(s: Stmt, env: Env, cur: Option<string>, call: Callee, turns: nat, left: nat)
    requires (s.LoopFor? || s.LoopWhile?) && Loop(s, env, cur, call, turns, left).Ok?
    ensures Loop(s, env, cur, call, turns, left + 1) == Loop(s, env, cur, call, turns, left)
    decreases left
  {
    hide LoopGoesOn, ExecAll, ExecHeader;
    if LoopGoesOn(s, env, cur, call).value {
      var flow := ExecAll(s.body, env, cur, call, turns).value;
      if flow.returned.None? {
        var next := if s.LoopFor? then ExecHeader(s.step, flow.env, cur, call, turns).value else flow.env;
        MoreTurns(s, next, cur, call, turns, left - 1);
      }
    }
  }

  /**
   `while (c) b` unrolls: `if (c) { b; while (c) b }` is the loop with one more turn to go, and so the loop itself
   wherever that ends.
   */
  lemma WhileUnrolls(c: Expr, b: seq<Stmt>, env: Env, cur: Option<string>, call: Callee, turns: nat)
    ensures var (w, r) := (LoopWhile(c, b), Exec(IfElse(c, Block(b + [LoopWhile(c, b)]), None), env, cur, call, turns));
            && r == Loop(w, env, cur, call, turns, turns + 1)
            && (Exec(w, env, cur, call, turns).Ok? ==> r == Exec(w, env, cur, call, turns))
  {
    var w := LoopWhile(c, b);
    var flow := ExecAll(b, env, cur, call, turns);
    SequenceIs(b, [w], env, cur, call, turns);
    if flow.Ok? && flow.value.returned.None? {
      OneIs(w, flow.value.env, cur, call, turns);
    }
    WhileTurn(c, b, env, cur, call, turns, turns);
    WhileIs(w, env, cur, call, turns);
    if flow.Ok? {
      WhileIs(w, flow.value.env, cur, call, turns);
    }
    var body := Block(b + [w]);
    assert Exec(body, env, cur, call, turns) == ExecAll(b + [w], env, cur, call, turns);
    IfOnly(c, body, env, cur, call, turns);
    if Exec(w, env, cur, call, turns).Ok? {
      MoreTurns(w, env, cur, call, turns, turns);
    }
    hide *;
  }

  lemma IfOnly(c: Expr, thn: Stmt, env: Env, cur: Option<string>, call: Callee, turns: nat)
    ensures Exec(IfElse(c, thn, None), env, cur, call, turns) ==
            match EvalScalar(c, env, cur, call)
            case Ok(n) => if n != 0 then Exec(thn, env, cur, call, turns) else Ok(Flow(env, None))
            case Err => Err
  {
    hide EvalScalar;
  }

  lemma WhileIs(s: Stmt, env: Env, cur: Option<string>, call: Callee, turns: nat)
    requires s.LoopWhile?
    ensures Exec(s, env, cur, call, turns) == Loop(s, env, cur, call, turns, turns)
  {
    hide Loop;
  }

  lemma WhileTurn(c: Expr, b: seq<Stmt>, env: Env, cur: Option<string>, call: Callee, turns: nat, left: nat)
    ensures Loop(LoopWhile(c, b), env, cur, call, turns, left + 1) ==
            match EvalScalar(c, env, cur, call)
            case Err => Err
            case Ok(n) =>
              if n == 0 then Ok(Flow(env, None))
              else
                var flow := ExecAll(b, env, cur, call, turns);
                if flow.Ok? && flow.value.returned.None?
                then Loop(LoopWhile(c, b), flow.value.env, cur, call, turns, left)
                else flow
  {
    hide EvalScalar, ExecAll;
    assert LoopGoesOn(LoopWhile(c, b), env, cur, call) ==
           match EvalScalar(c, env, cur, call) case Ok(n) => Ok(n != 0) case Err => Err;
  }

  /** A loop that ends without a return ends where its condition is 0. */
  lemma {:induction false} LoopEnds(s: Stmt, env: Env, cur: Option<string>, call: Callee, turns: nat, left: nat)
    requires s.LoopFor? || s.LoopWhile?
    requires Loop(s, env, cur, call, turns, left).Ok? && Loop(s, env, cur, call, turns, left).value.returned.None?
    ensures var last := Loop(s, env, cur, call, turns, left).value.env;
            if s.LoopWhile? then EvalScalar(s.cond, last, cur, call) == Ok(0)
            else s.until.Some? && EvalScalar(s.until.value, last, cur, call) == Ok(0)
    decreases left
  {
    hide EvalScalar, ExecAll, ExecHeader;
    if LoopGoesOn(s, env, cur, call).value {
      var flow := ExecAll(s.body, env, cur, call, turns).value;
      var next := if s.LoopFor? then ExecHeader(s.step, flow.env, cur, call, turns).value else flow.env;
      LoopEnds(s, next, cur, call, turns, left - 1);
    }
  }

  /** Two loops go on alike and turn alike, wherever they are. */
  ghost predicate TurnAlike(s: Stmt, t: Stmt, cur: Option<string>, call: Callee, turns: nat)
    requires (s.LoopFor? || s.LoopWhile?) && (t.LoopFor? || t.LoopWhile?)
  {
    forall env ::
      && LoopGoesOn(s, env, cur, call) == LoopGoesOn(t, env, cur, call)
      && Turn(s, env, cur, call, turns) == Turn(t, env, cur, call, turns)
  }

  lemma LoopByTurns(s: Stmt, env: Env, cur: Option<string>, call: Callee, turns: nat, left: nat)
    requires s.LoopFor? || s.LoopWhile?
    ensures var (more, turn) := (LoopGoesOn(s, env, cur, call), Turn(s, env, cur, call, turns));
            Loop(s, env, cur, call, turns, left) ==
            if more.Err? then Err
            else if !more.value then Ok(Flow(env, None))
            else if left == 0 || turn.Err? then Err
            else if turn.value.returned.Some? then turn
            else Loop(s, turn.value.env, cur, call, turns, left - 1)
  {
    hide LoopGoesOn, ExecAll, ExecHeader;
  }

  lemma {:induction false} AlikeLoops(s: Stmt, t: Stmt, env: Env, cur: Option<string>, call: Callee, turns: nat, left: nat)
    requires (s.LoopFor? || s.LoopWhile?) && (t.LoopFor? || t.LoopWhile?) && TurnAlike(s, t, cur, call, turns)
    ensures Loop(s, env, cur, call, turns, left) == Loop(t, env, cur, call, turns, left)
    decreases left
  {
    LoopByTurns(s, env, cur, call, turns, left);
    LoopByTurns(t, env, cur, call, turns, left);
    hide Loop, Turn, LoopGoesOn;
    var turn := Turn(s, env, cur, call, turns);
    if left > 0 && turn.Ok? {
      AlikeLoops(s, t, turn.value.env, cur, call, turns, left - 1);
    }
  }

  /** A missing part of a loop header does nothing, and a missing condition is 1. */
  lemma ForDefaults(init: Option<Stmt>, until: Option<Expr>, step: Option<Stmt>, b: seq<Stmt>,
                    env: Env, cur: Option<string>, call: Callee, turns: nat)
    ensures Exec(LoopFor(init, until, None, b), env, cur, call, turns)
            == Exec(LoopFor(init, until, Some(Null), b), env, cur, call, turns)
    ensures Exec(LoopFor(init, None, step, b), env, cur, call, turns)
            == Exec(LoopFor(init, Some(Decimal(1)), step, b), env, cur, call, turns)
    ensures Exec(LoopFor(None, until, step, b), env, cur, call, turns)
            == Exec(LoopFor(Some(Null), until, step, b), env, cur, call, turns)
  {
    var s, t := LoopFor(init, until, None, b), LoopFor(init, until, Some(Null), b);
    var u, v := LoopFor(init, None, step, b), LoopFor(init, Some(Decimal(1)), step, b);
    var w, x := LoopFor(None, until, step, b), LoopFor(Some(Null), until, step, b);
    MissingParts(init, until, step, b, cur, call, turns);
    ForIs(s, env, cur, call, turns);
    ForIs(t, env, cur, call, turns);
    ForIs(u, env, cur, call, turns);
    ForIs(v, env, cur, call, turns);
    ForIs(w, env, cur, call, turns);
    ForIs(x, env, cur, call, turns);
    assert ExecHeader(None, env, cur, call, turns) == ExecHeader(Some(Null), env, cur, call, turns) == Ok(env);
    AlikeLoops(w, x, env, cur, call, turns, turns);
    var start := ExecHeader(init, env, cur, call, turns);
    hide Exec, Loop, TurnAlike, ExecHeader;
    if start.Ok? {
      AlikeLoops(s, t, start.value, cur, call, turns, turns);
      AlikeLoops(u, v, start.value, cur, call, turns, turns);
    }
  }

  lemma MissingParts(init: Option<Stmt>, until: Option<Expr>, step: Option<Stmt>, b: seq<Stmt>,
                     cur: Option<string>, call: Callee, turns: nat)
    ensures TurnAlike(LoopFor(init, until, None, b), LoopFor(init, until, Some(Null), b), cur, call, turns)
    ensures TurnAlike(LoopFor(init, None, step, b), LoopFor(init, Some(Decimal(1)), step, b), cur, call, turns)
    ensures TurnAlike(LoopFor(None, until, step, b), LoopFor(Some(Null), until, step, b), cur, call, turns)
  {
    hide ExecAll, Eval;
    forall env
      ensures EvalScalar(Decimal(1), env, cur, call) == Ok(1)
    {
      XL.DecimalIs(1, env, cur, call);
    }
  }

  lemma ForIs(s: Stmt, env: Env, cur: Option<string>, call: Callee, turns: nat)
    requires s.LoopFor?
    ensures Exec(s, env, cur, call, turns) ==
            match ExecHeader(s.init, env, cur, call, turns)
            case Ok(start) => Loop(s, start, cur, call, turns, turns)
            case Err => Err
  {
    hide Loop, ExecHeader;
  }

  /** `for (init; c; step) b` is `init; while (c) { b; step }`, if neither part of the header returns. */
  lemma ForIsWhile(init: Stmt, c: Expr, step: Stmt, b: seq<Stmt>, env: Env, cur: Option<string>, call: Callee, turns: nat)
    requires !MayReturn(init) && !MayReturn(step)
    ensures Exec(LoopFor(Some(init), Some(c), Some(step), b), env, cur, call, turns)
            == ExecAll([init, LoopWhile(c, b + [step])], env, cur, call, turns)
  {
    var s, w := LoopFor(Some(init), Some(c), Some(step), b), LoopWhile(c, b + [step]);
    ForIs(s, env, cur, call, turns);
    assert [init, w] == [init] + [w];
    SequenceIs([init], [w], env, cur, call, turns);
    OneIs(init, env, cur, call, turns);
    var first := Exec(init, env, cur, call, turns);
    assert ExecHeader(Some(init), env, cur, call, turns) == if first.Ok? then Ok(first.value.env) else Err;
    if first.Ok? {
      NoReturn(init, env, cur, call, turns);
      OneIs(w, first.value.env, cur, call, turns);
      WhileIs(w, first.value.env, cur, call, turns);
      StepInBody(s, cur, call, turns);
      AlikeLoops(s, w, first.value.env, cur, call, turns, turns);
    }
    hide *;
  }

  lemma StepInBody(s: Stmt, cur: Option<string>, call: Callee, turns: nat)
    requires s.LoopFor? && s.until.Some? && s.step.Some? && !MayReturn(s.step.value)
    ensures TurnAlike(s, LoopWhile(s.until.value, s.body + [s.step.value]), cur, call, turns)
  {
    var w := LoopWhile(s.until.value, s.body + [s.step.value]);
    forall env
      ensures LoopGoesOn(s, env, cur, call) == LoopGoesOn(w, env, cur, call)
      ensures Turn(s, env, cur, call, turns) == Turn(w, env, cur, call, turns)
    {
      SequenceIs(s.body, [s.step.value], env, cur, call, turns);
      var flow := ExecAll(s.body, env, cur, call, turns);
      if flow.Ok? {
        OneIs(s.step.value, flow.value.env, cur, call, turns);
        if Exec(s.step.value, flow.value.env, cur, call, turns).Ok? {
          NoReturn(s.step.value, flow.value.env, cur, call, turns);
        }
      }
      hide ExecAll, Exec, MayReturn, EvalScalar;
    }
  }

  /** A return in a loop header is ignored. */
  lemma HeaderReturnIgnored(until: Option<Expr>, b: seq<Stmt>, env: Env, cur: Option<string>, call: Callee, turns: nat)
    ensures Exec(LoopFor(Some(Return(None)), until, Some(Return(None)), b), env, cur, call, turns)
            == Exec(LoopFor(None, until, None, b), env, cur, call, turns)
  {
    var s, t := LoopFor(Some(Return(None)), until, Some(Return(None)), b), LoopFor(None, until, None, b);
    ForIs(s, env, cur, call, turns);
    ForIs(t, env, cur, call, turns);
    hide ExecAll, Eval;
    assert TurnAlike(s, t, cur, call, turns);
    AlikeLoops(s, t, env, cur, call, turns, turns);
  }

  // ---- repetition ----

  lemma {:induction false} TimesForgetsCount(c: Expr, d: Expr, b: seq<Stmt>, env: Env, cur: Option<string>, call: Callee,
                                             turns: nat, n: nat)
    ensures Times(Repeat(c, b), env, cur, call, turns, n) == Times(Repeat(d, b), env, cur, call, turns, n)
    decreases n
  {
    hide ExecAll;
    if n > 0 {
      var flow := ExecAll(b, env, cur, call, turns);
      if flow.Ok? {
        TimesForgetsCount(c, d, b, flow.value.env, cur, call, turns, n - 1);
      }
    }
  }

  lemma RepeatIs(c: Expr, b: seq<Stmt>, env: Env, cur: Option<string>, call: Callee, turns: nat, n: int)
    requires Eval(c, env, cur, call) == Ok(Scalar(n))
    ensures Exec(Repeat(c, b), env, cur, call, turns) ==
            Times(Repeat(c, b), env, cur, call, turns, if n > 0 then n else 0)
  {
    hide Eval, Times;
  }

  /** `repeat (n) b` is `b` and then `repeat (n - 1) b`, and nothing for a count that is not positive. */
  lemma RepeatUnrolls(c: Expr, b: seq<Stmt>, env: Env, cur: Option<string>, call: Callee, turns: nat, n: int)
    requires Eval(c, env, cur, call) == Ok(Scalar(n))
    ensures Exec(Repeat(c, b), env, cur, call, turns) ==
            if n > 0 then ExecAll(b + [Repeat(Decimal(n - 1), b)], env, cur, call, turns) else Ok(Flow(env, None))
  {
    RepeatIs(c, b, env, cur, call, turns, n);
    if n > 0 {
      var s, rest := Repeat(c, b), Repeat(Decimal(n - 1), b);
      SequenceIs(b, [rest], env, cur, call, turns);
      var flow := ExecAll(b, env, cur, call, turns);
      assert Times(s, env, cur, call, turns, n) ==
             if flow.Err? || flow.value.returned.Some? then flow else Times(s, flow.value.env, cur, call, turns, n - 1);
      hide Times, ExecAll, Exec, Eval;
      if flow.Ok? {
        OneIs(rest, flow.value.env, cur, call, turns);
        XL.DecimalIs(n - 1, flow.value.env, cur, call);
        RepeatIs(Decimal(n - 1), b, flow.value.env, cur, call, turns, n - 1);
        TimesForgetsCount(c, Decimal(n - 1), b, flow.value.env, cur, call, turns, n - 1);
      }
    }
  }

  // ---- names ----

  /** The tables differ in what they hold under one plain name, at most. */
  ghost predicate SameBut(a: Env, b: Env, x: string) {
    forall k :: k != Plain(x) ==> a.Lookup(k) == b.Lookup(k)
  }

  /**
   An assignment stores a scalar, or an array opened up unless a scalar of the name hides it, under the plain name, and
   nothing else; a struct is not stored.
   */
  lemma AssignIs(x: string, e: Expr, env: Env, cur: Option<string>, call: Callee, turns: nat, v: CVal)
    requires Eval(e, env, cur, call) == Ok(v)
    ensures var r := Exec(Assign(x, e), env, cur, call, turns);
            && r.Ok? && r.value.returned == None && SameBut(r.value.env, env, x)
            && (v.Scalar? ==> r.value.env.Lookup(Plain(x)) == Some(v))
            && (v.Array? && Plain(x) !in env.scalars ==>
                  r.value.env.Lookup(Plain(x)) == Some(Array(Scalars(Flatten(v.elems)))))
            && (v.Struct? ==> r.value.env == env)
  {
    hide Eval, Scalars, Flatten;
  }

  /** The package has no constant of this name, or one of this value. */
  ghost predicate NotShadowed(x: string, env: Env, cur: Option<string>, n: int) {
    cur.Some? ==> env.Lookup(Qual(cur.value, x)) in {None, Some(Scalar(n))}
  }

  lemma PlainIsRead(x: string, env: Env, cur: Option<string>, call: Callee, turns: nat, n: int)
    requires env.Lookup(Plain(x)) == Some(Scalar(n))
    ensures Exec(Return(Some(Ident(x))), env, cur, call, turns) == Ok(Flow(env, Some(n))) <==> NotShadowed(x, env, cur, n)
  {
    ReturnIs(Ident(x), env, cur, call, turns);
    assert Eval(Ident(x), env, cur, call) == LookupIdent(x, env, cur);
    hide Eval, Exec;
  }

  /** A name assigned and then returned gives the assigned value exactly where no constant of the package has the name. */
  lemma AssignThenRead(x: string, e: Expr, env: Env, cur: Option<string>, call: Callee, turns: nat, n: int)
    requires Eval(e, env, cur, call) == Ok(Scalar(n))
    ensures var r := ExecAll([Assign(x, e), Return(Some(Ident(x)))], env, cur, call, turns);
            r.Ok? && r.value.returned == Some(n) <==> NotShadowed(x, env, cur, n)
  {
    var first, last := Assign(x, e), Return(Some(Ident(x)));
    AssignIs(x, e, env, cur, call, turns, Scalar(n));
    var next := Exec(first, env, cur, call, turns).value.env;
    assert [first, last] == [first] + [last];
    SequenceIs([first], [last], env, cur, call, turns);
    OneIs(first, env, cur, call, turns);
    OneIs(last, next, cur, call, turns);
    PlainIsRead(x, next, cur, call, turns, n);
    ReturnIs(Ident(x), next, cur, call, turns);
    hide Exec, ExecAll, Eval;
    assert cur.Some? ==> next.Lookup(Qual(cur.value, x)) == env.Lookup(Qual(cur.value, x));
  }

  /** An element assigned within a known array changes, the others keep their values, and elsewhere nothing happens. */
  lemma AssignElemIs(x: string, index: Expr, e: Expr, env: Env, cur: Option<string>, call: Callee, turns: nat, i: int, v: CVal)
    requires Eval(e, env, cur, call) == Ok(v) && Eval(index, env, cur, call) == Ok(Scalar(i))
    ensures var r := Exec(AssignElem(x, index, e), env, cur, call, turns);
            if Plain(x) in env.arrays && 0 <= i < |env.arrays[Plain(x)]| then
              && (r.Ok? <==> v.Scalar?)
              && (r.Ok? ==>
                    && r.value.returned == None && SameBut(r.value.env, env, x)
                    && r.value.env.scalars == env.scalars && Plain(x) in r.value.env.arrays
                    && var (a, b) := (env.arrays[Plain(x)], r.value.env.arrays[Plain(x)]);
                       |b| == |a| && b[i] == v.n && forall j :: 0 <= j < |a| && j != i ==> b[j] == a[j])
            else r == Ok(Flow(env, None))
  {
    hide Eval, Scalars;
  }

  /** A null statement does nothing, an expression standing alone can only fail, other statements fail. */
  lemma IdleStatements(e: Expr, env: Env, cur: Option<string>, call: Callee, turns: nat)
    ensures Exec(Null, env, cur, call, turns) == Ok(Flow(env, None))
    ensures Exec(AssignOther(e), env, cur, call, turns) == if Eval(e, env, cur, call).Ok? then Ok(Flow(env, None)) else Err
    ensures Exec(Unsupported, env, cur, call, turns) == Err
  {
    hide Eval;
  }

  // ---- calls ----

  /** Each port holds the value of the argument at its place, evaluated in the caller's tables; other names are as they were. */
  lemma {:induction false} PortsAreBound(ports: seq<string>, args: seq<Expr>, vals: seq<int>, env: Env, local: Env,
                                         cur: Option<string>, call: Callee)
    requires Distinct(ports) && |vals| <= |ports| && |vals| <= |args| && (|vals| == |ports| || |vals| == |args|)
    requires forall i :: 0 <= i < |vals| ==> Eval(args[i], env, cur, call) == Ok(Scalar(vals[i]))
    ensures var r := BindPorts(ports, args, env, local, cur, call);
            && r.Ok? && r.value.arrays == local.arrays && r.value.structs == local.structs
            && (forall i :: 0 <= i < |vals| ==> r.value.Lookup(Plain(ports[i])) == Some(Scalar(vals[i])))
            && (forall k: Key :: (k.Plain? ==> k.name !in ports[..|vals|]) ==> r.value.Lookup(k) == local.Lookup(k))
    decreases |ports|
  {
    if vals != [] {
      var next := Bind(local, ports[0], Scalar(vals[0]));
      BindStep(ports, args, env, local, cur, call, vals[0]);
      hide BindPorts, Eval, Bind, Env.Lookup;
      assert forall i :: 0 <= i < |vals| - 1 ==> args[1..][i] == args[i + 1] && vals[1..][i] == vals[i + 1];
      PortsAreBound(ports[1..], args[1..], vals[1..], env, next, cur, call);
      DistinctTail(ports, |vals|);
    } else {
      assert BindPorts(ports, args, env, local, cur, call) == Ok(local);
    }
  }

  lemma BindStep(ports: seq<string>, args: seq<Expr>, env: Env, local: Env, cur: Option<string>, call: Callee, n: int)
    requires ports != [] && args != [] && Eval(args[0], env, cur, call) == Ok(Scalar(n))
    ensures var next := Bind(local, ports[0], Scalar(n));
            && BindPorts(ports, args, env, local, cur, call) == BindPorts(ports[1..], args[1..], env, next, cur, call)
            && next.arrays == local.arrays && next.structs == local.structs
            && next.Lookup(Plain(ports[0])) == Some(Scalar(n))
            && forall k :: k != Plain(ports[0]) ==> next.Lookup(k) == local.Lookup(k)
  {
    hide Eval, Scalars;
  }

  lemma DistinctTail(ports: seq<string>, n: nat)
    requires Distinct(ports) && 1 <= n <= |ports|
    ensures Distinct(ports[1..]) && ports[0] !in ports[1..][..n - 1]
    ensures forall i :: 0 < i < n ==> ports[i] == ports[1..][i - 1]
    ensures forall x :: x in ports[..n] <==> x == ports[0] || x in ports[1..][..n - 1]
  {
    assert ports[..n] == [ports[0]] + ports[1..][..n - 1];
  }

  /** A function that returns one of its ports gives the argument's value; and calls one level deeper than allowed fail. */
  lemma CallReturnsArgument(lib: Library, limits: Limits, depth: nat, f: string, args: seq<Expr>, vals: seq<int>, i: nat,
                            env: Env, cur: Option<string>)
    requires f in lib && lib[f].locals == [] && Distinct(lib[f].ports) && i < |lib[f].ports|
    requires lib[f].stmts == [Return(Some(Ident(lib[f].ports[i])))]
    requires |vals| == |args| == |lib[f].ports|
    requires forall j :: 0 <= j < |vals| ==> Eval(args[j], env, cur, CalleeAt(lib, limits, depth + 1)) == Ok(Scalar(vals[j]))
    requires cur.Some? ==> env.Lookup(Qual(cur.value, lib[f].ports[i])).None?
    ensures CallAt(lib, limits, depth, f, args, env, cur) == if depth <= limits.depth then Ok(Scalar(vals[i])) else Err
  {
    if depth <= limits.depth {
      var call, x := CalleeAt(lib, limits, depth + 1), lib[f].ports[i];
      PortsAreBound(lib[f].ports, args, vals, env, env, cur, call);
      var bound := BindPorts(lib[f].ports, args, env, env, cur, call).value;
      var local := bound.(structs := map[]);
      assert DeclareLocals([], bound, cur, call) == bound;
      var s := Return(Some(Ident(x)));
      OneIs(s, local, cur, call, limits.turns);
      assert local.Lookup(Plain(x)) == Some(Scalar(vals[i]));
      assert cur.Some? ==> bound.Lookup(Qual(cur.value, x)) == env.Lookup(Qual(cur.value, x));
      PlainIsRead(x, local, cur, call, limits.turns, vals[i]);
      hide Exec, ExecAll, Eval, BindPorts, DeclareLocals, CalleeAt, Scalars;
    }
  }

  /**
   A local starts with its initialiser's value, evaluated after the locals before it; one that fails leaves what the
   name held; an array without one starts empty.
   */
  lemma {:induction false} LocalsAre(ls: seq<Local>, l: Local, env: Env, cur: Option<string>, call: Callee)
    ensures var (before, after) := (DeclareLocals(ls, env, cur, call), DeclareLocals(ls + [l], env, cur, call));
            && SameBut(after, before, l.name)
            && (l.init.Some? ==>
                  && (Eval(l.init.value, before, cur, call).Err? ==> after == before)
                  && forall n :: Eval(l.init.value, before, cur, call) == Ok(Scalar(n)) ==>
                       after.Lookup(Plain(l.name)) == Some(Scalar(n)))
            && (l.init.None? && !l.isArray ==> after == before)
            && (l.init.None? && l.isArray && Plain(l.name) !in before.scalars ==>
                  after.Lookup(Plain(l.name)) == Some(Array([])))
    decreases |ls|
  {
    if ls == [] {
      var one := [l];
      assert [] + one == one && one[0] == l && one[1..] == [];
      var next := DeclareLocal(l, env, cur, call);
      assert DeclareLocals([], next, cur, call) == next;
      assert DeclareLocals(one, env, cur, call) == next && DeclareLocals([], env, cur, call) == env;
      LocalIs(l, env, cur, call);
      hide DeclareLocal, DeclareLocals, Eval, Env.Lookup;
    } else {
      assert (ls + [l])[0] == ls[0] && (ls + [l])[1..] == ls[1..] + [l];
      LocalsAre(ls[1..], l, DeclareLocal(ls[0], env, cur, call), cur, call);
      hide DeclareLocal, Eval, Env.Lookup, SameBut;
    }
  }

  lemma LocalIs(l: Local, env: Env, cur: Option<string>, call: Callee)
    ensures var after := DeclareLocal(l, env, cur, call);
            && SameBut(after, env, l.name)
            && (l.init.Some? ==>
                  && (Eval(l.init.value, env, cur, call).Err? ==> after == env)
                  && forall n :: Eval(l.init.value, env, cur, call) == Ok(Scalar(n)) ==>
                       after.Lookup(Plain(l.name)) == Some(Scalar(n)))
            && (l.init.None? && !l.isArray ==> after == env)
            && (l.init.None? && l.isArray && Plain(l.name) !in env.scalars ==>
                  after.Lookup(Plain(l.name)) == Some(Array([])))
  {
    hide Eval;
    assert Scalars([]) == [];
  }

  /** Without ports and locals a call runs the function's statements in the caller's tables, structs taken away, one level deeper. */
  lemma PlainCallIs(lib: Library, limits: Limits, depth: nat, f: string, args: seq<Expr>, env: Env, cur: Option<string>)
    requires f in lib && lib[f].ports == [] && lib[f].locals == [] && depth <= limits.depth
    ensures var r := ExecAll(lib[f].stmts, env.(structs := map[]), cur, CalleeAt(lib, limits, depth + 1), limits.turns);
            CallAt(lib, limits, depth, f, args, env, cur) ==
            match r
            case Ok(Flow(_, Some(n))) => Ok(Scalar(n))
            case _ => Err
  {
    var call := CalleeAt(lib, limits, depth + 1);
    assert BindPorts([], args, env, env, cur, call) == Ok(env) && DeclareLocals([], env, cur, call) == env;
    hide ExecAll, CalleeAt;
  }

  /** A function that returns a call of another gives what that call gives one level deeper. */
  lemma CallPassesOn(lib: Library, limits: Limits, depth: nat, f: string, g: string, args: seq<Expr>, env: Env,
                     cur: Option<string>)
    requires f in lib && lib[f] == Func([], [], [Return(Some(Call(g, args)))]) && depth <= limits.depth
    requires !IsUnaryCall(g) && g != "ceil_div"
    ensures CallAt(lib, limits, depth, f, [], env, cur)
            == CallAt(lib, limits, depth + 1, g, args, env.(structs := map[]), cur)
  {
    var call, local := CalleeAt(lib, limits, depth + 1), env.(structs := map[]);
    PlainCallIs(lib, limits, depth, f, [], env, cur);
    OneIs(Return(Some(Call(g, args))), local, cur, call, limits.turns);
    ReturnIs(Call(g, args), local, cur, call, limits.turns);
    assert call(g, args, local, cur) == CallAt(lib, limits, depth + 1, g, args, local, cur);
    assert Eval(Call(g, args), local, cur, call) == call(g, args, local, cur);
    CallsGiveScalars(lib, limits, depth + 1, g, args, local, cur);
    hide *;
  }

  lemma CallsGiveScalars(lib: Library, limits: Limits, depth: nat, f: string, args: seq<Expr>, env: Env, cur: Option<string>)
    ensures var r := CallAt(lib, limits, depth, f, args, env, cur); r.Ok? ==> r.value.Scalar?
  {
    hide BindPorts, DeclareLocals, ExecAll, CalleeAt;
  }
}
