/**
 Package functions at compile time: calls are guarded by a depth, loops by an iteration count, so every
 evaluation ends, whatever the functions do.
 */
module ConstFunc {
  import opened Outcomes
  import opened Words
  import opened ConstSyntax
  import opened ExtEval

  datatype Stmt =
    | Block(stmts: seq<Stmt>)
    | IfElse(cond: Expr, thn: Stmt, els: Option<Stmt>)
    | LoopFor(init: Option<Stmt>, until: Option<Expr>, step: Option<Stmt>, body: seq<Stmt>)
    | LoopWhile(cond: Expr, body: seq<Stmt>)
    | Repeat(count: Expr, body: seq<Stmt>)
    | Assign(name: string, rhs: Expr)
    | AssignElem(name: string, index: Expr, rhs: Expr)
    | AssignOther(rhs: Expr)
    | Return(value: Option<Expr>)
    | Null
    | Unsupported

  datatype Local = Local(name: string, init: Option<Expr>, isArray: bool)

  datatype Func = Func(ports: seq<string>, locals: seq<Local>, stmts: seq<Stmt>)

  type Library = map<string, Func>

  /** The deepest call level, and the most turns of a loop: 128 and 1000000 in the program. */
  datatype Limits = Limits(depth: nat, turns: nat)

  /** Where execution stands: the tables, and the value returned, if any. */
  datatype Flow = Flow(env: Env, returned: Option<int>)

  // ---- tables ----

  /** Stores a value under a plain name; a struct is not stored. */
  function Bind(env: Env, name: string, v: CVal): Env {
    match v
    case Scalar(n) => env.(scalars := env.scalars[Plain(name) := n])
    case Array(a) => env.(arrays := env.arrays[Plain(name) := Flatten(a)])
    case Struct(_) => env
  }

  /** Stores an element; an unknown array or an index out of range is ignored. */
  function BindElem(env: Env, name: string, index: int, v: CVal): Result<Env> {
    if Plain(name) in env.arrays && 0 <= index < |env.arrays[Plain(name)]| then
      var n :- AsScalar(v);
      Ok(env.(arrays := env.arrays[Plain(name) := env.arrays[Plain(name)][index := n]]))
    else Ok(env)
  }

  function EvalScalar(e: Expr, env: Env, cur: Option<string>, call: Callee): Result<int> {
    var v :- Eval(e, env, cur, call);
    AsScalar(v)
  }

  // ---- statements ----

  function Exec(s: Stmt, env: Env, cur: Option<string>, call: Callee, turns: nat): Result<Flow>
    decreases s, 1, 0
  {
    match s
    case Block(stmts) => ExecAll(stmts, env, cur, call, turns)
    case IfElse(cond, thn, els) =>
      var c :- EvalScalar(cond, env, cur, call);
      if c != 0 then Exec(thn, env, cur, call, turns)
      else if els.Some? then Exec(els.value, env, cur, call, turns)
      else Ok(Flow(env, None))
    case LoopFor(init, _, _, _) =>
      var start :- ExecHeader(init, env, cur, call, turns);
      Loop(s, start, cur, call, turns, turns)
    case LoopWhile(_, _) => Loop(s, env, cur, call, turns, turns)
    case Repeat(count, body) =>
      var n :- EvalScalar(count, env, cur, call);
      Times(s, env, cur, call, turns, if n > 0 then n else 0)
    case Assign(name, rhs) =>
      var v :- Eval(rhs, env, cur, call);
      Ok(Flow(Bind(env, name, v), None))
    case AssignElem(name, index, rhs) =>
      var v :- Eval(rhs, env, cur, call);
      var i :- EvalScalar(index, env, cur, call);
      var next :- BindElem(env, name, i, v);
      Ok(Flow(next, None))
    case AssignOther(rhs) =>
      var _ :- Eval(rhs, env, cur, call);
      Ok(Flow(env, None))
    case Return(None) => Ok(Flow(env, Some(0)))
    case Return(Some(e)) =>
      var n :- EvalScalar(e, env, cur, call);
      Ok(Flow(env, Some(n)))
    case Null => Ok(Flow(env, None))
    case Unsupported => Err
  }

  function ExecAll(ss: seq<Stmt>, env: Env, cur: Option<string>, call: Callee, turns: nat): Result<Flow>
    decreases ss, 0, 0
  {
    if ss == [] then Ok(Flow(env, None))
    else
      var flow :- Exec(ss[0], env, cur, call, turns);
      if flow.returned.Some? then Ok(flow) else ExecAll(ss[1..], flow.env, cur, call, turns)
  }

  /** The first or last part of a loop header; a return in it is ignored. */
  function ExecHeader(s: Option<Stmt>, env: Env, cur: Option<string>, call: Callee, turns: nat): Result<Env>
    decreases s, 0, 0
  {
    match s
    case None => Ok(env)
    case Some(stmt) =>
      var flow :- Exec(stmt, env, cur, call, turns);
      Ok(flow.env)
  }

  /** A loop's condition; a `for` without one goes on. */
  function LoopGoesOn(s: Stmt, env: Env, cur: Option<string>, call: Callee): Result<bool>
    requires s.LoopFor? || s.LoopWhile?
  {
    if s.LoopFor? && s.until.None? then Ok(true)
    else
      var c :- EvalScalar(if s.LoopFor? then s.until.value else s.cond, env, cur, call);
      Ok(c != 0)
  }

  /** A loop with `left` turns to go: one more is an error. */
  function Loop(s: Stmt, env: Env, cur: Option<string>, call: Callee, turns: nat, left: nat): Result<Flow>
    requires s.LoopFor? || s.LoopWhile?
    decreases s, 0, left
  {
    var more :- LoopGoesOn(s, env, cur, call);
    if !more then Ok(Flow(env, None))
    else if left == 0 then Err
    else
      var flow :- ExecAll(s.body, env, cur, call, turns);
      if flow.returned.Some? then Ok(flow)
      else
        var next :- if s.LoopFor? then ExecHeader(s.step, flow.env, cur, call, turns) else Ok(flow.env);
        Loop(s, next, cur, call, turns, left - 1)
  }

  function Times(s: Stmt, env: Env, cur: Option<string>, call: Callee, turns: nat, n: nat): Result<Flow>
    requires s.Repeat?
    decreases s, 0, n
  {
    if n == 0 then Ok(Flow(env, None))
    else
      var flow :- ExecAll(s.body, env, cur, call, turns);
      if flow.returned.Some? then Ok(flow) else Times(s, flow.env, cur, call, turns, n - 1)
  }

  // ---- calls ----

  /** Arguments are evaluated in the caller's tables; missing ones leave their ports unbound. */
  function BindPorts(ports: seq<string>, args: seq<Expr>, env: Env, local: Env,
                     cur: Option<string>, call: Callee): Result<Env>
    decreases |ports|
  {
    if ports == [] || args == [] then Ok(local)
    else
      var v :- Eval(args[0], env, cur, call);
      BindPorts(ports[1..], args[1..], env, Bind(local, ports[0], v), cur, call)
  }

  /** An initialiser that fails leaves its local as it was. */
  function DeclareLocal(l: Local, env: Env, cur: Option<string>, call: Callee): Env {
    match l.init
    case Some(e) => (match Eval(e, env, cur, call) case Ok(v) => Bind(env, l.name, v) case Err => env)
    case None => if l.isArray then env.(arrays := env.arrays[Plain(l.name) := []]) else env
  }

  function DeclareLocals(locals: seq<Local>, env: Env, cur: Option<string>, call: Callee): Env
    decreases |locals|
  {
    if locals == [] then env else DeclareLocals(locals[1..], DeclareLocal(locals[0], env, cur, call), cur, call)
  }

  /** A function's value: what it returns; structs are not seen inside. */
  function Body(f: Func, args: seq<Expr>, env: Env, cur: Option<string>, call: Callee, turns: nat): Result<CVal> {
    var bound :- BindPorts(f.ports, args, env, env, cur, call);
    var local := DeclareLocals(f.locals, bound, cur, call);
    var flow :- ExecAll(f.stmts, local.(structs := map[]), cur, call, turns);
    match flow.returned
    case Some(n) => Ok(Scalar(n))
    case None => Err
  }

  function Below(limits: Limits, depth: nat): nat {
    if depth <= limits.depth then limits.depth + 1 - depth else 0
  }

  /** A call at a depth; one beyond the limit is an error. */
  function CallAt(lib: Library, limits: Limits, depth: nat, f: string, args: seq<Expr>, env: Env,
                  cur: Option<string>): Result<CVal>
    decreases Below(limits, depth), 0
  {
    if f !in lib || depth > limits.depth then Err
    else Body(lib[f], args, env, cur, CalleeAt(lib, limits, depth + 1), limits.turns)
  }

  function CalleeAt(lib: Library, limits: Limits, depth: nat): Callee
    decreases Below(limits, depth), 1
  {
    (f, args, env, cur) => CallAt(lib, limits, depth, f, args, env, cur)
  }

  // ---- the depth guard only fails ----

  /** Where `a` succeeds, `b` gives the same. */
  ghost predicate Refines(a: Callee, b: Callee) {
    forall f, args, env, cur {:trigger a(f, args, env, cur)} {:trigger b(f, args, env, cur)} ::
      a(f, args, env, cur).Ok? ==> b(f, args, env, cur) == a(f, args, env, cur)
  }

  lemma EvalRefines(e: Expr, env: Env, cur: Option<string>, a: Callee, b: Callee)
    requires Refines(a, b) && Eval(e, env, cur, a).Ok?
    ensures Eval(e, env, cur, b) == Eval(e, env, cur, a)
  {
    EvalKeeps(e, env, env, cur, a, b);
  }

  lemma ScalarRefines(e: Expr, env: Env, cur: Option<string>, a: Callee, b: Callee)
    requires Refines(a, b) && EvalScalar(e, env, cur, a).Ok?
    ensures EvalScalar(e, env, cur, b) == EvalScalar(e, env, cur, a)
  {
    EvalRefines(e, env, cur, a, b);
  }

  lemma {:induction false} ExecRefines(s: Stmt, env: Env, cur: Option<string>, a: Callee, b: Callee, turns: nat)
    requires Refines(a, b) && Exec(s, env, cur, a, turns).Ok?
    ensures Exec(s, env, cur, b, turns) == Exec(s, env, cur, a, turns)
    decreases s, 1, 0
  {
    match s
    case Block(stmts) => ExecAllRefines(stmts, env, cur, a, b, turns);
    case IfElse(cond, thn, els) =>
      ScalarRefines(cond, env, cur, a, b);
      if EvalScalar(cond, env, cur, a).value != 0 {
        ExecRefines(thn, env, cur, a, b, turns);
      } else if els.Some? {
        ExecRefines(els.value, env, cur, a, b, turns);
      }
    case LoopFor(init, _, _, _) =>
      HeaderRefines(init, env, cur, a, b, turns);
      LoopRefines(s, ExecHeader(init, env, cur, a, turns).value, cur, a, b, turns, turns);
    case LoopWhile(_, _) => LoopRefines(s, env, cur, a, b, turns, turns);
    case Repeat(count, _) =>
      ScalarRefines(count, env, cur, a, b);
      var n := EvalScalar(count, env, cur, a).value;
      TimesRefines(s, env, cur, a, b, turns, if n > 0 then n else 0);
    case Assign(_, rhs) => EvalRefines(rhs, env, cur, a, b);
    case AssignElem(_, index, rhs) =>
      EvalRefines(rhs, env, cur, a, b);
      ScalarRefines(index, env, cur, a, b);
    case AssignOther(rhs) => EvalRefines(rhs, env, cur, a, b);
    case Return(None) =>
    case Return(Some(e)) => ScalarRefines(e, env, cur, a, b);
    case Null =>
  }

  lemma {:induction false} ExecAllRefines(ss: seq<Stmt>, env: Env, cur: Option<string>, a: Callee, b: Callee, turns: nat)
    requires Refines(a, b) && ExecAll(ss, env, cur, a, turns).Ok?
    ensures ExecAll(ss, env, cur, b, turns) == ExecAll(ss, env, cur, a, turns)
    decreases ss, 0, 0
  {
    if ss != [] {
      ExecRefines(ss[0], env, cur, a, b, turns);
      var flow := Exec(ss[0], env, cur, a, turns).value;
      if flow.returned.None? {
        ExecAllRefines(ss[1..], flow.env, cur, a, b, turns);
      }
    }
  }

  lemma {:induction false} HeaderRefines(s: Option<Stmt>, env: Env, cur: Option<string>, a: Callee, b: Callee, turns: nat)
    requires Refines(a, b) && ExecHeader(s, env, cur, a, turns).Ok?
    ensures ExecHeader(s, env, cur, b, turns) == ExecHeader(s, env, cur, a, turns)
    decreases s, 0, 0
  {
    if s.Some? {
      ExecRefines(s.value, env, cur, a, b, turns);
    }
  }

  lemma {:induction false} LoopRefines(s: Stmt, env: Env, cur: Option<string>, a: Callee, b: Callee, turns: nat, left: nat)
    requires s.LoopFor? || s.LoopWhile?
    requires Refines(a, b) && Loop(s, env, cur, a, turns, left).Ok?
    ensures Loop(s, env, cur, b, turns, left) == Loop(s, env, cur, a, turns, left)
    decreases s, 0, left
  {
    if !(s.LoopFor? && s.until.None?) {
      ScalarRefines(if s.LoopFor? then s.until.value else s.cond, env, cur, a, b);
    }
    if LoopGoesOn(s, env, cur, a).value {
      ExecAllRefines(s.body, env, cur, a, b, turns);
      var flow := ExecAll(s.body, env, cur, a, turns).value;
      if flow.returned.None? {
        if s.LoopFor? {
          HeaderRefines(s.step, flow.env, cur, a, b, turns);
          LoopRefines(s, ExecHeader(s.step, flow.env, cur, a, turns).value, cur, a, b, turns, left - 1);
        } else {
          LoopRefines(s, flow.env, cur, a, b, turns, left - 1);
        }
      }
    }
  }

  lemma {:induction false} TimesRefines(s: Stmt, env: Env, cur: Option<string>, a: Callee, b: Callee, turns: nat, n: nat)
    requires s.Repeat? && Refines(a, b) && Times(s, env, cur, a, turns, n).Ok?
    ensures Times(s, env, cur, b, turns, n) == Times(s, env, cur, a, turns, n)
    decreases s, 0, n
  {
    if n > 0 {
      ExecAllRefines(s.body, env, cur, a, b, turns);
      var flow := ExecAll(s.body, env, cur, a, turns).value;
      if flow.returned.None? {
        TimesRefines(s, flow.env, cur, a, b, turns, n - 1);
      }
    }
  }

  lemma {:induction false} PortsRefine(ports: seq<string>, args: seq<Expr>, env: Env, local: Env,
                                       cur: Option<string>, a: Callee, b: Callee)
    requires Refines(a, b) && BindPorts(ports, args, env, local, cur, a).Ok?
    ensures BindPorts(ports, args, env, local, cur, b) == BindPorts(ports, args, env, local, cur, a)
    decreases |ports|
  {
    if ports != [] && args != [] {
      EvalRefines(args[0], env, cur, a, b);
      var v := Eval(args[0], env, cur, a).value;
      PortsRefine(ports[1..], args[1..], env, Bind(local, ports[0], v), cur, a, b);
    }
  }

  /** The value of a call-free expression does not depend on how functions are called. */
  lemma CallFreeSame(e: Expr, env: Env, cur: Option<string>, a: Callee, b: Callee)
    requires CallFree(e)
    ensures Eval(e, env, cur, a) == Eval(e, env, cur, b)
  {
    if Eval(e, env, cur, a).Ok? {
      EvalKeeps(e, env, env, cur, a, b);
    } else if Eval(e, env, cur, b).Ok? {
      EvalKeeps(e, env, env, cur, b, a);
    }
  }

  /** A local whose initialiser, if any, calls no package function. */
  predicate SimpleInit(l: Local) {
    l.init.None? || CallFree(l.init.value)
  }

  predicate SimpleInits(lib: Library) {
    forall f :: f in lib ==> forall i :: 0 <= i < |lib[f].locals| ==> SimpleInit(lib[f].locals[i])
  }

  lemma {:induction false} LocalsSame(locals: seq<Local>, env: Env, cur: Option<string>, a: Callee, b: Callee)
    requires forall i :: 0 <= i < |locals| ==> SimpleInit(locals[i])
    ensures DeclareLocals(locals, env, cur, a) == DeclareLocals(locals, env, cur, b)
    decreases |locals|
  {
    if locals != [] {
      assert SimpleInit(locals[0]);
      if locals[0].init.Some? {
        CallFreeSame(locals[0].init.value, env, cur, a, b);
      }
      LocalsSame(locals[1..], DeclareLocal(locals[0], env, cur, a), cur, a, b);
    }
  }

  /**
   The depth guard only ever turns a value into an error: a call that succeeds at some depth gives the same
   value at every smaller depth, provided no local's initialiser can hide the error.
   */
  lemma {:induction false} DepthOnlyFails(lib: Library, limits: Limits, depth: nat, less: nat)
    requires SimpleInits(lib) && less <= depth
    ensures Refines(CalleeAt(lib, limits, depth), CalleeAt(lib, limits, less))
    decreases Below(limits, less)
  {
    var a, b := CalleeAt(lib, limits, depth), CalleeAt(lib, limits, less);
    forall f, args, env, cur | a(f, args, env, cur).Ok?
      ensures b(f, args, env, cur) == a(f, args, env, cur)
    {
      assert a(f, args, env, cur) == CallAt(lib, limits, depth, f, args, env, cur);
      assert b(f, args, env, cur) == CallAt(lib, limits, less, f, args, env, cur);
      DepthOnlyFails(lib, limits, depth + 1, less + 1);
      BodyRefines(lib[f], args, env, cur, CalleeAt(lib, limits, depth + 1), CalleeAt(lib, limits, less + 1), limits.turns);
    }
  }

  lemma BodyRefines(f: Func, args: seq<Expr>, env: Env, cur: Option<string>, a: Callee, b: Callee, turns: nat)
    requires Refines(a, b) && Body(f, args, env, cur, a, turns).Ok?
    requires forall i :: 0 <= i < |f.locals| ==> SimpleInit(f.locals[i])
    ensures Body(f, args, env, cur, b, turns) == Body(f, args, env, cur, a, turns)
  {
    PortsRefine(f.ports, args, env, env, cur, a, b);
    var bound := BindPorts(f.ports, args, env, env, cur, a).value;
    LocalsSame(f.locals, bound, cur, a, b);
    ExecAllRefines(f.stmts, DeclareLocals(f.locals, bound, cur, a).(structs := map[]), cur, a, b, turns);
  }

  // ---- what the guards cut off ----

  /** `int x = g(); return x;`, where `g` returns 1. */
  const HIDING: Library :=
    map["g" := Func([], [], [Return(Some(Decimal(1)))]),
        "f" := Func([], [Local("x", Some(Call("g", [])), false)], [Return(Some(Ident("x")))])]

  /**
   With a call in an initialiser the guard changes a value: at the deepest level the initialiser's error is
   swallowed, and a constant of the same name outside is read instead.
   */
  lemma InitialiserHidesTheGuard(limits: Limits)
    requires limits.depth >= 1
    ensures var env := Env(map[Plain("x") := 7], map[], map[]);
            && CallAt(HIDING, limits, limits.depth, "f", [], env, None) == Ok(Scalar(7))
            && CallAt(HIDING, limits, limits.depth - 1, "f", [], env, None) == Ok(Scalar(1))
  {
    var env := Env(map[Plain("x") := 7], map[], map[]);
    var d := limits.depth;
    ReturnsOne(limits, d, env);
    HidingCall(limits, d, env, CalleeAt(HIDING, limits, d + 1));
    HidingCall(limits, d - 1, env, CalleeAt(HIDING, limits, d));
  }

  lemma ReturnsOne(limits: Limits, depth: nat, env: Env)
    requires depth <= limits.depth
    ensures CallAt(HIDING, limits, depth, "g", [], env, None) == Ok(Scalar(1))
  {
    ReturnIs(Decimal(1), env.(structs := map[]), CalleeAt(HIDING, limits, depth + 1), limits.turns);
  }

  lemma ReturnIs(e: Expr, env: Env, call: Callee, turns: nat)
    ensures var n := EvalScalar(e, env, None, call);
            ExecAll([Return(Some(e))], env, None, call, turns) == if n.Ok? then Ok(Flow(env, Some(n.value))) else Err
  {
    assert [Return(Some(e))][0] == Return(Some(e));
  }

  lemma HidingCall(limits: Limits, depth: nat, env: Env, call: Callee)
    requires depth <= limits.depth && call == CalleeAt(HIDING, limits, depth + 1) && Plain("x") in env.scalars
    ensures CallAt(HIDING, limits, depth, "f", [], env, None) ==
            (match call("g", [], env, None)
             case Ok(Scalar(n)) => Ok(Scalar(n))
             case Err => Ok(Scalar(env.scalars[Plain("x")]))
             case _ => CallAt(HIDING, limits, depth, "f", [], env, None))
  {
    var l := Local("x", Some(Call("g", [])), false);
    var local := DeclareLocals([l], env, None, call);
    assert [l][1..] == [];
    assert local == DeclareLocal(l, env, None, call);
    ReturnIs(Ident("x"), local.(structs := map[]), call, limits.turns);
  }

  // ---- recursion without a way out ----

  /** Evaluating the expression calls one of these functions, whatever the tables hold, unless it fails before. */
  predicate Invokes(fs: set<string>, e: Expr)
    decreases e, 1
  {
    match e
    case Paren(inner) => Invokes(fs, inner)
    case Cast(inner) => Invokes(fs, inner)
    case Unary(_, arg) => Invokes(fs, arg)
    case Binary(_, lhs, rhs) => Invokes(fs, lhs) || Invokes(fs, rhs)
    case Ternary(cond, thn, els) => Invokes(fs, cond) || (Invokes(fs, thn) && Invokes(fs, els))
    case BitSelect(base, index) => Invokes(fs, base) || Invokes(fs, index)
    case RangeSelect(base, msb, lsb) => Invokes(fs, base) || Invokes(fs, msb) || Invokes(fs, lsb)
    case PartSelect(base, start, size) => Invokes(fs, base) || Invokes(fs, start) || Invokes(fs, size)
    case Concat(elems) => SomeInvokes(fs, elems)
    case Replicate(count, body) => Invokes(fs, count) || Invokes(fs, body)
    case Call(f, args) =>
      if IsUnaryCall(f) then args != [] && Invokes(fs, args[0])
      else if f == "ceil_div" then |args| >= 2 && (Invokes(fs, args[0]) || Invokes(fs, args[1]))
      else f in fs
    case StructLit(members) => SomeMemberInvokes(fs, members)
    case MemberAccess(obj, _) => Invokes(fs, obj)
    case _ => false
  }

  predicate SomeInvokes(fs: set<string>, es: seq<Expr>)
    decreases es, 0
  {
    es != [] && (Invokes(fs, es[0]) || SomeInvokes(fs, es[1..]))
  }

  predicate SomeMemberInvokes(fs: set<string>, ms: seq<Member>)
    decreases ms, 0
  {
    ms != [] && (MemberInvokes(fs, ms[0]) || SomeMemberInvokes(fs, ms[1..]))
  }

  predicate MemberInvokes(fs: set<string>, m: Member)
    decreases m, 0
  {
    Invokes(fs, m.val)
  }

  /** There is a `return` that the statement could leave the function by. */
  predicate MayReturn(s: Stmt)
    decreases s, 1
  {
    match s
    case Block(ss) => SomeMayReturn(ss)
    case IfElse(_, thn, els) => MayReturn(thn) || (els.Some? && MayReturn(els.value))
    case LoopFor(_, _, _, body) => SomeMayReturn(body)
    case LoopWhile(_, body) => SomeMayReturn(body)
    case Repeat(_, body) => SomeMayReturn(body)
    case Return(_) => true
    case _ => false
  }

  predicate SomeMayReturn(ss: seq<Stmt>)
    decreases ss, 0
  {
    ss != [] && (MayReturn(ss[0]) || SomeMayReturn(ss[1..]))
  }

  /** Running the statement calls one of these functions, whatever the tables hold, unless it fails before. */
  predicate InvokesS(fs: set<string>, s: Stmt)
    decreases s, 1
  {
    match s
    case Block(ss) => InvokesSs(fs, ss)
    case IfElse(cond, thn, els) =>
      Invokes(fs, cond) || (InvokesS(fs, thn) && els.Some? && InvokesS(fs, els.value))
    case LoopFor(init, until, _, _) =>
      (init.Some? && InvokesS(fs, init.value)) || (until.Some? && Invokes(fs, until.value))
    case LoopWhile(cond, _) => Invokes(fs, cond)
    case Repeat(count, _) => Invokes(fs, count)
    case Assign(_, rhs) => Invokes(fs, rhs)
    case AssignElem(_, index, rhs) => Invokes(fs, index) || Invokes(fs, rhs)
    case AssignOther(rhs) => Invokes(fs, rhs)
    case Return(Some(e)) => Invokes(fs, e)
    case _ => false
  }

  /** The first statements may not return before one of them calls. */
  predicate InvokesSs(fs: set<string>, ss: seq<Stmt>)
    decreases ss, 0
  {
    ss != [] && (InvokesS(fs, ss[0]) || (!MayReturn(ss[0]) && InvokesSs(fs, ss[1..])))
  }

  /** Calls of these functions fail. */
  ghost predicate AllFail(fs: set<string>, call: Callee) {
    forall f, args, env, cur {:trigger call(f, args, env, cur)} :: f in fs ==> call(f, args, env, cur).Err?
  }

  lemma {:induction false} InvokingFails(fs: set<string>, e: Expr, env: Env, cur: Option<string>, call: Callee)
    requires Invokes(fs, e) && AllFail(fs, call)
    ensures Eval(e, env, cur, call).Err?
    decreases e, 1
  {
    match e
    case Paren(inner) => InvokingFails(fs, inner, env, cur, call);
    case Cast(inner) => InvokingFails(fs, inner, env, cur, call);
    case Unary(_, arg) => InvokingFails(fs, arg, env, cur, call);
    case Binary(_, lhs, rhs) => OneInvokingFails(fs, lhs, rhs, e, env, cur, call);
    case Ternary(cond, thn, els) =>
      if Invokes(fs, cond) {
        InvokingFails(fs, cond, env, cur, call);
      } else {
        InvokingFails(fs, thn, env, cur, call);
        InvokingFails(fs, els, env, cur, call);
      }
    case BitSelect(base, index) => OneInvokingFails(fs, base, index, e, env, cur, call);
    case RangeSelect(base, msb, lsb) =>
      if Invokes(fs, base) {
        InvokingFails(fs, base, env, cur, call);
      } else {
        OneInvokingFails(fs, msb, lsb, e, env, cur, call);
      }
    case PartSelect(base, start, size) =>
      if Invokes(fs, base) {
        InvokingFails(fs, base, env, cur, call);
      } else {
        OneInvokingFails(fs, start, size, e, env, cur, call);
      }
    case Concat(elems) => SomeInvokingFails(fs, elems, env, cur, call);
    case Replicate(count, body) => OneInvokingFails(fs, count, body, e, env, cur, call);
    case Call(f, args) =>
      if IsUnaryCall(f) {
        InvokingFails(fs, args[0], env, cur, call);
      } else if f == "ceil_div" {
        OneInvokingFails(fs, args[0], args[1], e, env, cur, call);
      }
    case StructLit(members) => MembersInvokingFail(fs, members, env, cur, call);
    case MemberAccess(obj, _) => InvokingFails(fs, obj, env, cur, call);
  }

  lemma {:induction false} OneInvokingFails(fs: set<string>, x: Expr, y: Expr, within: Expr, env: Env,
                                            cur: Option<string>, call: Callee)
    requires x < within && y < within && (Invokes(fs, x) || Invokes(fs, y)) && AllFail(fs, call)
    ensures Eval(x, env, cur, call).Err? || Eval(y, env, cur, call).Err?
    decreases within, 0
  {
    if Invokes(fs, x) {
      InvokingFails(fs, x, env, cur, call);
    } else {
      InvokingFails(fs, y, env, cur, call);
    }
  }

  lemma {:induction false} SomeInvokingFails(fs: set<string>, es: seq<Expr>, env: Env, cur: Option<string>, call: Callee)
    requires SomeInvokes(fs, es) && AllFail(fs, call)
    ensures EvalAll(es, env, cur, call).Err?
    decreases es, 0
  {
    if Invokes(fs, es[0]) {
      InvokingFails(fs, es[0], env, cur, call);
    } else {
      SomeInvokingFails(fs, es[1..], env, cur, call);
    }
  }

  lemma {:induction false} MembersInvokingFail(fs: set<string>, ms: seq<Member>, env: Env, cur: Option<string>, call: Callee)
    requires SomeMemberInvokes(fs, ms) && AllFail(fs, call)
    ensures EvalMembers(ms, env, cur, call).Err?
    decreases ms, 0
  {
    if MemberInvokes(fs, ms[0]) {
      MemberInvokingFails(fs, ms[0], env, cur, call);
    } else {
      MembersInvokingFail(fs, ms[1..], env, cur, call);
    }
  }

  lemma {:induction false} MemberInvokingFails(fs: set<string>, m: Member, env: Env, cur: Option<string>, call: Callee)
    requires MemberInvokes(fs, m) && AllFail(fs, call)
    ensures EvalMember(m, env, cur, call).Err?
    decreases m, 0
  {
    InvokingFails(fs, m.val, env, cur, call);
  }

  lemma {:induction false} NoReturn(s: Stmt, env: Env, cur: Option<string>, call: Callee, turns: nat)
    requires !MayReturn(s) && Exec(s, env, cur, call, turns).Ok?
    ensures Exec(s, env, cur, call, turns).value.returned.None?
    decreases s, 1, 0
  {
    match s
    case Block(ss) => NoneReturns(ss, env, cur, call, turns);
    case IfElse(cond, thn, els) =>
      if EvalScalar(cond, env, cur, call).value != 0 {
        NoReturn(thn, env, cur, call, turns);
      } else if els.Some? {
        NoReturn(els.value, env, cur, call, turns);
      }
    case LoopFor(init, _, _, _) =>
      LoopReturnsNot(s, ExecHeader(init, env, cur, call, turns).value, cur, call, turns, turns);
    case LoopWhile(_, _) => LoopReturnsNot(s, env, cur, call, turns, turns);
    case Repeat(count, _) =>
      var n := EvalScalar(count, env, cur, call).value;
      TimesReturnsNot(s, env, cur, call, turns, if n > 0 then n else 0);
    case Assign(_, _) =>
    case AssignElem(_, _, _) =>
    case AssignOther(_) =>
    case Null =>
  }

  lemma {:induction false} NoneReturns(ss: seq<Stmt>, env: Env, cur: Option<string>, call: Callee, turns: nat)
    requires !SomeMayReturn(ss) && ExecAll(ss, env, cur, call, turns).Ok?
    ensures ExecAll(ss, env, cur, call, turns).value.returned.None?
    decreases ss, 0, 0
  {
    if ss != [] {
      NoReturn(ss[0], env, cur, call, turns);
      NoneReturns(ss[1..], Exec(ss[0], env, cur, call, turns).value.env, cur, call, turns);
    }
  }

  lemma {:induction false} LoopReturnsNot(s: Stmt, env: Env, cur: Option<string>, call: Callee, turns: nat, left: nat)
    requires (s.LoopFor? || s.LoopWhile?) && !SomeMayReturn(s.body) && Loop(s, env, cur, call, turns, left).Ok?
    ensures Loop(s, env, cur, call, turns, left).value.returned.None?
    decreases s, 0, left
  {
    if LoopGoesOn(s, env, cur, call).value {
      NoneReturns(s.body, env, cur, call, turns);
      var flow := ExecAll(s.body, env, cur, call, turns).value;
      var next := if s.LoopFor? then ExecHeader(s.step, flow.env, cur, call, turns).value else flow.env;
      LoopReturnsNot(s, next, cur, call, turns, left - 1);
    }
  }

  lemma {:induction false} TimesReturnsNot(s: Stmt, env: Env, cur: Option<string>, call: Callee, turns: nat, n: nat)
    requires s.Repeat? && !SomeMayReturn(s.body) && Times(s, env, cur, call, turns, n).Ok?
    ensures Times(s, env, cur, call, turns, n).value.returned.None?
    decreases s, 0, n
  {
    if n > 0 {
      NoneReturns(s.body, env, cur, call, turns);
      TimesReturnsNot(s, ExecAll(s.body, env, cur, call, turns).value.env, cur, call, turns, n - 1);
    }
  }

  lemma {:induction false} InvokingStmtFails(fs: set<string>, s: Stmt, env: Env, cur: Option<string>, call: Callee, turns: nat)
    requires InvokesS(fs, s) && AllFail(fs, call)
    ensures Exec(s, env, cur, call, turns).Err?
    decreases s, 1
  {
    match s
    case Block(ss) => InvokingStmtsFail(fs, ss, env, cur, call, turns);
    case IfElse(cond, thn, els) =>
      if Invokes(fs, cond) {
        InvokingFails(fs, cond, env, cur, call);
      } else {
        InvokingStmtFails(fs, thn, env, cur, call, turns);
        InvokingStmtFails(fs, els.value, env, cur, call, turns);
      }
    case LoopFor(init, until, _, _) =>
      if init.Some? && InvokesS(fs, init.value) {
        InvokingStmtFails(fs, init.value, env, cur, call, turns);
      } else if ExecHeader(init, env, cur, call, turns).Ok? {
        InvokingFails(fs, until.value, ExecHeader(init, env, cur, call, turns).value, cur, call);
      }
    case LoopWhile(cond, _) => InvokingFails(fs, cond, env, cur, call);
    case Repeat(count, _) => InvokingFails(fs, count, env, cur, call);
    case Assign(_, rhs) => InvokingFails(fs, rhs, env, cur, call);
    case AssignElem(_, index, rhs) =>
      if Invokes(fs, index) {
        InvokingFails(fs, index, env, cur, call);
      } else {
        InvokingFails(fs, rhs, env, cur, call);
      }
    case AssignOther(rhs) => InvokingFails(fs, rhs, env, cur, call);
    case Return(Some(e)) => InvokingFails(fs, e, env, cur, call);
  }

  lemma {:induction false} InvokingStmtsFail(fs: set<string>, ss: seq<Stmt>, env: Env, cur: Option<string>,
                                             call: Callee, turns: nat)
    requires InvokesSs(fs, ss) && AllFail(fs, call)
    ensures ExecAll(ss, env, cur, call, turns).Err?
    decreases ss, 0
  {
    if InvokesS(fs, ss[0]) {
      InvokingStmtFails(fs, ss[0], env, cur, call, turns);
    } else if Exec(ss[0], env, cur, call, turns).Ok? {
      NoReturn(ss[0], env, cur, call, turns);
      InvokingStmtsFail(fs, ss[1..], Exec(ss[0], env, cur, call, turns).value.env, cur, call, turns);
    }
  }

  /** Functions each of which has to call one of them to return. */
  ghost predicate CallEachOther(lib: Library, fs: set<string>) {
    forall f :: f in fs ==> f in lib ==> InvokesSs(fs, lib[f].stmts)
  }

  /** Functions that can only return by calling one another fail at every depth, however they are called. */
  lemma {:induction false} RecursionFails(lib: Library, limits: Limits, depth: nat, fs: set<string>)
    requires CallEachOther(lib, fs)
    ensures AllFail(fs, CalleeAt(lib, limits, depth))
    decreases Below(limits, depth)
  {
    var call := CalleeAt(lib, limits, depth);
    forall f, args, env, cur | f in fs
      ensures call(f, args, env, cur).Err?
    {
      assert call(f, args, env, cur) == CallAt(lib, limits, depth, f, args, env, cur);
      if f in lib && depth <= limits.depth {
        RecursionFails(lib, limits, depth + 1, fs);
        var inner := CalleeAt(lib, limits, depth + 1);
        var bound := BindPorts(lib[f].ports, args, env, env, cur, inner);
        if bound.Ok? {
          var local := DeclareLocals(lib[f].locals, bound.value, cur, inner).(structs := map[]);
          InvokingStmtsFail(fs, lib[f].stmts, local, cur, inner, limits.turns);
        }
      }
    }
  }

  /** An instance: a function that only calls itself. */
  lemma SelfCallFails(lib: Library, limits: Limits, depth: nat, f: string, args: seq<Expr>, env: Env, cur: Option<string>)
    requires f in lib && !IsUnaryCall(f) && f != "ceil_div"
    requires lib[f].stmts == [Return(Some(Call(f, [])))]
    ensures CallAt(lib, limits, depth, f, args, env, cur).Err?
  {
    assert Invokes({f}, Call(f, [])) && InvokesS({f}, lib[f].stmts[0]);
    RecursionFails(lib, limits, depth, {f});
    assert CalleeAt(lib, limits, depth)(f, args, env, cur).Err?;
  }

  // ---- loops without an end ----

  /** One turn of a loop: the body and, unless it returns, the last part of the header. */
  function Turn(s: Stmt, env: Env, cur: Option<string>, call: Callee, turns: nat): Result<Flow>
    requires s.LoopFor? || s.LoopWhile?
  {
    var flow :- ExecAll(s.body, env, cur, call, turns);
    if flow.returned.Some? || s.LoopWhile? then Ok(flow)
    else
      var next :- ExecHeader(s.step, flow.env, cur, call, turns);
      Ok(Flow(next, None))
  }

  /** Wherever `inv` holds the loop goes on, and a turn that succeeds does not return and keeps `inv`. */
  ghost predicate NeverEnds(s: Stmt, cur: Option<string>, call: Callee, turns: nat, inv: Env -> bool)
    requires s.LoopFor? || s.LoopWhile?
  {
    forall env {:trigger inv(env)} :: inv(env) ==>
      && LoopGoesOn(s, env, cur, call) != Ok(false)
      && var turn := Turn(s, env, cur, call, turns);
         turn.Ok? ==> turn.value.returned.None? && inv(turn.value.env)
  }

  /** A loop whose condition stays true and whose body never returns ends in an error. */
  lemma {:induction false} EndlessLoopFails(s: Stmt, env: Env, cur: Option<string>, call: Callee, turns: nat, left: nat,
                                            inv: Env -> bool)
    requires s.LoopFor? || s.LoopWhile?
    requires NeverEnds(s, cur, call, turns, inv) && inv(env)
    ensures Loop(s, env, cur, call, turns, left).Err?
    decreases left
  {
    var turn := Turn(s, env, cur, call, turns);
    if LoopGoesOn(s, env, cur, call).Ok? && left > 0 && turn.Ok? {
      EndlessLoopFails(s, turn.value.env, cur, call, turns, left - 1, inv);
    }
  }
}
