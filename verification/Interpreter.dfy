/**
 The interpreter of package functions: one depth counter shared by every call, raised before a body is
 entered and put back however the body ends.
 */
module Interpreter {
  import opened Outcomes
  import opened ConstSyntax
  import opened ExtEval
  import opened ConstFunc

  class Interpreter {
    const lib: Library
    const limits: Limits
    var depth: nat

    constructor (lib: Library, limits: Limits)
      ensures this.lib == lib && this.limits == limits && depth == 0
    {
      this.lib, this.limits, depth := lib, limits, 0;
    }

    /** How calls are made at the present depth. */
    ghost function Callee(): Callee
      reads this
    {
      CalleeAt(lib, limits, depth)
    }

    /** Evaluates a call; the counter is put back on success and on error. */
    method CallFunction(f: string, args: seq<Expr>, env: Env, cur: Option<string>) returns (r: Result<CVal>)
      modifies this
      ensures depth == old(depth) && r == CallAt(lib, limits, old(depth), f, args, env, cur)
      decreases Below(limits, depth), 0
    {
      if f !in lib || depth > limits.depth {
        return Err;
      }
      var level := depth;
      depth := level + 1;
      r := EvalBody(lib[f], args, env, cur);
      depth := level;
    }

    method EvalBody(f: Func, args: seq<Expr>, env: Env, cur: Option<string>) returns (r: Result<CVal>)
      modifies this
      ensures depth == old(depth) && r == Body(f, args, env, cur, Callee(), limits.turns)
      decreases Below(limits, depth), 3
    {
      ghost var call := Callee();
      var local := env;
      var i := 0;
      while i < |f.ports| && i < |args|
        invariant i <= |f.ports| && i <= |args| && depth == old(depth)
        invariant BindPorts(f.ports, args, env, env, cur, call) == BindPorts(f.ports[i..], args[i..], env, local, cur, call)
      {
        assert f.ports[i..][1..] == f.ports[i + 1..] && args[i..][1..] == args[i + 1..];
        var v := EvalExpr(args[i], env, cur);
        if v.Err? {
          return Err;
        }
        local := Bind(local, f.ports[i], v.value);
        i := i + 1;
      }
      ghost var bound := local;
      for j := 0 to |f.locals|
        invariant depth == old(depth)
        invariant DeclareLocals(f.locals, bound, cur, call) == DeclareLocals(f.locals[j..], local, cur, call)
      {
        assert f.locals[j..][0] == f.locals[j] && f.locals[j..][1..] == f.locals[j + 1..];
        var l := f.locals[j];
        if l.init.Some? {
          var v := EvalExpr(l.init.value, local, cur);
          if v.Ok? {
            local := Bind(local, l.name, v.value);
          }
        } else if l.isArray {
          local := local.(arrays := local.arrays[Plain(l.name) := []]);
        }
      }
      var flow := RunAll(f.stmts, local.(structs := map[]), cur);
      if flow.Err? || flow.value.returned.None? {
        return Err;
      }
      r := Ok(Scalar(flow.value.returned.value));
    }

    method EvalInt(e: Expr, env: Env, cur: Option<string>) returns (r: Result<int>)
      modifies this
      ensures depth == old(depth) && r == EvalScalar(e, env, cur, Callee())
      decreases Below(limits, depth), 1, e, 3
    {
      var v := EvalExpr(e, env, cur);
      r := if v.Ok? then AsScalar(v.value) else Err;
    }

    /** Evaluates an expression; operands left to right, stopping at the first that fails. */
    method EvalExpr(e: Expr, env: Env, cur: Option<string>) returns (r: Result<CVal>)
      modifies this
      ensures depth == old(depth) && r == Eval(e, env, cur, Callee())
      decreases Below(limits, depth), 1, e, 2
    {
      hide UnaryValue, BinaryValue, BitSelectValue, RangeSelectValue, PartSelectValue, ReplicateValue, MemberValue, ParseBase;
      match e {
        case Paren(inner) => r := EvalExpr(inner, env, cur);
        case Cast(inner) => r := EvalExpr(inner, env, cur);
        case Unary(op, arg) =>
          var v := EvalExpr(arg, env, cur);
          r := if v.Ok? then UnaryValue(op, arg, v.value) else Err;
        case Binary(op, lhs, rhs) =>
          var l, r' := EvalBoth(lhs, rhs, e, env, cur);
          r := if l.Ok? && r'.Ok? then BinaryValue(op, l.value, r'.value) else Err;
        case Ternary(cond, thn, els) =>
          var c := EvalExpr(cond, env, cur);
          if c.Err? || !c.value.Scalar? {
            return Err;
          }
          if c.value.n != 0 {
            r := EvalExpr(thn, env, cur);
          } else {
            r := EvalExpr(els, env, cur);
          }
        case BitSelect(_, _) => r := EvalSelect(e, env, cur);
        case RangeSelect(_, _, _) => r := EvalSelect(e, env, cur);
        case PartSelect(_, _, _) => r := EvalSelect(e, env, cur);
        case Concat(elems) =>
          var vs := EvalList(elems, env, cur);
          r := if vs.Ok? then Ok(Array(vs.value)) else Err;
        case Replicate(count, body) =>
          var c, v := EvalBoth(count, body, e, env, cur);
          r := if c.Ok? && v.Ok? then ReplicateValue(c.value, v.value) else Err;
        case Call(_, _) => r := EvalCall(e, env, cur);
        case StructLit(members) =>
          var fields := EvalFields(members, env, cur);
          r := if fields.Ok? then Ok(Struct(fields.value)) else Err;
        case MemberAccess(obj, field) =>
          var v := EvalExpr(obj, env, cur);
          r := if v.Ok? then MemberValue(v.value, field) else Err;
        case _ => r := Eval(e, env, cur, NoFunctions());
      }
    }

    method EvalCall(e: Expr, env: Env, cur: Option<string>) returns (r: Result<CVal>)
      requires e.Call?
      modifies this
      ensures depth == old(depth) && r == Eval(e, env, cur, Callee())
      decreases Below(limits, depth), 1, e, 1
    {
      var f, args := e.func, e.args;
      if IsUnaryCall(f) {
        if args == [] {
          return Err;
        }
        var v := EvalExpr(args[0], env, cur);
        r := if v.Ok? then UnaryCall(f, v.value) else Err;
      } else if f == "ceil_div" {
        if |args| < 2 {
          return Err;
        }
        var a, b := EvalBoth(args[0], args[1], e, env, cur);
        r := if a.Ok? && b.Ok? then CeilDiv(a.value, b.value) else Err;
      } else {
        r := CallFunction(f, args, env, cur);
      }
    }

    method EvalSelect(e: Expr, env: Env, cur: Option<string>) returns (r: Result<CVal>)
      requires e.BitSelect? || e.RangeSelect? || e.PartSelect?
      modifies this
      ensures depth == old(depth) && r == Eval(e, env, cur, Callee())
      decreases Below(limits, depth), 1, e, 1
    {
      match e {
        case BitSelect(base, index) =>
          var i, v := EvalBoth(index, base, e, env, cur);
          r := if i.Ok? && v.Ok? then BitSelectValue(v.value, i.value) else Err;
        case RangeSelect(base, msb, lsb) =>
          var m, l := EvalBoth(msb, lsb, e, env, cur);
          if m.Err? || l.Err? {
            return Err;
          }
          var v := EvalExpr(base, env, cur);
          r := if v.Ok? then RangeSelectValue(v.value, m.value, l.value) else Err;
        case PartSelect(base, start, size) =>
          var b, w := EvalBoth(start, size, e, env, cur);
          if b.Err? || w.Err? {
            return Err;
          }
          var v := EvalExpr(base, env, cur);
          r := if v.Ok? then PartSelectValue(v.value, b.value, w.value) else Err;
      }
    }

    /** Two operands in order; the second only if the first has a value. */
    method EvalBoth(x: Expr, y: Expr, ghost within: Expr, env: Env, cur: Option<string>)
      returns (a: Result<CVal>, b: Result<CVal>)
      requires x < within && y < within
      modifies this
      ensures depth == old(depth) && a == Eval(x, env, cur, Callee())
      ensures a.Ok? ==> b == Eval(y, env, cur, Callee())
      decreases Below(limits, depth), 1, within, 0
    {
      b := Err;
      a := EvalExpr(x, env, cur);
      if a.Ok? {
        b := EvalExpr(y, env, cur);
      }
    }

    method EvalList(es: seq<Expr>, env: Env, cur: Option<string>) returns (r: Result<seq<CVal>>)
      modifies this
      ensures depth == old(depth) && r == EvalAll(es, env, cur, Callee())
      decreases Below(limits, depth), 1, es
    {
      if es == [] {
        return Ok([]);
      }
      var v := EvalExpr(es[0], env, cur);
      if v.Err? {
        return Err;
      }
      var rest := EvalList(es[1..], env, cur);
      r := if rest.Ok? then Ok([v.value] + rest.value) else Err;
    }

    method EvalFields(ms: seq<Member>, env: Env, cur: Option<string>) returns (r: Result<seq<SField>>)
      modifies this
      ensures depth == old(depth) && r == EvalMembers(ms, env, cur, Callee())
      decreases Below(limits, depth), 1, ms
    {
      if ms == [] {
        return Ok([]);
      }
      var field := EvalField(ms[0], env, cur);
      if field.Err? {
        return Err;
      }
      var rest := EvalFields(ms[1..], env, cur);
      r := if rest.Ok? then Ok([field.value] + rest.value) else Err;
    }

    method EvalField(m: Member, env: Env, cur: Option<string>) returns (r: Result<SField>)
      modifies this
      ensures depth == old(depth) && r == EvalMember(m, env, cur, Callee())
      decreases Below(limits, depth), 1, m
    {
      var v := EvalExpr(m.val, env, cur);
      r := if v.Ok? then Ok(SField(if m.kind.Named? then Some(m.kind.name) else None, v.value, m.kind.Default?)) else Err;
    }

    method RunAll(ss: seq<Stmt>, env: Env, cur: Option<string>) returns (r: Result<Flow>)
      modifies this
      ensures depth == old(depth) && r == ExecAll(ss, env, cur, Callee(), limits.turns)
      decreases Below(limits, depth), 2, ss, 1
    {
      var at := env;
      for i := 0 to |ss|
        invariant depth == old(depth)
        invariant ExecAll(ss, env, cur, Callee(), limits.turns) == ExecAll(ss[i..], at, cur, Callee(), limits.turns)
      {
        assert ss[i..][0] == ss[i] && ss[i..][1..] == ss[i + 1..];
        var flow := Run(ss[i], at, cur);
        if flow.Err? || flow.value.returned.Some? {
          return flow;
        }
        at := flow.value.env;
      }
      r := Ok(Flow(at, None));
    }

    method Run(s: Stmt, env: Env, cur: Option<string>) returns (r: Result<Flow>)
      modifies this
      ensures depth == old(depth) && r == Exec(s, env, cur, Callee(), limits.turns)
      decreases Below(limits, depth), 2, s, 1
    {
      match s {
        case Block(stmts) => r := RunAll(stmts, env, cur);
        case IfElse(cond, thn, els) =>
          var c := EvalInt(cond, env, cur);
          if c.Err? {
            return Err;
          }
          if c.value != 0 {
            r := Run(thn, env, cur);
          } else if els.Some? {
            r := Run(els.value, env, cur);
          } else {
            r := Ok(Flow(env, None));
          }
        case LoopFor(init, _, _, _) =>
          var start := env;
          if init.Some? {
            var flow := Run(init.value, env, cur);
            if flow.Err? {
              return Err;
            }
            start := flow.value.env;
          }
          r := RunLoop(s, start, cur);
        case LoopWhile(_, _) => r := RunLoop(s, env, cur);
        case Repeat(count, body) =>
          var n := EvalInt(count, env, cur);
          if n.Err? {
            return Err;
          }
          r := RunTimes(s, env, cur, if n.value > 0 then n.value else 0);
        case Assign(name, rhs) =>
          var v := EvalExpr(rhs, env, cur);
          r := if v.Ok? then Ok(Flow(Bind(env, name, v.value), None)) else Err;
        case AssignElem(name, index, rhs) =>
          var v := EvalExpr(rhs, env, cur);
          if v.Err? {
            return Err;
          }
          var i := EvalInt(index, env, cur);
          if i.Err? {
            return Err;
          }
          var next := BindElem(env, name, i.value, v.value);
          r := if next.Ok? then Ok(Flow(next.value, None)) else Err;
        case AssignOther(rhs) =>
          var v := EvalExpr(rhs, env, cur);
          r := if v.Ok? then Ok(Flow(env, None)) else Err;
        case Return(None) => r := Ok(Flow(env, Some(0)));
        case Return(Some(e)) =>
          var n := EvalInt(e, env, cur);
          r := if n.Ok? then Ok(Flow(env, Some(n.value))) else Err;
        case Null => r := Ok(Flow(env, None));
        case Unsupported => r := Err;
      }
    }

    /** A loop, with its guard counted up to the limit. */
    method RunLoop(s: Stmt, env: Env, cur: Option<string>) returns (r: Result<Flow>)
      requires s.LoopFor? || s.LoopWhile?
      modifies this
      ensures depth == old(depth) && r == Loop(s, env, cur, Callee(), limits.turns, limits.turns)
      decreases Below(limits, depth), 2, s, 0
    {
      var at, guard := env, 0;
      while true
        invariant guard <= limits.turns && depth == old(depth)
        invariant Loop(s, env, cur, Callee(), limits.turns, limits.turns)
                  == Loop(s, at, cur, Callee(), limits.turns, limits.turns - guard)
        decreases limits.turns - guard
      {
        var more := RunCondition(s, at, cur);
        if more.Err? {
          return Err;
        }
        if !more.value {
          return Ok(Flow(at, None));
        }
        if guard == limits.turns {
          return Err;
        }
        guard := guard + 1;
        var flow := RunAll(s.body, at, cur);
        if flow.Err? || flow.value.returned.Some? {
          return flow;
        }
        at := flow.value.env;
        if s.LoopFor? && s.step.Some? {
          var step := Run(s.step.value, at, cur);
          if step.Err? {
            return Err;
          }
          at := step.value.env;
        }
      }
    }

    method RunCondition(s: Stmt, env: Env, cur: Option<string>) returns (r: Result<bool>)
      requires s.LoopFor? || s.LoopWhile?
      modifies this
      ensures depth == old(depth) && r == LoopGoesOn(s, env, cur, Callee())
      decreases Below(limits, depth), 1
    {
      if s.LoopFor? && s.until.None? {
        return Ok(true);
      }
      var c := EvalInt(if s.LoopFor? then s.until.value else s.cond, env, cur);
      r := if c.Ok? then Ok(c.value != 0) else Err;
    }

    method RunTimes(s: Stmt, env: Env, cur: Option<string>, n: nat) returns (r: Result<Flow>)
      requires s.Repeat?
      modifies this
      ensures depth == old(depth) && r == Times(s, env, cur, Callee(), limits.turns, n)
      decreases Below(limits, depth), 2, s, 0
    {
      var at := env;
      for i := 0 to n
        invariant depth == old(depth)
        invariant Times(s, env, cur, Callee(), limits.turns, n) == Times(s, at, cur, Callee(), limits.turns, n - i)
      {
        var flow := RunAll(s.body, at, cur);
        if flow.Err? || flow.value.returned.Some? {
          return flow;
        }
        at := flow.value.env;
      }
      r := Ok(Flow(at, None));
    }
  }
}
