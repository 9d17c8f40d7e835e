/**
 The inliner as it runs: a call counter, the list of temporaries and the traversal depth, updated as it
 goes. Every method is tied to the functions of `InlineSpec`.
 */
module Inliner {
  import opened Syntax
  import opened CallGraph
  import opened Semantics
  import opened Deletion
  import opened InlineComplete
  import opened InlineGraph
  import opened InlineMeaning
  import opened InlineSpec
  import Recursion

  lemma {:induction false} ElementOkE(fs: Functions, es: seq<Expr>, i: nat)
    requires i < |es| && OkEs(fs, es)
    ensures OkE(fs, es[i]) && OkEs(fs, es[i..])
  {
    if i > 0 {
      ElementOkE(fs, es[1..], i - 1);
      assert es[i..] == es[1..][i - 1..];
    }
  }

  lemma InlineEsStep(p: Program, es: seq<Expr>, i: nat, c: nat, depth: nat)
    requires WellFormed(p) && i < |es| && OkEs(p.funcs, es[i..]) && OkE(p.funcs, es[i]) && OkEs(p.funcs, es[i + 1..])
    ensures var h := InlineE(p, es[i], c, depth);
            var t := InlineEs(p, es[i + 1..], h.c, depth);
            InlineEs(p, es[i..], c, depth) == ExprsOut([h.e] + t.es, h.pre + t.pre, t.c, h.temps + t.temps)
  {
    hide WellFormed;
    assert es[i..][1..] == es[i + 1..] && es[i..][0] == es[i];
  }

  lemma InlineEsEnd(p: Program, es: seq<Expr>, c: nat, depth: nat)
    requires WellFormed(p) && OkEs(p.funcs, es[|es|..])
    ensures InlineEs(p, es[|es|..], c, depth) == ExprsOut([], [], c, [])
  {
  }

  lemma {:induction false} ElementOkS(fs: Functions, ss: seq<Stmt>, i: nat)
    requires i < |ss| && OkSs(fs, ss)
    ensures OkS(fs, ss[i]) && OkSs(fs, ss[i..])
  {
    if i > 0 {
      ElementOkS(fs, ss[1..], i - 1);
      assert ss[i..] == ss[1..][i - 1..];
    }
  }

  lemma Regroup<T>(a: seq<T>, b: seq<T>, c: seq<T>, d: seq<T>)
    ensures a + b + c + d == a + (b + c + d)
  {
  }

  class Inliner {
    const p: Program
    var counter: nat
    var tempSignals: seq<Symbol>
    var depth: nat

    constructor (p: Program)
      ensures this.p == p && counter == 0 && tempSignals == [] && depth == 0
    {
      this.p := p;
      counter, tempSignals, depth := 0, [], 0;
    }

    method ReplaceCalls(e: Expr, preamble: seq<Stmt>) returns (out: Expr, pre: seq<Stmt>)
      requires WellFormed(p) && OkE(p.funcs, e)
      modifies this
      ensures depth == old(depth)
      ensures var r := InlineE(p, e, old(counter), depth);
              out == r.e && pre == preamble + r.pre && counter == r.c && tempSignals == old(tempSignals) + r.temps
      decreases Left(depth), 0
    {
      pre := preamble;
      if depth > TRAVERSAL_LIMIT {
        return e, pre;
      }
      depth := depth + 1;
      match e {
      case Value(_) =>
        out := e;
      case Ident(_) =>
        out := e;
      case Op(op, operands) =>
        var es;
        es, pre := ReplaceAll(operands, pre);
        out := Op(op, es);
      case FuncCall(f, args) =>
        if f in p.recursive {
          var es;
          es, pre := ReplaceAll(args, pre);
          out := FuncCall(f, es);
        } else if depth > CALL_LIMIT || f !in p.funcs {
          out := e;
        } else {
          out, pre := ExpandCall(e, pre);
        }
      }
      depth := depth - 1;
    }

    method ReplaceAll(es: seq<Expr>, preamble: seq<Stmt>) returns (out: seq<Expr>, pre: seq<Stmt>)
      requires WellFormed(p) && OkEs(p.funcs, es)
      modifies this
      ensures depth == old(depth)
      ensures var r := InlineEs(p, es, old(counter), depth);
              out == r.es && pre == preamble + r.pre && counter == r.c && tempSignals == old(tempSignals) + r.temps
      decreases Left(depth), 1
    {
      hide WellFormed, InlineE, InlineEs;
      out, pre := [], preamble;
      var i := 0;
      ghost var d := depth;
      assert es[0..] == es;
      while i < |es|
        invariant 0 <= i <= |es| && depth == d && OkEs(p.funcs, es[i..])
        invariant var all, rest := InlineEs(p, es, old(counter), d), InlineEs(p, es[i..], counter, d);
                  && all.es == out + rest.es && preamble + all.pre == pre + rest.pre && all.c == rest.c
                  && old(tempSignals) + all.temps == tempSignals + rest.temps
      {
        ElementOkE(p.funcs, es, i);
        InlineEsStep(p, es, i, counter, d);
        var e;
        e, pre := ReplaceCalls(es[i], pre);
        out := out + [e];
        i := i + 1;
      }
      InlineEsEnd(p, es, counter, d);
    }

    /** Expands one call: arguments first, then the renaming, the argument copies and the body. */
    method ExpandCall(e: Expr, preamble: seq<Stmt>) returns (out: Expr, pre: seq<Stmt>)
      requires WellFormed(p) && OkE(p.funcs, e) && e.FuncCall? && Inlinable(p, e.func) && depth > 0
      modifies this
      ensures depth == old(depth)
      ensures var a := InlineEs(p, e.args, old(counter) + 1, depth);
              var r := Expand(p, e.func, old(counter), a, depth);
              out == r.e && pre == preamble + r.pre && counter == r.c && tempSignals == old(tempSignals) + r.temps
      decreases Left(depth), 4
    {
      var f, d, c := e.func, p.funcs[e.func], counter;
      counter := counter + 1;
      var result := Temp(f, c, Result);
      tempSignals := tempSignals + [result];
      var args, argPre := ReplaceAll(e.args, preamble);
      ghost var a := InlineEs(p, e.args, c + 1, depth);
      ghost var assigns, own := ArgAssigns(f, c, d.formals, args), OwnTemps(f, c, d, args);
      pre := ExpandBody(f, c, args, argPre);
      ghost var body := InlineSs(p, ExpandedBody(f, c, d, args), a.c, depth);
      Regroup(preamble, a.pre, assigns, body.ss);
      Regroup(old(tempSignals), [result] + a.temps, own, body.temps);
      assert tempSignals == old(tempSignals) + ([result] + a.temps + own + body.temps) by {
        assert old(tempSignals) + [result] + a.temps == old(tempSignals) + ([result] + a.temps);
      }
      out := Ident(result);
    }

    method ExpandBody(f: Symbol, c: nat, args: seq<Expr>, preamble: seq<Stmt>) returns (pre: seq<Stmt>)
      requires WellFormed(p) && Inlinable(p, f) && |args| == |p.funcs[f].formals|
      modifies this
      ensures depth == old(depth)
      ensures OkSs(p.funcs, ExpandedBody(f, c, p.funcs[f], args))
      ensures var d := p.funcs[f];
              var r := InlineSs(p, ExpandedBody(f, c, d, args), old(counter), depth);
              && pre == preamble + ArgAssigns(f, c, d.formals, args) + r.ss && counter == r.c
              && tempSignals == old(tempSignals) + OwnTemps(f, c, d, args) + r.temps
      decreases Left(depth), 3
    {
      var d := p.funcs[f];
      BodyFits(p, f, c, args);
      var body, pre1 := PrepareBody(f, c, d, args, preamble);
      ghost var before := tempSignals;
      body, pre := InlineAll(body, pre1);
      assert tempSignals == old(tempSignals) + OwnTemps(f, c, d, args) + tempSignals[|before|..];
    }

    /** Binds every name of the function and renames its body. */
    method PrepareBody(f: Symbol, c: nat, d: FuncDecl, args: seq<Expr>, preamble: seq<Stmt>)
      returns (body: seq<Stmt>, pre: seq<Stmt>)
      requires |args| == |d.formals|
      modifies this`tempSignals
      ensures body == ExpandedBody(f, c, d, args)
      ensures pre == preamble + ArgAssigns(f, c, d.formals, args)
      ensures tempSignals == old(tempSignals) + OwnTemps(f, c, d, args)
    {
      var rho: Renaming := map[f := Temp(f, c, Result)];
      rho, pre := BindArguments(f, c, d, args, rho, preamble);
      rho := BindDeclarations(f, c, d, rho);
      body := InitAssigns(f, c, FreshLocals(d.locals, PortMap(f, c, d, args).Keys), rho)
              + RenameSs(d.stmts, rho)
              + [BlockingAssign(Temp(f, c, Result), RenameE(d.ret, rho))];
    }

    /** Renames each formal to its argument's variable, or copies the argument to a temporary. */
    method BindArguments(f: Symbol, c: nat, d: FuncDecl, args: seq<Expr>, start: Renaming, preamble: seq<Stmt>)
      returns (rho: Renaming, pre: seq<Stmt>)
      requires |args| == |d.formals|
      modifies this`tempSignals
      ensures rho == BindPorts(f, c, d.formals, args, start)
      ensures pre == preamble + ArgAssigns(f, c, d.formals, args)
      ensures tempSignals == old(tempSignals) + ArgTemps(f, c, d.formals, args)
    {
      rho, pre := start, preamble;
      var i := 0;
      while i < |args|
        invariant 0 <= i <= |args|
        invariant BindPorts(f, c, d.formals, args, start) == BindPorts(f, c, d.formals[i..], args[i..], rho)
        invariant preamble + ArgAssigns(f, c, d.formals, args) == pre + ArgAssigns(f, c, d.formals[i..], args[i..])
        invariant old(tempSignals) + ArgTemps(f, c, d.formals, args)
                  == tempSignals + ArgTemps(f, c, d.formals[i..], args[i..])
      {
        assert d.formals[i..][1..] == d.formals[i + 1..] && args[i..][1..] == args[i + 1..];
        var formal := d.formals[i];
        if args[i].Ident? {
          rho := rho[formal := args[i].name];
        } else {
          var temp := Temp(f, c, Var(formal));
          tempSignals := tempSignals + [temp];
          rho := rho[formal := temp];
          pre := pre + [BlockingAssign(temp, args[i])];
        }
        i := i + 1;
      }
    }

    /** Gives each local a temporary, unless its name is bound already. */
    method BindDeclarations(f: Symbol, c: nat, d: FuncDecl, start: Renaming) returns (rho: Renaming)
      modifies this`tempSignals
      ensures rho == BindLocals(f, c, d.locals, start)
      ensures tempSignals == old(tempSignals) + LocalTemps(f, c, FreshLocals(d.locals, start.Keys))
    {
      rho := start;
      var i := 0;
      while i < |d.locals|
        invariant 0 <= i <= |d.locals|
        invariant BindLocals(f, c, d.locals, start) == BindLocals(f, c, d.locals[i..], rho)
        invariant old(tempSignals) + LocalTemps(f, c, FreshLocals(d.locals, start.Keys))
                  == tempSignals + LocalTemps(f, c, FreshLocals(d.locals[i..], rho.Keys))
      {
        assert d.locals[i..][1..] == d.locals[i + 1..];
        var name := d.locals[i].name;
        if name !in rho {
          var temp := Temp(f, c, Var(name));
          ghost var before := rho.Keys;
          ghost var rest := FreshLocals(d.locals[i + 1..], before + {name});
          assert ([d.locals[i]] + rest)[1..] == rest;
          tempSignals := tempSignals + [temp];
          rho := rho[name := temp];
          assert rho.Keys == before + {name};
        }
        i := i + 1;
      }
    }

    method InlineStmt(s: Stmt) returns (out: Stmt)
      requires WellFormed(p) && OkS(p.funcs, s)
      modifies this
      ensures depth == old(depth)
      ensures var r := InlineS(p, s, old(counter), depth);
              out == r.s && counter == r.c && tempSignals == old(tempSignals) + r.temps
      decreases Left(depth), 0
    {
      if depth > TRAVERSAL_LIMIT {
        return s;
      }
      depth := depth + 1;
      match s {
      case Block(ss) =>
        var outs, _ := InlineAll(ss, []);
        out := Block(outs);
      case IfElse(_, _, _) =>
        out := InlineIf(s);
      case BlockingAssign(x, rhs) =>
        var rhs', pre := ReplaceCalls(rhs, []);
        out := WithPreamble(pre, BlockingAssign(x, rhs'));
      }
      depth := depth - 1;
    }

    method InlineIf(s: Stmt) returns (out: Stmt)
      requires WellFormed(p) && OkS(p.funcs, s) && s.IfElse? && 0 < depth <= TRAVERSAL_LIMIT + 1
      modifies this
      ensures depth == old(depth)
      ensures var r := InlineS(p, s, old(counter), depth - 1);
              out == r.s && counter == r.c && tempSignals == old(tempSignals) + r.temps
      decreases Left(depth), 4
    {
      hide WellFormed;
      var cond, pre := ReplaceCalls(s.cond, []);
      var thn := InlineStmt(s.thn);
      var els := InlineStmt(s.els);
      out := WithPreamble(pre, IfElse(cond, thn, els));
    }

    /** Rewrites statements in order; `onto` is the list they are pushed on. */
    method InlineAll(ss: seq<Stmt>, onto: seq<Stmt>) returns (outs: seq<Stmt>, pushed: seq<Stmt>)
      requires WellFormed(p) && OkSs(p.funcs, ss)
      modifies this
      ensures depth == old(depth)
      ensures var r := InlineSs(p, ss, old(counter), depth);
              outs == r.ss && pushed == onto + r.ss && counter == r.c && tempSignals == old(tempSignals) + r.temps
      decreases Left(depth), 1
    {
      hide WellFormed, InlineS, OkS;
      outs, pushed := [], onto;
      var i := 0;
      ghost var d := depth;
      assert ss[0..] == ss;
      while i < |ss|
        invariant 0 <= i <= |ss| && depth == d && OkSs(p.funcs, ss[i..])
        invariant pushed == onto + outs
        invariant var all, rest := InlineSs(p, ss, old(counter), d), InlineSs(p, ss[i..], counter, d);
                  && all.ss == outs + rest.ss && all.c == rest.c
                  && old(tempSignals) + all.temps == tempSignals + rest.temps
      {
        ElementOkS(p.funcs, ss, i);
        assert ss[i..][1..] == ss[i + 1..];
        var s := InlineStmt(ss[i]);
        outs, pushed := outs + [s], pushed + [s];
        i := i + 1;
      }
    }
  }

  /** The scoping rules, for the functions on no cycle of the collected graph. */
  ghost predicate ScopedOffCycles(funcs: Functions) {
    forall f {:trigger WellScoped(funcs, f)} ::
      f in funcs && !OnCycle(Recursion.CollectedGraph(funcs), f) ==> WellScoped(funcs, f)
  }

  /**
   Inlining the statements of a module: detect the recursive functions, rewrite, and delete the functions
   that may be expanded. From every state and for every meaning `m` that runs the inlinable functions'
   bodies, the rewritten statements end if the original ones do and agree with them on every original
   variable. With the functions that are kept they run as the original ones do with all, whatever unknown
   names mean, if no call of a deleted function is left and no kept function that they call needs one.
   Every temporary they write is declared once; and if expansion is acyclic then, within the depth limit,
   a call is left only if it is shielded by an unknown function.
   */
  method InlineModule(funcs: Functions, ss: seq<Stmt>, ghost m: Meaning, ghost base: Meaning)
    returns (out: seq<Stmt>, temps: seq<Symbol>, recursive: set<Symbol>, kept: Functions)
    requires ScopedOffCycles(funcs) && OkSs(funcs, ss)
    requires forall x :: x in ReadsSs(ss) + WritesSs(ss) ==> x.User?
    ensures var p := Program(funcs, recursive);
            Detected(p) && WellFormed(p) && OkSs(funcs, out) && kept == Kept(p)
    ensures Solves(Program(funcs, recursive), m) ==>
              forall t: State :: SameForUsers(ExecSs(m, ss, Env(t, map[])), ExecSs(m, out, Env(t, map[])))
    ensures var p := Program(funcs, recursive);
            CleanSs(p, out) && KeptNeedNoDeleted(p, out) ==> forall t: State :: SameRuns(p, base, ss, out, t)
    ensures var p := Program(funcs, recursive);
            Declares(temps, WritesSs(out), WritesSs(ss), 0, InlineSs(p, ss, 0, 0).c)
    ensures var p := Program(funcs, recursive);
            Acyclic(p) && NestSs(p, ss) <= CALL_LIMIT ==> (CleanSs(p, out) <==> !ShieldedSs(p, ss))
  {
    var detector := new Recursion.Detector(funcs);
    recursive := detector.DetectRecursive();
    var p := Program(funcs, recursive);
    forall f | Inlinable(p, f)
      ensures WellScoped(funcs, f)
    {
    }
    forall x | x in ReadsSs(ss)
      ensures Below(x, 0)
    {
      assert x in ReadsSs(ss) + WritesSs(ss);
    }
    var inliner := new Inliner(p);
    var pushed;
    out, pushed := inliner.InlineAll(ss, []);
    temps := inliner.tempSignals;
    kept := RetainRecursive(p);
    ShapeSs(p, ss, 0, 0, 0);
    DeclaresSs(p, ss, 0, 0);
    ModuleMeans(p, ss, out, m, base);
    if Acyclic(p) && NestSs(p, ss) <= CALL_LIMIT {
      CleanIffSs(p, ss, 0, 0);
    }
  }

  /** Drops the declarations of the functions that have been inlined. */
  method RetainRecursive(p: Program) returns (kept: Functions)
    ensures kept == Kept(p)
  {
    kept := map[];
    var rest := p.funcs.Keys;
    while rest != {}
      invariant rest <= p.funcs.Keys
      invariant kept == map f | f in p.funcs && f !in rest && f in p.recursive :: p.funcs[f]
    {
      var f :| f in rest;
      rest := rest - {f};
      if f in p.recursive {
        kept := kept[f := p.funcs[f]];
      }
    }
  }

  lemma ModuleMeans(p: Program, ss: seq<Stmt>, out: seq<Stmt>, m: Meaning, base: Meaning)
    requires WellFormed(p) && OkSs(p.funcs, ss) && out == InlineSs(p, ss, 0, 0).ss
    requires forall x :: x in ReadsSs(ss) + WritesSs(ss) ==> x.User?
    ensures Solves(p, m) ==>
              forall t: State :: SameForUsers(ExecSs(m, ss, Env(t, map[])), ExecSs(m, out, Env(t, map[])))
    ensures CleanSs(p, out) && KeptNeedNoDeleted(p, out) ==> forall t: State :: SameRuns(p, base, ss, out, t)
  {
    forall t: State | Solves(p, m)
      ensures SameForUsers(ExecSs(m, ss, Env(t, map[])), ExecSs(m, out, Env(t, map[])))
    {
      InliningPreservesMeaning(p, m, ss, 0, 0, t);
    }
    forall t: State | CleanSs(p, out) && KeptNeedNoDeleted(p, out)
      ensures SameRuns(p, base, ss, out, t)
    {
      ModulePreserved(p, base, ss, 0, 0, t);
    }
  }
}
