/**
 The two evaluators agree on the operators that do not look at widths, and on those operators substituting
 the arguments of a `let` is the same as binding its parameters.
 */
module ConstAgree {
  import opened Outcomes
  import opened Words
  import opened ConstSyntax
  import CE = ConstEval
  import XE = ExtEval

  type Params = CE.Params

  /** Operators that work on whole words and nothing else. */
  predicate WordUnary(op: UnaryOp) {
    op in {Plus, Minus, Not, ReductionOr, ReductionNor, ReductionXor}
  }

  predicate WordBinary(op: BinaryOp) {
    op in {Add, Sub, Mul, BitAnd, BitOr, BitXor, BitXnor, Eq, Neq, LogicalAnd, LogicalOr}
  }

  /** Decimals, unmarked literals, names, word operators, choices, parentheses. */
  predicate Common(e: Expr) {
    match e
    case Decimal(_) => true
    case Based(digits, _, _, signed) => !signed && '_' !in digits
    case Text(_) => true
    case Fill => true
    case Ident(_) => true
    case Paren(inner) => Common(inner)
    case Unary(op, arg) => WordUnary(op) && Common(arg)
    case Binary(op, lhs, rhs) => WordBinary(op) && Common(lhs) && Common(rhs)
    case Ternary(cond, thn, els) => Common(cond) && Common(thn) && Common(els)
    case _ => false
  }

  // ---- the evaluators agree ----

  /** The same constants, as scalars under plain names. */
  function AsEnv(params: Params): XE.Env {
    XE.Env(map x | x in params :: XE.Plain(x) := params[x], map[], map[])
  }

  function AsScalarResult(r: Result<int>): Result<XE.CVal> {
    match r
    case Ok(v) => Ok(XE.Scalar(v))
    case Err => Err
  }

  lemma {:induction false} NothingToStrip(digits: string)
    requires '_' !in digits
    ensures XE.Strip(digits) == digits
  {
    if digits != "" {
      NothingToStrip(digits[1..]);
    }
  }

  lemma UnaryAgrees(op: UnaryOp, arg: Expr, v: int)
    requires WordUnary(op)
    ensures XE.ApplyUnary(op, arg, v) == CE.EvalUnary(op, arg, v)
  {
  }

  lemma BinaryAgrees(op: BinaryOp, lhs: Expr, rhs: Expr, l: int, r: int)
    requires WordBinary(op)
    ensures XE.ApplyBin(op, l, r) == CE.EvalBinary(op, lhs, rhs, l, r)
  {
  }

  lemma BinaryUnfolds(op: BinaryOp, lhs: Expr, rhs: Expr, params: Params)
    requires WordBinary(op)
    ensures var (l, r) := (CE.Eval(lhs, params), CE.Eval(rhs, params));
            CE.Eval(Binary(op, lhs, rhs), params) ==
            if l.Ok? && r.Ok? then CE.EvalBinary(op, lhs, rhs, l.value, r.value) else Err
  {
  }

  lemma UnaryUnfolds(op: UnaryOp, arg: Expr, params: Params)
    ensures CE.Eval(Unary(op, arg), params) ==
            if CE.Eval(arg, params).Ok? then Ok(CE.EvalUnary(op, arg, CE.Eval(arg, params).value)) else Err
  {
  }

  /** On the common fragment both evaluators give the same value, and fail together. */
  lemma {:induction false} EvaluatorsAgree(e: Expr, params: Params)
    requires Common(e)
    ensures XE.Eval(e, AsEnv(params), None, XE.NoFunctions()) == AsScalarResult(CE.Eval(e, params))
    decreases e, 1
  {
    var env := AsEnv(params);
    match e
    case Decimal(_) =>
    case Based(digits, _, _, _) => NothingToStrip(digits);
    case Text(_) =>
    case Fill =>
    case Ident(name) => assert XE.Plain(name) in env.scalars <==> name in params;
    case Paren(inner) => EvaluatorsAgree(inner, params);
    case Unary(op, arg) =>
      EvaluatorsAgree(arg, params);
      UnaryUnfolds(op, arg, params);
      if CE.Eval(arg, params).Ok? {
        UnaryAgrees(op, arg, CE.Eval(arg, params).value);
      }
    case Binary(op, lhs, rhs) => BothSidesAgree(e, params);
    case Ternary(cond, thn, els) =>
      EvaluatorsAgree(cond, params);
      EvaluatorsAgree(thn, params);
      EvaluatorsAgree(els, params);
  }

  lemma {:induction false} BothSidesAgree(e: Expr, params: Params)
    requires Common(e) && e.Binary?
    ensures XE.Eval(e, AsEnv(params), None, XE.NoFunctions()) == AsScalarResult(CE.Eval(e, params))
    decreases e, 0
  {
    var op, lhs, rhs := e.bop, e.lhs, e.rhs;
    EvaluatorsAgree(lhs, params);
    EvaluatorsAgree(rhs, params);
    BinaryUnfolds(op, lhs, rhs, params);
    if CE.Eval(lhs, params).Ok? && CE.Eval(rhs, params).Ok? {
      BinaryAgrees(op, lhs, rhs, CE.Eval(lhs, params).value, CE.Eval(rhs, params).value);
    }
  }

  /**
   Outside the fragment, on the reduction `~^`, which the extended evaluator reads as the plain reduction:
   the evaluators differ wherever the operand has a value, and agree only in failing.
   */
  lemma ReductionXnorDiffers(arg: Expr, params: Params)
    requires Common(arg)
    ensures var e := Unary(ReductionXnor, arg);
            XE.Eval(e, AsEnv(params), None, XE.NoFunctions()) == AsScalarResult(CE.Eval(e, params))
            <==> CE.Eval(arg, params).Err?
  {
    hide CE.Eval, XE.Eval, CE.EvalUnary, XE.ApplyUnary, AsEnv;
    EvaluatorsAgree(arg, params);
    UnaryUnfolds(ReductionXnor, arg, params);
    ExtendedUnfolds(ReductionXnor, arg, AsEnv(params));
    var r := CE.Eval(arg, params);
    if r.Ok? {
      OppositeParity(arg, r.value);
    }
  }

  lemma OppositeParity(arg: Expr, v: int)
    ensures CE.EvalUnary(ReductionXnor, arg, v) == 1 - XE.ApplyUnary(ReductionXnor, arg, v)
    ensures XE.ApplyUnary(ReductionXnor, arg, v) in {0, 1}
  {
  }

  lemma ExtendedUnfolds(op: UnaryOp, arg: Expr, env: XE.Env)
    ensures var v := XE.Eval(arg, env, None, XE.NoFunctions());
            XE.Eval(Unary(op, arg), env, None, XE.NoFunctions())
            == if v.Ok? then XE.UnaryValue(op, arg, v.value) else Err
  {
    hide XE.UnaryValue;
  }

  /** An instance: `~^1` is 0 for one and 1 for the other. */
  lemma EvaluatorsDiffer(params: Params)
    ensures var e := Unary(ReductionXnor, Decimal(1));
            CE.Eval(e, params) == Ok(0) && XE.Eval(e, AsEnv(params), None, XE.NoFunctions()) == Ok(XE.Scalar(1))
  {
    assert CountOnes(U64(1)) == 1;
  }

  // ---- let ----

  /** Replaces the parameters of a `let` by its arguments, all at once. */
  function SubstituteLetArgs(e: Expr, args: map<string, Expr>): Expr
    decreases e, 1
  {
    match e
    case Ident(name) => if name in args then args[name] else e
    case RangeSelect(base, msb, lsb) =>
      RangeSelect(SubstituteLetArgs(base, args), SubstituteLetArgs(msb, args), SubstituteLetArgs(lsb, args))
    case BitSelect(base, index) => BitSelect(SubstituteLetArgs(base, args), SubstituteLetArgs(index, args))
    case PartSelect(base, start, size) =>
      PartSelect(SubstituteLetArgs(base, args), SubstituteLetArgs(start, args), SubstituteLetArgs(size, args))
    case Concat(elems) => Concat(SubstituteAll(elems, args))
    case Replicate(count, body) => Replicate(SubstituteLetArgs(count, args), SubstituteLetArgs(body, args))
    case Unary(op, arg) => Unary(op, SubstituteLetArgs(arg, args))
    case Binary(op, lhs, rhs) => Binary(op, SubstituteLetArgs(lhs, args), SubstituteLetArgs(rhs, args))
    case Ternary(cond, thn, els) =>
      Ternary(SubstituteLetArgs(cond, args), SubstituteLetArgs(thn, args), SubstituteLetArgs(els, args))
    case Paren(inner) => Paren(SubstituteLetArgs(inner, args))
    case Call(f, es) => Call(f, SubstituteAll(es, args))
    case MemberAccess(obj, field) => MemberAccess(SubstituteLetArgs(obj, args), field)
    case Cast(inner) => Cast(SubstituteLetArgs(inner, args))
    case _ => e
  }

  function SubstituteAll(es: seq<Expr>, args: map<string, Expr>): seq<Expr>
    decreases es, 0
  {
    if es == [] then [] else [SubstituteLetArgs(es[0], args)] + SubstituteAll(es[1..], args)
  }

  /** The plain names in an expression, but for those inside struct literals, which substitution leaves alone. */
  function NamesIn(e: Expr): set<string>
    decreases e, 1
  {
    match e
    case Ident(name) => {name}
    case RangeSelect(base, msb, lsb) => NamesIn(base) + NamesIn(msb) + NamesIn(lsb)
    case BitSelect(base, index) => NamesIn(base) + NamesIn(index)
    case PartSelect(base, start, size) => NamesIn(base) + NamesIn(start) + NamesIn(size)
    case Concat(elems) => NamesInAll(elems)
    case Replicate(count, body) => NamesIn(count) + NamesIn(body)
    case Unary(_, arg) => NamesIn(arg)
    case Binary(_, lhs, rhs) => NamesIn(lhs) + NamesIn(rhs)
    case Ternary(cond, thn, els) => NamesIn(cond) + NamesIn(thn) + NamesIn(els)
    case Paren(inner) => NamesIn(inner)
    case Call(_, es) => NamesInAll(es)
    case MemberAccess(obj, _) => NamesIn(obj)
    case Cast(inner) => NamesIn(inner)
    case _ => {}
  }

  function NamesInAll(es: seq<Expr>): set<string>
    decreases es, 0
  {
    if es == [] then {} else NamesIn(es[0]) + NamesInAll(es[1..])
  }

  /**
   Substitution reaches every name: after renaming the parameters none of the old names is left, and renaming them
   back gives the expression again.
   */
  lemma {:induction false} RenamingIsUndone(e: Expr, args: map<string, Expr>, back: map<string, Expr>)
    requires Renames(args) && Undoes(back, args) && NamesIn(e) !! back.Keys
    ensures NamesIn(SubstituteLetArgs(e, args)) !! args.Keys
    ensures SubstituteLetArgs(SubstituteLetArgs(e, args), back) == e
    decreases e, 1
  {
    match e
    case Ident(_) =>
    case RangeSelect(_, _, _) => SelectionUndone(e, args, back);
    case BitSelect(_, _) => SelectionUndone(e, args, back);
    case PartSelect(_, _, _) => SelectionUndone(e, args, back);
    case Concat(elems) => AllRenamingsUndone(elems, args, back);
    case Replicate(count, body) =>
      RenamingIsUndone(count, args, back);
      RenamingIsUndone(body, args, back);
    case Unary(_, arg) => RenamingIsUndone(arg, args, back);
    case Binary(_, lhs, rhs) =>
      RenamingIsUndone(lhs, args, back);
      RenamingIsUndone(rhs, args, back);
    case Ternary(cond, thn, els) =>
      RenamingIsUndone(cond, args, back);
      RenamingIsUndone(thn, args, back);
      RenamingIsUndone(els, args, back);
    case Paren(inner) => RenamingIsUndone(inner, args, back);
    case Call(_, es) => AllRenamingsUndone(es, args, back);
    case MemberAccess(obj, _) => RenamingIsUndone(obj, args, back);
    case Cast(inner) => RenamingIsUndone(inner, args, back);
    case _ =>
  }

  lemma {:induction false} SelectionUndone(e: Expr, args: map<string, Expr>, back: map<string, Expr>)
    requires e.RangeSelect? || e.BitSelect? || e.PartSelect?
    requires Renames(args) && Undoes(back, args) && NamesIn(e) !! back.Keys
    ensures NamesIn(SubstituteLetArgs(e, args)) !! args.Keys
    ensures SubstituteLetArgs(SubstituteLetArgs(e, args), back) == e
    decreases e, 0
  {
    hide Renames, Undoes;
    match e
    case RangeSelect(base, msb, lsb) =>
      RenamingIsUndone(base, args, back);
      RenamingIsUndone(msb, args, back);
      RenamingIsUndone(lsb, args, back);
    case BitSelect(base, index) =>
      RenamingIsUndone(base, args, back);
      RenamingIsUndone(index, args, back);
    case PartSelect(base, start, size) =>
      RenamingIsUndone(base, args, back);
      RenamingIsUndone(start, args, back);
      RenamingIsUndone(size, args, back);
  }

  lemma {:induction false} AllRenamingsUndone(es: seq<Expr>, args: map<string, Expr>, back: map<string, Expr>)
    requires Renames(args) && Undoes(back, args) && NamesInAll(es) !! back.Keys
    ensures NamesInAll(SubstituteAll(es, args)) !! args.Keys
    ensures SubstituteAll(SubstituteAll(es, args), back) == es
    decreases es, 0
  {
    if es != [] {
      RenamingIsUndone(es[0], args, back);
      AllRenamingsUndone(es[1..], args, back);
      assert SubstituteAll(es, args)[1..] == SubstituteAll(es[1..], args);
    }
  }

  /** The parameters become names that are none of them. */
  ghost predicate Renames(args: map<string, Expr>) {
    forall x :: x in args ==> args[x].Ident? && args[x].name !in args
  }

  /** The new names become the parameters again. */
  ghost predicate Undoes(back: map<string, Expr>, args: map<string, Expr>)
    requires Renames(args)
  {
    forall x :: x in args ==> args[x].name in back && back[args[x].name] == Ident(x)
  }

  /** The arguments' values, evaluated where the `let` is used. */
  ghost predicate ArgumentsEvaluate(args: map<string, Expr>, vals: Params, params: Params) {
    vals.Keys == args.Keys && forall x :: x in args ==> CE.Eval(args[x], params) == Ok(vals[x])
  }

  /**
   Substitution is sound and simultaneous: evaluating the substituted body is evaluating the body with the
   parameters bound to the arguments' values; an argument that mentions a parameter's name is not caught.
   */
  lemma {:induction false} LetIsBinding(body: Expr, args: map<string, Expr>, vals: Params, params: Params)
    requires Common(body) && ArgumentsEvaluate(args, vals, params)
    ensures CE.Eval(SubstituteLetArgs(body, args), params) == CE.Eval(body, params + vals)
  {
    match body
    case Decimal(_) =>
    case Based(_, _, _, _) =>
    case Text(_) =>
    case Fill =>
    case Ident(_) =>
    case Paren(inner) => LetIsBinding(inner, args, vals, params);
    case Unary(op, arg) =>
      LetIsBinding(arg, args, vals, params);
      UnaryUnfolds(op, arg, params + vals);
      UnaryUnfolds(op, SubstituteLetArgs(arg, args), params);
      UnaryIgnoresSyntax(op, arg, SubstituteLetArgs(arg, args));
    case Binary(op, lhs, rhs) =>
      LetIsBinding(lhs, args, vals, params);
      LetIsBinding(rhs, args, vals, params);
      BinaryUnfolds(op, lhs, rhs, params + vals);
      BinaryUnfolds(op, SubstituteLetArgs(lhs, args), SubstituteLetArgs(rhs, args), params);
      BinaryIgnoresSyntax(op, lhs, rhs, SubstituteLetArgs(lhs, args), SubstituteLetArgs(rhs, args));
    case Ternary(cond, thn, els) =>
      LetIsBinding(cond, args, vals, params);
      LetIsBinding(thn, args, vals, params);
      LetIsBinding(els, args, vals, params);
  }

  lemma UnaryIgnoresSyntax(op: UnaryOp, arg: Expr, arg': Expr)
    requires WordUnary(op)
    ensures forall v :: CE.EvalUnary(op, arg, v) == CE.EvalUnary(op, arg', v)
  {
  }

  lemma BinaryIgnoresSyntax(op: BinaryOp, lhs: Expr, rhs: Expr, lhs': Expr, rhs': Expr)
    requires WordBinary(op)
    ensures forall l, r :: CE.EvalBinary(op, lhs, rhs, l, r) == CE.EvalBinary(op, lhs', rhs', l, r)
  {
  }

  /**
   A parameter complemented by `~` has no width of its own, but its argument may have one: the substituted
   body keeps its value exactly if the argument's width does not cut the complement.
   */
  lemma LetComplement(x: string, arg: Expr, v: int, params: Params)
    requires CE.Eval(arg, params) == Ok(v)
    ensures CE.Eval(SubstituteLetArgs(Unary(BitNot, Ident(x)), map[x := arg]), params)
            == CE.Eval(Unary(BitNot, Ident(x)), params + map[x := v])
            <==> (match SizedWidth(arg)
                  case Some(w) => w == 0 || w >= 64 || -Pow2(w) <= v < 0
                  case None => true)
  {
    UnaryUnfolds(BitNot, arg, params);
    UnaryUnfolds(BitNot, Ident(x), params + map[x := v]);
    var w := SizedWidth(arg);
    if w.Some? && 0 < w.value < 64 && 0 <= NotI64(v) < Pow2(w.value) {
      SmallMod(NotI64(v), Pow2(w.value));
    }
  }
}
