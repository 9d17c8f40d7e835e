/**
 What the extended evaluator computes: scalar operators in terms of values and bits, division, arrays by element,
 structs by member, and where a name is looked for.
 */
module ExtLaws {
  import opened Basics
  import opened Outcomes
  import opened Words
  import opened WordLaws
  import opened ConstSyntax
  import opened ExtEval
  import opened ConstArith
  import CE = ConstEval
  import CL = ConstLaws
  import PackageStore

  /** The expression has this scalar value. */
  ghost predicate IsScalar(e: Expr, env: Env, cur: Option<string>, call: Callee, n: int) {
    Eval(e, env, cur, call) == Ok(Scalar(n))
  }

  /** The operator gives `v` for `a` and `b`. */
  ghost predicate Gives(op: BinaryOp, lhs: Expr, rhs: Expr, env: Env, cur: Option<string>, call: Callee, v: int) {
    Eval(Binary(op, lhs, rhs), env, cur, call) == Ok(Scalar(v))
  }

  function Truth(b: bool): int {
    if b then 1 else 0
  }

  lemma BinaryUnfolds(op: BinaryOp, lhs: Expr, rhs: Expr, env: Env, cur: Option<string>, call: Callee, a: int, b: int)
    requires IsScalar(lhs, env, cur, call, a) && IsScalar(rhs, env, cur, call, b)
    ensures Eval(Binary(op, lhs, rhs), env, cur, call) ==
            match ApplyBin(op, a, b) case Ok(n) => Ok(Scalar(n)) case Err => Err
  {
    hide ApplyBin;
  }

  // ---- operators ----

  /** The order operators compare signed values, and equality whole ones. */
  lemma ComparisonsAre(lhs: Expr, rhs: Expr, env: Env, cur: Option<string>, call: Callee, a: int, b: int)
    requires IsScalar(lhs, env, cur, call, a) && IsScalar(rhs, env, cur, call, b)
    ensures Gives(Lt, lhs, rhs, env, cur, call, Truth(a < b)) && Gives(Ge, lhs, rhs, env, cur, call, Truth(a >= b))
    ensures Gives(Gt, lhs, rhs, env, cur, call, Truth(a > b)) && Gives(Le, lhs, rhs, env, cur, call, Truth(a <= b))
    ensures Gives(Eq, lhs, rhs, env, cur, call, Truth(a == b)) && Gives(Neq, lhs, rhs, env, cur, call, Truth(a != b))
    ensures Gives(LogicalAnd, lhs, rhs, env, cur, call, Truth(a != 0 && b != 0))
    ensures Gives(LogicalOr, lhs, rhs, env, cur, call, Truth(a != 0 || b != 0))
  {
    Compares(Lt, lhs, rhs, env, cur, call, a, b);
    Compares(Ge, lhs, rhs, env, cur, call, a, b);
    Compares(Gt, lhs, rhs, env, cur, call, a, b);
    Compares(Le, lhs, rhs, env, cur, call, a, b);
    Compares(Eq, lhs, rhs, env, cur, call, a, b);
    Compares(Neq, lhs, rhs, env, cur, call, a, b);
    Compares(LogicalAnd, lhs, rhs, env, cur, call, a, b);
    Compares(LogicalOr, lhs, rhs, env, cur, call, a, b);
    hide Gives, IsScalar;
  }

  lemma Compares(op: BinaryOp, lhs: Expr, rhs: Expr, env: Env, cur: Option<string>, call: Callee, a: int, b: int)
    requires op in {Lt, Le, Gt, Ge, Eq, Neq, LogicalAnd, LogicalOr}
    requires IsScalar(lhs, env, cur, call, a) && IsScalar(rhs, env, cur, call, b)
    ensures Gives(op, lhs, rhs, env, cur, call,
                  Truth(match op
                        case Lt => a < b
                        case Le => a <= b
                        case Gt => a > b
                        case Ge => a >= b
                        case Eq => a == b
                        case Neq => a != b
                        case LogicalAnd => a != 0 && b != 0
                        case _ => a != 0 || b != 0))
  {
    BinaryUnfolds(op, lhs, rhs, env, cur, call, a, b);
    hide Eval, IsScalar;
  }

  /** What a word operator gives, in terms of numbers modulo two to the 64 and of bits. */
  ghost predicate IsResult(op: BinaryOp, a: int, b: int, v: int) {
    && InRange(v)
    && match op
       case Add => IsWord(v, a + b)
       case Sub => IsWord(v, a - b)
       case Mul => IsWord(v, a * b)
       case Power => IsWord(v, CE.Pow(U64(a), U64(b)))
       case BitAnd => forall i: nat :: i < 64 ==> (Bit(v, i) == 1 <==> Bit(a, i) == 1 && Bit(b, i) == 1)
       case BitOr => forall i: nat :: i < 64 ==> (Bit(v, i) == 1 <==> Bit(a, i) == 1 || Bit(b, i) == 1)
       case BitXor => forall i: nat :: i < 64 ==> (Bit(v, i) == 1 <==> Bit(a, i) != Bit(b, i))
       case BitXnor => forall i: nat :: i < 64 ==> (Bit(v, i) == 1 <==> Bit(a, i) == Bit(b, i))
       case Shl => IsWord(v, a * Pow2(b % 64))
       case Sshl => IsWord(v, a * Pow2(b % 64))
       case Shr => v == a / Pow2(b % 64)
       case Sshr => v == a / Pow2(b % 64)
       case _ => false
  }

  predicate IsWordOp(op: BinaryOp) {
    op in {Add, Sub, Mul, Power, BitAnd, BitOr, BitXor, BitXnor, Shl, Sshl, Shr, Sshr}
  }

  lemma Applies(op: BinaryOp, a: int, b: int)
    requires IsWordOp(op) && InRange(a)
    ensures ApplyBin(op, a, b).Ok? && IsResult(op, a, b, ApplyBin(op, a, b).value)
  {
    match op
    case Add => WordIs(a + b);
    case Sub => WordIs(a - b);
    case Mul => WordIs(a * b);
    case Power => WordIs(CE.Pow(U64(a), U64(b)));
    case Shl => WordIs(a * Pow2(b % 64));
    case Sshl => WordIs(a * Pow2(b % 64));
    case Shr => CL.WordShifted(a, b % 64);
    case Sshr => CL.WordShifted(a, b % 64);
    case _ => BitsApply(op, a, b);
  }

  lemma BitsApply(op: BinaryOp, a: int, b: int)
    requires op in {BitAnd, BitOr, BitXor, BitXnor}
    ensures ApplyBin(op, a, b).Ok? && IsResult(op, a, b, ApplyBin(op, a, b).value)
  {
    CL.WordBits(a, b, 0);
    forall i: nat | i < 64
      ensures Bit(BitwiseI64(And, a, b), i) == 1 <==> Bit(a, i) == 1 && Bit(b, i) == 1
      ensures Bit(BitwiseI64(Or, a, b), i) == 1 <==> Bit(a, i) == 1 || Bit(b, i) == 1
      ensures Bit(BitwiseI64(Xor, a, b), i) == 1 <==> Bit(a, i) != Bit(b, i)
      ensures Bit(NotI64(BitwiseI64(Xor, a, b)), i) == 1 <==> Bit(a, i) == Bit(b, i)
    {
      CL.WordBits(a, b, i);
      NotBits(BitwiseI64(Xor, a, b), i);
      hide Bit, BitwiseI64;
    }
    hide Bit, BitwiseI64;
  }

  /** The word operators give a word, and the one they should. */
  lemma OperatorIs(op: BinaryOp, lhs: Expr, rhs: Expr, env: Env, cur: Option<string>, call: Callee, a: int, b: int)
    requires IsScalar(lhs, env, cur, call, a) && IsScalar(rhs, env, cur, call, b) && IsWordOp(op) && InRange(a)
    ensures exists v :: Gives(op, lhs, rhs, env, cur, call, v) && IsResult(op, a, b, v)
  {
    BinaryUnfolds(op, lhs, rhs, env, cur, call, a, b);
    Applies(op, a, b);
    hide ApplyBin, IsResult, Eval;
    assert Gives(op, lhs, rhs, env, cur, call, ApplyBin(op, a, b).value);
  }

  /** Division rounds toward zero; it fails exactly for a zero divisor and for the least word by -1. */
  lemma DivisionIs(lhs: Expr, rhs: Expr, env: Env, cur: Option<string>, call: Callee, a: int, b: int)
    requires IsScalar(lhs, env, cur, call, a) && IsScalar(rhs, env, cur, call, b) && InRange(a)
    ensures var (div, mod) := (Eval(Binary(Div, lhs, rhs), env, cur, call), Eval(Binary(Mod, lhs, rhs), env, cur, call));
            if b == 0 || (a == -TWO63 && b == -1) then div == mod == Err
            else
              && div.Ok? && div.value.Scalar? && mod.Ok? && mod.value.Scalar?
              && CL.IsDivision(a, b, div.value.n, mod.value.n)
  {
    BinaryUnfolds(Div, lhs, rhs, env, cur, call, a, b);
    BinaryUnfolds(Mod, lhs, rhs, env, cur, call, a, b);
    hide Eval, CL.IsDivision, TruncDiv, TruncRem;
    if b != 0 && (a != -TWO63 || b != -1) {
      CL.SignedDivision(a, b);
    }
  }

  /** The case and wildcard equalities are not supported. */
  lemma NoCaseEquality(op: BinaryOp, lhs: Expr, rhs: Expr, env: Env, cur: Option<string>, call: Callee)
    requires op in {CaseEq, CaseNeq, EqWild, NeqWild}
    ensures Eval(Binary(op, lhs, rhs), env, cur, call) == Err
  {
    var l, r := Eval(lhs, env, cur, call), Eval(rhs, env, cur, call);
    if l.Ok? && r.Ok? && l.value.Scalar? && r.value.Scalar? {
      BinaryUnfolds(op, lhs, rhs, env, cur, call, l.value.n, r.value.n);
    }
  }

  /** The width `~` works at: at least 32, 64 if the operand's is unknown or not from 1 to 63. */
  function ComplementWidth(e: Expr): nat {
    match SizedWidth(e)
    case Some(w) => if 1 <= w <= 63 then Max(w, 32) else 64
    case None => 64
  }

  /** Signs and `~`. */
  lemma UnaryIs(arg: Expr, env: Env, cur: Option<string>, call: Callee, a: int)
    requires IsScalar(arg, env, cur, call, a) && InRange(a)
    ensures exists v :: IsScalar(Unary(Minus, arg), env, cur, call, v) && IsWord(v, -a)
    ensures IsScalar(Unary(Plus, arg), env, cur, call, a)
    ensures exists v :: IsScalar(Unary(BitNot, arg), env, cur, call, v) &&
              var w := ComplementWidth(arg);
              (if w < 64 then 0 <= v < Pow2(w) else InRange(v)) && forall i: nat :: i < w ==> Bit(v, i) == 1 - Bit(a, i)
  {
    UnaryUnfolds(Minus, arg, env, cur, call, a);
    UnaryUnfolds(Plus, arg, env, cur, call, a);
    UnaryUnfolds(BitNot, arg, env, cur, call, a);
    WordIs(-a);
    ComplementBits(arg, a);
    hide Eval, IsWord, Bit, Pow2, I64, SizedWidth, ComplementWidth;
    assert IsScalar(Unary(Minus, arg), env, cur, call, I64(-a));
    assert IsScalar(Unary(BitNot, arg), env, cur, call, ApplyUnary(BitNot, arg, a));
  }

  lemma UnaryUnfolds(op: UnaryOp, arg: Expr, env: Env, cur: Option<string>, call: Callee, a: int)
    requires IsScalar(arg, env, cur, call, a)
    ensures IsScalar(Unary(op, arg), env, cur, call, ApplyUnary(op, arg, a))
  {
    hide ApplyUnary;
  }

  lemma ComplementBits(arg: Expr, a: int)
    requires InRange(a)
    ensures var (v, w) := (ApplyUnary(BitNot, arg, a), ComplementWidth(arg));
            (if w < 64 then 0 <= v < Pow2(w) else InRange(v)) && forall i: nat :: i < w ==> Bit(v, i) == 1 - Bit(a, i)
  {
    var w := ComplementWidth(arg);
    var v := ApplyUnary(BitNot, arg, a);
    assert v == if w < 64 then I64(LowBits(NotI64(a), w)) else NotI64(a);
    hide ApplyUnary, SizedWidth, ComplementWidth, Pow2, Bit;
    if w < 64 {
      SmallIsSelf(LowBits(NotI64(a), w), w);
    }
    forall i: nat | i < w
      ensures Bit(v, i) == 1 - Bit(a, i)
    {
      NotBits(a, i);
      if w < 64 {
        BitsBelow(NotI64(a), w, i);
      }
    }
  }

  /** What a reduction says of a 64-bit word; both parities are the plain one. */
  ghost predicate Reduced(op: UnaryOp, a: int)
    requires IsReduction(op)
  {
    match op
    case ReductionAnd => CL.AllSet(a, 64)
    case ReductionNand => !CL.AllSet(a, 64)
    case ReductionXor => BitSum(a, 64) % 2 == 1
    case ReductionXnor => BitSum(a, 64) % 2 == 1
    case ReductionOr => a != 0
    case _ => a == 0
  }

  /** Reductions and logical not are 1 or 0 as the word's bits say. */
  lemma ReductionIs(op: UnaryOp, arg: Expr, env: Env, cur: Option<string>, call: Callee, a: int)
    requires IsReduction(op) && IsScalar(arg, env, cur, call, a) && InRange(a)
    ensures IsScalar(Unary(op, arg), env, cur, call, Truth(Reduced(op, a)))
  {
    UnaryUnfolds(op, arg, env, cur, call, a);
    ReducesTo(op, arg, a);
    hide *;
  }

  lemma ReducesTo(op: UnaryOp, arg: Expr, a: int)
    requires IsReduction(op) && InRange(a)
    ensures ApplyUnary(op, arg, a) == Truth(Reduced(op, a))
  {
    CL.AllSetWord(a);
    CountsBits(a);
    hide CL.AllSet, BitSum, CountOnes;
  }

  /** `?:` takes the second expression exactly for a condition that is not zero; parentheses and casts change nothing. */
  lemma ChoiceIs(cond: Expr, thn: Expr, els: Expr, env: Env, cur: Option<string>, call: Callee, c: int)
    requires IsScalar(cond, env, cur, call, c)
    ensures Eval(Ternary(cond, thn, els), env, cur, call) == Eval(if c == 0 then els else thn, env, cur, call)
    ensures Eval(Paren(thn), env, cur, call) == Eval(Cast(thn), env, cur, call) == Eval(thn, env, cur, call)
  {
  }

  // ---- arrays ----

  lemma {:induction false} AllEvaluate(es: seq<Expr>, env: Env, cur: Option<string>, call: Callee)
    ensures var r := EvalAll(es, env, cur, call);
            && (r.Ok? <==> forall i :: 0 <= i < |es| ==> Eval(es[i], env, cur, call).Ok?)
            && (r.Ok? ==> |r.value| == |es| && forall i :: 0 <= i < |es| ==> Eval(es[i], env, cur, call) == Ok(r.value[i]))
  {
    if es != [] {
      AllEvaluate(es[1..], env, cur, call);
      hide Eval;
      var r := EvalAll(es, env, cur, call);
      assert r.Ok? <==> Eval(es[0], env, cur, call).Ok? && EvalAll(es[1..], env, cur, call).Ok?;
      assert forall i :: 0 < i < |es| ==> es[i] == es[1..][i - 1];
      assert r.Ok? ==> r.value[1..] == EvalAll(es[1..], env, cur, call).value;
    }
  }

  /** An array literal has its elements' values, in order, and fails exactly if one of them does. */
  lemma ConcatIs(es: seq<Expr>, env: Env, cur: Option<string>, call: Callee)
    ensures var r := Eval(Concat(es), env, cur, call);
            && (r.Ok? <==> forall i :: 0 <= i < |es| ==> Eval(es[i], env, cur, call).Ok?)
            && (r.Ok? ==>
                  && r.value.Array? && |r.value.elems| == |es|
                  && forall i :: 0 <= i < |es| ==> Eval(es[i], env, cur, call) == Ok(r.value.elems[i]))
  {
    AllEvaluate(es, env, cur, call);
    var all := EvalAll(es, env, cur, call);
    assert Eval(Concat(es), env, cur, call) == if all.Ok? then Ok(Array(all.value)) else Err;
    hide Eval, EvalAll;
  }

  /** A replication is an array of equal elements, at most a million of them. */
  lemma ReplicateIs(count: Expr, e: Expr, env: Env, cur: Option<string>, call: Callee, n: int, v: CVal)
    requires IsScalar(count, env, cur, call, n) && Eval(e, env, cur, call) == Ok(v)
    ensures var r := Eval(Replicate(count, e), env, cur, call);
            if n < 0 || n > 1_000_000 then r == Err
            else r.Ok? && r.value.Array? && |r.value.elems| == n && forall i :: 0 <= i < n ==> r.value.elems[i] == v
  {
    hide CE.Copies;
  }

  /** Elements and slices of an array by position, and an error for a position outside. */
  lemma ArraySelectionsAre(base: Expr, env: Env, cur: Option<string>, call: Callee, a: seq<CVal>, m: int, l: int)
    requires Eval(base, env, cur, call) == Ok(Array(a))
    ensures Eval(BitSelect(base, Decimal(l)), env, cur, call) == if 0 <= l < |a| then Ok(a[l]) else Err
    ensures var r := Eval(RangeSelect(base, Decimal(m), Decimal(l)), env, cur, call);
            if 0 <= l <= m < |a|
            then r.Ok? && r.value.Array? && |r.value.elems| == m - l + 1 &&
                 forall i :: 0 <= i <= m - l ==> r.value.elems[i] == a[l + i]
            else r == Err
    ensures m >= l ==> Eval(PartSelect(base, Decimal(l), Decimal(m - l + 1)), env, cur, call)
                       == Eval(RangeSelect(base, Decimal(m), Decimal(l)), env, cur, call)
  {
    SelectsUnfold(base, env, cur, call, Array(a), m, l, m - l + 1);
    hide Eval;
  }

  lemma SelectsUnfold(base: Expr, env: Env, cur: Option<string>, call: Callee, v: CVal, m: int, l: int, n: int)
    requires Eval(base, env, cur, call) == Ok(v)
    ensures Eval(BitSelect(base, Decimal(l)), env, cur, call) == BitSelectValue(v, Scalar(l))
    ensures Eval(RangeSelect(base, Decimal(m), Decimal(l)), env, cur, call) == RangeSelectValue(v, Scalar(m), Scalar(l))
    ensures Eval(PartSelect(base, Decimal(l), Decimal(n)), env, cur, call) == PartSelectValue(v, Scalar(l), Scalar(n))
  {
    hide BitSelectValue, RangeSelectValue, PartSelectValue;
    DecimalIs(m, env, cur, call);
    DecimalIs(l, env, cur, call);
    DecimalIs(n, env, cur, call);
  }

  lemma DecimalIs(n: int, env: Env, cur: Option<string>, call: Callee)
    ensures Eval(Decimal(n), env, cur, call) == Ok(Scalar(n))
  {
  }

  /** Bits `l` to `m` of a scalar, and single bits; a bit of position 64 and more is 0. */
  lemma BitSelectionsAre(base: Expr, env: Env, cur: Option<string>, call: Callee, v: int, m: nat, l: nat)
    requires IsScalar(base, env, cur, call, v) && l <= m && m - l < 63
    ensures IsScalar(BitSelect(base, Decimal(l)), env, cur, call, if l < 64 then Bit(v, l) else 0)
    ensures l < 64 ==>
              var r := v / Pow2(l) % Pow2(m - l + 1);
              && IsScalar(RangeSelect(base, Decimal(m), Decimal(l)), env, cur, call, r)
              && IsScalar(PartSelect(base, Decimal(l), Decimal(m - l + 1)), env, cur, call, r)
              && forall i: nat {:trigger Bit(r, i)} :: i <= m - l ==> Bit(r, i) == Bit(v, l + i)
  {
    var n := m - l + 1;
    SelectsUnfold(base, env, cur, call, Scalar(v), m, l, n);
    hide Eval, Pow2;
    if l < 64 {
      SmallMod(l, 64);
      forall i: nat | i < n
        ensures Bit(v / Pow2(l) % Pow2(n), i) == Bit(v, l + i)
      {
        BitsOfSelection(v, l, n, i);
      }
    }
  }

  // ---- structs ----

  lemma {:induction false} MembersEvaluate(ms: seq<Member>, env: Env, cur: Option<string>, call: Callee)
    ensures var r := EvalMembers(ms, env, cur, call);
            && (r.Ok? <==> forall i :: 0 <= i < |ms| ==> Eval(ms[i].val, env, cur, call).Ok?)
            && (r.Ok? ==> |r.value| == |ms| && forall i :: 0 <= i < |ms| ==> IsField(r.value[i], ms[i], env, cur, call))
  {
    if ms != [] {
      MembersEvaluate(ms[1..], env, cur, call);
      var first, r := EvalMember(ms[0], env, cur, call), EvalMembers(ms, env, cur, call);
      assert first.Ok? <==> Eval(ms[0].val, env, cur, call).Ok?;
      assert first.Ok? ==> IsField(first.value, ms[0], env, cur, call);
      hide Eval, EvalMember, IsField;
      assert r.Ok? <==> first.Ok? && EvalMembers(ms[1..], env, cur, call).Ok?;
      assert forall i :: 0 < i < |ms| ==> ms[i] == ms[1..][i - 1];
      assert r.Ok? ==> r.value[0] == first.value && r.value[1..] == EvalMembers(ms[1..], env, cur, call).value;
    }
  }

  /** The field a member of a struct literal becomes. */
  ghost predicate IsField(f: SField, m: Member, env: Env, cur: Option<string>, call: Callee) {
    && Eval(m.val, env, cur, call) == Ok(f.val)
    && (forall x :: f.name == Some(x) <==> m.kind == Named(x))
    && (f.isDefault <==> m.kind == Default)
  }

  /** A struct literal has its members' values; reading member `x` gives the first of the name or else the first default. */
  lemma StructIs(ms: seq<Member>, x: string, env: Env, cur: Option<string>, call: Callee)
    ensures var (r, read) := (Eval(StructLit(ms), env, cur, call), Eval(MemberAccess(StructLit(ms), x), env, cur, call));
            && (r.Ok? <==> forall i :: 0 <= i < |ms| ==> Eval(ms[i].val, env, cur, call).Ok?)
            && (r.Err? ==> read == Err)
            && (r.Ok? ==>
                  && (forall i {:trigger ms[i]} :: IsFirst(ms, Named(x), i) ==> read == Eval(ms[i].val, env, cur, call))
                  && (forall i {:trigger ms[i]} :: Absent(ms, Named(x)) && IsFirst(ms, Default, i) ==>
                        read == Eval(ms[i].val, env, cur, call))
                  && (Absent(ms, Named(x)) && Absent(ms, Default) ==> read == Err))
  {
    MembersEvaluate(ms, env, cur, call);
    var fields := EvalMembers(ms, env, cur, call);
    StructUnfolds(ms, x, env, cur, call);
    hide Eval, EvalMembers, MemberValue;
    if fields.Ok? {
      var fs := fields.value;
      forall i: nat | i < |ms|
        ensures IsFirst(ms, Named(x), i) || (Absent(ms, Named(x)) && IsFirst(ms, Default, i)) ==>
                  MemberValue(Struct(fs), x) == Ok(fs[i].val)
      {
        ReadsMember(ms, fs, x, i, env, cur, call);
      }
      if Absent(ms, Named(x)) && Absent(ms, Default) {
        ReadsNothing(ms, fs, x, env, cur, call);
      }
    }
  }

  /** Member `i` is the first of its kind. */
  ghost predicate IsFirst(ms: seq<Member>, kind: MemberKind, i: int) {
    0 <= i < |ms| && ms[i].kind == kind && forall j :: 0 <= j < i ==> ms[j].kind != kind
  }

  ghost predicate Absent(ms: seq<Member>, kind: MemberKind) {
    forall j :: 0 <= j < |ms| ==> ms[j].kind != kind
  }

  lemma StructUnfolds(ms: seq<Member>, x: string, env: Env, cur: Option<string>, call: Callee)
    ensures var fields := EvalMembers(ms, env, cur, call);
            && Eval(StructLit(ms), env, cur, call) == (if fields.Ok? then Ok(Struct(fields.value)) else Err)
            && Eval(MemberAccess(StructLit(ms), x), env, cur, call) ==
               (if fields.Ok? then MemberValue(Struct(fields.value), x) else Err)
  {
    hide MemberValue;
    assert Eval(StructLit(ms), env, cur, call) ==
           match EvalMembers(ms, env, cur, call) case Ok(fs) => Ok(Struct(fs)) case Err => Err;
  }

  lemma ReadsMember(ms: seq<Member>, fs: seq<SField>, x: string, i: nat, env: Env, cur: Option<string>, call: Callee)
    requires |fs| == |ms| && forall j :: 0 <= j < |ms| ==> IsField(fs[j], ms[j], env, cur, call)
    requires i < |ms|
    ensures IsFirst(ms, Named(x), i) || (Absent(ms, Named(x)) && IsFirst(ms, Default, i)) ==>
              MemberValue(Struct(fs), x) == Ok(fs[i].val)
  {
    hide Eval, MemberValue;
    if IsFirst(ms, Named(x), i) || (Absent(ms, Named(x)) && IsFirst(ms, Default, i)) {
      PackageStore.MemberRead(fs, x, i);
      if IsFirst(ms, Named(x), i) {
        assert fs[i] in fs;
      }
    }
  }

  lemma ReadsNothing(ms: seq<Member>, fs: seq<SField>, x: string, env: Env, cur: Option<string>, call: Callee)
    requires |fs| == |ms| && forall j :: 0 <= j < |ms| ==> IsField(fs[j], ms[j], env, cur, call)
    requires Absent(ms, Named(x)) && Absent(ms, Default)
    ensures MemberValue(Struct(fs), x) == Err
  {
    hide Eval, MemberValue;
    PackageStore.MemberRead(fs, x, 0);
  }

  // ---- names and built-in functions ----

  /**
   Where a name is looked for: in the current package, then plainly, then as the number 1; and under one key
   among the scalars, the arrays and then the structs.
   */
  lemma NamesAre(x: string, pkg: string, env: Env, call: Callee, n: int, ns: seq<int>, fs: seq<SField>)
    ensures var e := env.(scalars := env.scalars[Qual(pkg, x) := n]);
            Eval(Ident(x), e, Some(pkg), call) == Eval(ScopedIdent(pkg, x), e, None, call) == Ok(Scalar(n))
    ensures Qual(pkg, x) !in env.scalars ==>
              var e := env.(arrays := env.arrays[Qual(pkg, x) := ns]);
              Eval(ScopedIdent(pkg, x), e, None, call) == Ok(Array(Scalars(ns)))
    ensures Qual(pkg, x) !in env.scalars && Qual(pkg, x) !in env.arrays ==>
              var e := env.(structs := env.structs[Qual(pkg, x) := fs]);
              Eval(ScopedIdent(pkg, x), e, None, call) == Ok(Struct(fs))
    ensures env.Lookup(Qual(pkg, x)).None? ==>
              && Eval(ScopedIdent(pkg, x), env, None, call) == Err
              && Eval(Ident(x), env, Some(pkg), call) == Eval(Ident(x), env, None, call)
    ensures Eval(Ident(x), env.(scalars := env.scalars[Plain(x) := n]), None, call) == Ok(Scalar(n))
    ensures env.Lookup(Plain(x)).None? ==> Eval(Ident(x), env, None, call) == if x == "1" then Ok(Scalar(1)) else Err
  {
    hide Scalars;
  }

  /** Underscores in a literal do not count, nor do its width and mark: it is its number, as a word. */
  lemma LiteralIs(n: nat, radix: nat, width: Option<nat>, signed: bool, a: string, b: string,
                  env: Env, cur: Option<string>, call: Callee)
    requires 2 <= radix <= 16 && a + b == CL.Digits(n, radix)
    ensures var r := Eval(Based(a + "_" + b, radix, width, signed), env, cur, call);
            if n < TWO64 then r.Ok? && r.value.Scalar? && IsWord(r.value.n, n) else r == Err
    ensures Eval(Based(a + b, radix, width, signed), env, cur, call)
            == Eval(Based(a + "_" + b, radix, width, signed), env, cur, call)
  {
    NothingStripped(n, radix);
    StripDrops(a, b);
    CL.PatternParses(n, radix);
    WordIs(n);
    hide Strip, ParsePattern, CL.Digits, IsWord;
  }

  lemma StripDrops(a: string, b: string)
    ensures Strip(a + "_" + b) == Strip(a + b)
  {
    StripJoins(a, "_" + b);
    StripCons('_', b);
    StripJoins(a, b);
    hide Strip;
    assert a + "_" + b == a + ("_" + b);
  }

  lemma StripCons(c: char, s: string)
    ensures Strip([c] + s) == (if c == '_' then Strip(s) else [c] + Strip(s))
  {
    assert ([c] + s)[1..] == s;
  }

  lemma {:induction false} StripJoins(a: string, b: string)
    ensures Strip(a + b) == Strip(a) + Strip(b)
  {
    if a == "" {
      assert a + b == b && Strip(a) == "";
    } else {
      var c, t := a[0], a[1..];
      StripJoins(t, b);
      StripCons(c, t + b);
      StripCons(c, t);
      hide Strip;
      assert a == [c] + t;
      AppendAssociates([c], t, b);
      AppendAssociates([c], Strip(t), Strip(b));
    }
  }

  lemma {:induction false} NothingStripped(n: nat, radix: nat)
    requires 2 <= radix <= 16
    ensures Strip(CL.Digits(n, radix)) == CL.Digits(n, radix)
    decreases n
  {
    if n < radix {
      OneStripped(n);
    } else {
      CL.Shrinks(n, radix);
      NothingStripped(n / radix, radix);
      OneStripped(n % radix);
      StripJoins(CL.Digits(n / radix, radix), [CL.DigitChar(n % radix)]);
    }
  }

  lemma OneStripped(d: nat)
    requires d < 16
    ensures Strip([CL.DigitChar(d)]) == [CL.DigitChar(d)]
  {
    assert Strip("") == "";
    assert [CL.DigitChar(d)][1..] == "";
  }

  /** `$clog2` is the least exponent whose power of two reaches the value, and `vbits` the same but 1 for 1. */
  lemma CallsAre(e: Expr, env: Env, cur: Option<string>, call: Callee, n: int, k: nat)
    requires IsScalar(e, env, cur, call, n) && n < TWO63
    ensures exists c: nat :: IsScalar(Call("$clog2", [e]), env, cur, call, c) && n <= Pow2(c) && (k < c ==> Pow2(k) < n)
    ensures if n == 1 then IsScalar(Call("vbits", [e]), env, cur, call, 1)
            else Eval(Call("vbits", [e]), env, cur, call) == Eval(Call("$clog2", [e]), env, cur, call)
  {
    CallUnfolds("$clog2", e, env, cur, call, Scalar(n));
    CallUnfolds("vbits", e, env, cur, call, Scalar(n));
    hide Eval;
    var c: nat := CE.Clog2(n);
    if n >= 1 {
      Clog2IsLeast(n, k);
    }
    assert IsScalar(Call("$clog2", [e]), env, cur, call, c);
  }

  /** The functions of a constant's shape give its value. */
  lemma ShapeIsValue(f: string, e: Expr, env: Env, cur: Option<string>, call: Callee)
    requires f in {"$bits", "$size", "$left", "$right", "$low", "$high"}
    ensures Eval(Call(f, [e]), env, cur, call) == Eval(e, env, cur, call)
  {
    var r := Eval(e, env, cur, call);
    if r.Ok? {
      CallUnfolds(f, e, env, cur, call, r.value);
    } else {
      var es := [e];
      assert es[0] == e && IsUnaryCall(f);
    }
  }

  lemma CallUnfolds(f: string, e: Expr, env: Env, cur: Option<string>, call: Callee, v: CVal)
    requires IsUnaryCall(f) && Eval(e, env, cur, call) == Ok(v)
    ensures Eval(Call(f, [e]), env, cur, call) == UnaryCall(f, v)
  {
    var es := [e];
    assert es[0] == e;
    hide UnaryCall;
  }

  /** `ceil_div` is the quotient rounded up exactly where the operands' signs agree or the division has no remainder. */
  lemma CeilDivIs(x: Expr, y: Expr, env: Env, cur: Option<string>, call: Callee, a: int, b: int)
    requires IsScalar(x, env, cur, call, a) && IsScalar(y, env, cur, call, b)
    requires b != 0 && (a != -TWO63 || b != -1)
    ensures var r := Eval(Call("ceil_div", [x, y]), env, cur, call);
            && r.Ok? && r.value.Scalar?
            && (IsCeiling(a, b, r.value.n) <==> ((a >= 0) == (b > 0)) || a % Abs(b) == 0)
  {
    CeilDivUnfolds(x, y, env, cur, call, a, b);
    hide Eval;
    Ceiling(a, b);
  }

  /** The least integer not below the fraction. */
  ghost predicate IsCeiling(a: int, b: int, q: int)
    requires b != 0
  {
    if b > 0 then (q - 1) * b < a <= q * b else (q - 1) * -b < -a <= q * -b
  }

  function RoundedUp(a: int, b: int): int
    requires b != 0
  {
    if TruncRem(a, b) != 0 then TruncDiv(a, b) + 1 else TruncDiv(a, b)
  }

  lemma Ceiling(a: int, b: int)
    requires b != 0
    ensures IsCeiling(a, b, RoundedUp(a, b)) <==> ((a >= 0) == (b > 0)) || a % Abs(b) == 0
  {
    var k: int, n: int := Abs(b), Abs(a);
    var m, d := n / k, n % k;
    assert n == m * k + d;
    TruncParts(a, b, m, d);
    var t := if (a >= 0) == (b > 0) then m else -m;
    assert TruncDiv(a, b) == t;
    assert TruncRem(a, b) == if a >= 0 then d else -d;
    hide TruncDiv, TruncRem;
    RemainderVanishes(a, k, m, d);
    RoundsUp(k, m, d);
    CeilingOf(a, b, t, if d != 0 then t + 1 else t);
  }

  lemma RemainderVanishes(a: int, k: int, m: int, d: int)
    requires 0 <= d < k && Abs(a) == m * k + d
    ensures a % k == 0 <==> d == 0
  {
    RoundsUp(k, m, d);
    DivModUnique(a, k, if a >= 0 then m else if d == 0 then -m else -m - 1, if a >= 0 then d else if d == 0 then 0 else k - d);
  }

  lemma CeilingOf(a: int, b: int, t: int, q: int)
    requires b != 0
    ensures IsCeiling(a, b, q) <==>
            var x := if b > 0 then a else -a; q * Abs(b) - Abs(b) < x <= q * Abs(b)
  {
    RoundsUp(Abs(b), q, 0);
  }

  lemma RoundsUp(k: int, m: int, d: int)
    requires 0 <= d < k
    ensures (m - 1) * k == m * k - k && (m + 1) * k == m * k + k
    ensures (-m - 1) * k == -(m * k) - k && (-m + 1) * k == -(m * k) + k && -m * k == -(m * k)
  {
  }

  lemma CeilDivUnfolds(x: Expr, y: Expr, env: Env, cur: Option<string>, call: Callee, a: int, b: int)
    requires IsScalar(x, env, cur, call, a) && IsScalar(y, env, cur, call, b)
    ensures Eval(Call("ceil_div", [x, y]), env, cur, call) == CeilDiv(Scalar(a), Scalar(b))
  {
    hide CeilDiv;
    assert !IsUnaryCall("ceil_div");
  }
}
