/**
 What the width-aware evaluator computes, operator by operator, in terms of the operands' values and bits: order
 and equality, arithmetic modulo two to the 64, bits, reductions, division, the remaining shifts, selections,
 literals and names.
 */
module ConstLaws {
  import opened Basics
  import opened Outcomes
  import opened Words
  import opened WordLaws
  import opened ConstSyntax
  import opened ConstEval
  import opened ConstArith
  import CA = ConstAgree
  import CC = ConstConcat
  import XE = ExtEval

  /** Both operands have values. */
  ghost predicate Values(lhs: Expr, rhs: Expr, env: Params, a: int, b: int) {
    Eval(lhs, env) == Ok(a) && Eval(rhs, env) == Ok(b)
  }

  /** The value of an operator applied to two operands. */
  function Apply(op: BinaryOp, lhs: Expr, rhs: Expr, env: Params): Result<int> {
    Eval(Binary(op, lhs, rhs), env)
  }

  function Truth(b: bool): Result<int> {
    Ok(if b then 1 else 0)
  }

  lemma BinaryIs(op: BinaryOp, lhs: Expr, rhs: Expr, env: Params, a: int, b: int)
    requires op !in {Div, Mod} && Values(lhs, rhs, env, a, b)
    ensures Apply(op, lhs, rhs, env) == EvalBinary(op, lhs, rhs, a, b)
  {
    hide EvalBinary;
  }

  lemma BinaryFails(op: BinaryOp, lhs: Expr, rhs: Expr, env: Params)
    requires op !in {Div, Mod} && (Eval(lhs, env).Err? || Eval(rhs, env).Err?)
    ensures Apply(op, lhs, rhs, env) == Err
  {
    hide EvalBinary;
  }

  // ---- order and equality ----

  /** What the unsigned order sees of a value: its bits below the operand's width, 64 of them at most. */
  function PatternOf(e: Expr, v: int): int {
    match SizedWidth(e)
    case Some(w) => if w < 64 then v % Pow2(w) else v % TWO64
    case None => v % TWO64
  }

  /** `<` is the signed order of two signed operands, and the order of the masked patterns otherwise. */
  lemma OrderIs(lhs: Expr, rhs: Expr, env: Params, a: int, b: int)
    requires Values(lhs, rhs, env, a, b)
    ensures IsSignedExpr(lhs) && IsSignedExpr(rhs) ==> Apply(Lt, lhs, rhs, env) == Truth(a < b)
    ensures !IsSignedExpr(lhs) || !IsSignedExpr(rhs) ==>
              Apply(Lt, lhs, rhs, env) == Truth(PatternOf(lhs, a) < PatternOf(rhs, b))
  {
    BinaryIs(Lt, lhs, rhs, env, a, b);
    hide Eval, SizedWidth, Pow2;
  }

  /** The other orders are `<` with the operands exchanged, or denied, in failure as well. */
  lemma OrdersAgree(lhs: Expr, rhs: Expr, env: Params)
    ensures Apply(Gt, lhs, rhs, env) == Apply(Lt, rhs, lhs, env)
    ensures Apply(Ge, lhs, rhs, env) == Eval(Unary(Not, Binary(Lt, lhs, rhs)), env)
    ensures Apply(Le, lhs, rhs, env) == Apply(Ge, rhs, lhs, env)
  {
    CA.UnaryUnfolds(Not, Binary(Lt, lhs, rhs), env);
    var l, r := Eval(lhs, env), Eval(rhs, env);
    hide Eval, LowBits, MaskWidth, IsSignedExpr;
    if l.Ok? && r.Ok? {
      BinaryIs(Gt, lhs, rhs, env, l.value, r.value);
      BinaryIs(Lt, rhs, lhs, env, r.value, l.value);
      BinaryIs(Lt, lhs, rhs, env, l.value, r.value);
      BinaryIs(Ge, lhs, rhs, env, l.value, r.value);
      BinaryIs(Le, lhs, rhs, env, l.value, r.value);
      BinaryIs(Ge, rhs, lhs, env, r.value, l.value);
    } else {
      BinaryFails(Gt, lhs, rhs, env);
      BinaryFails(Lt, rhs, lhs, env);
      BinaryFails(Lt, lhs, rhs, env);
      BinaryFails(Ge, lhs, rhs, env);
      BinaryFails(Le, lhs, rhs, env);
      BinaryFails(Ge, rhs, lhs, env);
    }
  }

  /** Equality compares whole values; the case and wildcard forms do the same. */
  lemma EqualityIs(op: BinaryOp, lhs: Expr, rhs: Expr, env: Params, a: int, b: int)
    requires Values(lhs, rhs, env, a, b)
    ensures op in {Eq, CaseEq, EqWild} ==> Apply(op, lhs, rhs, env) == Truth(a == b)
    ensures op in {Neq, CaseNeq, NeqWild} ==> Apply(op, lhs, rhs, env) == Truth(a != b)
  {
    if op in {Eq, CaseEq, EqWild, Neq, CaseNeq, NeqWild} {
      BinaryIs(op, lhs, rhs, env, a, b);
      hide Eval, Compared, Apply;
    }
  }

  /** On signed operands of the common fragment the two evaluators order alike. */
  lemma OrdersAlike(op: BinaryOp, lhs: Expr, rhs: Expr, params: Params)
    requires op in {Lt, Le, Gt, Ge} && IsSignedExpr(lhs) && IsSignedExpr(rhs) && CA.Common(lhs) && CA.Common(rhs)
    ensures XE.Eval(Binary(op, lhs, rhs), CA.AsEnv(params), None, XE.NoFunctions())
            == CA.AsScalarResult(Apply(op, lhs, rhs, params))
  {
    CA.EvaluatorsAgree(lhs, params);
    CA.EvaluatorsAgree(rhs, params);
    var l, r := Eval(lhs, params), Eval(rhs, params);
    assert CA.AsScalarResult(l) == if l.Ok? then Ok(XE.Scalar(l.value)) else Err;
    assert CA.AsScalarResult(r) == if r.Ok? then Ok(XE.Scalar(r.value)) else Err;
    hide Eval, XE.Eval, CA.AsEnv;
    if l.Ok? && r.Ok? {
      BinaryIs(op, lhs, rhs, params, l.value, r.value);
      ExtendedBinary(op, lhs, rhs, CA.AsEnv(params), l.value, r.value);
      SignedOrder(op, lhs, rhs, l.value, r.value);
      hide EvalBinary, XE.ApplyBin;
    } else {
      BinaryFails(op, lhs, rhs, params);
      ExtendedFails(op, lhs, rhs, CA.AsEnv(params));
    }
  }

  lemma SignedOrder(op: BinaryOp, lhs: Expr, rhs: Expr, a: int, b: int)
    requires op in {Lt, Le, Gt, Ge} && IsSignedExpr(lhs) && IsSignedExpr(rhs)
    ensures EvalBinary(op, lhs, rhs, a, b) == XE.ApplyBin(op, a, b)
  {
  }

  lemma ExtendedBinary(op: BinaryOp, lhs: Expr, rhs: Expr, env: XE.Env, a: int, b: int)
    requires XE.Eval(lhs, env, None, XE.NoFunctions()) == Ok(XE.Scalar(a))
    requires XE.Eval(rhs, env, None, XE.NoFunctions()) == Ok(XE.Scalar(b))
    ensures XE.Eval(Binary(op, lhs, rhs), env, None, XE.NoFunctions())
            == if XE.ApplyBin(op, a, b).Ok? then Ok(XE.Scalar(XE.ApplyBin(op, a, b).value)) else Err
  {
    hide XE.ApplyBin;
  }

  lemma ExtendedFails(op: BinaryOp, lhs: Expr, rhs: Expr, env: XE.Env)
    requires XE.Eval(lhs, env, None, XE.NoFunctions()).Err? || XE.Eval(rhs, env, None, XE.NoFunctions()).Err?
    ensures XE.Eval(Binary(op, lhs, rhs), env, None, XE.NoFunctions()) == Err
  {
    hide XE.BinaryValue;
  }

  // ---- literals ----

  function DigitChar(d: nat): char
    requires d < 16
  {
    "0123456789abcdef"[d]
  }

  /** A number written out in a radix. */
  function Digits(n: nat, radix: nat): string
    requires 2 <= radix <= 16
    decreases n
  {
    if n < radix then [DigitChar(n)]
    else
      Shrinks(n, radix);
      Digits(n / radix, radix) + [DigitChar(n % radix)]
  }

  lemma Shrinks(n: nat, radix: nat)
    requires 2 <= radix <= n
    ensures 1 <= n / radix < n
  {
    var q := n / radix;
    assert n == q * radix + n % radix;
    DivNonNegative(n, radix);
    if q >= 1 { MulOrder(2, radix, q); }
  }

  lemma DigitIs(d: nat)
    requires d < 16
    ensures Digit(KnownDigit(DigitChar(d))) == Some(d)
  {
  }

  /** A number written out in a radix parses to itself. */
  lemma {:induction false} DigitsParse(n: nat, radix: nat)
    requires 2 <= radix <= 16
    ensures Digits(n, radix) != "" && DigitsValue(Digits(n, radix), radix) == Some(n)
    decreases n
  {
    hide *;
    if n < radix {
      OneDigit(n, radix);
    } else {
      var q, r := DigitsSplit(n, radix);
      DigitsParse(q, radix);
      AnotherDigit(Digits(q, radix), q, r, radix);
    }
  }

  lemma DigitsSplit(n: nat, radix: nat) returns (q: nat, r: nat)
    requires 2 <= radix <= 16 && radix <= n
    ensures q < n && r < radix && n == q * radix + r && Digits(n, radix) == Digits(q, radix) + [DigitChar(r)]
  {
    Shrinks(n, radix);
    q, r := n / radix, n % radix;
  }

  lemma AnotherDigit(s: string, high: nat, low: nat, radix: nat)
    requires low < radix <= 16 && DigitsValue(s, radix) == Some(high)
    ensures DigitsValue(s + [DigitChar(low)], radix) == Some(high * radix + low) && s + [DigitChar(low)] != ""
  {
    DigitIs(low);
    LastDigit(s + [DigitChar(low)], radix);
    hide DigitsValue, Digit, KnownDigit, DigitChar;
    assert (s + [DigitChar(low)])[..|s|] == s;
  }

  lemma OneDigit(n: nat, radix: nat)
    requires 2 <= radix <= 16 && n < radix
    ensures DigitsValue([DigitChar(n)], radix) == Some(n) && Digits(n, radix) == [DigitChar(n)]
  {
    DigitIs(n);
    assert [DigitChar(n)][..0] == "";
    assert DigitsValue("", radix) == Some(0);
    hide Digit, KnownDigit, DigitChar;
  }

  lemma {:induction false} SameDigits(s: string, t: string, radix: nat)
    requires |s| == |t| && forall i :: 0 <= i < |s| ==> Digit(KnownDigit(s[i])) == Digit(KnownDigit(t[i]))
    ensures DigitsValue(s, radix) == DigitsValue(t, radix)
  {
    if s != "" {
      SameDigits(s[..|s| - 1], t[..|s| - 1], radix);
      LastDigit(s, radix);
      LastDigit(t, radix);
    }
  }

  /** Unknown digits count as zero, and digits above nine may be written in capitals. */
  lemma DigitSpellings(a: string, c: char, d: char, b: string, radix: nat)
    requires (c in "xz" && d == '0') || ('A' <= c <= 'F' && d as int == c as int + 32)
    ensures DigitsValue(a + [c] + b, radix) == DigitsValue(a + [d] + b, radix)
  {
    SameDigits(a + [c] + b, a + [d] + b, radix);
  }

  lemma LastDigit(s: string, radix: nat)
    requires s != ""
    ensures var (high, low) := (DigitsValue(s[..|s| - 1], radix), Digit(KnownDigit(s[|s| - 1])));
            DigitsValue(s, radix) ==
            if high.Some? && low.Some? && low.value < radix then Some(high.value * radix + low.value) else None
  {
  }

  /**
   A literal: its number, as a word; marked and written with a width below 64, its number in two's complement.
   A number beyond 64 bits is an error.
   */
  lemma LiteralIs(n: nat, radix: nat, width: Option<nat>, signed: bool, env: Params)
    requires 2 <= radix <= 16
    ensures var r := Eval(Based(Digits(n, radix), radix, width, signed), env);
            && (r.Ok? <==> n < TWO64)
            && (n < TWO64 && (!signed || width == None) ==> IsWord(r.value, n))
            && (signed && width.Some? && 1 <= width.value <= 63 && n < Pow2(width.value) ==>
                  r == Ok(if n < Pow2(width.value - 1) then n else n - Pow2(width.value)))
  {
    var e := Based(Digits(n, radix), radix, width, signed);
    assert Eval(e, env) == LiteralValue(e);
    PatternParses(n, radix);
    WordIs(n);
    hide Eval, Digits, ParsePattern, Pow2, I64;
    if signed && width.Some? && 1 <= width.value <= 63 && n < Pow2(width.value) {
      MarkedLiteral(n, width.value);
      hide DropBits;
    }
  }

  lemma PatternParses(n: nat, radix: nat)
    requires 2 <= radix <= 16
    ensures ParsePattern(Digits(n, radix), radix) == if n < TWO64 then Ok(n) else Err
  {
    DigitsParse(n, radix);
    hide Digits, DigitsValue;
  }

  lemma MarkedLiteral(n: nat, w: nat)
    requires 1 <= w <= 63 && n < Pow2(w)
    ensures n < TWO63
    ensures DropBits(n, w - 1) % 2 == 1 <==> n >= Pow2(w - 1)
    ensures I64(n) == n && I64(n - Pow2(w)) == n - Pow2(w)
  {
    TopBit(n, w);
    FitsInWord(w);
    WordIs(n - Pow2(w));
    WordIs(n);
  }

  /** A literal of a written width below 64. */
  function Literal(n: nat, w: nat, marked: bool): Expr {
    Based(Digits(n, 16), 16, Some(w), marked)
  }

  lemma LiteralOf(n: nat, w: nat, marked: bool, env: Params)
    requires 1 <= w <= 63 && n < Pow2(w)
    ensures Eval(Literal(n, w, marked), env) == Ok(if marked then SignedAt(n, w) else n)
    ensures PatternOf(Literal(n, w, marked), if marked then SignedAt(n, w) else n) == n
    ensures IsSignedExpr(Literal(n, w, marked)) == marked
  {
    FitsInWord(w);
    LiteralIs(n, 16, Some(w), marked, env);
    SmallMod(n, Pow2(w));
    ModAddMultiple(n, -1, Pow2(w));
    WordIs(n);
    assert SizedWidth(Literal(n, w, marked)) == Some(w);
    hide Eval, SizedWidth, Digits, Pow2, I64;
    if !marked {
      var v := Eval(Literal(n, w, marked), env).value;
      WordIsUnique(v, n, n);
    }
  }

  /** The order of two literals of written widths: of their numbers in two's complement if both are marked, of their patterns if not. */
  lemma LiteralOrder(m: nat, v: nat, n: nat, w: nat, marked: bool, other: bool, env: Params)
    requires 1 <= v <= 63 && m < Pow2(v) && 1 <= w <= 63 && n < Pow2(w)
    ensures Apply(Lt, Literal(m, v, marked), Literal(n, w, other), env) ==
            Truth(if marked && other then SignedAt(m, v) < SignedAt(n, w) else m < n)
  {
    LiteralOf(m, v, marked, env);
    LiteralOf(n, w, other, env);
    hide *;
    var (a, b) := (if marked then SignedAt(m, v) else m, if other then SignedAt(n, w) else n);
    OrderIs(Literal(m, v, marked), Literal(n, w, other), env, a, b);
  }

  /** No literal and no sign of one: names, operators, reductions, concatenations, selections, calls. */
  predicate NeverSigned(e: Expr) {
    !e.Decimal? && !e.Based? && !e.Paren? && (e.Unary? ==> IsReduction(e.op))
  }

  /**
   Decimals are signed, and parentheses, signs and `~` inherit that from their operand: the order of such operands is
   that of their values. Nothing else is, whatever its value: compared with it, a number counts as its 64-bit pattern.
   */
  lemma WhatIsSigned(m: int, un: UnaryOp, e: Expr, n: int, other: Expr, env: Params, a: int, b: int)
    requires IsSignedExpr(e) && un in {Plus, Minus, BitNot} && NeverSigned(other)
    requires Eval(Unary(un, e), env) == Ok(a) && Eval(other, env) == Ok(b)
    ensures Apply(Lt, Decimal(m), Decimal(n), env) == Truth(m < n)
    ensures Apply(Lt, Decimal(m), Unary(un, e), env) == Apply(Lt, Decimal(m), Paren(Unary(un, e)), env) == Truth(m < a)
    ensures Apply(Lt, Decimal(m), other, env) == Truth(m % TWO64 < PatternOf(other, b))
  {
    DecimalIs(m, env);
    DecimalIs(n, env);
    assert Eval(Paren(Unary(un, e)), env) == Ok(a);
    SignsOf(un, e, m, n, other);
    assert PatternOf(Decimal(m), m) == m % TWO64;
    hide Eval, Apply, IsSignedExpr, SizedWidth, PatternOf;
    OrderIs(Decimal(m), Decimal(n), env, m, n);
    OrderIs(Decimal(m), Unary(un, e), env, m, a);
    OrderIs(Decimal(m), Paren(Unary(un, e)), env, m, a);
    OrderIs(Decimal(m), other, env, m, b);
  }

  lemma SignsOf(un: UnaryOp, e: Expr, m: int, n: int, other: Expr)
    requires IsSignedExpr(e) && un in {Plus, Minus, BitNot} && NeverSigned(other)
    ensures IsSignedExpr(Decimal(m)) && IsSignedExpr(Decimal(n)) && !IsSignedExpr(other)
    ensures IsSignedExpr(Unary(un, e)) && IsSignedExpr(Paren(Unary(un, e)))
  {
  }

  // ---- arithmetic ----

  /** Sums, differences, products and negatives are words congruent to the numbers' modulo two to the 64. */
  lemma ArithmeticIs(lhs: Expr, rhs: Expr, env: Params, a: int, b: int)
    requires Values(lhs, rhs, env, a, b)
    ensures Apply(Add, lhs, rhs, env).Ok? && IsWord(Apply(Add, lhs, rhs, env).value, a + b)
    ensures Apply(Sub, lhs, rhs, env).Ok? && IsWord(Apply(Sub, lhs, rhs, env).value, a - b)
    ensures Apply(Mul, lhs, rhs, env).Ok? && IsWord(Apply(Mul, lhs, rhs, env).value, a * b)
    ensures Eval(Unary(Minus, lhs), env).Ok? && IsWord(Eval(Unary(Minus, lhs), env).value, -a)
    ensures Eval(Unary(Plus, lhs), env) == Ok(a)
  {
    hide *;
    ArithmeticApplies(lhs, rhs, env, a, b);
    WordIs(a + b);
    WordIs(a - b);
    WordIs(a * b);
    WordIs(-a);
  }

  lemma ArithmeticApplies(lhs: Expr, rhs: Expr, env: Params, a: int, b: int)
    requires Values(lhs, rhs, env, a, b)
    ensures Apply(Add, lhs, rhs, env) == Ok(I64(a + b))
    ensures Apply(Sub, lhs, rhs, env) == Ok(I64(a - b))
    ensures Apply(Mul, lhs, rhs, env) == Ok(I64(a * b))
    ensures Eval(Unary(Minus, lhs), env) == Ok(I64(-a)) && Eval(Unary(Plus, lhs), env) == Ok(a)
  {
    BinaryIs(Add, lhs, rhs, env, a, b);
    BinaryIs(Sub, lhs, rhs, env, a, b);
    BinaryIs(Mul, lhs, rhs, env, a, b);
    CA.UnaryUnfolds(Minus, lhs, env);
    CA.UnaryUnfolds(Plus, lhs, env);
    hide Eval, I64, Apply;
  }

  /** The larger known width of two operands, between 1 and 64; 64 if neither is known. */
  ghost predicate IsPowerWidth(lhs: Expr, rhs: Expr, w: nat) {
    var (l, r) := (SizedWidth(lhs), SizedWidth(rhs));
    && (l == None && r == None ==> w == 64)
    && (forall k :: (l == Some(k) || r == Some(k)) && k <= 64 ==> w >= k)
    && (forall k :: (l == Some(k) || r == Some(k)) && k > 64 ==> w == 64)
    && (l == Some(w) || r == Some(w) || w == 64 || w == 1)
    && 1 <= w <= 64 && (w == 1 ==> l.Some? || r.Some?)
    && (w == 64 ==> (l == None && r == None) || (l.Some? && l.value >= 64) || (r.Some? && r.value >= 64))
  }

  /** A power of 64-bit patterns is reduced modulo two to the larger known width. */
  lemma PowerIs(lhs: Expr, rhs: Expr, env: Params, a: int, b: int, w: nat)
    requires Values(lhs, rhs, env, a, b) && IsPowerWidth(lhs, rhs, w)
    ensures Apply(Power, lhs, rhs, env).Ok?
    ensures var v := Apply(Power, lhs, rhs, env).value;
            if w < 64 then v == Pow(U64(a), U64(b)) % Pow2(w) else IsWord(v, Pow(U64(a), U64(b)))
  {
    BinaryIs(Power, lhs, rhs, env, a, b);
    assert PowerWidth(lhs, rhs) == w;
    var p := Pow(U64(a), U64(b));
    hide Eval, SizedWidth, Pow, PowerWidth;
    LowBitsOfU64(p, w);
    if w < 64 {
      SmallIsSelf(LowBits(p, w), w);
    } else {
      WordIs(p);
    }
  }

  // ---- bits ----

  /** Each bit of a bitwise result comes from the operands' bits at its place. */
  lemma BitwiseIs(lhs: Expr, rhs: Expr, env: Params, a: int, b: int, i: nat)
    requires Values(lhs, rhs, env, a, b) && i < 64
    ensures Apply(BitAnd, lhs, rhs, env).Ok? && InRange(Apply(BitAnd, lhs, rhs, env).value)
    ensures Apply(BitOr, lhs, rhs, env).Ok? && InRange(Apply(BitOr, lhs, rhs, env).value)
    ensures Apply(BitXor, lhs, rhs, env).Ok? && InRange(Apply(BitXor, lhs, rhs, env).value)
    ensures Apply(BitXnor, lhs, rhs, env).Ok? && InRange(Apply(BitXnor, lhs, rhs, env).value)
    ensures Bit(Apply(BitAnd, lhs, rhs, env).value, i) == 1 <==> Bit(a, i) == 1 && Bit(b, i) == 1
    ensures Bit(Apply(BitOr, lhs, rhs, env).value, i) == 1 <==> Bit(a, i) == 1 || Bit(b, i) == 1
    ensures Bit(Apply(BitXor, lhs, rhs, env).value, i) == 1 <==> Bit(a, i) != Bit(b, i)
    ensures Bit(Apply(BitXnor, lhs, rhs, env).value, i) == 1 <==> Bit(a, i) == Bit(b, i)
  {
    BitwiseApplies(lhs, rhs, env, a, b);
    NotInRange(BitwiseI64(Xor, a, b));
    hide *;
    WordBits(a, b, i);
    NotBits(BitwiseI64(Xor, a, b), i);
  }

  lemma NotInRange(v: int)
    ensures InRange(v) ==> InRange(NotI64(v))
  {
  }

  lemma BitwiseApplies(lhs: Expr, rhs: Expr, env: Params, a: int, b: int)
    requires Values(lhs, rhs, env, a, b)
    ensures Apply(BitAnd, lhs, rhs, env) == Ok(BitwiseI64(And, a, b))
    ensures Apply(BitOr, lhs, rhs, env) == Ok(BitwiseI64(Or, a, b))
    ensures Apply(BitXor, lhs, rhs, env) == Ok(BitwiseI64(Xor, a, b))
    ensures Apply(BitXnor, lhs, rhs, env) == Ok(NotI64(BitwiseI64(Xor, a, b)))
  {
    hide *;
    BinaryIs(BitAnd, lhs, rhs, env, a, b);
    BinaryIs(BitOr, lhs, rhs, env, a, b);
    BinaryIs(BitXor, lhs, rhs, env, a, b);
    BinaryIs(BitXnor, lhs, rhs, env, a, b);
    BitwiseKinds(lhs, rhs, a, b);
  }

  lemma BitwiseKinds(lhs: Expr, rhs: Expr, a: int, b: int)
    ensures EvalBinary(BitAnd, lhs, rhs, a, b) == Ok(BitwiseI64(And, a, b))
    ensures EvalBinary(BitOr, lhs, rhs, a, b) == Ok(BitwiseI64(Or, a, b))
    ensures EvalBinary(BitXor, lhs, rhs, a, b) == Ok(BitwiseI64(Xor, a, b))
    ensures EvalBinary(BitXnor, lhs, rhs, a, b) == Ok(NotI64(BitwiseI64(Xor, a, b)))
  {
    hide BitwiseI64;
  }

  lemma WordBits(a: int, b: int, i: nat)
    requires i < 64
    ensures forall op {:trigger BitwiseI64(op, a, b)} :: InRange(BitwiseI64(op, a, b))
    ensures Bit(BitwiseI64(And, a, b), i) == 1 <==> Bit(a, i) == 1 && Bit(b, i) == 1
    ensures Bit(BitwiseI64(Or, a, b), i) == 1 <==> Bit(a, i) == 1 || Bit(b, i) == 1
    ensures Bit(BitwiseI64(Xor, a, b), i) == 1 <==> Bit(a, i) != Bit(b, i)
  {
    hide Bit, Bitwise, I64;
    BitOfWord(a, i);
    BitOfWord(b, i);
    BitwiseBits(U64(a), U64(b), i);
    BitOfWord(Bitwise(And, U64(a), U64(b)), i);
    BitOfWord(Bitwise(Or, U64(a), U64(b)), i);
    BitOfWord(Bitwise(Xor, U64(a), U64(b)), i);
  }

  /** `~` turns every bit below the operand's width round; there are none above, unless the width is unknown. */
  lemma ComplementIs(arg: Expr, env: Params, v: int, i: nat)
    requires Eval(arg, env) == Ok(v)
    ensures var (r, w) := (Eval(Unary(BitNot, arg), env), SizedWidth(arg));
            && r.Ok?
            && if w.Some? && 1 <= w.value <= 63
               then 0 <= r.value < Pow2(w.value) && (i < w.value ==> Bit(r.value, i) == 1 - Bit(v, i))
               else Bit(r.value, i) == 1 - Bit(v, i)
  {
    CA.UnaryUnfolds(BitNot, arg, env);
    NotBits(v, i);
    var w := SizedWidth(arg);
    hide Eval, SizedWidth, Bit, Pow2;
    if w.Some? && 1 <= w.value <= 63 && i < w.value {
      BitsBelow(NotI64(v), w.value, i);
    }
  }

  /** All bits below `n` are set. */
  ghost predicate AllSet(v: int, n: nat) {
    forall i: nat :: i < n ==> Bit(v, i) == 1
  }

  lemma TopOfLow(v: int, n: nat)
    ensures v % Pow2(n + 1) == Bit(v, n) * Pow2(n) + v % Pow2(n)
  {
    var m := Pow2(n);
    var q := v / m;
    assert v == q * m + v % m;
    assert q == q / 2 * 2 + q % 2;
    Regroup(q / 2, 1, m);
    assert v == q / 2 * (2 * m) + (q % 2 * m + v % m);
    DivModUnique(v, 2 * m, q / 2, q % 2 * m + v % m);
  }

  lemma {:induction false} AllSetIs(v: int, n: nat)
    ensures AllSet(v, n) <==> v % Pow2(n) == Pow2(n) - 1
  {
    if n == 0 {
      assert v % 1 == 0;
    } else {
      AllSetIs(v, n - 1);
      TopOfLow(v, n - 1);
      var b := Bit(v, n - 1);
      assert Pow2(n) == 2 * Pow2(n - 1);
      assert AllSet(v, n) <==> AllSet(v, n - 1) && b == 1;
      hide Bit, AllSet, Pow2;
      assert b == 0 || b == 1;
    }
  }

  lemma AllSetWord(v: int)
    requires InRange(v)
    ensures AllSet(v, 64) <==> v == -1
  {
    hide AllSet;
    AllSetIs(v, 64);
    Pow2Values();
    hide Pow2;
    if v >= 0 {
      SmallMod(v, TWO64);
    } else {
      ModAddMultiple(v, 1, TWO64);
      SmallMod(v + TWO64, TWO64);
    }
  }

  /** The operand's width where it is from 1 to 63, and 64 otherwise. */
  function ReducedWidth(e: Expr): nat {
    match SizedWidth(e)
    case Some(w) => if 1 <= w <= 63 then w else 64
    case None => 64
  }

  /** What a reduction says of its operand's bits. */
  ghost predicate Reduced(op: UnaryOp, arg: Expr, v: int)
    requires IsReduction(op)
  {
    match op
    case ReductionAnd => AllSet(v, ReducedWidth(arg))
    case ReductionNand => !AllSet(v, ReducedWidth(arg))
    case ReductionXor => BitSum(v, 64) % 2 == 1
    case ReductionXnor => BitSum(v, 64) % 2 == 0
    case ReductionOr => v != 0
    case _ => v == 0
  }

  /** Reductions and logical not are 1 or 0 as the operand's bits say. */
  lemma ReductionIs(op: UnaryOp, arg: Expr, env: Params, v: int)
    requires IsReduction(op) && Eval(arg, env) == Ok(v) && InRange(v)
    ensures Eval(Unary(op, arg), env) == Truth(Reduced(op, arg, v))
  {
    CA.UnaryUnfolds(op, arg, env);
    hide Eval, AllSet, BitSum, CountOnes;
    if op in {ReductionAnd, ReductionNand} {
      AllOnesIs(arg, v);
      hide AllOnes;
    } else if op in {ReductionXor, ReductionXnor} {
      CountsBits(v);
    }
  }

  lemma AllOnesIs(arg: Expr, v: int)
    requires InRange(v)
    ensures AllOnes(SizedWidth(arg), v) <==> AllSet(v, ReducedWidth(arg))
  {
    AllSetIs(v, ReducedWidth(arg));
    AllSetWord(v);
    hide AllSet, Pow2, SizedWidth;
  }

  /** The logical operators look at both operands, and only at whether they are zero. */
  lemma LogicalIs(lhs: Expr, rhs: Expr, env: Params, a: int, b: int)
    requires Values(lhs, rhs, env, a, b)
    ensures Apply(LogicalAnd, lhs, rhs, env) == Truth(a != 0 && b != 0)
    ensures Apply(LogicalOr, lhs, rhs, env) == Truth(a != 0 || b != 0)
  {
    BinaryIs(LogicalAnd, lhs, rhs, env, a, b);
    BinaryIs(LogicalOr, lhs, rhs, env, a, b);
    hide Eval;
  }

  // ---- division ----

  /** `q` and `r` are the quotient and remainder of `x` by `y`, rounding toward zero. */
  ghost predicate IsDivision(x: int, y: int, q: int, r: int) {
    q * y + r == x && Abs(r) < Abs(y) && (x >= 0 ==> r >= 0) && (x <= 0 ==> r <= 0)
  }

  lemma DivisionUnfolds(lhs: Expr, rhs: Expr, env: Params, a: int, b: int)
    requires Values(lhs, rhs, env, a, b) && (SizedPattern(lhs).None? || SizedPattern(rhs).None?)
    ensures Apply(Div, lhs, rhs, env) == WideDivMod(lhs, rhs, a, b, true)
    ensures Apply(Mod, lhs, rhs, env) == WideDivMod(lhs, rhs, a, b, false)
  {
    hide WideDivMod, SizedPattern;
  }

  /**
   Division of operands that are not both literals: an error exactly for a zero divisor, 0 for the least word by
   -1, and otherwise truncating division of the values if both operands are signed, division of the 64-bit
   patterns if not.
   */
  lemma DivisionIs(lhs: Expr, rhs: Expr, env: Params, a: int, b: int)
    requires Values(lhs, rhs, env, a, b) && (SizedPattern(lhs).None? || SizedPattern(rhs).None?)
    requires InRange(a) && InRange(b)
    ensures var (div, mod) := (Apply(Div, lhs, rhs, env), Apply(Mod, lhs, rhs, env));
            && (div.Err? <==> b == 0) && (mod.Err? <==> b == 0)
            && (b != 0 ==>
                  if a == -TWO63 && b == -1 then div == mod == Ok(0)
                  else if IsSignedExpr(lhs) && IsSignedExpr(rhs) then IsDivision(a, b, div.value, mod.value)
                  else
                    && InRange(div.value) && InRange(mod.value)
                    && IsDivision(a % TWO64, b % TWO64, div.value % TWO64, mod.value % TWO64))
  {
    DivisionUnfolds(lhs, rhs, env, a, b);
    hide Eval, Apply, IsSignedExpr;
    if b != 0 {
      if a != -TWO63 || b != -1 {
        SignedDivision(a, b);
        PatternDivision(U64(a), U64(b));
        NonZeroPattern(b);
        hide IsDivision, I64, TruncDiv, TruncRem;
      }
    }
  }

  lemma NonZeroPattern(b: int)
    requires InRange(b) && b != 0
    ensures U64(b) != 0
  {
    if b > 0 { SmallMod(b, TWO64); } else { ModAddMultiple(b, 1, TWO64); SmallMod(b + TWO64, TWO64); }
  }

  lemma SignedDivision(a: int, b: int)
    requires InRange(a) && b != 0 && (a != -TWO63 || b != -1)
    ensures I64(TruncDiv(a, b)) == TruncDiv(a, b) && I64(TruncRem(a, b)) == TruncRem(a, b)
    ensures IsDivision(a, b, TruncDiv(a, b), TruncRem(a, b))
  {
    TruncDivMod(a, b);
    QuotientShrinks(a, b);
    LeastQuotient(a, b);
    WordIs(TruncDiv(a, b));
    WordIs(TruncRem(a, b));
  }

  /** Only the least word divided by -1 leaves the range. */
  lemma LeastQuotient(a: int, b: int)
    requires InRange(a) && b != 0 && (a != -TWO63 || b != -1)
    ensures InRange(TruncDiv(a, b)) && InRange(TruncRem(a, b))
  {
    var q, r := TruncDiv(a, b), TruncRem(a, b);
    TruncDivMod(a, b);
    QuotientShrinks(a, b);
    hide TruncDiv, TruncRem;
    assert a <= 0 ==> r <= 0;
    assert q * b + r == a;
    if q == TWO63 {
      if b >= 0 { MulOrder(1, b, q); } else if b <= -2 { MulOrder(b, -2, q); }
    }
  }

  lemma PatternDivision(x: nat, y: nat)
    requires x < TWO64 && y < TWO64
    ensures y != 0 ==> InRange(I64(x / y)) && InRange(I64(x % y)) && IsDivision(x, y, U64(I64(x / y)), U64(I64(x % y)))
  {
    if y != 0 {
      DivNonNegative(x, y);
      var q: nat, r: nat := x / y, x % y;
      assert x == y * q + r;
      MulOrder(1, y, q);
      LowBitsOfU64(q, 64);
      LowBitsOfU64(r, 64);
      SmallMod(q, TWO64);
      SmallMod(r, TWO64);
    }
  }

  // ---- the remaining shifts ----

  lemma ShiftUnfolds(op: BinaryOp, lhs: Expr, rhs: Expr, env: Params, a: int, b: int)
    requires IsShift(op) && Values(lhs, rhs, env, a, b)
    ensures Apply(op, lhs, rhs, env) == Ok(EvalShift(op, a, b, MaskWidth(lhs)))
  {
    BinaryIs(op, lhs, rhs, env, a, b);
    hide EvalShift, Eval, MaskWidth;
  }

  /** A shift by a negative amount gives 0. */
  lemma NegativeShifts(op: BinaryOp, lhs: Expr, rhs: Expr, env: Params, a: int, b: int)
    requires IsShift(op) && Values(lhs, rhs, env, a, b) && b < 0
    ensures Apply(op, lhs, rhs, env) == Ok(0)
  {
    ShiftUnfolds(op, lhs, rhs, env, a, b);
    hide Eval;
  }

  /** `>>` at a width below 64 shifts the value and then masks it; amounts of 64 and more leave nothing. */
  lemma RightShiftIs(lhs: Expr, rhs: Expr, env: Params, a: int, b: nat, w: nat)
    requires Values(lhs, rhs, env, a, b) && SizedWidth(lhs) == Some(w) && 1 <= w <= 63
    ensures Apply(Shr, lhs, rhs, env) == Ok(if b < 64 then a / Pow2(b) % Pow2(w) else 0)
    ensures Apply(Shl, lhs, rhs, env) == Apply(Sshl, lhs, rhs, env) == Ok(a * Pow2(b) % Pow2(w))
    ensures Apply(Sshr, lhs, rhs, env) == Ok(SignedAt(a, w) / Pow2(b))
  {
    assert MaskWidth(lhs) == w;
    hide *;
    ShiftUnfolds(Shr, lhs, rhs, env, a, b);
    ShiftUnfolds(Shl, lhs, rhs, env, a, b);
    ShiftUnfolds(Sshl, lhs, rhs, env, a, b);
    ShiftUnfolds(Sshr, lhs, rhs, env, a, b);
    ArithmeticShiftIsFloor(a, b, w);
    LeftShiftIsMultiply(a, b, w);
    RightShiftMasks(a, b, w);
    ShiftKinds(a, b, w);
  }

  lemma ShiftKinds(a: int, b: int, w: nat)
    requires w <= 64
    ensures EvalShift(Shr, a, b, w) == MaskedShiftRight(a, b, w)
    ensures EvalShift(Sshr, a, b, w) == ArithmeticShiftRight(a, b, w)
    ensures EvalShift(Shl, a, b, w) == EvalShift(Sshl, a, b, w) == MaskedShiftLeft(a, b, w)
  {
    hide MaskedShiftRight, MaskedShiftLeft, ArithmeticShiftRight;
  }

  lemma RightShiftMasks(a: int, b: nat, w: nat)
    requires 1 <= w <= 63
    ensures MaskedShiftRight(a, b, w) == if b < 64 then a / Pow2(b) % Pow2(w) else 0
  {
    hide Pow2;
    if b < 64 {
      SmallMod(b, 64);
      SmallIsSelf(a / Pow2(b) % Pow2(w), w);
    }
  }

  lemma WordShifted(a: int, b: nat)
    requires InRange(a)
    ensures InRange(a / Pow2(b)) && (a >= 0 <==> a / Pow2(b) >= 0)
  {
    var m := Pow2(b);
    var q := a / m;
    assert a == q * m + a % m;
    if a >= 0 {
      DivNonNegative(a, m);
    } else if q >= 0 {
      MulOrder(0, q, m);
    } else if q < a {
      MulOrder(q, a - 1, m);
      MulOrder(1, m, -(a - 1));
    }
  }

  lemma WideLeftShift(a: int, b: nat)
    ensures IsWord(MaskedShiftLeft(a, b, 64), a * Pow2(b))
  {
    var x := a * Pow2(b);
    if b < 64 {
      SmallMod(b, 64);
      WordIs(x);
      LowBitsOfU64(x, 64);
      hide Pow2;
    } else {
      ShiftOut(a, b, 64);
      Pow2Values();
      hide Pow2;
      MulNegate(TWO64, x / TWO64);
      ModAddMultiple(0, -(x / TWO64), TWO64);
    }
  }

  lemma WideRightShift(a: int, b: nat)
    requires InRange(a)
    ensures MaskedShiftRight(a, b, 64) == if b < 64 then a / Pow2(b) else 0
  {
    WordShifted(a, b);
    WordIs(a / Pow2(b));
    LowBitsOfU64(a / Pow2(b), 64);
    if b < 64 {
      SmallMod(b, 64);
    }
    hide Pow2;
    assert U64(a / Pow2(b)) == LowBits(a / Pow2(b), 64);
    BitsKept(a / Pow2(b));
  }

  lemma BitsKept(x: int)
    ensures I64(U64(x)) == I64(x)
  {
  }

  lemma WideArithmeticShift(a: int, b: nat)
    requires InRange(a)
    ensures ArithmeticShiftRight(a, b, 64) == if a < 0 then -1 else a / Pow2(b)
  {
    Pow2Values();
    TopBit(U64(a), 64);
    WordPattern(a);
    hide Pow2, ArithmeticShiftRight, DropBits, U64;
    if a >= 0 {
      NonNegativeShift(a, b);
    } else {
      NegativeShift(a, b);
    }
  }

  lemma WordPattern(a: int)
    requires InRange(a)
    ensures U64(a) == if a >= 0 then a else a + TWO64
  {
    if a >= 0 {
      SmallMod(a, TWO64);
    } else {
      ModAddMultiple(a, 1, TWO64);
      SmallMod(a + TWO64, TWO64);
    }
  }

  lemma NonNegativeShift(a: nat, b: nat)
    requires a < TWO63 && DropBits(a, 63) == 0
    ensures ArithmeticShiftRight(a, b, 64) == a / Pow2(b)
  {
    WordShifted(a, b);
    SmallMod(a, TWO64);
    assert LowBits(a, 64) == a;
    if b >= 64 {
      Pow2Values();
      Pow2Monotone(64, b);
      hide Pow2;
      DivSmall(a, Pow2(b));
    } else {
      hide Pow2;
      WordIs(a / Pow2(b));
    }
  }

  lemma NegativeShift(a: int, b: nat)
    requires -TWO63 <= a < 0 && DropBits(U64(a), 63) == 1
    ensures ArithmeticShiftRight(a, b, 64) == -1
  {
    if b < 64 {
      hide Pow2;
      DivNonNegative(U64(a), Pow2(b));
      AllFilled(DropBits(U64(a), b));
    }
  }

  lemma {:induction false} OrOnes(q: nat, n: nat)
    requires q < Pow2(n)
    ensures Bitwise(Or, q, Pow2(n) - 1) == Pow2(n) - 1
  {
    if n > 0 {
      OrOnes(q / 2, n - 1);
    }
  }

  lemma AllFilled(q: nat)
    requires q < TWO64
    ensures I64(Bitwise(Or, q, HighOnes(0))) == -1
  {
    Pow2Values();
    OrOnes(q, 64);
    hide Bitwise;
    assert HighOnes(0) == TWO64 - 1;
  }

  /**
   Where the width is unknown or 64 and more: `<<` multiplies modulo two to the 64, `>>` divides rounding down, sign
   kept, and `>>>` fills a negative word with ones altogether. So `>>>` is division rounding down exactly for words
   that are not negative or vanish but for their sign.
   */
  lemma WideShiftsAre(lhs: Expr, rhs: Expr, env: Params, a: int, b: nat)
    requires Values(lhs, rhs, env, a, b) && InRange(a)
    requires SizedWidth(lhs).None? || SizedWidth(lhs).value >= 64
    ensures Apply(Shl, lhs, rhs, env).Ok? && IsWord(Apply(Shl, lhs, rhs, env).value, a * Pow2(b))
    ensures Apply(Shr, lhs, rhs, env) == Ok(if b < 64 then a / Pow2(b) else 0)
    ensures Apply(Sshr, lhs, rhs, env) == Ok(if a < 0 then -1 else a / Pow2(b))
    ensures Apply(Sshr, lhs, rhs, env) == Ok(a / Pow2(b)) <==> a >= 0 || -Pow2(b) <= a
  {
    assert MaskWidth(lhs) == 64;
    hide *;
    ShiftUnfolds(Shr, lhs, rhs, env, a, b);
    ShiftUnfolds(Shl, lhs, rhs, env, a, b);
    ShiftUnfolds(Sshr, lhs, rhs, env, a, b);
    ShiftKinds(a, b, 64);
    WideLeftShift(a, b);
    WideRightShift(a, b);
    WideArithmeticShift(a, b);
    if a < 0 {
      FloorIsMinusOne(a, Pow2(b));
    }
  }

  lemma FloorIsMinusOne(a: int, m: int)
    requires a < 0 && m > 0
    ensures a / m == -1 <==> -m <= a
  {
    if -m <= a { DivSmall(a, m); }
  }

  // ---- selections ----

  /** Bits `l` to `m` of a value, and single bits, by position; positions of 64 and more hold 0. */
  lemma SelectionsAre(base: Expr, env: Params, v: int, m: nat, l: nat)
    requires Eval(base, env) == Ok(v) && l <= m && m - l < 63
    ensures var r := Eval(RangeSelect(base, Decimal(m), Decimal(l)), env);
            && r == Eval(PartSelect(base, Decimal(l), Decimal(m - l + 1)), env)
            && r == Ok(if l < 64 then v / Pow2(l) % Pow2(m - l + 1) else 0)
            && (l < 64 ==> forall i: nat :: i <= m - l ==> Bit(r.value, i) == Bit(v, l + i))
    ensures !base.Ident? && !base.BitSelect? ==>
              Eval(BitSelect(base, Decimal(l)), env) == Ok(if l < 64 then Bit(v, l) else 0)
  {
    var n := m - l + 1;
    SelectUnfolds(base, env, v, m, l, n);
    hide Eval;
    if l < 64 {
      SmallMod(l, 64);
      forall i: nat | i < n
        ensures Bit(v / Pow2(l) % Pow2(n), i) == Bit(v, l + i)
      {
        BitsOfSelection(v, l, n, i);
      }
    }
    hide Pow2;
  }

  lemma SelectUnfolds(base: Expr, env: Params, v: int, m: int, l: int, n: int)
    requires Eval(base, env) == Ok(v) && n >= 1
    ensures Eval(RangeSelect(base, Decimal(m), Decimal(l)), env) == Ok(SelectRange(v, m, l))
    ensures Eval(PartSelect(base, Decimal(l), Decimal(n)), env) == Ok(SelectPart(v, l, n))
    ensures !base.Ident? && !base.BitSelect? ==>
              Eval(BitSelect(base, Decimal(l)), env) == Ok(if 0 <= l < 64 then ShiftRight(v, l) % 2 else 0)
  {
    DecimalIs(m, env);
    DecimalIs(l, env);
    DecimalIs(n, env);
    hide SelectRange, SelectPart, ShiftRight;
    var e := BitSelect(base, Decimal(l));
    assert Eval(e, env) == EvalBitSelect(e, env);
    assert !base.Ident? && !base.BitSelect? ==> EvalBitSelect(e, env) == SelectBit(e, env);
  }

  lemma DecimalIs(n: int, env: Params)
    ensures Eval(Decimal(n), env) == Ok(n)
  {
  }

  // ---- names and choices ----

  lemma {:induction false} NatStringParses(n: nat)
    ensures NatString(n) != "" && DigitsValue(NatString(n), 10) == Some(n)
    ensures forall i :: 0 <= i < |NatString(n)| ==> '0' <= NatString(n)[i] <= '9'
    decreases n
  {
    if n < 10 {
      OneDigit(n, 10);
      assert NatString(n) == [DigitChar(n)];
      hide DigitsValue, Digits;
    } else {
      var q, r := n / 10, n % 10;
      assert NatString(n) == NatString(q) + [DigitChar(r)] && '0' <= DigitChar(r) <= '9' && n == q * 10 + r;
      hide *;
      NatStringParses(q);
      AnotherDigit(NatString(q), q, r, 10);
    }
  }

  /** Element keys of different indices are different. */
  lemma IndexKeysDiffer(i: int, j: int)
    requires i != j
    ensures IntString(i) != IntString(j)
  {
    NatStringParses(Abs(i));
    NatStringParses(Abs(j));
    hide NatString, DigitsValue;
    if (i < 0) != (j < 0) {
      assert IntString(i)[0] != IntString(j)[0];
    } else if i < 0 {
      assert ("-" + NatString(Abs(i)))[1..] == NatString(Abs(i));
      assert ("-" + NatString(Abs(j)))[1..] == NatString(Abs(j));
    }
  }

  /**
   Where a name is looked for: a qualified one under its full name and else by itself; an element under its own
   key, and only else as a bit.
   */
  lemma NamesAre(x: string, pkg: string, i: int, v: int, env: Params)
    ensures Eval(Ident(x), env[x := v]) == Ok(v)
    ensures x !in env ==> Eval(Ident(x), env) == if x == "1" then Ok(1) else Err
    ensures Eval(ScopedIdent(pkg, x), env[pkg + "::" + x := v]) == Ok(v)
    ensures pkg + "::" + x !in env ==> Eval(ScopedIdent(pkg, x), env) == if x in env then Ok(env[x]) else Err
    ensures Eval(BitSelect(Ident(x), Decimal(i)), env[x + "[" + IntString(i) + "]" := v]) == Ok(v)
    ensures x + "[" + IntString(i) + "]" !in env && Eval(Ident(x), env).Ok? && 0 <= i < 64 ==>
              Eval(BitSelect(Ident(x), Decimal(i)), env) == Ok(Bit(Eval(Ident(x), env).value, i))
  {
    DecimalIs(i, env);
    DecimalIs(i, env[x + "[" + IntString(i) + "]" := v]);
    if 0 <= i < 64 {
      SmallMod(i, 64);
    }
    hide IntString, Pow2;
    ElementOrBit(x, i, env);
    ElementOrBit(x, i, env[x + "[" + IntString(i) + "]" := v]);
  }

  lemma ElementOrBit(x: string, i: int, env: Params)
    ensures var key := x + "[" + IntString(i) + "]";
            Eval(BitSelect(Ident(x), Decimal(i)), env) ==
            if key in env then Ok(env[key])
            else match Eval(Ident(x), env)
                 case Ok(v) => Ok(if 0 <= i < 64 then ShiftRight(v, i) % 2 else 0)
                 case Err => Err
  {
    hide IntString, ShiftRight;
    DecimalIs(i, env);
    var e := BitSelect(Ident(x), Decimal(i));
    assert Eval(e, env) == EvalBitSelect(e, env);
    assert x + "[" + IntString(i) + "]" !in env ==> EvalBitSelect(e, env) == SelectBit(e, env);
  }

  /** The key of an element, and of an element of an element. */
  function ElementKey(x: string, i: int): string {
    x + "[" + IntString(i) + "]"
  }

  /** Members are looked for under the object's key and the field's name, elements of elements under both indices. */
  lemma MembersAre(x: string, field: string, i: int, j: int, v: int, env: Params)
    ensures Eval(MemberAccess(Ident(x), field), env[x + "." + field := v]) == Ok(v)
    ensures x + "." + field !in env ==> Eval(MemberAccess(Ident(x), field), env) == Err
    ensures Eval(MemberAccess(BitSelect(Ident(x), Decimal(i)), field), env[ElementKey(x, i) + "." + field := v]) == Ok(v)
    ensures var key := ElementKey(x, i) + "[" + IntString(j) + "]";
            Eval(BitSelect(BitSelect(Ident(x), Decimal(i)), Decimal(j)), env[key := v]) == Ok(v)
  {
    var e, f := env[ElementKey(x, i) + "." + field := v], env[ElementKey(x, i) + "[" + IntString(j) + "]" := v];
    DecimalIs(i, e);
    DecimalIs(i, f);
    DecimalIs(j, f);
    hide IntString;
    var o := BitSelect(Ident(x), Decimal(i));
    assert BaseKey(Ident(x), env) == Some(x) && BaseKey(Ident(x), env[x + "." + field := v]) == Some(x);
    assert BaseKey(Ident(x), e) == Some(x);
    assert BaseKey(o, e) == Some(ElementKey(x, i));
    var s := BitSelect(o, Decimal(j));
    assert Eval(s, f) == EvalBitSelect(s, f);
    assert ElementKey(x, i) + "[" + IntString(j) + "]" == x + "[" + IntString(i) + "][" + IntString(j) + "]";
  }

  /** `$clog2` is the least exponent whose power of two reaches the value; `$bits` and `$size` of a constant are its value. */
  lemma CallsAre(e: Expr, env: Params, v: int, k: nat)
    requires Eval(e, env) == Ok(v) && v < TWO63
    ensures var r := Eval(Call("$clog2", [e]), env);
            && r.Ok? && r.value >= 0 && v <= Pow2(r.value) && (k < r.value ==> Pow2(k) < v)
    ensures Eval(Call("$bits", [e]), env) == Eval(Call("$size", [e]), env) == Ok(v)
  {
    ClogUnfolds(e, env, v);
    hide Eval;
    if v >= 1 {
      Clog2IsLeast(v, k);
    }
  }

  /** Without an argument these functions give 0; other functions fail, and so does a concatenation with a string in it. */
  lemma NotEvaluated(f: string, args: seq<Expr>, a: seq<Expr>, bytes: seq<Byte>, b: seq<Expr>, env: Params)
    ensures f in {"$clog2", "$bits", "$size"} ==> Eval(Call(f, []), env) == Ok(0)
    ensures f !in {"$clog2", "$bits", "$size"} ==> Eval(Call(f, args), env) == Err
    ensures Eval(Concat(a + [Text(bytes)] + b), env) == Err
  {
    var es := a + [Text(bytes)] + b;
    assert es[|a|] == Text(bytes) && es[|a|] in es;
    CC.ConcatEval(es, env);
  }

  lemma SmallWord(v: int)
    requires v > 1
    ensures U64(v) > 0 ==> BitLength(U64(v)) >= 1
    ensures Clog2(v) >= 0
  {
  }

  lemma ClogUnfolds(e: Expr, env: Params, v: int)
    requires Eval(e, env) == Ok(v)
    ensures Eval(Call("$clog2", [e]), env) == Ok(Clog2(v))
    ensures Eval(Call("$bits", [e]), env) == Eval(Call("$size", [e]), env) == Ok(v)
    ensures Clog2(v) >= 0
  {
    if v > 1 {
      SmallWord(v);
    }
    hide BitLength, Pow2;
    var es := [e];
    assert es[0] == e;
  }

  /** `?:` takes the second expression exactly for a condition that is not zero; parentheses and casts change nothing. */
  lemma ChoiceIs(cond: Expr, thn: Expr, els: Expr, env: Params)
    ensures Eval(cond, env).Ok? && Eval(cond, env).value != 0 ==> Eval(Ternary(cond, thn, els), env) == Eval(thn, env)
    ensures Eval(cond, env) == Ok(0) ==> Eval(Ternary(cond, thn, els), env) == Eval(els, env)
    ensures Eval(cond, env).Err? ==> Eval(Ternary(cond, thn, els), env) == Err
    ensures Eval(Paren(cond), env) == Eval(Cast(cond), env) == Eval(cond, env)
  {
  }

  // ---- widths ----

  lemma {:induction false} DigitsFit(s: string, radix: nat)
    requires radix in {2, 8, 16} && DigitsValue(s, radix).Some?
    ensures DigitsValue(s, radix).value < Pow2(|s| * DigitBits(radix))
  {
    if s != "" {
      var n := |s| - 1;
      DigitsFit(s[..n], radix);
      LastDigit(s, radix);
      DigitBitsAre(radix);
      var k, high, low := DigitBits(radix), DigitsValue(s[..n], radix).value, Digit(KnownDigit(s[n])).value;
      assert DigitsValue(s, radix).value == high * radix + low;
      hide DigitsValue, Digit, DigitBits, KnownDigit;
      assert |s| * k == n * k + k by { MulDistributes(n, -1, k); }
      Pow2Add(n * k, k);
      hide Pow2;
      MulOrder(high, Pow2(n * k) - 1, radix);
      MulDistributes(Pow2(n * k), 1, radix);
    }
  }

  lemma DigitBitsAre(radix: nat)
    requires radix in {2, 8, 16}
    ensures Pow2(DigitBits(radix)) == radix
  {
    assert Pow2(3) == 8 && Pow2(4) == 16;
  }

  /** The width counted from a literal's digits is the least that fits every literal of as many digits. */
  lemma LiteralWidthIs(digits: string, radix: nat, signed: bool)
    requires radix in {2, 8, 16} && digits != ""
    ensures var w := SizedWidth(Based(digits, radix, None, signed));
            w.Some? && Pow2(w.value) == Pow(radix, |digits|)
  {
    DigitBitsAre(radix);
    PowerOfPower(radix, DigitBits(radix), |digits|);
  }

  lemma {:induction false} PowerOfPower(b: nat, k: nat, n: nat)
    requires Pow2(k) == b
    ensures Pow2(n * k) == Pow(b, n)
  {
    if n > 0 {
      PowerOfPower(b, k, n - 1);
      MulDistributes(n, 1, k);
      Pow2Add((n - 1) * k, k);
    }
  }

  /** Widths that are added up are known exactly if all are. */
  lemma {:induction false} ConcatWidth(a: seq<Expr>, b: seq<Expr>)
    ensures var (x, y) := (SizedWidth(Concat(a)), SizedWidth(Concat(b)));
            SizedWidth(Concat(a + b)) == if x.Some? && y.Some? then Some(x.value + y.value) else None
  {
    if a == [] {
      assert a + b == b;
    } else {
      ConcatWidth(a[1..], b);
      assert (a + b)[1..] == a[1..] + b;
    }
  }

  lemma OneWidth(e: Expr)
    ensures SizedWidth(Concat([e])) == SizedWidth(e)
  {
    var es := [e];
    assert es[1..] == [] && SumWidths([]) == Some(0);
    assert SumWidths(es) == match SizedWidth(es[0]) case Some(w) => Some(w + 0) case None => None;
  }

  /** A replication is as wide as the concatenation it stands for. */
  lemma {:induction false} ReplicateWidth(e: Expr, n: nat)
    requires n >= 1
    ensures SizedWidth(Replicate(Decimal(n), e)) == SizedWidth(Concat(Copies(e, n)))
  {
    OneWidth(e);
    if n == 1 {
      assert Copies(e, n) == [e];
    } else {
      ReplicateWidth(e, n - 1);
      ConcatWidth(Copies(e, n - 1), [e]);
      var w := SizedWidth(e);
      assert Copies(e, n) == Copies(e, n - 1) + [e];
      OneMore(e, n);
      hide SizedWidth, SumWidths, Copies;
    }
  }

  lemma OneMore(e: Expr, n: nat)
    requires n >= 2
    ensures var (w, r) := (SizedWidth(e), SizedWidth(Replicate(Decimal(n - 1), e)));
            SizedWidth(Replicate(Decimal(n), e)) == if w.Some? then Some(r.value + w.value) else None
    ensures SizedWidth(Replicate(Decimal(n - 1), e)).Some? <==> SizedWidth(e).Some?
  {
    var w := SizedWidth(e);
    if w.Some? {
      MulDistributes(n, 1, w.value);
    }
  }

  /** One bit for comparisons, reductions and logic; the left operand's width for shifts; the operand's for signs and `~`. */
  lemma OperatorWidths(op: BinaryOp, un: UnaryOp, lhs: Expr, rhs: Expr)
    ensures op in {Eq, Neq, CaseEq, CaseNeq, EqWild, NeqWild, Lt, Le, Gt, Ge, LogicalAnd, LogicalOr} ==>
              SizedWidth(Binary(op, lhs, rhs)) == Some(1)
    ensures op in {Shl, Shr, Sshl, Sshr} ==> SizedWidth(Binary(op, lhs, rhs)) == SizedWidth(lhs)
    ensures op in {Add, Sub, Mul, Div, Mod, Power, BitAnd, BitOr, BitXor, BitXnor} ==>
              SizedWidth(Binary(op, lhs, rhs)) == None
    ensures SizedWidth(Unary(un, lhs)) == if un in {Plus, Minus, BitNot} then SizedWidth(lhs) else Some(1)
  {
  }

  // ---- without a width ----

  /** Two literals of which neither has a width below 64: division of the words, 0 for the least one by -1. */
  lemma WideLiteralDivision(lhs: Expr, rhs: Expr, env: Params)
    requires SizedPattern(lhs).Some? && SizedPattern(rhs).Some?
    requires var w := Max(SizedPattern(lhs).value.width, SizedPattern(rhs).value.width); w == 0 || w >= 64
    ensures var (x, y) := (I64(SizedPattern(lhs).value.bits), I64(SizedPattern(rhs).value.bits));
            var (div, mod) := (Apply(Div, lhs, rhs, env), Apply(Mod, lhs, rhs, env));
            && (div.Err? <==> y == 0) && (mod.Err? <==> y == 0)
            && (y != 0 ==>
                  if x == -TWO63 && y == -1 then div == mod == Ok(0) else IsDivision(x, y, div.value, mod.value))
  {
    var (x, y) := (I64(SizedPattern(lhs).value.bits), I64(SizedPattern(rhs).value.bits));
    assert Apply(Div, lhs, rhs, env) == SizedDivMod(lhs, rhs, true).value;
    assert Apply(Mod, lhs, rhs, env) == SizedDivMod(lhs, rhs, false).value;
    hide Eval, Apply, SizedPattern, I64, IsDivision, TruncDiv, TruncRem;
    if y != 0 && (x != -TWO63 || y != -1) {
      SignedDivision(x, y);
    }
  }

  /** The literal `1'b1`. */
  const ONE_BIT := Based("1", 2, Some(1), false)

  /**
   Replication without a known width: zeros are nothing, ones are copies of a single bit as long as they fit, any other
   value is an error; and so is anything of more than 63 bits where the width is known.
   */
  lemma UnsizedReplicateIs(count: Expr, e: Expr, env: Params, n: int, v: int)
    requires Eval(count, env) == Ok(n) && Eval(e, env) == Ok(v)
    ensures n <= 0 ==> Eval(Replicate(count, e), env) == Ok(0)
    ensures n >= 1 && (SizedWidth(e) == None || SizedWidth(e) == Some(0)) ==>
              && (v == 0 ==> Eval(Replicate(count, e), env) == Ok(0))
              && (v == 1 && n <= 63 ==> Eval(Replicate(count, e), env) == Eval(Replicate(count, ONE_BIT), env))
              && (v == 1 && n > 63 ==> Eval(Replicate(count, e), env) == Ok(TWO63 - 1))
              && (v != 0 && v != 1 ==> Eval(Replicate(count, e), env) == Err)
    ensures n >= 1 && SizedWidth(e).Some? && SizedWidth(e).value >= 1 && n * SizedWidth(e).value > 63 ==>
              Eval(Replicate(count, e), env) == Err
  {
    OneBit(env);
    hide *;
    CC.ReplicateEval(count, e, n, env);
    CC.ReplicateEval(count, ONE_BIT, n, env);
    ReplicateOf(e, n, v);
    if 1 <= n <= 63 {
      CopiedBit(n);
    }
  }

  lemma ReplicateOf(e: Expr, n: int, v: int)
    ensures n <= 0 ==> EvalReplicate(e, n, v) == Ok(0)
    ensures n >= 1 && (SizedWidth(e) == None || SizedWidth(e) == Some(0)) ==>
              && (v == 0 ==> EvalReplicate(e, n, v) == Ok(0))
              && (v == 1 && n <= 63 ==> EvalReplicate(e, n, v) == Ok(Pow2(n) - 1))
              && (v == 1 && n > 63 ==> EvalReplicate(e, n, v) == Ok(TWO63 - 1))
              && (v != 0 && v != 1 ==> EvalReplicate(e, n, v) == Err)
    ensures n >= 1 && SizedWidth(e).Some? && SizedWidth(e).value >= 1 && n * SizedWidth(e).value > 63 ==>
              EvalReplicate(e, n, v) == Err
  {
    Pow2Values();
    hide SizedWidth, Repeat, Pow2, I64, LowBits;
  }

  lemma CopiedBit(n: nat)
    requires 1 <= n <= 63
    ensures EvalReplicate(ONE_BIT, n, 1) == Ok(Pow2(n) - 1)
  {
    OneBit(map[]);
    RepeatedOnes(n);
    FitsInWord(n);
    WordIs(Pow2(n) - 1);
    assert n * 1 == n;
    hide SizedWidth, Repeat, Pow2, I64, LowBits, Eval;
  }

  lemma OneBit(env: Params)
    ensures Eval(ONE_BIT, env) == Ok(1) && SizedWidth(ONE_BIT) == Some(1)
    ensures LowBits(1, 1) == 1
  {
    OneDigit(1, 2);
    assert "1" == [DigitChar(1)];
    assert Pow2(1) == 2;
    WordIs(1);
  }

  lemma {:induction false} RepeatedOnes(n: nat)
    requires n <= 63
    ensures Repeat(1, 1, n) == Pow2(n) - 1
  {
    if n > 0 {
      RepeatedOnes(n - 1);
      var r := Pow2(n - 1) - 1;
      FitsInWord(n);
      assert Raise(r, 1) == 2 * Raise(r, 0) == 2 * r;
      SmallMod(2 * r, TWO64);
      OrOne(r);
    }
  }

  lemma OrOne(r: nat)
    ensures Bitwise(Or, 2 * r, 1) == 2 * r + 1
  {
    assert Pow2(1) == 2;
    OrIsAdd(1, r, 1);
    assert Raise(r, 1) == 2 * Raise(r, 0) == 2 * r;
  }

  lemma {:induction false} BinaryDigits(n: nat)
    ensures |Digits(n, 2)| == Max(BitLength(n), 1)
    decreases n
  {
    if n >= 2 {
      var q, r := DigitsSplit(n, 2);
      assert n / 2 == q;
      BinaryDigits(q);
      assert BitLength(n) == 1 + BitLength(q) && BitLength(q) >= 1;
    }
  }

  /** A number without a width stands in a concatenation like its binary digits, without leading zeros. */
  lemma UnsizedElementIs(a: seq<Expr>, n: nat, b: seq<Expr>, env: Params)
    requires n < TWO63 && |Digits(n, 2)| < 0x1_0000_0000
    ensures Eval(Concat(a + [Decimal(n)] + b), env) == Eval(Concat(a + [Based(Digits(n, 2), 2, None, false)] + b), env)
  {
    var d, l := Decimal(n), Based(Digits(n, 2), 2, None, false);
    var xs, ys := a + [d] + b, a + [l] + b;
    SameElement(n, env);
    CC.ConcatEval(xs, env);
    CC.ConcatEval(ys, env);
    hide Eval, ElementField, Digits, PackFields;
    forall i | 0 <= i < |xs|
      ensures EvalFields(xs, env)[i] == EvalFields(ys, env)[i]
    {
      CC.EvalFieldsAt(xs, env, i);
      CC.EvalFieldsAt(ys, env, i);
      assert xs[i] == ys[i] || (xs[i] == d && ys[i] == l);
    }
    assert EvalFields(xs, env) == EvalFields(ys, env);
    assert HasText(xs) <==> HasText(ys) by {
      assert forall x :: x in xs && x.Text? ==> x in ys;
      assert forall x :: x in ys && x.Text? ==> x in xs;
    }
  }

  lemma SameElement(n: nat, env: Params)
    requires n < TWO63 && |Digits(n, 2)| < 0x1_0000_0000
    ensures var (d, l) := (Decimal(n), Based(Digits(n, 2), 2, None, false));
            ElementField(d, Eval(d, env)) == ElementField(l, Eval(l, env))
  {
    var l := Based(Digits(n, 2), 2, None, false);
    LiteralIs(n, 2, None, false, env);
    WordIs(n);
    WordIsUnique(Eval(l, env).value, n, n);
    BinaryDigits(n);
    SmallMod(n, TWO64);
    assert Eval(l, env) == Ok(n) && Eval(Decimal(n), env) == Ok(n);
    hide Eval, Digits, BitLength, LowBits;
    SmallMod(|Digits(n, 2)|, 0x1_0000_0000);
  }
}
