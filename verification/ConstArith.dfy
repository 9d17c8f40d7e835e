/**
 The evaluator's arithmetic is the mathematical one: power by repeated squaring, shifts at a width,
 division of literals at their shared width, and the ceiling logarithm.
 */
module ConstArith {
  import opened Basics
  import opened Outcomes
  import opened Words
  import opened ConstSyntax
  import opened ConstEval

  // ---- power ----

  /** The modulus of `w`-bit arithmetic. */
  function Modulus(w: nat): (m: int)
    ensures m > 0
  {
    if w >= 64 then TWO64 else Pow2(w)
  }

  lemma LowBitsIsMod(x: int, w: nat)
    ensures LowBits(x, w) == x % Modulus(w)
    ensures LowBits(U64(x), w) == x % Modulus(w)
  {
    LowBitsOfU64(x, w);
  }

  lemma {:induction false} PowAdd(b: int, i: nat, j: nat)
    ensures Pow(b, i + j) == Pow(b, i) * Pow(b, j)
  {
    if i > 0 {
      PowAdd(b, i - 1, j);
      MulAssociates(b, Pow(b, i - 1), Pow(b, j));
    }
  }

  lemma MulAssociates(a: int, b: int, c: int)
    ensures a * (b * c) == a * b * c
  {
  }

  lemma {:induction false} PowSquare(b: int, k: nat)
    ensures Pow(b * b, k) == Pow(b, 2 * k)
  {
    if k > 0 {
      PowSquare(b, k - 1);
      assert Pow(b, 2 * k) == b * (b * Pow(b, 2 * k - 2));
      MulAssociates(b, b, Pow(b, 2 * k - 2));
    }
  }

  /** Congruence modulo `m`. */
  predicate Congruent(a: int, b: int, m: int)
    requires m > 0
  {
    a % m == b % m
  }

  lemma CongruentMul(a: int, a': int, b: int, b': int, m: int)
    requires m > 0 && Congruent(a, a', m) && Congruent(b, b', m)
    ensures Congruent(a * b, a' * b', m)
  {
    ModMul(a, b, m);
    ModMul(a', b', m);
  }

  lemma CongruentMod(a: int, m: int)
    requires m > 0
    ensures Congruent(a % m, a, m)
  {
    SmallMod(a % m, m);
  }

  lemma {:induction false} CongruentPow(a: int, b: int, k: nat, m: int)
    requires m > 0 && Congruent(a, b, m)
    ensures Congruent(Pow(a, k), Pow(b, k), m)
  {
    if k > 0 {
      CongruentPow(a, b, k - 1, m);
      CongruentMul(a, b, Pow(a, k - 1), Pow(b, k - 1), m);
    }
  }

  /** One squaring step keeps `acc * b^e` modulo `m`. */
  lemma SquareStep(acc: int, b: int, e: nat, acc': int, b': int, m: int)
    requires m > 0 && e > 0
    requires Congruent(acc', if e % 2 == 1 then acc * b else acc, m)
    requires e / 2 > 0 ==> Congruent(b', b * b, m)
    ensures Congruent(acc' * Pow(b', e / 2), acc * Pow(b, e), m)
  {
    var h := e / 2;
    PowSquare(b, h);
    var odd := if e % 2 == 1 then acc * b else acc;
    if h > 0 {
      CongruentPow(b', b * b, h, m);
    }
    CongruentMul(acc', odd, Pow(b', h), Pow(b, 2 * h), m);
    if e % 2 == 1 {
      assert Pow(b, e) == b * Pow(b, 2 * h);
      MulAssociates(acc, b, Pow(b, 2 * h));
    }
  }

  /** A wrapping multiplication, masked. */
  function MulMask(a: int, b: int, w: nat): nat {
    LowBits(U64(a * b), w)
  }

  /** What is left to multiply: `acc * b^e` is the power, modulo two to the width. */
  ghost predicate PowLeft(acc: int, b: int, e: int, w: nat, power: int) {
    e >= 0 && LowBits(acc, w) == acc && Congruent(acc * Pow(b, e), power, Modulus(w))
  }

  /** One turn of the loop at width `w`. */
  lemma PowTurn(acc: int, b: int, e: int, acc': int, b': int, w: nat, power: int)
    requires e > 0 && PowLeft(acc, b, e, w, power)
    requires acc' == if e % 2 == 1 then MulMask(acc, b, w) else acc
    requires e / 2 > 0 ==> b' == MulMask(b, b, w)
    ensures PowLeft(acc', b', e / 2, w, power)
  {
    LowBitsTwice(U64(acc * b), w);
    var m := Modulus(w);
    LowBitsIsMod(acc * b, w);
    CongruentMod(acc * b, m);
    LowBitsIsMod(b * b, w);
    CongruentMod(b * b, m);
    SquareStep(acc, b, e, acc', b', m);
  }

  lemma PowStart(base: nat, e: nat, w: nat)
    requires base < TWO64
    ensures PowLeft(LowBits(1, w), LowBits(base, w), e, w, Pow(base, e))
  {
    LowBitsTwice(1, w);
    var m := Modulus(w);
    LowBitsIsMod(base, w);
    LowBitsIsMod(1, w);
    CongruentMod(base, m);
    CongruentMod(1, m);
    CongruentPow(LowBits(base, w), base, e, m);
    CongruentMul(LowBits(1, w), 1, Pow(LowBits(base, w), e), Pow(base, e), m);
  }

  /** Square and multiply at a width: exactly the power modulo two to the width, for every 64-bit base and exponent. */
  method ModPow(base: int, exp: int, w: nat) returns (acc: nat)
    requires 1 <= w <= 64
    ensures acc == LowBits(Pow(U64(base), U64(exp)), w)
  {
    var b, e := LowBits(U64(base), w), U64(exp);
    acc := LowBits(1, w);
    PowStart(U64(base), e, w);
    while e > 0
      invariant PowLeft(acc, b, e, w, Pow(U64(base), U64(exp)))
    {
      ghost var acc0, b0, e0 := acc, b, e;
      if e % 2 == 1 {
        acc := MulMask(acc, b, w);
      }
      e := e / 2;
      if e > 0 {
        b := MulMask(b, b, w);
      }
      PowTurn(acc0, b0, e0, acc, b, w, Pow(U64(base), U64(exp)));
    }
    PowDone(acc, b, w, Pow(U64(base), U64(exp)));
  }

  lemma PowDone(acc: int, b: int, w: nat, power: int)
    requires PowLeft(acc, b, 0, w, power)
    ensures acc == LowBits(power, w)
  {
    LowBitsIsMod(acc, w);
    LowBitsIsMod(power, w);
  }

  lemma LowBitsTwice(x: int, w: nat)
    ensures LowBits(LowBits(x, w), w) == LowBits(x, w)
  {
    LowBitsIsMod(x, w);
    LowBitsIsMod(LowBits(x, w), w);
    SmallMod(x % Modulus(w), Modulus(w));
  }

  /** The extended evaluator's loop: the power modulo two to the 64, as a signed word. */
  method ExtendedPow(l: int, r: int) returns (v: int)
    ensures v == I64(Pow(U64(l), U64(r)))
  {
    var b, acc, e := U64(l), 1, U64(r);
    PowStart(U64(l), e, 64);
    SmallMod(U64(l), TWO64);
    while e > 0
      invariant PowLeft(acc, b, e, 64, Pow(U64(l), U64(r)))
    {
      ghost var acc0, b0, e0 := acc, b, e;
      if e % 2 == 1 {
        acc := MulMask(acc, b, 64);
      }
      e := e / 2;
      if e > 0 {
        b := MulMask(b, b, 64);
      }
      PowTurn(acc0, b0, e0, acc, b, 64, Pow(U64(l), U64(r)));
    }
    PowDone(acc, b, 64, Pow(U64(l), U64(r)));
    v := I64(acc);
    LowBitsOfU64(Pow(U64(l), U64(r)), 64);
  }

  /** The two evaluators' powers agree modulo the result width. */
  lemma PowersAgree(l: int, r: int, w: nat)
    ensures PowerAt(l, r, w) == I64(LowBits(I64(Pow(U64(l), U64(r))), w))
  {
    LowBitsOfU64(Pow(U64(l), U64(r)), w);
  }

  // ---- shifts ----

  /** The `w`-bit pattern of `x` read as two's complement. */
  function SignedAt(x: int, w: nat): int
    requires 1 <= w <= 63
  {
    var p := x % Pow2(w);
    if p < Pow2(w - 1) then p else p - Pow2(w)
  }

  lemma TopBit(p: nat, w: nat)
    requires 1 <= w && p < Pow2(w)
    ensures DropBits(p, w - 1) == (if p < Pow2(w - 1) then 0 else 1)
  {
    var h := Pow2(w - 1);
    if p < h {
      DivModUnique(p, h, 0, p);
    } else {
      DivModUnique(p, h, 1, p - h);
    }
  }

  /** Adding a multiple of the divisor adds to the quotient. */
  lemma DivAdd(x: int, k: int, d: int)
    requires d > 0
    ensures (x + k * d) / d == x / d + k
  {
    var q := x / d;
    assert x == q * d + x % d;
    assert (q + k) * d == q * d + k * d;
    DivModUnique(x + k * d, d, q + k, x % d);
  }

  lemma DivSmall(x: int, d: int)
    requires d > 0 && -d <= x < d
    ensures x / d == (if x >= 0 then 0 else -1)
  {
    DivModUnique(x, d, if x >= 0 then 0 else -1, if x >= 0 then x else x + d);
  }

  /** The three outcomes of the evaluator's shift: all bits gone, sign clear, sign set. */
  lemma ArithmeticShiftCases(l: int, r: nat, w: nat)
    requires 1 <= w <= 63
    ensures var p := LowBits(l, w);
            ArithmeticShiftRight(l, r, w) ==
            if r >= w then (if p < Pow2(w - 1) then 0 else -1)
            else if p < Pow2(w - 1) then I64(DropBits(p, r))
            else I64(Bitwise(Or, DropBits(p, r), HighOnes(w - r)))
  {
    TopBit(LowBits(l, w), w);
  }

  /** `>>>` at a width below 64 is division of the signed pattern by a power of two, rounding down, for every shift. */
  lemma ArithmeticShiftIsFloor(l: int, r: nat, w: nat)
    requires 1 <= w <= 63
    ensures ArithmeticShiftRight(l, r, w) == SignedAt(l, w) / Pow2(r)
  {
    var p := LowBits(l, w);
    assert SignedAt(l, w) == if p < Pow2(w - 1) then p else p - Pow2(w);
    ArithmeticShiftCases(l, r, w);
    if r >= w {
      ShiftedOut(p, r, w);
    } else if p < Pow2(w - 1) {
      DropFits(p, r, w);
    } else {
      SignFill(p, r, w);
    }
  }

  lemma ShiftedOut(p: nat, r: nat, w: nat)
    requires 1 <= w <= r && p < Pow2(w)
    ensures p / Pow2(r) == 0 && (p - Pow2(w)) / Pow2(r) == -1
  {
    Pow2Monotone(w, r);
    DivSmall(p, Pow2(r));
    DivSmall(p - Pow2(w), Pow2(r));
  }

  lemma DropFits(p: nat, r: nat, w: nat)
    requires w <= 63 && p < Pow2(w)
    ensures I64(DropBits(p, r)) == p / Pow2(r)
  {
    FitsInWord(w);
    DivNonNegative(p, Pow2(r));
  }

  /** Filling the vacated high bits with ones is subtracting before dividing. */
  lemma SignFill(p: nat, r: nat, w: nat)
    requires r < w <= 63 && Pow2(w - 1) <= p < Pow2(w)
    ensures I64(Bitwise(Or, DropBits(p, r), HighOnes(w - r))) == (p - Pow2(w)) / Pow2(r)
  {
    var s := w - r;
    var q := DropBits(p, r);
    Pow2Add(s, r);
    DivAdd(p, -Pow2(s), Pow2(r));
    MulNegate(Pow2(s), Pow2(r));
    QuotientBelow(p, Pow2(r), Pow2(s));
    FillHigh(q, s);
  }

  lemma QuotientBelow(p: nat, d: int, h: int)
    requires d > 0 && p < h * d
    ensures 0 <= p / d < h
  {
    var q := p / d;
    assert p == q * d + p % d;
    DivNonNegative(p, d);
    if q >= h { MulOrder(h, q, d); }
  }

  /** `<<` at a width below 64 multiplies by a power of two modulo the width, for every shift. */
  lemma LeftShiftIsMultiply(l: int, r: nat, w: nat)
    requires 1 <= w <= 63
    ensures MaskedShiftLeft(l, r, w) == l * Pow2(r) % Pow2(w)
  {
    if r < 64 {
      ShiftWithin(l, r, w);
    } else {
      ShiftOut(l, r, w);
    }
  }

  lemma ShiftWithin(l: int, r: nat, w: nat)
    requires r < 64 && w <= 63
    ensures I64(LowBits(ShiftLeft(l, r), w)) == l * Pow2(r) % Pow2(w)
  {
    SmallMod(r, 64);
    LowBitsOfU64(l * Pow2(r), w);
    SmallIsSelf(LowBits(l * Pow2(r), w), w);
  }

  lemma ShiftOut(l: int, r: nat, w: nat)
    requires r >= w
    ensures l * Pow2(r) % Pow2(w) == 0
  {
    Pow2Add(r - w, w);
    MulAssociates(l, Pow2(r - w), Pow2(w));
    ModAddMultiple(0, l * Pow2(r - w), Pow2(w));
    SmallMod(0, Pow2(w));
  }

  /** What the evaluator computes for both shifts of an operand with a known width. */
  lemma ShiftsEvaluate(lhs: Expr, rhs: Expr, l: int, r: nat, w: nat)
    requires SizedWidth(lhs) == Some(w) && 1 <= w <= 63
    ensures EvalBinary(Sshr, lhs, rhs, l, r) == Ok(SignedAt(l, w) / Pow2(r))
    ensures EvalBinary(Shl, lhs, rhs, l, r) == Ok(l * Pow2(r) % Pow2(w))
  {
    assert MaskWidth(lhs) == w;
    ArithmeticShiftIsFloor(l, r, w);
    LeftShiftIsMultiply(l, r, w);
  }

  // ---- division of literals ----

  lemma InterpretIsSigned(bits: nat, w: nat)
    requires 1 <= w <= 63 && bits < TWO64
    ensures InterpretPattern(bits, w, true) == SignedAt(bits, w)
    ensures InterpretPattern(bits, w, false) == bits % Pow2(w)
    ensures forall s :: -TWO63 < InterpretPattern(bits, w, s) < TWO63
    ensures forall s :: InterpretPattern(bits, w, s) == 0 <==> bits % Pow2(w) == 0
  {
    TopBit(bits % Pow2(w), w);
    FitsInWord(w);
  }

  /**
   Two literals at a shared width below 64: division fails exactly when the divisor's pattern is zero at
   that width; otherwise quotient and remainder satisfy the division identity, rounding toward zero.
   */
  lemma LiteralDivision(lhs: Expr, rhs: Expr)
    requires SizedPattern(lhs).Some? && SizedPattern(rhs).Some?
    requires 1 <= Max(SizedPattern(lhs).value.width, SizedPattern(rhs).value.width) <= 63
    ensures var p, q := SizedPattern(lhs).value, SizedPattern(rhs).value;
            var w := Max(p.width, q.width);
            var x, y := InterpretPattern(p.bits, w, p.signed), InterpretPattern(q.bits, w, q.signed);
            var div, mod := SizedDivMod(lhs, rhs, true), SizedDivMod(lhs, rhs, false);
            && div.Some? && mod.Some?
            && (div.value.Err? <==> q.bits % Pow2(w) == 0) && (mod.value.Err? <==> q.bits % Pow2(w) == 0)
            && (q.bits % Pow2(w) != 0 ==>
                  && div.value.value * y + mod.value.value == x
                  && Abs(mod.value.value) < Abs(y)
                  && (x >= 0 ==> mod.value.value >= 0) && (x <= 0 ==> mod.value.value <= 0))
  {
    var p, q := SizedPattern(lhs).value, SizedPattern(rhs).value;
    PatternsFit(lhs);
    PatternsFit(rhs);
    var w := Max(p.width, q.width);
    InterpretIsSigned(p.bits, w);
    InterpretIsSigned(q.bits, w);
    var x, y := InterpretPattern(p.bits, w, p.signed), InterpretPattern(q.bits, w, q.signed);
    DivisionFits(x, y);
  }

  lemma DivisionFits(x: int, y: int)
    requires -TWO63 < x < TWO63
    ensures y != 0 ==> I64(TruncDiv(x, y)) == TruncDiv(x, y) && I64(TruncRem(x, y)) == TruncRem(x, y)
    ensures y != 0 ==> TruncDiv(x, y) * y + TruncRem(x, y) == x && Abs(TruncRem(x, y)) < Abs(y)
    ensures y != 0 && x >= 0 ==> TruncRem(x, y) >= 0
    ensures y != 0 && x <= 0 ==> TruncRem(x, y) <= 0
  {
    if y != 0 {
      TruncDivMod(x, y);
      QuotientShrinks(x, y);
      assert -TWO63 < TruncDiv(x, y) < TWO63 && -TWO63 < TruncRem(x, y) < TWO63;
    }
  }

  lemma {:induction false} PatternsFit(e: Expr)
    requires SizedPattern(e).Some?
    ensures SizedPattern(e).value.bits < TWO64
  {
    if e.Paren? {
      PatternsFit(e.inner);
    }
  }

  lemma QuotientShrinks(x: int, y: int)
    requires y != 0
    ensures Abs(TruncDiv(x, y)) <= Abs(x) && Abs(TruncRem(x, y)) <= Abs(x)
  {
    var m: int, d: int := Abs(x), Abs(y);
    var q := m / d;
    DivNonNegative(m, d);
    assert m == d * q + m % d;
    assert TruncDiv(x, y) == (if (x >= 0) == (y > 0) then q else -q);
    TruncParts(x, y, q, m % d);
    assert d * q >= 0;
  }

  // ---- the ceiling logarithm ----

  lemma {:induction false} BitLengthBounds(u: nat)
    requires u > 0
    ensures BitLength(u) >= 1 && Pow2(BitLength(u) - 1) <= u < Pow2(BitLength(u))
  {
    if u > 1 {
      BitLengthBounds(u / 2);
    }
  }

  /** `$clog2(v)` is the least exponent whose power of two reaches `v`. */
  lemma Clog2IsLeast(v: int, k: nat)
    requires 1 <= v < TWO63
    ensures v <= Pow2(Clog2(v))
    ensures k < Clog2(v) ==> Pow2(k) < v
  {
    if v > 1 {
      SmallMod(v, TWO64);
      BitLengthBounds(v);
      if k < Clog2(v) {
        if IsPowerOfTwo(v) {
          Pow2Monotone(k, BitLength(v) - 2);
        } else {
          Pow2Monotone(k, BitLength(v) - 1);
        }
      }
    }
  }
}
