/**
 What a word is, independently of how it is computed: a number in the signed range with given remainders, and
 its bits in two's complement.
 */
module WordLaws {
  import opened Words
  import opened ConstArith

  /** `v` is the signed 64-bit word congruent to `x`. */
  predicate IsWord(v: int, x: int) {
    -TWO63 <= v < TWO63 && (v - x) % TWO64 == 0
  }

  predicate InRange(v: int) {
    -TWO63 <= v < TWO63
  }

  /** Bit `i` of a number in two's complement. */
  function Bit(x: int, i: nat): (b: int)
    ensures b == 0 || b == 1
  {
    x / Pow2(i) % 2
  }

  lemma WordIs(x: int)
    ensures IsWord(I64(x), x)
    ensures InRange(x) ==> I64(x) == x
  {
    var q := x / TWO64;
    assert x == q * TWO64 + U64(x);
    var k := if U64(x) < TWO63 then q else q + 1;
    assert I64(x) - x == 0 + -k * TWO64;
    ModAddMultiple(0, -k, TWO64);
  }

  /** There is only one such word. */
  lemma WordIsUnique(v: int, u: int, x: int)
    requires IsWord(v, x) && IsWord(u, x)
    ensures v == u
  {
    var a, b := (v - x) / TWO64, (u - x) / TWO64;
    assert v - u == (a - b) * TWO64;
    var k := a - b;
    if k >= 1 { MulOrder(1, k, TWO64); } else if k <= -1 { MulOrder(k, -1, TWO64); }
  }

  /** Adding a multiple of two to the 64 changes no bit below 64. */
  lemma BitAddMultiple(x: int, k: int, i: nat)
    requires i < 64
    ensures Bit(x + k * TWO64, i) == Bit(x, i)
  {
    SplitWord(i);
    var h := Pow2(63 - i);
    assert Pow2(64 - i) == 2 * h;
    BitsAbove(x, k, h, i);
  }

  lemma Regroup(k: int, h: int, m: int)
    ensures k * (2 * h * m) == 2 * (k * h) * m
  {
  }

  lemma BitOfWord(x: int, i: nat)
    requires i < 64
    ensures Bit(I64(x), i) == Bit(x, i) && Bit(U64(x), i) == Bit(x, i)
  {
    var q := x / TWO64;
    assert x == q * TWO64 + U64(x);
    BitAddMultiple(x, -q, i);
    BitAddMultiple(x, -q - 1, i);
  }

  lemma BitShifts(u: nat, i: nat)
    requires i > 0
    ensures Bit(u, i) == Bit(u / 2, i - 1)
  {
    var m := Pow2(i - 1);
    var q, r := u / 2 / m, u / 2 % m;
    assert u / 2 == q * m + r;
    assert u == q * (2 * m) + (2 * r + u % 2);
    DivModUnique(u, 2 * m, q, 2 * r + u % 2);
  }

  /** The bitwise operators work on each bit by itself. */
  lemma {:induction false} BitwiseBits(a: nat, b: nat, i: nat)
    ensures Bit(Bitwise(And, a, b), i) == 1 <==> Bit(a, i) == 1 && Bit(b, i) == 1
    ensures Bit(Bitwise(Or, a, b), i) == 1 <==> Bit(a, i) == 1 || Bit(b, i) == 1
    ensures Bit(Bitwise(Xor, a, b), i) == 1 <==> Bit(a, i) != Bit(b, i)
    decreases i
  {
    if i == 0 {
      LowestBit(And, a, b);
      LowestBit(Or, a, b);
      LowestBit(Xor, a, b);
    } else {
      BitwiseBits(a / 2, b / 2, i - 1);
      HigherBits(And, a, b, i);
      HigherBits(Or, a, b, i);
      HigherBits(Xor, a, b, i);
      BitShifts(a, i);
      BitShifts(b, i);
    }
  }

  lemma LowestBit(op: BitOp, a: nat, b: nat)
    ensures Bit(Bitwise(op, a, b), 0) == OneBit(op, Bit(a, 0), Bit(b, 0))
  {
    BitZero(a);
    BitZero(b);
    BitZero(Bitwise(op, a, b));
    var rest := Bitwise(op, a / 2, b / 2);
    assert Bitwise(op, a, b) == OneBit(op, a % 2, b % 2) + 2 * rest;
    hide Bitwise, Bit;
    DivModUnique(Bitwise(op, a, b), 2, rest, OneBit(op, a % 2, b % 2));
  }

  lemma BitZero(x: int)
    ensures Bit(x, 0) == x % 2
  {
    assert Pow2(0) == 1;
  }

  lemma HigherBits(op: BitOp, a: nat, b: nat, i: nat)
    requires i > 0
    ensures Bit(Bitwise(op, a, b), i) == Bit(Bitwise(op, a / 2, b / 2), i - 1)
  {
    var rest := Bitwise(op, a / 2, b / 2);
    assert Bitwise(op, a, b) == OneBit(op, a % 2, b % 2) + 2 * rest;
    hide Bitwise, Bit, OneBit;
    DivModUnique(Bitwise(op, a, b), 2, rest, OneBit(op, a % 2, b % 2));
    BitShifts(Bitwise(op, a, b), i);
  }

  lemma NotBits(x: int, i: nat)
    ensures Bit(NotI64(x), i) == 1 - Bit(x, i)
  {
    var m := Pow2(i);
    var q, r := x / m, x % m;
    assert x == q * m + r;
    assert -x - 1 == (-q - 1) * m + (m - 1 - r);
    DivModUnique(-x - 1, m, -q - 1, m - 1 - r);
  }

  /** The bits below `n`, added up. */
  function BitSum(x: int, n: nat): nat {
    if n == 0 then 0 else BitSum(x, n - 1) + Bit(x, n - 1)
  }

  lemma {:induction false} BitSumShifts(u: nat, n: nat)
    requires n > 0
    ensures BitSum(u, n) == u % 2 + BitSum(u / 2, n - 1)
  {
    if n > 1 {
      BitSumShifts(u, n - 1);
      BitShifts(u, n - 1);
    }
  }

  lemma {:induction false} OnesAreBits(u: nat, n: nat)
    requires u < Pow2(n)
    ensures CountOnes(u) == BitSum(u, n)
  {
    if n > 0 {
      BitSumShifts(u, n);
      OnesAreBits(u / 2, n - 1);
    }
  }

  /** The bits below 64 of a number and of its pattern are the same, so their number is, too. */
  lemma {:induction false} BitSumOfWord(x: int, n: nat)
    requires n <= 64
    ensures BitSum(U64(x), n) == BitSum(x, n)
  {
    if n > 0 {
      BitSumOfWord(x, n - 1);
      BitOfWord(x, n - 1);
    }
  }

  lemma CountsBits(x: int)
    ensures CountOnes(U64(x)) == BitSum(x, 64)
  {
    Pow2Values();
    OnesAreBits(U64(x), 64);
    BitSumOfWord(x, 64);
  }

  /** Bits `s` and up of the low `s + n` bits. */
  lemma BitsOfSelection(x: int, s: nat, n: nat, i: nat)
    requires i < n
    ensures Bit(x / Pow2(s) % Pow2(n), i) == Bit(x, s + i)
  {
    var y := x / Pow2(s);
    BitsBelow(y, n, i);
    DivTwice(x, Pow2(s), Pow2(i));
    Pow2Add(s, i);
  }

  lemma BitsBelow(y: int, n: nat, i: nat)
    requires i < n
    ensures Bit(y % Pow2(n), i) == Bit(y, i)
  {
    hide Pow2, Bit;
    PowSplits(n, i);
    var m := Pow2(n);
    DivParts(y, m);
    BitsAbove(y % m, y / m, Pow2(n - 1 - i), i);
  }

  lemma DivParts(y: int, m: int)
    requires m > 0
    ensures y == y % m + y / m * m
  {
  }

  lemma PowSplits(n: nat, i: nat)
    requires i < n
    ensures Pow2(n) == 2 * Pow2(n - 1 - i) * Pow2(i)
  {
    Pow2Add(n - i, i);
    assert Pow2(n - i) == 2 * Pow2(n - 1 - i);
  }

  lemma BitsAbove(x: int, q: int, h: int, i: nat)
    ensures Bit(x + q * (2 * h * Pow2(i)), i) == Bit(x, i)
  {
    var m := Pow2(i);
    hide Pow2;
    Regroup(q, h, m);
    DivAdd(x, 2 * (q * h), m);
    ModAddMultiple(x / m, q * h, 2);
  }

  lemma DivTwice(x: int, a: int, b: int)
    requires a > 0 && b > 0
    ensures a * b > 0 && x / a / b == x / (a * b)
  {
    var q, r := x / a / b, x / a % b;
    assert x / a == q * b + r;
    var s := x % a;
    assert x == a * (x / a) + s;
    assert a * (q * b + r) == q * (a * b) + a * r;
    MulOrder(r, b - 1, a);
    assert a * (b - 1) == a * b - a;
    DivModUnique(x, a * b, q, a * r + s);
  }
}
