/**
 Machine words as integers: 64-bit wrap-around, masks, shifts and bitwise operators, with the few facts
 about powers of two the evaluators rest on.
 */
module Words {

  type Byte = b: int | 0 <= b < 256

  function Pow2(n: nat): (p: int)
    ensures p >= 1
  {
    if n == 0 then 1 else 2 * Pow2(n - 1)
  }

  const TWO63: int := 0x8000_0000_0000_0000
  const TWO64: int := 0x1_0000_0000_0000_0000

  lemma Pow2Values()
    ensures Pow2(8) == 256 && Pow2(32) == 0x1_0000_0000 && Pow2(63) == TWO63 && Pow2(64) == TWO64
  {
    assert Pow2(8) == 256;
    assert Pow2(16) == 256 * 256 by { Pow2Add(8, 8); }
    assert Pow2(32) == 0x1_0000 * 0x1_0000 by { Pow2Add(16, 16); }
    assert Pow2(64) == 0x1_0000_0000 * 0x1_0000_0000 by { Pow2Add(32, 32); }
    assert Pow2(64) == 2 * Pow2(63);
  }

  lemma {:induction false} Pow2Add(a: nat, b: nat)
    ensures Pow2(a + b) == Pow2(a) * Pow2(b)
  {
    if a > 0 {
      Pow2Add(a - 1, b);
    }
  }

  lemma {:induction false} Pow2Monotone(a: nat, b: nat)
    requires a <= b
    ensures Pow2(a) <= Pow2(b)
    decreases b
  {
    if a < b {
      Pow2Monotone(a, b - 1);
    }
  }

  /** A 64-bit pattern. */
  function U64(x: int): (u: nat)
    ensures u < TWO64
  {
    x % TWO64
  }

  /** A 64-bit pattern read as two's complement. */
  function I64(x: int): (i: int)
    ensures -TWO63 <= i < TWO63
  {
    var u := x % TWO64;
    if u < TWO63 then u else u - TWO64
  }

  /** The low `w` bits of a pattern: what masking with `(1 << w) - 1` keeps; all 64 bits from `w = 64` on. */
  function LowBits(x: int, w: nat): (m: nat)
    ensures w < 64 ==> m < Pow2(w)
  {
    if w >= 64 then U64(x) else x % Pow2(w)
  }

  /** Unsigned right shift. */
  function DropBits(u: nat, s: nat): nat {
    DivNonNegative(u, Pow2(s));
    u / Pow2(s)
  }

  lemma MulOrder(a: int, b: int, m: int)
    requires a <= b && m >= 0
    ensures a * m <= b * m && m * a <= m * b
  {
  }

  /** A number moved up by `s` bits. */
  function Raise(x: nat, s: nat): nat {
    if s == 0 then x else 2 * Raise(x, s - 1)
  }

  lemma {:induction false} RaiseIsMultiply(x: nat, s: nat)
    ensures Raise(x, s) == x * Pow2(s)
  {
    if s > 0 {
      RaiseIsMultiply(x, s - 1);
      assert x * Pow2(s) == 2 * (x * Pow2(s - 1));
    }
  }

  lemma {:induction false} RaiseZero(s: nat)
    ensures Raise(0, s) == 0
  {
    if s > 0 {
      RaiseZero(s - 1);
    }
  }

  lemma {:induction false} RaiseTwice(x: nat, s: nat, t: nat)
    ensures Raise(Raise(x, s), t) == Raise(x, s + t)
  {
    if t > 0 {
      RaiseTwice(x, s, t - 1);
    }
  }

  lemma MulThree(a: int, b: int, c: int)
    ensures a * b * c == a * (b * c)
  {
  }

  lemma {:induction false} RaiseSum(x: nat, y: nat, s: nat)
    ensures Raise(x + y, s) == Raise(x, s) + Raise(y, s)
  {
    if s > 0 {
      RaiseSum(x, y, s - 1);
    }
  }

  /** Bits placed above others stay within the added widths. */
  lemma {:induction false} RaiseBound(x: nat, w: nat, y: nat, s: nat)
    requires x < Pow2(w) && y < Pow2(s)
    ensures Raise(x, s) + y < Pow2(w + s)
    decreases s
  {
    if s > 0 {
      RaiseBound(x, w, y / 2, s - 1);
    }
  }

  lemma DivNonNegative(u: nat, m: int)
    requires m > 0
    ensures 0 <= u / m <= u
  {
    var q := u / m;
    assert u == q * m + u % m;
    if q <= -1 { MulOrder(q, -1, m); } else { MulOrder(1, m, q); }
  }

  /** Shift amounts are reduced modulo 64. */
  function ShiftLeft(x: int, s: int): int {
    I64(x * Pow2(s % 64))
  }

  /** Arithmetic right shift: division rounding down. */
  function ShiftRight(x: int, s: int): int {
    x / Pow2(s % 64)
  }

  datatype BitOp = And | Or | Xor

  function OneBit(op: BitOp, a: nat, b: nat): (r: nat)
    requires a < 2 && b < 2
    ensures r < 2
  {
    match op
    case And => if a == 1 && b == 1 then 1 else 0
    case Or => if a == 1 || b == 1 then 1 else 0
    case Xor => if a != b then 1 else 0
  }

  /** Bit by bit; for patterns of 64 bits the result is again one. */
  function Bitwise(op: BitOp, a: nat, b: nat): nat
    decreases a + b
  {
    if a == 0 && b == 0 then 0 else OneBit(op, a % 2, b % 2) + 2 * Bitwise(op, a / 2, b / 2)
  }

  function BitwiseI64(op: BitOp, a: int, b: int): int {
    I64(Bitwise(op, U64(a), U64(b)))
  }

  function NotI64(a: int): int {
    -a - 1
  }

  /** Bytes as one number, the first byte lowest. */
  function BytesValue(bytes: seq<Byte>): nat {
    if bytes == [] then 0 else bytes[0] + 256 * BytesValue(bytes[1..])
  }

  function CountOnes(u: nat): nat {
    if u == 0 then 0 else u % 2 + CountOnes(u / 2)
  }

  /** The position of the highest set bit plus one; 0 for 0. */
  function BitLength(u: nat): nat {
    if u == 0 then 0 else 1 + BitLength(u / 2)
  }

  /** Division rounding toward zero. */
  function TruncDiv(a: int, b: int): int
    requires b != 0
  {
    if a >= 0 then (if b > 0 then a / b else -(a / -b))
    else (if b > 0 then -(-a / b) else -a / -b)
  }

  function TruncRem(a: int, b: int): int
    requires b != 0
  {
    a - b * TruncDiv(a, b)
  }

  function Abs(x: int): nat {
    if x < 0 then -x else x
  }

  /** Truncating division: the remainder is smaller than the divisor and has the dividend's sign. */
  lemma TruncDivMod(a: int, b: int)
    requires b != 0
    ensures TruncDiv(a, b) * b + TruncRem(a, b) == a
    ensures Abs(TruncRem(a, b)) < Abs(b)
    ensures a >= 0 ==> TruncRem(a, b) >= 0
    ensures a <= 0 ==> TruncRem(a, b) <= 0
  {
    var m: int, d: int := Abs(a), Abs(b);
    TruncParts(a, b, m / d, m % d);
  }

  /** The quotient and remainder of the magnitudes, with the signs put back. */
  lemma TruncParts(a: int, b: int, q: int, r: int)
    requires b != 0 && Abs(a) == Abs(b) * q + r && 0 <= r < Abs(b)
    ensures var t := if (a >= 0) == (b > 0) then q else -q;
            a - b * t == (if a >= 0 then r else -r)
  {
    MulNegate(b, q);
  }

  lemma MulNegate(b: int, q: int)
    ensures b * -q == -(b * q) && -b * q == -(b * q)
  {
  }

  // ---- reduction modulo ----

  lemma ModAddMultiple(x: int, k: int, m: nat)
    requires m > 0
    ensures (x + k * m) % m == x % m
  {
    var q, q' := x / m, (x + k * m) / m;
    assert x == q * m + x % m;
    assert x + k * m == (q + k) * m + x % m;
    DivModUnique(x + k * m, m, q + k, x % m);
  }

  lemma DivModUnique(x: int, m: nat, q: int, r: int)
    requires m > 0 && x == q * m + r && 0 <= r < m
    ensures x / m == q && x % m == r
  {
    var q', r' := x / m, x % m;
    assert x == q' * m + r';
    assert (q - q') * m == r' - r;
    var k := q - q';
    if k >= 1 { MulOrder(1, k, m); } else if k <= -1 { MulOrder(k, -1, m); }
  }

  /** Products may be reduced before or after multiplying. */
  lemma ModMul(a: int, b: int, m: nat)
    requires m > 0
    ensures (a % m) * (b % m) % m == a * b % m
  {
    var qa, qb := a / m, b / m;
    var ra, rb := a % m, b % m;
    assert a == qa * m + ra && b == qb * m + rb;
    var k := qa * qb * m + qa * rb + ra * qb;
    assert a * b == ra * rb + k * m;
    ModAddMultiple(ra * rb, k, m);
  }

  /** Reducing modulo a multiple of `m` first does not matter modulo `m`. */
  lemma ModMod(x: int, k: nat, m: nat)
    requires m > 0 && k > 0
    ensures (x % (k * m)) % m == x % m
  {
    assert k * m > 0;
    var q := x / (k * m);
    assert x == q * (k * m) + x % (k * m);
    assert q * (k * m) == (q * k) * m;
    ModAddMultiple(x % (k * m), q * k, m);
  }

  lemma SmallMod(x: nat, m: nat)
    requires x < m
    ensures x % m == x
  {
  }

  lemma SplitWord(w: nat)
    requires w <= 64
    ensures Pow2(64 - w) * Pow2(w) == TWO64
  {
    Pow2Values();
    Pow2Add(64 - w, w);
  }

  lemma LowBitsBelow64(x: int, w: nat)
    requires w < 64
    ensures U64(x) % Pow2(w) == x % Pow2(w) && (U64(x) - TWO64) % Pow2(w) == x % Pow2(w)
  {
    var k, m := Pow2(64 - w), Pow2(w);
    SplitWord(w);
    ModMod(x, k, m);
    MulNegate(k, m);
    ModAddMultiple(U64(x), -k, m);
    assert U64(x) - TWO64 == U64(x) + -k * m;
  }

  lemma LowBitsOfU64(x: int, w: nat)
    ensures LowBits(U64(x), w) == LowBits(x, w)
    ensures LowBits(I64(x), w) == LowBits(x, w)
  {
    if w < 64 {
      LowBitsBelow64(x, w);
    } else {
      ModAddMultiple(U64(x), -1, TWO64);
      SmallMod(U64(x), TWO64);
    }
  }

  /** A pattern whose bits lie below `w` is the same number signed or not. */
  lemma SmallIsSelf(x: nat, w: nat)
    requires w <= 63 && x < Pow2(w)
    ensures I64(x) == x == U64(x)
    ensures LowBits(x, w) == x
  {
    FitsInWord(w);
    SmallMod(x, Pow2(w));
    SmallMod(x, TWO64);
  }

  lemma FitsInWord(w: nat)
    requires w <= 63
    ensures Pow2(w) <= TWO63
  {
    Pow2Values();
    Pow2Monotone(w, 63);
  }

  /** Or-ing in bits above the ones in use is adding them. */
  lemma {:induction false} OrIsAdd(a: nat, b: nat, s: nat)
    requires a < Pow2(s)
    ensures Bitwise(Or, a, Raise(b, s)) == a + Raise(b, s)
    ensures Bitwise(Or, Raise(b, s), a) == a + Raise(b, s)
    decreases s
  {
    if s == 0 {
      OrZero(b);
    } else {
      OrIsAdd(a / 2, b, s - 1);
    }
  }

  lemma {:induction false} OrZero(b: nat)
    ensures Bitwise(Or, 0, b) == b && Bitwise(Or, b, 0) == b
  {
    if b > 0 {
      OrZero(b / 2);
    }
  }

  // ---- bytes ----

  /** The low `n` bytes of a value, lowest first. */
  function Bytes(v: nat, n: nat): (s: seq<Byte>)
    ensures |s| == n
  {
    if n == 0 then [] else [v % 256] + Bytes(v / 256, n - 1)
  }

  lemma {:induction false} ValueOfBytes(v: nat, n: nat)
    ensures BytesValue(Bytes(v, n)) == v % Pow2(8 * n)
  {
    if n > 0 {
      ValueOfBytes(v / 256, n - 1);
      assert Bytes(v, n)[1..] == Bytes(v / 256, n - 1);
      Pow2Add(8, 8 * (n - 1));
      Pow2Values();
      DivNonNegative(v, 256);
      SplitMod(v, 256, Pow2(8 * (n - 1)));
    } else {
      assert v % 1 == 0;
    }
  }

  lemma SplitMod(v: nat, a: nat, b: nat)
    requires a > 0 && b > 0
    ensures v % (a * b) == v % a + a * (v / a % b)
  {
    var q, r := v / a / b, v / a % b;
    assert v / a == q * b + r;
    assert v == a * (v / a) + v % a;
    assert a * (q * b + r) == q * (a * b) + a * r;
    MulOrder(r, b - 1, a);
    assert a * (b - 1) == a * b - a;
    DivModUnique(v, a * b, q, v % a + a * r);
  }

  lemma {:induction false} BytesOfValue(s: seq<Byte>)
    ensures BytesValue(s) < Pow2(8 * |s|)
    ensures Bytes(BytesValue(s), |s|) == s
  {
    if s != [] {
      BytesOfValue(s[1..]);
      var v := BytesValue(s[1..]);
      DivModUnique(s[0] + 256 * v, 256, v, s[0]);
      Pow2Add(8, 8 * |s[1..]|);
      Pow2Values();
      assert [s[0]] + s[1..] == s;
    }
  }

  /** One turn of the reading loop: the next byte goes above those already read. */
  lemma BytesSnoc(s: seq<Byte>, b: Byte)
    requires BytesValue(s) < Pow2(8 * |s|)
    ensures BytesValue(s + [b]) == Bitwise(Or, BytesValue(s), Raise(b, 8 * |s|))
    ensures BytesValue(s + [b]) < Pow2(8 * |s + [b]|)
  {
    OrIsAdd(BytesValue(s), b, 8 * |s|);
    BytesAppend(s, [b]);
    assert [b][1..] == [] && BytesValue([b]) == b;
    BytesOfValue(s + [b]);
  }

  lemma {:induction false} BytesAppend(s: seq<Byte>, t: seq<Byte>)
    ensures BytesValue(s + t) == BytesValue(s) + Raise(BytesValue(t), 8 * |s|)
  {
    if s == [] {
      assert s + t == t;
    } else {
      BytesAppend(s[1..], t);
      assert (s + t)[1..] == s[1..] + t;
      RaiseEight(BytesValue(t), 8 * |s[1..]|);
    }
  }

  lemma RaiseEight(x: nat, s: nat)
    ensures Raise(x, 8 + s) == 256 * Raise(x, s)
  {
    RaiseTwice(x, s, 8);
    RaiseIsMultiply(Raise(x, s), 8);
    Pow2Values();
  }

  // ---- sign extension ----

  /** All ones from bit `k` up. */
  function HighOnes(k: nat): nat
    requires k < 64
  {
    FitsInWord(k);
    TWO64 - Pow2(k)
  }

  /** Filling the bits above `s` with ones takes two to the `s` off. */
  lemma FillHigh(q: nat, s: nat)
    requires s <= 63 && q < Pow2(s)
    ensures I64(Bitwise(Or, q, HighOnes(s))) == q - Pow2(s)
  {
    var ones: nat := Pow2(64 - s) - 1;
    SplitWord(s);
    MulDistributes(Pow2(64 - s), 1, Pow2(s));
    RaiseIsMultiply(ones, s);
    assert Raise(ones, s) == HighOnes(s);
    Pow2Values();
    OrIsAdd(q, ones, s);
    FitsInWord(s);
    WrapNegative(q - Pow2(s));
  }

  lemma MulDistributes(a: int, b: int, c: int)
    ensures (a - b) * c == a * c - b * c
  {
  }

  lemma WrapNegative(x: int)
    requires -TWO63 <= x < 0
    ensures I64(x + TWO64) == x
  {
  }
}
