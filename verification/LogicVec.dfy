/**
 Four-state vectors, lowest bit first: their numbers, their printed form, their strings, and how `case`
 compares them.
 */
module LogicVec {
  import opened Basics
  import opened Outcomes
  import opened Words
  import CS = ConstSyntax

  datatype LogicVal = X | Zero | One | Z

  datatype Vec = Vec(bits: seq<LogicVal>, width: nat) {
    predicate Wf() {
      width == |bits|
    }
  }

  /** Wider vectors than this are taken for a mistake and get one bit. */
  const WIDTH_LIMIT: nat := 0x800_0000

  function SaneWidth(width: nat): nat {
    if width > WIDTH_LIMIT then 1 else width
  }

  function Bit(v: LogicVal): nat {
    if v == One then 1 else 0
  }

  function OfBit(b: nat): LogicVal {
    if b == 1 then One else Zero
  }

  /** The number the one-bits spell. */
  function Value(bits: seq<LogicVal>): nat {
    if bits == [] then 0 else Bit(bits[0]) + 2 * Value(bits[1..])
  }

  predicate Known(bits: seq<LogicVal>) {
    forall i :: 0 <= i < |bits| ==> bits[i] == Zero || bits[i] == One
  }

  /** The low `w` bits of a number, zeros beyond its top bit. */
  function Spell(val: nat, w: nat): (bits: seq<LogicVal>)
    ensures |bits| == w && Known(bits)
  {
    if w == 0 then [] else [OfBit(val % 2)] + Spell(val / 2, w - 1)
  }

  lemma {:induction false} SpellValue(val: nat, w: nat)
    ensures Value(Spell(val, w)) == val % Pow2(w)
  {
    if w > 0 {
      SpellValue(val / 2, w - 1);
      assert Spell(val, w)[1..] == Spell(val / 2, w - 1);
      HalfMod(val, Pow2(w - 1));
    }
  }

  lemma HalfMod(val: nat, m: nat)
    requires m > 0
    ensures val % (2 * m) == val % 2 + 2 * (val / 2 % m)
  {
    var q, r := val / 2 / m, val / 2 % m;
    assert val / 2 == q * m + r && val == 2 * (val / 2) + val % 2;
    assert 2 * (q * m + r) == q * (2 * m) + 2 * r;
    DivModUnique(val, 2 * m, q, val % 2 + 2 * r);
  }

  lemma {:induction false} ValueBound(bits: seq<LogicVal>)
    ensures Value(bits) < Pow2(|bits|)
  {
    if bits != [] {
      ValueBound(bits[1..]);
    }
  }

  /** A known vector is spelled by its value. */
  lemma {:induction false} KnownIsSpelled(bits: seq<LogicVal>)
    requires Known(bits)
    ensures Spell(Value(bits), |bits|) == bits
  {
    if bits != [] {
      KnownIsSpelled(bits[1..]);
      assert [bits[0]] + bits[1..] == bits;
    }
  }

  lemma {:induction false} ValueAppend(a: seq<LogicVal>, b: seq<LogicVal>)
    ensures Value(a + b) == Value(a) + Raise(Value(b), |a|)
  {
    if a == [] {
      assert a + b == b;
    } else {
      ValueAppend(a[1..], b);
      assert (a + b)[1..] == a[1..] + b;
      RaiseDouble(Value(b), |a[1..]|);
    }
  }

  lemma RaiseDouble(x: nat, s: nat)
    ensures Raise(x, s + 1) == 2 * Raise(x, s)
  {
    RaiseIsMultiply(x, s + 1);
    RaiseIsMultiply(x, s);
    assert x * (2 * Pow2(s)) == 2 * (x * Pow2(s));
  }

  /** Keeping the low bits is taking the value modulo two to their number. */
  lemma LowValue(bits: seq<LogicVal>, n: nat)
    requires n <= |bits|
    ensures Value(bits[..n]) == Value(bits) % Pow2(n)
  {
    assert bits == bits[..n] + bits[n..];
    ValueAppend(bits[..n], bits[n..]);
    RaiseIsMultiply(Value(bits[n..]), n);
    ValueBound(bits[..n]);
    DivModUnique(Value(bits), Pow2(n), Value(bits[n..]), Value(bits[..n]));
  }

  // ---- numbers ----

  function Number(val: nat, width: nat): (v: Vec)
    ensures v.Wf()
  {
    Vec(Spell(val, SaneWidth(width)), SaneWidth(width))
  }

  lemma {:induction false} SpellBits(val: nat, w: nat, i: nat)
    requires i < w
    ensures Spell(val, w)[i] == OfBit(DropBits(val, i) % 2)
  {
    if i > 0 {
      SpellBits(val / 2, w - 1, i - 1);
      DropTwice(val, i);
    } else {
      assert DropBits(val, 0) == val;
    }
  }

  lemma DropTwice(val: nat, i: nat)
    requires i >= 1
    ensures DropBits(val, i) == DropBits(val / 2, i - 1)
  {
    var m := Pow2(i - 1);
    var q, r := val / 2 / m, val / 2 % m;
    assert val / 2 == q * m + r && val == 2 * (val / 2) + val % 2;
    assert 2 * (q * m + r) == q * (2 * m) + 2 * r;
    DivModUnique(val, 2 * m, q, val % 2 + 2 * r);
  }

  lemma DropAll(val: nat, i: nat)
    requires val < TWO64 && i >= 64
    ensures DropBits(val, i) == 0
  {
    Pow2Values();
    Pow2Monotone(64, i);
    DivModUnique(val, Pow2(i), 0, val);
  }

  method FromU64(val: nat, width: nat) returns (v: Vec)
    requires val < TWO64
    ensures v == Number(val, width)
    ensures v.Wf() && v.width == (if width > 0x800_0000 then 1 else width) && Value(v.bits) == val % Pow2(v.width)
  {
    var w := SaneWidth(width);
    SpellValue(val, w);
    var bits := [];
    for i := 0 to w
      invariant bits == Spell(val, w)[..i]
    {
      SpellBits(val, w, i);
      if i < 64 && DropBits(val, i) % 2 == 1 {
        bits := bits + [One];
      } else {
        if i >= 64 {
          DropAll(val, i);
        }
        bits := bits + [Zero];
      }
    }
    v := Vec(bits, w);
  }

  /** The value of the low 64 bits; unknown bits count as 0. */
  function ToNumber(v: Vec): (u: nat)
    requires v.Wf()
  {
    Value(v.bits[..Min(v.width, 64)])
  }

  method ToU64(v: Vec) returns (u: nat)
    requires v.Wf()
    ensures u == ToNumber(v)
  {
    u := 0;
    var n := if v.width < 64 then v.width else 64;
    for i := 0 to n
      invariant u == Value(v.bits[..i]) < Pow2(i)
    {
      BitSnoc(v.bits[..i], v.bits[i]);
      assert v.bits[..i + 1] == v.bits[..i] + [v.bits[i]];
      ValueBound(v.bits[..i + 1]);
      if v.bits[i] == One {
        u := Bitwise(Or, u, Raise(1, i));
      }
    }
  }

  lemma BitSnoc(s: seq<LogicVal>, b: LogicVal)
    requires Value(s) < Pow2(|s|)
    ensures Value(s + [b]) == if b == One then Bitwise(Or, Value(s), Raise(1, |s|)) else Value(s)
  {
    OrIsAdd(Value(s), 1, |s|);
    ValueAppend(s, [b]);
    RaiseZero(|s|);
    assert Value([b]) == Bit(b) + 2 * Value([b][1..]) && [b][1..] == [];
  }

  /** The number read is the value modulo 2 to the 64. */
  lemma NumberIsValue(v: Vec)
    requires v.Wf()
    ensures ToNumber(v) == Value(v.bits) % TWO64
  {
    Pow2Values();
    ValueBound(v.bits);
    if v.width < 64 {
      Pow2Monotone(v.width, 64);
      SmallMod(Value(v.bits), TWO64);
      assert v.bits[..v.width] == v.bits;
    } else {
      LowValue(v.bits, 64);
    }
  }

  /** The signed reading of a vector of at least one bit. */
  function ToI64(v: Vec): int
    requires v.Wf() && v.width >= 1
  {
    var u := ToNumber(v);
    if v.width < 64 && DropBits(u, v.width - 1) % 2 == 1 then I64(Bitwise(Or, u, HighOnes(v.width))) else I64(u)
  }

  lemma TopBit(bits: seq<LogicVal>)
    requires bits != []
    ensures var w := |bits|;
            && Value(bits) < Pow2(w) && DropBits(Value(bits), w - 1) == Bit(bits[w - 1])
            && (bits[w - 1] != One ==> Value(bits) < Pow2(w - 1))
            && (bits[w - 1] == One ==> Value(bits) >= Pow2(w - 1))
  {
    var w := |bits|;
    var low, top := bits[..w - 1], bits[w - 1];
    assert bits == low + [top];
    ValueAppend(low, [top]);
    assert Value([top]) == Bit(top) + 2 * Value([top][1..]) && [top][1..] == [];
    RaiseIsMultiply(Bit(top), w - 1);
    ValueBound(low);
    ValueBound(bits);
    DivModUnique(Value(bits), Pow2(w - 1), Bit(top), Value(low));
  }

  /** Up to 64 bits it is two's complement: the top bit weighs minus two to its place. */
  lemma SignedIsTwosComplement(v: Vec)
    requires v.Wf() && 1 <= v.width <= 64
    ensures ToI64(v) == Value(v.bits) - if v.bits[v.width - 1] == One then Pow2(v.width) else 0
  {
    var w := v.width;
    assert v.bits[..w] == v.bits;
    TopBit(v.bits);
    Pow2Values();
    if w < 64 {
      FitsInWord(w);
      SmallMod(Value(v.bits), TWO64);
      if v.bits[w - 1] == One {
        FillHigh(Value(v.bits), w);
      }
    } else {
      SmallMod(Value(v.bits), TWO64);
    }
  }

  // ---- widths ----

  function Zeros(n: nat): (s: seq<LogicVal>)
    ensures |s| == n && forall i :: 0 <= i < n ==> s[i] == Zero
  {
    seq(n, _ => Zero)
  }

  function Resize(v: Vec, n: nat): (r: Vec)
    requires v.Wf()
    ensures r.Wf() && r.width == n
  {
    if n <= v.width then Vec(v.bits[..n], n) else Vec(v.bits + Zeros(n - v.width), n)
  }

  /** `other` goes above the bits of `v`. */
  function Extend(v: Vec, other: Vec): (r: Vec)
    requires v.Wf() && other.Wf()
    ensures r.Wf()
  {
    Vec(v.bits + other.bits, v.width + other.width)
  }

  lemma {:induction false} ZerosAreNothing(n: nat)
    ensures Value(Zeros(n)) == 0
  {
    if n > 0 {
      ZerosAreNothing(n - 1);
      assert Zeros(n)[1..] == Zeros(n - 1);
    }
  }

  /** Resizing to `n` bits is taking the value modulo two to `n`. */
  lemma ResizeIsModulo(v: Vec, n: nat)
    requires v.Wf()
    ensures Value(Resize(v, n).bits) == Value(v.bits) % Pow2(n)
    ensures ToNumber(Resize(v, n)) == Value(v.bits) % Pow2(n) % TWO64
  {
    NumberIsValue(Resize(v, n));
    if n <= v.width {
      LowValue(v.bits, n);
    } else {
      ValueAppend(v.bits, Zeros(n - v.width));
      ZerosAreNothing(n - v.width);
      RaiseZero(v.width);
      ValueBound(v.bits);
      Pow2Monotone(v.width, n);
      SmallMod(Value(v.bits), Pow2(n));
    }
  }

  /** Extending puts the other's value above, modulo 2 to the 64. */
  lemma ExtendIsConcatenation(v: Vec, other: Vec)
    requires v.Wf() && other.Wf()
    ensures ToNumber(Extend(v, other)) == (Value(v.bits) + Pow2(v.width) * Value(other.bits)) % TWO64
  {
    hide Value, Raise, ToNumber, Pow2;
    NumberIsValue(Extend(v, other));
    ValueAppend(v.bits, other.bits);
    RaiseIsMultiply(Value(other.bits), v.width);
  }

  // ---- truth ----

  /** True if some bit is 1; otherwise unknown if some bit is; otherwise false. */
  function ToBool(v: Vec): Option<bool>
    requires v.Wf()
  {
    if v.width == 0 then Some(false)
    else if One in v.bits then Some(true)
    else if X in v.bits || Z in v.bits then None
    else Some(false)
  }

  /** Disjunction of truth values that may be unknown. */
  function Or3(a: Option<bool>, b: Option<bool>): Option<bool> {
    if a == Some(true) || b == Some(true) then Some(true)
    else if a.None? || b.None? then None
    else Some(false)
  }

  /** The truth of a vector is the disjunction of its parts' truths, and a bit's is its own: unknown for X and Z. */
  lemma TruthIsOr(v: Vec, other: Vec)
    requires v.Wf() && other.Wf()
    ensures ToBool(Extend(v, other)) == Or3(ToBool(v), ToBool(other))
    ensures v.bits == [One] ==> ToBool(v) == Some(true)
    ensures v.bits == [Zero] || v.bits == [] ==> ToBool(v) == Some(false)
    ensures v.bits == [X] || v.bits == [Z] ==> ToBool(v) == None
  {
    var all := v.bits + other.bits;
    assert forall b :: b in all <==> b in v.bits || b in other.bits;
  }

  // ---- printing and parsing ----

  function Char(v: LogicVal): char {
    match v
    case Zero => '0'
    case One => '1'
    case X => 'x'
    case Z => 'z'
  }

  /** The printed form, highest bit first. */
  function Display(bits: seq<LogicVal>): (s: string)
    ensures |s| == |bits|
    ensures forall i :: 0 <= i < |s| ==> s[i] == Char(bits[|bits| - 1 - i])
  {
    if bits == [] then "" else Display(bits[1..]) + [Char(bits[0])]
  }

  /** The character stands for the bit. */
  predicate StandsFor(c: char, v: LogicVal) {
    && (c == '0' <==> v == Zero) && (c == '1' <==> v == One) && (c == 'x' <==> v == X) && (c == 'z' <==> v == Z)
  }

  /** A text is a vector's printed form exactly if it has a character for each bit, the highest first. */
  lemma PrintedIs(bits: seq<LogicVal>, text: string)
    ensures Display(bits) == text <==>
            |text| == |bits| && forall i :: 0 <= i < |text| ==> StandsFor(text[i], bits[|bits| - 1 - i])
  {
    var s := Display(bits);
    hide Display, StandsFor, Char;
    if |text| == |bits| {
      forall i | 0 <= i < |text|
        ensures StandsFor(text[i], bits[|bits| - 1 - i]) <==> text[i] == s[i]
      {
        OneCharacter(text[i], bits[|bits| - 1 - i]);
      }
    }
  }

  lemma OneCharacter(c: char, v: LogicVal)
    ensures StandsFor(c, v) <==> c == Char(v)
  {
  }

  /** Removes every copy of a two-letter prefix. */
  function TrimPrefix(s: string, b: char): string {
    if |s| >= 2 && s[0] == '0' && s[1] == b then TrimPrefix(s[2..], b) else s
  }

  /** Binary digits; nothing else, and not nothing at all. */
  function BinaryValue(s: string): Option<nat> {
    if s == "" then Some(0)
    else
      var high :- BinaryValue(s[..|s| - 1]);
      var c := s[|s| - 1];
      if c == '0' then Some(2 * high) else if c == '1' then Some(2 * high + 1) else None
  }

  function FromBin(text: string): Result<Vec> {
    var s := TrimPrefix(TrimPrefix(text, 'b'), 'B');
    match BinaryValue(s)
    case Some(val) => if s != "" && val < TWO64 then Ok(Number(val, |s|)) else Err
    case None => Err
  }

  lemma {:induction false} DisplayReads(bits: seq<LogicVal>)
    ensures BinaryValue(Display(bits)) == if Known(bits) then Some(Value(bits)) else None
  {
    if bits != [] {
      DisplayReads(bits[1..]);
      KnownSplits(bits);
      BinarySnoc(Display(bits[1..]), Char(bits[0]));
    }
  }

  lemma BinarySnoc(s: string, c: char)
    ensures BinaryValue(s + [c]) ==
            match BinaryValue(s)
            case Some(high) => if c == '0' then Some(2 * high) else if c == '1' then Some(2 * high + 1) else None
            case None => None
  {
    assert (s + [c])[..|s|] == s;
  }

  lemma KnownSplits(bits: seq<LogicVal>)
    requires bits != []
    ensures Known(bits) <==> (bits[0] == Zero || bits[0] == One) && Known(bits[1..])
  {
    assert bits == [bits[0]] + bits[1..];
  }

  lemma NothingToTrim(bits: seq<LogicVal>)
    ensures var s := Display(bits); TrimPrefix(TrimPrefix(s, 'b'), 'B') == s
  {
    var s := Display(bits);
    assert |s| >= 2 ==> s[1] == Char(bits[|bits| - 2]);
    NoPrefix(s, 'b');
    NoPrefix(s, 'B');
  }

  lemma NoPrefix(s: string, b: char)
    requires |s| >= 2 ==> s[1] != b
    ensures TrimPrefix(s, b) == s
  {
  }

  /**
   Printing a vector and parsing it gives the vector back exactly if it is not empty, all its bits are
   known, its value is below 2 to the 64 and its width is within the limit.
   */
  lemma PrintThenParse(v: Vec)
    requires v.Wf()
    ensures FromBin(Display(v.bits)) == Ok(v) <==>
            v.width >= 1 && Known(v.bits) && Value(v.bits) < TWO64 && v.width <= WIDTH_LIMIT
  {
    hide Value, Spell, BinaryValue, Display, TrimPrefix;
    NothingToTrim(v.bits);
    DisplayReads(v.bits);
    if Known(v.bits) {
      KnownIsSpelled(v.bits);
    }
  }

  // ---- strings ----

  /** Eight bits a byte, lowest first. */
  function StringBits(bytes: seq<Byte>): (bits: seq<LogicVal>)
    ensures |bits| == 8 * |bytes|
  {
    if bytes == [] then [] else Spell(bytes[0], 8) + StringBits(bytes[1..])
  }

  method FromString(bytes: seq<Byte>) returns (v: Vec)
    ensures v == Vec(StringBits(bytes), 8 * |bytes|)
  {
    hide Spell, DropBits;
    var bits := [];
    for i := 0 to |bytes|
      invariant StringBits(bytes) == bits + StringBits(bytes[i..]) && |bits| == 8 * i
    {
      assert bytes[i..][1..] == bytes[i + 1..];
      ghost var before := bits;
      for bit := 0 to 8
        invariant bits == before + Spell(bytes[i], 8)[..bit]
      {
        SpellBits(bytes[i], 8, bit);
        bits := bits + [if DropBits(bytes[i], bit) % 2 == 1 then One else Zero];
      }
      assert Spell(bytes[i], 8)[..8] == Spell(bytes[i], 8);
    }
    v := Vec(bits, 8 * |bytes|);
  }

  lemma {:induction false} StringValue(bytes: seq<Byte>)
    ensures Value(StringBits(bytes)) == BytesValue(bytes)
  {
    if bytes != [] {
      var b, rest := bytes[0], bytes[1..];
      assert StringBits(bytes) == Spell(b, 8) + StringBits(rest) && BytesValue(bytes) == b + 256 * BytesValue(rest);
      Pow2Values();
      hide Spell, Value, Pow2, Raise, StringBits, BytesValue;
      StringValue(rest);
      ByteValue(b);
      RaiseIsMultiply(BytesValue(rest), 8);
      ValueAppend(Spell(b, 8), StringBits(rest));
    }
  }

  lemma ByteValue(b: Byte)
    ensures Value(Spell(b, 8)) == b
  {
    SpellValue(b, 8);
    Pow2Values();
    SmallMod(b, 256);
  }

  lemma {:induction false} StringPrefix(bytes: seq<Byte>, n: nat)
    requires n <= |bytes|
    ensures StringBits(bytes)[..8 * n] == StringBits(bytes[..n])
  {
    if n > 0 {
      StringPrefix(bytes[1..], n - 1);
      assert bytes[..n][1..] == bytes[1..][..n - 1];
    }
  }

  /** A string has the same number at run time as at compile time. */
  lemma StringsAgree(bytes: seq<Byte>)
    ensures ToNumber(Vec(StringBits(bytes), 8 * |bytes|)) == U64(CS.StringToI64(bytes))
  {
    var n := if |bytes| > 8 then 8 else |bytes|;
    hide StringBits, Value, BytesValue, U64, I64, Pow2;
    StringPrefix(bytes, n);
    StringValue(bytes[..n]);
    assert |bytes| <= 8 ==> bytes[..n] == bytes;
    assert Min(8 * |bytes|, 64) == 8 * n;
    ValueBound(StringBits(bytes[..n]));
    Pow2Values();
    Pow2Monotone(8 * n, 64);
    WordReadBack(BytesValue(bytes[..n]));
  }

  lemma WordReadBack(u: nat)
    requires u < TWO64
    ensures U64(I64(u)) == u
  {
    SmallMod(u, TWO64);
  }

  // ---- case ----

  /** A bit of a vector, zero beyond its top. */
  function At(v: Vec, i: nat): LogicVal
    requires v.Wf()
  {
    if i < v.width then v.bits[i] else Zero
  }

  function Wider(a: Vec, b: Vec): nat {
    if a.width < b.width then b.width else a.width
  }

  datatype Mode = Case | CaseZ | CaseX

  /** What a pattern bit accepts: in `casez` a Z accepts anything, in `casex` an X does too. */
  predicate Accepts(mode: Mode, val: LogicVal, pat: LogicVal) {
    val == pat || (pat == Z && mode != Case) || (pat == X && mode == CaseX)
  }

  predicate Matches(mode: Mode, v: Vec, pattern: Vec)
    requires v.Wf() && pattern.Wf()
  {
    forall i :: 0 <= i < Wider(v, pattern) ==> Accepts(mode, At(v, i), At(pattern, i))
  }

  method CaseValEq(v: Vec, pattern: Vec) returns (eq: bool)
    requires v.Wf() && pattern.Wf()
    ensures eq <==> Matches(Case, v, pattern)
  {
    for i := 0 to Wider(v, pattern)
      invariant forall k :: 0 <= k < i ==> Accepts(Case, At(v, k), At(pattern, k))
    {
      if At(v, i) != At(pattern, i) {
        return false;
      }
    }
    return true;
  }

  method CaseZEq(v: Vec, pattern: Vec) returns (eq: bool)
    requires v.Wf() && pattern.Wf()
    ensures eq <==> Matches(CaseZ, v, pattern)
  {
    for i := 0 to Wider(v, pattern)
      invariant forall k :: 0 <= k < i ==> Accepts(CaseZ, At(v, k), At(pattern, k))
    {
      if At(pattern, i) != Z && At(v, i) != At(pattern, i) {
        return false;
      }
    }
    return true;
  }

  method CaseXEq(v: Vec, pattern: Vec) returns (eq: bool)
    requires v.Wf() && pattern.Wf()
    ensures eq <==> Matches(CaseX, v, pattern)
  {
    for i := 0 to Wider(v, pattern)
      invariant forall k :: 0 <= k < i ==> Accepts(CaseX, At(v, k), At(pattern, k))
    {
      if At(pattern, i) != X && At(pattern, i) != Z && At(v, i) != At(pattern, i) {
        return false;
      }
    }
    return true;
  }

  /** `case` compares both vectors extended with zeros to the wider width. */
  lemma CaseIsExtendedEquality(v: Vec, pattern: Vec)
    requires v.Wf() && pattern.Wf()
    ensures var n := Wider(v, pattern); Matches(Case, v, pattern) <==> Resize(v, n) == Resize(pattern, n)
  {
    var n := Wider(v, pattern);
    var a, b := Resize(v, n).bits, Resize(pattern, n).bits;
    assert forall i :: 0 <= i < n ==> a[i] == At(v, i) && b[i] == At(pattern, i);
    assert Matches(Case, v, pattern) ==> a == b;
    if a == b {
      assert forall i :: 0 <= i < n ==> At(v, i) == a[i] == b[i] == At(pattern, i);
    }
  }

  /** A pattern with its wildcards filled in from the vector, at the wider width. */
  function Filled(v: Vec, pattern: Vec, wild: set<LogicVal>): (w: Vec)
    requires v.Wf() && pattern.Wf()
    ensures w.Wf() && w.width == Wider(v, pattern)
  {
    Vec(seq(Wider(v, pattern), i requires i >= 0 => if At(pattern, i) in wild then At(v, i) else At(pattern, i)),
        Wider(v, pattern))
  }

  /** `casez` is `case` with the pattern's Zs filled in from the vector, and `casex` with its Xs and Zs. */
  lemma WildcardsAreFilled(v: Vec, pattern: Vec)
    requires v.Wf() && pattern.Wf()
    ensures Matches(CaseZ, v, pattern) <==> Matches(Case, v, Filled(v, pattern, {Z}))
    ensures Matches(CaseX, v, pattern) <==> Matches(Case, v, Filled(v, pattern, {X, Z}))
  {
    var n, z, x := Wider(v, pattern), Filled(v, pattern, {Z}), Filled(v, pattern, {X, Z});
    assert Wider(v, z) == n && Wider(v, x) == n;
    assert forall i :: 0 <= i < n ==> At(z, i) == if At(pattern, i) == Z then At(v, i) else At(pattern, i);
    assert forall i :: 0 <= i < n ==> At(x, i) == if At(pattern, i) in {X, Z} then At(v, i) else At(pattern, i);
    assert forall i :: 0 <= i < n ==> (Accepts(CaseZ, At(v, i), At(pattern, i)) <==> Accepts(Case, At(v, i), At(z, i)));
    assert forall i :: 0 <= i < n ==> (Accepts(CaseX, At(v, i), At(pattern, i)) <==> Accepts(Case, At(v, i), At(x, i)));
  }

  /** Each kind of `case` accepts what the stricter one does, and all three agree on a fully known pattern. */
  lemma CasesNest(v: Vec, pattern: Vec)
    requires v.Wf() && pattern.Wf()
    ensures Matches(Case, v, pattern) ==> Matches(CaseZ, v, pattern)
    ensures Matches(CaseZ, v, pattern) ==> Matches(CaseX, v, pattern)
    ensures Known(pattern.bits) && Matches(CaseX, v, pattern) ==> Matches(Case, v, pattern)
  {
  }
}
