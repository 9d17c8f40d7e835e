/**
 Constant expressions, as both compile-time evaluators see them, and what is read off the syntax alone:
 literal values and self-determined widths.
 */
module ConstSyntax {
  import opened Outcomes
  import opened Words

  datatype UnaryOp =
    | Plus | Minus | BitNot | Not
    | ReductionAnd | ReductionNand | ReductionOr | ReductionNor | ReductionXor | ReductionXnor

  datatype BinaryOp =
    | Add | Sub | Mul | Div | Mod | Power
    | Eq | Neq | CaseEq | CaseNeq | EqWild | NeqWild | Lt | Le | Gt | Ge
    | Shl | Shr | Sshl | Sshr
    | BitAnd | BitOr | BitXor | BitXnor | LogicalAnd | LogicalOr

  /** A based literal carries its digits, its radix (2, 8 or 16), its written width if any, and its sign mark. */
  datatype Expr =
    | Decimal(n: int)
    | Based(digits: string, radix: nat, width: Option<nat>, signed: bool)
    | Text(bytes: seq<Byte>)
    | Fill
    | Ident(name: string)
    | ScopedIdent(pkg: string, item: string)
    | Unary(op: UnaryOp, arg: Expr)
    | Binary(bop: BinaryOp, lhs: Expr, rhs: Expr)
    | Ternary(cond: Expr, thn: Expr, els: Expr)
    | Paren(inner: Expr)
    | Concat(elems: seq<Expr>)
    | Replicate(count: Expr, body: Expr)
    | BitSelect(base: Expr, index: Expr)
    | RangeSelect(base: Expr, msb: Expr, lsb: Expr)
    | PartSelect(base: Expr, start: Expr, size: Expr)
    | Cast(inner: Expr)
    | StructLit(members: seq<Member>)
    | MemberAccess(obj: Expr, field: string)
    | Call(func: string, args: seq<Expr>)

  datatype MemberKind = Named(name: string) | Positional | Default

  datatype Member = Member(kind: MemberKind, val: Expr)

  // ---- literals ----

  function Digit(c: char): Option<nat> {
    if '0' <= c <= '9' then Some((c - '0') as nat)
    else if 'a' <= c <= 'f' then Some((c - 'a') as nat + 10)
    else if 'A' <= c <= 'F' then Some((c - 'A') as nat + 10)
    else None
  }

  /** Unknown digits count as zero. */
  function KnownDigit(c: char): char {
    if c == 'x' || c == 'z' then '0' else c
  }

  function DigitsValue(s: string, radix: nat): Option<nat> {
    if s == "" then Some(0)
    else
      var high :- DigitsValue(s[..|s| - 1], radix);
      var low :- Digit(KnownDigit(s[|s| - 1]));
      if low < radix then Some(high * radix + low) else None
  }

  /** The 64-bit pattern of a literal; no digits, a bad digit or a value beyond 64 bits is an error. */
  function ParsePattern(s: string, radix: nat): Result<nat> {
    match DigitsValue(s, radix)
    case Some(v) => if s != "" && v < TWO64 then Ok(v) else Err
    case None => Err
  }

  /** Bits per digit. */
  function DigitBits(radix: nat): nat {
    if radix == 2 then 1 else if radix == 8 then 3 else 4
  }

  /** A literal's width: as written, or counted from its digits. */
  function LiteralWidth(e: Expr): nat
    requires e.Based?
  {
    if e.width.Some? then e.width.value else |e.digits| * DigitBits(e.radix)
  }

  // ---- self-determined widths ----

  predicate IsReduction(op: UnaryOp) {
    op in {Not, ReductionAnd, ReductionNand, ReductionOr, ReductionNor, ReductionXor, ReductionXnor}
  }

  predicate IsShift(op: BinaryOp) {
    op in {Shl, Shr, Sshl, Sshr}
  }

  predicate IsComparison(op: BinaryOp) {
    op in {Eq, Neq, CaseEq, CaseNeq, EqWild, NeqWild, Lt, Le, Gt, Ge}
  }

  predicate IsLogical(op: BinaryOp) {
    op in {LogicalAnd, LogicalOr}
  }

  /** The self-determined width of an expression, where it can be read off the syntax. */
  function SizedWidth(e: Expr): Option<nat>
    decreases e, 1
  {
    match e
    case Paren(inner) => SizedWidth(inner)
    case Replicate(count, body) =>
      if count.Decimal? && count.n > 0 then
        var w :- SizedWidth(body);
        Some(count.n * w)
      else None
    case Based(_, _, _, _) => Some(LiteralWidth(e))
    case Unary(op, arg) => if IsReduction(op) then Some(1) else SizedWidth(arg)
    case Binary(op, l, _) =>
      if IsShift(op) then SizedWidth(l)
      else if IsComparison(op) || IsLogical(op) then Some(1)
      else None
    case Concat(elems) => SumWidths(elems)
    case _ => None
  }

  function SumWidths(elems: seq<Expr>): Option<nat>
    decreases elems, 0
  {
    if elems == [] then Some(0)
    else
      var w :- SizedWidth(elems[0]);
      var rest :- SumWidths(elems[1..]);
      Some(w + rest)
  }

  /** Signedness: decimals and marked literals are signed, and unary plus, minus and `~` inherit it. */
  predicate IsSignedExpr(e: Expr) {
    match e
    case Decimal(_) => true
    case Based(_, _, _, signed) => signed
    case Paren(inner) => IsSignedExpr(inner)
    case Unary(op, arg) => !IsReduction(op) && IsSignedExpr(arg)
    case _ => false
  }

  /** Up to eight bytes, the first one lowest. */
  function StringToI64(bytes: seq<Byte>): int {
    I64(BytesValue(if |bytes| > 8 then bytes[..8] else bytes))
  }

  /** The encoding loop: byte `i` goes to bits `8i` and up. */
  method EncodeString(bytes: seq<Byte>) returns (val: int)
    ensures val == StringToI64(bytes)
  {
    var acc: nat := 0;
    var n := if |bytes| > 8 then 8 else |bytes|;
    for i := 0 to n
      invariant acc == BytesValue(bytes[..i]) < Pow2(8 * i)
    {
      assert bytes[..i + 1] == bytes[..i] + [bytes[i]];
      BytesSnoc(bytes[..i], bytes[i]);
      acc := Bitwise(Or, acc, Raise(bytes[i], 8 * i));
    }
    assert |bytes| <= 8 ==> bytes[..n] == bytes;
    val := I64(acc);
  }

  /** Decimal digits, for the keys of array elements. */
  function NatString(n: nat): string {
    if n < 10 then [('0' as int + n) as char] else NatString(n / 10) + [('0' as int + n % 10) as char]
  }

  function IntString(n: int): string {
    if n < 0 then "-" + NatString(-n) else NatString(n)
  }
}
