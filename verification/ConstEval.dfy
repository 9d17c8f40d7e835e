/**
 The width-aware evaluator: constants as 64-bit patterns, masked to self-determined widths.
 */
module ConstEval {
  import opened Basics
  import opened Outcomes
  import opened Words
  import opened ConstSyntax

  type Params = map<string, int>

  // ---- literals and signs ----

  /** A marked literal whose top bit is set is negative; every other literal is its pattern. */
  function LiteralValue(e: Expr): Result<int>
    requires e.Based?
  {
    var u :- ParsePattern(e.digits, e.radix);
    if e.width.Some? && e.signed && 0 < e.width.value < 64 && DropBits(u, e.width.value - 1) % 2 == 1
    then Ok(I64(u - Pow2(e.width.value)))
    else Ok(I64(u))
  }

  datatype Pattern = Pattern(bits: nat, width: nat, signed: bool)

  /** The raw pattern of a literal, width 0 if none is written. */
  function SizedPattern(e: Expr): Option<Pattern> {
    match e
    case Paren(inner) => SizedPattern(inner)
    case Based(digits, radix, width, signed) =>
      (match ParsePattern(digits, radix)
       case Ok(u) => Some(Pattern(u, if width.Some? then width.value else 0, signed))
       case Err => None)
    case _ => None
  }

  /** A pattern read at width `w`: signed as two's complement, unsigned as it is. */
  function InterpretPattern(bits: nat, w: nat, signed: bool): int {
    if w == 0 || w >= 64 then I64(bits)
    else
      var pat := LowBits(bits, w);
      if signed && DropBits(pat, w - 1) % 2 == 1 then pat - Pow2(w) else pat
  }

  /** Division of two literals at their shared width; no answer unless both are literals. */
  function SizedDivMod(lhs: Expr, rhs: Expr, isDiv: bool): Option<Result<int>> {
    var l :- SizedPattern(lhs);
    var r :- SizedPattern(rhs);
    var w := Max(l.width, r.width);
    var x, y := InterpretPattern(l.bits, w, l.signed), InterpretPattern(r.bits, w, r.signed);
    Some(
      if y == 0 then Err
      else if x == -TWO63 && y == -1 then Ok(0)
      else Ok(if isDiv then I64(TruncDiv(x, y)) else I64(TruncRem(x, y))))
  }

  function WideDivMod(lhs: Expr, rhs: Expr, l: int, r: int, isDiv: bool): Result<int> {
    if r == 0 then Err
    else if l == -TWO63 && r == -1 then Ok(0)
    else if IsSignedExpr(lhs) && IsSignedExpr(rhs)
    then Ok(I64(if isDiv then TruncDiv(l, r) else TruncRem(l, r)))
    else if U64(r) == 0 then Err
    else Ok(I64(if isDiv then U64(l) / U64(r) else U64(l) % U64(r)))
  }

  /** The width a shift or comparison masks with: at most 64, and 64 if unknown. */
  function MaskWidth(e: Expr): (w: nat)
    ensures w <= 64
  {
    match SizedWidth(e)
    case Some(w) => Min(w, 64)
    case None => 64
  }

  /** Both operands as the comparison sees them: signed if both are, masked patterns otherwise. */
  function Compared(lhs: Expr, rhs: Expr, l: int, r: int): (int, int) {
    if IsSignedExpr(lhs) && IsSignedExpr(rhs) then (l, r)
    else (LowBits(l, MaskWidth(lhs)), LowBits(r, MaskWidth(rhs)))
  }

  function BoolValue(b: bool): int {
    if b then 1 else 0
  }

  // ---- power ----

  function Pow(b: int, e: nat): int {
    if e == 0 then 1 else b * Pow(b, e - 1)
  }

  /** The result width of a power: the larger known operand width, between 1 and 64. */
  function PowerWidth(lhs: Expr, rhs: Expr): (w: nat)
    ensures 1 <= w <= 64
  {
    var known := match (SizedWidth(lhs), SizedWidth(rhs))
                 case (Some(a), Some(b)) => Max(a, b)
                 case (Some(a), None) => a
                 case (None, Some(b)) => b
                 case (None, None) => 64;
    Max(1, Min(known, 64))
  }

  function PowerAt(l: int, r: int, w: nat): int {
    I64(LowBits(Pow(U64(l), U64(r)), w))
  }

  // ---- shifts ----

  /** Shifts by a negative amount or by 64 and more give zero. */
  function MaskedShiftLeft(l: int, r: int, w: nat): int {
    if 0 <= r < 64 then I64(LowBits(ShiftLeft(l, r), w)) else 0
  }

  function MaskedShiftRight(l: int, r: int, w: nat): int {
    if 0 <= r < 64 then I64(LowBits(ShiftRight(l, r), w)) else 0
  }

  function ArithmeticShiftRight(l: int, r: int, w: nat): int
    requires w <= 64
  {
    var masked := LowBits(l, w);
    var signSet := w > 0 && DropBits(masked, w - 1) % 2 == 1;
    if r >= w then (if signSet then -1 else 0)
    else if r < 0 then 0
    else if signSet then I64(Bitwise(Or, DropBits(masked, r), HighOnes(if w >= 64 then 0 else w - r)))
    else I64(DropBits(masked, r))
  }

  // ---- packing ----

  function Copies<T>(x: T, n: nat): (s: seq<T>)
    ensures |s| == n && forall i :: 0 <= i < n ==> s[i] == x
  {
    if n == 0 then [] else Copies(x, n - 1) + [x]
  }

  /** Some bits and their width. */
  datatype Field = Field(bits: nat, width: nat)

  /** `n` copies of a `w`-bit pattern side by side, built copy by copy in a 64-bit word. */
  function Repeat(pat: nat, w: nat, n: nat): nat {
    if n == 0 then 0 else Bitwise(Or, U64(Raise(Repeat(pat, w, n - 1), w)), pat)
  }

  /** An element's width inside a concatenation: written or counted, or the bit length of its value. */
  function ElementWidth(e: Expr, v: int): nat {
    if e.Based? then Max(LiteralWidth(e), 1) % 0x1_0000_0000
    else match SizedWidth(e)
         case Some(w) => w % 0x1_0000_0000
         case None => Max(BitLength(U64(v)), 1)
  }

  // ---- evaluation ----

  function Eval(e: Expr, env: Params): Result<int>
    decreases e, 2
  {
    match e
    case Decimal(n) => Ok(n)
    case Based(_, _, _, _) => LiteralValue(e)
    case Text(bytes) => Ok(StringToI64(bytes))
    case Fill => Ok(0)
    case StructLit(_) => Ok(0)
    case Ident(name) => if name in env then Ok(env[name]) else if name == "1" then Ok(1) else Err
    case ScopedIdent(pkg, item) =>
      if pkg + "::" + item in env then Ok(env[pkg + "::" + item])
      else if item in env then Ok(env[item]) else Err
    case Unary(op, arg) =>
      var v :- Eval(arg, env);
      Ok(EvalUnary(op, arg, v))
    case Binary(op, lhs, rhs) =>
      if op in {Div, Mod} && SizedDivMod(lhs, rhs, op == Div).Some? then SizedDivMod(lhs, rhs, op == Div).value
      else
        var l :- Eval(lhs, env);
        var r :- Eval(rhs, env);
        EvalBinary(op, lhs, rhs, l, r)
    case Ternary(cond, thn, els) =>
      var c :- Eval(cond, env);
      if c != 0 then Eval(thn, env) else Eval(els, env)
    case Paren(inner) => Eval(inner, env)
    case Cast(inner) => Eval(inner, env)
    case Replicate(count, body) =>
      var c :- Eval(count, env);
      var v :- Eval(body, env);
      EvalReplicate(body, c, v)
    case Concat(elems) =>
      if HasText(elems) then Err else PackFields(EvalFields(elems, env), 0, 0)
    case BitSelect(base, index) => EvalBitSelect(e, env)
    case RangeSelect(base, msb, lsb) =>
      var v :- Eval(base, env);
      var m :- Eval(msb, env);
      var l :- Eval(lsb, env);
      Ok(SelectRange(v, m, l))
    case PartSelect(base, start, size) =>
      var v :- Eval(base, env);
      var b :- Eval(start, env);
      var w :- Eval(size, env);
      if w <= 0 then Err else Ok(SelectPart(v, b, w))
    case MemberAccess(obj, field) =>
      (match BaseKey(obj, env)
       case Some(key) => if key + "." + field in env then Ok(env[key + "." + field]) else Err
       case None => Err)
    case Call(f, args) =>
      if f in {"$clog2", "$bits", "$size"} then
        if args == [] then Ok(0)
        else
          var v :- Eval(args[0], env);
          Ok(if f == "$clog2" then Clog2(v) else v)
      else Err
  }

  function EvalUnary(op: UnaryOp, arg: Expr, v: int): int {
    var w := SizedWidth(arg);
    match op
    case Plus => v
    case Minus => I64(-v)
    case BitNot => if w.Some? && 0 < w.value < 64 then LowBits(NotI64(v), w.value) else NotI64(v)
    case Not => BoolValue(v == 0)
    case ReductionAnd => BoolValue(AllOnes(w, v))
    case ReductionNand => BoolValue(!AllOnes(w, v))
    case ReductionOr => BoolValue(v != 0)
    case ReductionNor => BoolValue(v == 0)
    case ReductionXor => CountOnes(U64(v)) % 2
    case ReductionXnor => 1 - CountOnes(U64(v)) % 2
  }

  predicate AllOnes(w: Option<nat>, v: int) {
    if w.Some? && 0 < w.value < 64 then LowBits(v, w.value) == Pow2(w.value) - 1 else v == -1
  }

  function EvalShift(op: BinaryOp, l: int, r: int, w: nat): int
    requires IsShift(op) && w <= 64
  {
    match op
    case Sshr => ArithmeticShiftRight(l, r, w)
    case Shr => MaskedShiftRight(l, r, w)
    case _ => MaskedShiftLeft(l, r, w)
  }

  /** Equality looks at the whole word; order looks at what `Compared` keeps. */
  predicate Holds(op: BinaryOp, lhs: Expr, rhs: Expr, l: int, r: int)
    requires IsComparison(op)
  {
    var (a, b) := Compared(lhs, rhs, l, r);
    match op
    case Lt => a < b
    case Le => a <= b
    case Gt => a > b
    case Ge => a >= b
    case _ => (l == r) == (op in {Eq, CaseEq, EqWild})
  }

  function EvalBitwise(op: BinaryOp, l: int, r: int): int {
    match op
    case BitAnd => BitwiseI64(And, l, r)
    case BitOr => BitwiseI64(Or, l, r)
    case BitXor => BitwiseI64(Xor, l, r)
    case _ => NotI64(BitwiseI64(Xor, l, r))
  }

  function EvalBinary(op: BinaryOp, lhs: Expr, rhs: Expr, l: int, r: int): Result<int> {
    if IsShift(op) then Ok(EvalShift(op, l, r, MaskWidth(lhs)))
    else if IsComparison(op) then Ok(BoolValue(Holds(op, lhs, rhs, l, r)))
    else
      match op
      case Add => Ok(I64(l + r))
      case Sub => Ok(I64(l - r))
      case Mul => Ok(I64(l * r))
      case Div => WideDivMod(lhs, rhs, l, r, true)
      case Mod => WideDivMod(lhs, rhs, l, r, false)
      case Power => Ok(PowerAt(l, r, PowerWidth(lhs, rhs)))
      case LogicalAnd => Ok(BoolValue(l != 0 && r != 0))
      case LogicalOr => Ok(BoolValue(l != 0 || r != 0))
      case _ => Ok(EvalBitwise(op, l, r))
  }

  function EvalReplicate(body: Expr, count: int, v: int): Result<int> {
    if count <= 0 then Ok(0)
    else match SizedWidth(body)
         case Some(w) =>
           if w == 0 then UnknownReplicate(count, v)
           else if count * w > 63 then Err
           else Ok(I64(Repeat(LowBits(v, w), w, count)))
         case None => UnknownReplicate(count, v)
  }

  /** Without a width only the patterns 0 and 1 can be replicated. */
  function UnknownReplicate(count: nat, v: int): Result<int> {
    if v == 0 then Ok(0) else if v == 1 then Ok(Pow2(Min(count, 63)) - 1) else Err
  }

  /** String concatenation is left to run time. */
  predicate HasText(elems: seq<Expr>) {
    exists x :: x in elems && x.Text?
  }

  /** Each element's value masked to its width. */
  function EvalFields(elems: seq<Expr>, env: Params): (fields: seq<Result<Field>>)
    ensures |fields| == |elems|
    decreases elems, 0
  {
    if elems == [] then []
    else [ElementField(elems[0], Eval(elems[0], env))] + EvalFields(elems[1..], env)
  }

  function ElementField(e: Expr, r: Result<int>): Result<Field> {
    match r
    case Ok(v) => Ok(Field(LowBits(v, ElementWidth(e, v)), ElementWidth(e, v)))
    case Err => Err
  }

  /** Packs fields from the last one up; `acc` holds `shift` bits. Stops as soon as 63 bits are in use. */
  function PackFields(fields: seq<Result<Field>>, acc: nat, shift: nat): Result<int> {
    if fields == [] then Ok(I64(acc))
    else
      var f :- fields[|fields| - 1];
      if f.width == 0 || shift + f.width > 63 then Err
      else
        var acc' := Bitwise(Or, acc, U64(Raise(f.bits, shift)));
        if shift + f.width >= 63 then Ok(I64(acc'))
        else PackFields(fields[..|fields| - 1], acc', shift + f.width)
  }

  /** An array parameter's element is looked up under its own key before any bit is selected. */
  function EvalBitSelect(e: Expr, env: Params): Result<int>
    requires e.BitSelect?
    decreases e, 1
  {
    if e.base.Ident? then
      var i :- Eval(e.index, env);
      var key := e.base.name + "[" + IntString(i) + "]";
      if key in env then Ok(env[key]) else SelectBit(e, env)
    else if e.base.BitSelect? && e.base.base.Ident? then
      var r :- Eval(e.base.index, env);
      var c :- Eval(e.index, env);
      var key := e.base.base.name + "[" + IntString(r) + "][" + IntString(c) + "]";
      if key in env then Ok(env[key]) else SelectBit(e, env)
    else SelectBit(e, env)
  }

  function SelectBit(e: Expr, env: Params): Result<int>
    requires e.BitSelect?
    decreases e, 0
  {
    var v :- Eval(e.base, env);
    var i :- Eval(e.index, env);
    Ok(if 0 <= i < 64 then ShiftRight(v, i) % 2 else 0)
  }

  function SelectRange(v: int, m: int, l: int): int {
    if !(0 <= l < 64) then 0
    else if 0 <= m - l + 1 < 64 then LowBits(ShiftRight(v, l), m - l + 1)
    else ShiftRight(v, l)
  }

  function SelectPart(v: int, b: int, w: nat): int {
    if !(0 <= b < 64) then 0
    else if w < 64 then LowBits(ShiftRight(v, b), w)
    else ShiftRight(v, b)
  }

  function BaseKey(e: Expr, env: Params): Option<string>
    decreases e, 0
  {
    match e
    case Ident(name) => Some(name)
    case BitSelect(base, index) =>
      var key :- BaseKey(base, env);
      (match Eval(index, env)
       case Ok(i) => Some(key + "[" + IntString(i) + "]")
       case Err => None)
    case _ => None
  }

  function Clog2(v: int): int {
    if v <= 1 then 0
    else
      var msb := BitLength(U64(v));
      if IsPowerOfTwo(U64(v)) then msb - 1 else msb
  }

  predicate IsPowerOfTwo(u: nat) {
    u > 0 && u == Pow2(BitLength(u) - 1)
  }
}
