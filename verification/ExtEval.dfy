/**
 The extended evaluator: constants that are scalars, arrays or structs, looked up under qualified names.
 Calls of other than built-in functions are left to a callee. Packages are taken to hold no types, so
 `$bits` of a name that is no constant finds nothing.
 */
module ExtEval {
  import opened Basics
  import opened Outcomes
  import opened Words
  import opened ConstSyntax
  import CE = ConstEval

  datatype CVal = Scalar(n: int) | Array(elems: seq<CVal>) | Struct(fields: seq<SField>)

  datatype SField = SField(name: Option<string>, val: CVal, isDefault: bool)

  /**
   The names constants are stored under: a plain name, `pkg::name`, and what is read off a struct,
   `pkg::name.field` and `pkg::name[i].field`.
   */
  datatype Key =
    | Plain(name: string)
    | Qual(pkg: string, name: string)
    | FieldOf(pkg: string, name: string, field: string)
    | ElemField(pkg: string, name: string, index: nat, field: string)

  /** The three tables of known constants. A name is looked for among scalars first, then arrays, then structs. */
  datatype Env = Env(scalars: map<Key, int>, arrays: map<Key, seq<int>>, structs: map<Key, seq<SField>>) {
    function Lookup(k: Key): Option<CVal> {
      if k in scalars then Some(Scalar(scalars[k]))
      else if k in arrays then Some(Array(Scalars(arrays[k])))
      else if k in structs then Some(Struct(structs[k]))
      else None
    }
  }

  const EMPTY := Env(map[], map[], map[])

  function Scalars(a: seq<int>): (s: seq<CVal>)
    ensures |s| == |a| && forall i :: 0 <= i < |a| ==> s[i] == Scalar(a[i])
  {
    if a == [] then [] else [Scalar(a[0])] + Scalars(a[1..])
  }

  /** The scalars of an array, inner arrays opened up; a struct has no value of its own and counts as 0. */
  function Flatten(a: seq<CVal>): seq<int> {
    if a == [] then []
    else (match a[0]
          case Scalar(n) => [n]
          case Array(inner) => Flatten(inner)
          case Struct(_) => [0]) + Flatten(a[1..])
  }

  // ---- operations on values ----

  function AsScalar(v: CVal): Result<int> {
    if v.Scalar? then Ok(v.n) else Err
  }

  /** Underscores are dropped before a literal is read. */
  function Strip(digits: string): string {
    if digits == "" then "" else (if digits[0] == '_' then "" else [digits[0]]) + Strip(digits[1..])
  }

  function ParseBase(digits: string, radix: nat): Result<CVal> {
    var u :- ParsePattern(Strip(digits), radix);
    Ok(Scalar(I64(u)))
  }

  /** Order is signed, and every right shift is arithmetic; dividing the least integer by -1 does not return. */
  function ApplyBin(op: BinaryOp, l: int, r: int): Result<int> {
    match op
    case Add => Ok(I64(l + r))
    case Sub => Ok(I64(l - r))
    case Mul => Ok(I64(l * r))
    case Div => if r == 0 || (l == -TWO63 && r == -1) then Err else Ok(TruncDiv(l, r))
    case Mod => if r == 0 || (l == -TWO63 && r == -1) then Err else Ok(TruncRem(l, r))
    case Power => Ok(I64(CE.Pow(U64(l), U64(r))))
    case Eq => Ok(CE.BoolValue(l == r))
    case Neq => Ok(CE.BoolValue(l != r))
    case Lt => Ok(CE.BoolValue(l < r))
    case Le => Ok(CE.BoolValue(l <= r))
    case Gt => Ok(CE.BoolValue(l > r))
    case Ge => Ok(CE.BoolValue(l >= r))
    case LogicalAnd => Ok(CE.BoolValue(l != 0 && r != 0))
    case LogicalOr => Ok(CE.BoolValue(l != 0 || r != 0))
    case BitAnd => Ok(BitwiseI64(And, l, r))
    case BitOr => Ok(BitwiseI64(Or, l, r))
    case BitXor => Ok(BitwiseI64(Xor, l, r))
    case BitXnor => Ok(NotI64(BitwiseI64(Xor, l, r)))
    case Shl => Ok(ShiftLeft(l, r))
    case Sshl => Ok(ShiftLeft(l, r))
    case Shr => Ok(ShiftRight(l, r))
    case Sshr => Ok(ShiftRight(l, r))
    case _ => Err
  }

  function ApplyUnary(op: UnaryOp, arg: Expr, v: int): int {
    match op
    case Minus => I64(-v)
    case Plus => v
    case BitNot =>
      (match SizedWidth(arg)
       case Some(w) => if 0 < w < 64 then I64(LowBits(NotI64(v), Max(w, 32))) else NotI64(v)
       case None => NotI64(v))
    case Not => CE.BoolValue(v == 0)
    case ReductionAnd => CE.BoolValue(v == -1)
    case ReductionNand => CE.BoolValue(v != -1)
    case ReductionOr => CE.BoolValue(v != 0)
    case ReductionNor => CE.BoolValue(v == 0)
    case ReductionXor => CountOnes(U64(v)) % 2
    case ReductionXnor => CountOnes(U64(v)) % 2
  }

  function UnaryValue(op: UnaryOp, arg: Expr, v: CVal): Result<CVal> {
    var n :- AsScalar(v);
    Ok(Scalar(ApplyUnary(op, arg, n)))
  }

  function BinaryValue(op: BinaryOp, l: CVal, r: CVal): Result<CVal> {
    var a :- AsScalar(l);
    var b :- AsScalar(r);
    var n :- ApplyBin(op, a, b);
    Ok(Scalar(n))
  }

  function BitSelectValue(base: CVal, index: CVal): Result<CVal> {
    var i :- AsScalar(index);
    match base
    case Scalar(v) => Ok(Scalar(if 0 <= i < 64 then ShiftRight(v, i) % 2 else 0))
    case Array(a) => if 0 <= i < |a| then Ok(a[i]) else Err
    case Struct(_) => Err
  }

  function RangeSelectValue(base: CVal, msb: CVal, lsb: CVal): Result<CVal> {
    var m :- AsScalar(msb);
    var l :- AsScalar(lsb);
    match base
    case Scalar(v) =>
      Ok(Scalar(if 0 <= m - l + 1 < 64 then LowBits(ShiftRight(v, l), m - l + 1) else ShiftRight(v, l)))
    case Array(a) => if 0 <= l <= m < |a| then Ok(Array(a[l..m + 1])) else Err
    case Struct(_) => Err
  }

  function PartSelectValue(base: CVal, start: CVal, size: CVal): Result<CVal> {
    var b :- AsScalar(start);
    var w :- AsScalar(size);
    if w <= 0 then Err
    else
      match base
      case Scalar(v) => Ok(Scalar(CE.SelectPart(v, b, w)))
      case Array(a) => if 0 <= b && b + w <= |a| then Ok(Array(a[b..b + w])) else Err
      case Struct(_) => Err
  }

  function ReplicateValue(count: CVal, v: CVal): Result<CVal> {
    var c :- AsScalar(count);
    if 0 <= c <= 1_000_000 then Ok(Array(CE.Copies(v, c))) else Err
  }

  function NamedField(fields: seq<SField>, field: string): Option<CVal> {
    if fields == [] then None
    else if fields[0].name == Some(field) then Some(fields[0].val)
    else NamedField(fields[1..], field)
  }

  function DefaultField(fields: seq<SField>): Option<CVal> {
    if fields == [] then None
    else if fields[0].isDefault then Some(fields[0].val)
    else DefaultField(fields[1..])
  }

  /** A field by its name, or else the struct's default. */
  function MemberValue(v: CVal, field: string): Result<CVal> {
    if !v.Struct? then Err
    else
      match NamedField(v.fields, field)
      case Some(x) => Ok(x)
      case None => (match DefaultField(v.fields) case Some(x) => Ok(x) case None => Err)
  }

  function UnaryCall(f: string, v: CVal): Result<CVal> {
    if f in {"$bits", "$size", "$left", "$right", "$low", "$high"} then Ok(v)
    else
      var n :- AsScalar(v);
      Ok(Scalar(if f == "vbits" && n == 1 then 1 else CE.Clog2(n)))
  }

  function CeilDiv(a: CVal, b: CVal): Result<CVal> {
    var x :- AsScalar(a);
    var y :- AsScalar(b);
    if y == 0 || (x == -TWO63 && y == -1) then Err
    else Ok(Scalar(if TruncRem(x, y) != 0 then TruncDiv(x, y) + 1 else TruncDiv(x, y)))
  }

  predicate IsUnaryCall(f: string) {
    f in {"$clog2", "vbits", "$bits", "$size", "$left", "$right", "$low", "$high"}
  }

  // ---- evaluation ----

  /** How a function that is not built in is called: its name, its arguments unevaluated, and the caller's tables. */
  type Callee = (string, seq<Expr>, Env, Option<string>) -> Result<CVal>

  /** No such function is found. */
  function NoFunctions(): Callee {
    (f, args, env, cur) => Err
  }

  function Find(k: Key, env: Env): Result<CVal> {
    match env.Lookup(k)
    case Some(v) => Ok(v)
    case None => Err
  }

  /** A plain name is looked for in the current package first. */
  function LookupIdent(name: string, env: Env, cur: Option<string>): Result<CVal> {
    if cur.Some? && env.Lookup(Qual(cur.value, name)).Some? then Find(Qual(cur.value, name), env)
    else if env.Lookup(Plain(name)).Some? then Find(Plain(name), env)
    else if name == "1" then Ok(Scalar(1))
    else Err
  }

  function Eval(e: Expr, env: Env, cur: Option<string>, call: Callee): Result<CVal>
    decreases e, 1
  {
    match e
    case Decimal(n) => Ok(Scalar(n))
    case Based(digits, radix, _, _) => ParseBase(digits, radix)
    case Text(bytes) => Ok(Scalar(StringToI64(bytes)))
    case Fill => Ok(Scalar(0))
    case Ident(name) => LookupIdent(name, env, cur)
    case ScopedIdent(pkg, item) => Find(Qual(pkg, item), env)
    case Paren(inner) => Eval(inner, env, cur, call)
    case Cast(inner) => Eval(inner, env, cur, call)
    case Unary(op, arg) =>
      var v :- Eval(arg, env, cur, call);
      UnaryValue(op, arg, v)
    case Binary(op, lhs, rhs) =>
      var l :- Eval(lhs, env, cur, call);
      var r :- Eval(rhs, env, cur, call);
      BinaryValue(op, l, r)
    case Ternary(cond, thn, els) =>
      var v :- Eval(cond, env, cur, call);
      var c :- AsScalar(v);
      if c != 0 then Eval(thn, env, cur, call) else Eval(els, env, cur, call)
    case BitSelect(base, index) =>
      var i :- Eval(index, env, cur, call);
      var v :- Eval(base, env, cur, call);
      BitSelectValue(v, i)
    case RangeSelect(base, msb, lsb) =>
      var m :- Eval(msb, env, cur, call);
      var l :- Eval(lsb, env, cur, call);
      var v :- Eval(base, env, cur, call);
      RangeSelectValue(v, m, l)
    case PartSelect(base, start, size) =>
      var b :- Eval(start, env, cur, call);
      var w :- Eval(size, env, cur, call);
      var v :- Eval(base, env, cur, call);
      PartSelectValue(v, b, w)
    case Concat(elems) =>
      var vs :- EvalAll(elems, env, cur, call);
      Ok(Array(vs))
    case Replicate(count, body) =>
      var c :- Eval(count, env, cur, call);
      var v :- Eval(body, env, cur, call);
      ReplicateValue(c, v)
    case Call(f, args) =>
      if IsUnaryCall(f) then
        if args == [] then Err
        else
          var v :- Eval(args[0], env, cur, call);
          UnaryCall(f, v)
      else if f == "ceil_div" then
        if |args| < 2 then Err
        else
          var a :- Eval(args[0], env, cur, call);
          var b :- Eval(args[1], env, cur, call);
          CeilDiv(a, b)
      else call(f, args, env, cur)
    case StructLit(members) =>
      var fields :- EvalMembers(members, env, cur, call);
      Ok(Struct(fields))
    case MemberAccess(obj, field) =>
      var v :- Eval(obj, env, cur, call);
      MemberValue(v, field)
  }

  function EvalAll(es: seq<Expr>, env: Env, cur: Option<string>, call: Callee): Result<seq<CVal>>
    decreases es, 0
  {
    if es == [] then Ok([])
    else
      var v :- Eval(es[0], env, cur, call);
      var rest :- EvalAll(es[1..], env, cur, call);
      Ok([v] + rest)
  }

  function EvalMembers(ms: seq<Member>, env: Env, cur: Option<string>, call: Callee): Result<seq<SField>>
    decreases ms, 0
  {
    if ms == [] then Ok([])
    else
      var f :- EvalMember(ms[0], env, cur, call);
      var rest :- EvalMembers(ms[1..], env, cur, call);
      Ok([f] + rest)
  }

  function EvalMember(m: Member, env: Env, cur: Option<string>, call: Callee): Result<SField>
    decreases m, 0
  {
    var v :- Eval(m.val, env, cur, call);
    Ok(SField(if m.kind.Named? then Some(m.kind.name) else None, v, m.kind.Default?))
  }

  // ---- what keeps a value ----

  /** No call but of built-in functions. */
  predicate CallFree(e: Expr)
    decreases e, 1
  {
    match e
    case Paren(inner) => CallFree(inner)
    case Cast(inner) => CallFree(inner)
    case Unary(_, arg) => CallFree(arg)
    case Binary(_, lhs, rhs) => CallFree(lhs) && CallFree(rhs)
    case Ternary(cond, thn, els) => CallFree(cond) && CallFree(thn) && CallFree(els)
    case BitSelect(base, index) => CallFree(base) && CallFree(index)
    case RangeSelect(base, msb, lsb) => CallFree(base) && CallFree(msb) && CallFree(lsb)
    case PartSelect(base, start, size) => CallFree(base) && CallFree(start) && CallFree(size)
    case Concat(elems) => AllCallFree(elems)
    case Replicate(count, body) => CallFree(count) && CallFree(body)
    case Call(f, args) => AllCallFree(args) && (IsUnaryCall(f) || f == "ceil_div")
    case StructLit(members) => MembersCallFree(members)
    case MemberAccess(obj, _) => CallFree(obj)
    case _ => true
  }

  predicate AllCallFree(es: seq<Expr>)
    decreases es, 0
  {
    es == [] || (CallFree(es[0]) && AllCallFree(es[1..]))
  }

  predicate MembersCallFree(ms: seq<Member>)
    decreases ms, 0
  {
    ms == [] || (MemberCallFree(ms[0]) && MembersCallFree(ms[1..]))
  }

  predicate MemberCallFree(m: Member)
    decreases m, 0
  {
    CallFree(m.val)
  }

  /** Names that have a value for `a` have it for `b`. */
  ghost predicate NamesKept(a: Env, b: Env, cur: Option<string>) {
    && (forall name :: LookupIdent(name, a, cur).Ok? ==> LookupIdent(name, b, cur) == LookupIdent(name, a, cur))
    && (forall k :: Find(k, a).Ok? ==> Find(k, b) == Find(k, a))
  }

  /** Calls that have a value for `a` have it for `b`. */
  ghost predicate CallsKept(a: Env, b: Env, cur: Option<string>, ca: Callee, cb: Callee) {
    forall f, args :: ca(f, args, a, cur).Ok? ==> cb(f, args, b, cur) == ca(f, args, a, cur)
  }

  /** Where names and calls keep their values, so do expressions; without calls, names alone decide. */
  lemma {:induction false} EvalKeeps(e: Expr, a: Env, b: Env, cur: Option<string>, ca: Callee, cb: Callee)
    requires NamesKept(a, b, cur) && (CallFree(e) || CallsKept(a, b, cur, ca, cb)) && Eval(e, a, cur, ca).Ok?
    ensures Eval(e, b, cur, cb) == Eval(e, a, cur, ca)
    decreases e, 1
  {
    match e
    case Decimal(_) =>
    case Based(_, _, _, _) =>
    case Text(_) =>
    case Fill =>
    case Ident(_) =>
    case ScopedIdent(_, _) =>
    case Paren(inner) => EvalKeeps(inner, a, b, cur, ca, cb);
    case Cast(inner) => EvalKeeps(inner, a, b, cur, ca, cb);
    case Unary(_, _) => OperatorKeeps(e, a, b, cur, ca, cb);
    case Binary(_, _, _) => OperatorKeeps(e, a, b, cur, ca, cb);
    case Ternary(_, _, _) => OperatorKeeps(e, a, b, cur, ca, cb);
    case Replicate(_, _) => OperatorKeeps(e, a, b, cur, ca, cb);
    case MemberAccess(_, _) => OperatorKeeps(e, a, b, cur, ca, cb);
    case BitSelect(_, _) => SelectKeeps(e, a, b, cur, ca, cb);
    case RangeSelect(_, _, _) => SelectKeeps(e, a, b, cur, ca, cb);
    case PartSelect(_, _, _) => SelectKeeps(e, a, b, cur, ca, cb);
    case Concat(elems) => AllKeep(elems, a, b, cur, ca, cb);
    case Call(_, args) => CallKeeps(e, a, b, cur, ca, cb);
    case StructLit(members) => MembersKeep(members, a, b, cur, ca, cb);
  }

  lemma {:induction false} OperatorKeeps(e: Expr, a: Env, b: Env, cur: Option<string>, ca: Callee, cb: Callee)
    requires e.Unary? || e.Binary? || e.Ternary? || e.Replicate? || e.MemberAccess?
    requires NamesKept(a, b, cur) && (CallFree(e) || CallsKept(a, b, cur, ca, cb)) && Eval(e, a, cur, ca).Ok?
    ensures Eval(e, b, cur, cb) == Eval(e, a, cur, ca)
    decreases e, 0
  {
    hide NamesKept, CallsKept, UnaryValue, BinaryValue, ReplicateValue, MemberValue;
    match e
    case Unary(_, arg) => EvalKeeps(arg, a, b, cur, ca, cb);
    case Binary(_, lhs, rhs) =>
      EvalKeeps(lhs, a, b, cur, ca, cb);
      EvalKeeps(rhs, a, b, cur, ca, cb);
    case Ternary(cond, thn, els) =>
      EvalKeeps(cond, a, b, cur, ca, cb);
      if Eval(cond, a, cur, ca) != Ok(Scalar(0)) {
        EvalKeeps(thn, a, b, cur, ca, cb);
      } else {
        EvalKeeps(els, a, b, cur, ca, cb);
      }
    case Replicate(count, body) =>
      EvalKeeps(count, a, b, cur, ca, cb);
      EvalKeeps(body, a, b, cur, ca, cb);
    case MemberAccess(obj, _) => EvalKeeps(obj, a, b, cur, ca, cb);
  }

  lemma {:induction false} SelectKeeps(e: Expr, a: Env, b: Env, cur: Option<string>, ca: Callee, cb: Callee)
    requires e.BitSelect? || e.RangeSelect? || e.PartSelect?
    requires NamesKept(a, b, cur) && (CallFree(e) || CallsKept(a, b, cur, ca, cb)) && Eval(e, a, cur, ca).Ok?
    ensures Eval(e, b, cur, cb) == Eval(e, a, cur, ca)
    decreases e, 0
  {
    hide NamesKept, CallsKept, BitSelectValue, RangeSelectValue, PartSelectValue;
    EvalKeeps(e.base, a, b, cur, ca, cb);
    match e {
      case BitSelect(_, index) => EvalKeeps(index, a, b, cur, ca, cb);
      case RangeSelect(_, msb, lsb) =>
        EvalKeeps(msb, a, b, cur, ca, cb);
        EvalKeeps(lsb, a, b, cur, ca, cb);
      case PartSelect(_, start, size) =>
        EvalKeeps(start, a, b, cur, ca, cb);
        EvalKeeps(size, a, b, cur, ca, cb);
    }
  }

  lemma SecondCallFree(es: seq<Expr>)
    requires |es| >= 2 && AllCallFree(es)
    ensures CallFree(es[1])
  {
    var rest := es[1..];
    assert AllCallFree(rest);
    hide CallFree;
    assert rest != [] && rest[0] == es[1] && CallFree(rest[0]);
  }

  lemma {:induction false} CallKeeps(e: Expr, a: Env, b: Env, cur: Option<string>, ca: Callee, cb: Callee)
    requires e.Call?
    requires NamesKept(a, b, cur) && (CallFree(e) || CallsKept(a, b, cur, ca, cb)) && Eval(e, a, cur, ca).Ok?
    ensures Eval(e, b, cur, cb) == Eval(e, a, cur, ca)
    decreases e, 0
  {
    hide UnaryCall, CeilDiv;
    var unary := IsUnaryCall(e.func);
    var ceil := e.func == "ceil_div";
    if unary || ceil {
      EvalKeeps(e.args[0], a, b, cur, ca, cb);
    }
    if ceil {
      if CallFree(e) {
        SecondCallFree(e.args);
      }
      EvalKeeps(e.args[1], a, b, cur, ca, cb);
    }
  }

  lemma {:induction false} AllKeep(es: seq<Expr>, a: Env, b: Env, cur: Option<string>, ca: Callee, cb: Callee)
    requires NamesKept(a, b, cur) && (AllCallFree(es) || CallsKept(a, b, cur, ca, cb)) && EvalAll(es, a, cur, ca).Ok?
    ensures EvalAll(es, b, cur, cb) == EvalAll(es, a, cur, ca)
    decreases es, 0
  {
    if es != [] {
      EvalKeeps(es[0], a, b, cur, ca, cb);
      AllKeep(es[1..], a, b, cur, ca, cb);
    }
  }

  lemma {:induction false} MembersKeep(ms: seq<Member>, a: Env, b: Env, cur: Option<string>, ca: Callee, cb: Callee)
    requires NamesKept(a, b, cur) && (MembersCallFree(ms) || CallsKept(a, b, cur, ca, cb))
    requires EvalMembers(ms, a, cur, ca).Ok?
    ensures EvalMembers(ms, b, cur, cb) == EvalMembers(ms, a, cur, ca)
    decreases ms, 0
  {
    if ms != [] {
      MemberKeeps(ms[0], a, b, cur, ca, cb);
      MembersKeep(ms[1..], a, b, cur, ca, cb);
    }
  }

  lemma {:induction false} MemberKeeps(m: Member, a: Env, b: Env, cur: Option<string>, ca: Callee, cb: Callee)
    requires NamesKept(a, b, cur) && (MemberCallFree(m) || CallsKept(a, b, cur, ca, cb))
    requires EvalMember(m, a, cur, ca).Ok?
    ensures EvalMember(m, b, cur, cb) == EvalMember(m, a, cur, ca)
    decreases m, 0
  {
    EvalKeeps(m.val, a, b, cur, ca, cb);
  }

  // ---- knowing more never changes a value ----

  /** `b` knows everything `a` knows. */
  ghost predicate Extends(a: Env, b: Env) {
    forall k :: a.Lookup(k).Some? ==> b.Lookup(k) == a.Lookup(k)
  }

  /** No constant is stored under a plain name, nor under a number. */
  ghost predicate Qualified(env: Env) {
    forall k :: env.Lookup(k).Some? ==> !k.Plain? && k.name != "1"
  }

  /** Calls, too, keep their values. */
  ghost predicate SteadyCallee(call: Callee) {
    forall f, args, a, b, cur {:trigger call(f, args, a, cur), call(f, args, b, cur)} ::
      Extends(a, b) && Qualified(b) && call(f, args, a, cur).Ok? ==> call(f, args, b, cur) == call(f, args, a, cur)
  }

  lemma IdentMonotone(name: string, a: Env, b: Env, cur: Option<string>)
    requires Extends(a, b) && Qualified(b) && LookupIdent(name, a, cur).Ok?
    ensures LookupIdent(name, b, cur) == LookupIdent(name, a, cur)
  {
    assert b.Lookup(Plain(name)).None? && a.Lookup(Plain(name)).None?;
    if cur.Some? {
      assert a.Lookup(Qual(cur.value, name)).Some? ==> b.Lookup(Qual(cur.value, name)) == a.Lookup(Qual(cur.value, name));
    }
  }

  /** An expression that has a value keeps it when more constants become known. */
  lemma EvalMonotone(e: Expr, a: Env, b: Env, cur: Option<string>, call: Callee)
    requires SteadyCallee(call) && Extends(a, b) && Qualified(b) && Eval(e, a, cur, call).Ok?
    ensures Eval(e, b, cur, call) == Eval(e, a, cur, call)
  {
    forall name | LookupIdent(name, a, cur).Ok?
      ensures LookupIdent(name, b, cur) == LookupIdent(name, a, cur)
    {
      IdentMonotone(name, a, b, cur);
    }
    EvalKeeps(e, a, b, cur, call, call);
  }
}
