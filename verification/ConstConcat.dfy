/**
 The algebra of concatenation and replication up to 63 bits, and the soundness of self-determined widths.
 */
module ConstConcat {
  import opened Basics
  import opened Outcomes
  import opened Words
  import opened ConstSyntax
  import opened ConstEval

  // ---- packing fields ----

  predicate Fits(fs: seq<Field>) {
    forall i :: 0 <= i < |fs| ==> fs[i].bits < Pow2(fs[i].width)
  }

  function Width(fs: seq<Field>): nat {
    if fs == [] then 0 else fs[0].width + Width(fs[1..])
  }

  /** Fields side by side, the first one highest. */
  function Pack(fs: seq<Field>): nat {
    if fs == [] then 0 else Raise(fs[0].bits, Width(fs[1..])) + Pack(fs[1..])
  }

  lemma {:induction false} PackAppend(a: seq<Field>, b: seq<Field>)
    ensures Width(a + b) == Width(a) + Width(b)
    ensures Pack(a + b) == Raise(Pack(a), Width(b)) + Pack(b)
  {
    if a == [] {
      assert a + b == b;
      RaiseZero(Width(b));
    } else {
      PackAppend(a[1..], b);
      assert (a + b)[1..] == a[1..] + b;
      RaiseTwice(a[0].bits, Width(a[1..]), Width(b));
      RaiseSum(Raise(a[0].bits, Width(a[1..])), Pack(a[1..]), Width(b));
    }
  }

  lemma {:induction false} PackBound(fs: seq<Field>)
    requires Fits(fs)
    ensures Pack(fs) < Pow2(Width(fs))
  {
    if fs != [] {
      PackBound(fs[1..]);
      RaiseBound(fs[0].bits, fs[0].width, Pack(fs[1..]), Width(fs[1..]));
    }
  }

  lemma PackOne(f: Field)
    ensures Pack([f]) == f.bits && Width([f]) == f.width
  {
    assert [f][1..] == [];
  }

  /** A packed group is one field of the group's width. */
  lemma PackGroup(a: seq<Field>, b: seq<Field>, c: seq<Field>)
    ensures Pack(a + [Field(Pack(b), Width(b))] + c) == Pack(a + b + c)
    ensures Width(a + [Field(Pack(b), Width(b))] + c) == Width(a + b + c)
  {
    var g := [Field(Pack(b), Width(b))];
    PackOne(g[0]);
    PackAppend(a, g);
    PackAppend(a + g, c);
    PackAppend(a, b);
    PackAppend(a + b, c);
  }

  lemma {:induction false} CopiesAdd<T>(x: T, m: nat, n: nat)
    ensures Copies(x, m + n) == Copies(x, m) + Copies(x, n)
  {
  }

  lemma {:induction false} CopiesWidth(f: Field, n: nat)
    ensures Width(Copies(f, n)) == n * f.width
  {
    if n > 0 {
      CopiesWidth(f, n - 1);
      PackAppend(Copies(f, n - 1), [f]);
      PackOne(f);
      assert n * f.width == (n - 1) * f.width + f.width;
    }
  }

  /** Copies of a packed group of copies. */
  lemma {:induction false} PackNestedCopies(f: Field, g: Field, k: nat, n: nat)
    requires g == Field(Pack(Copies(f, k)), Width(Copies(f, k)))
    ensures Pack(Copies(g, n)) == Pack(Copies(f, n * k))
  {
    if n > 0 {
      assert n * k == (n - 1) * k + k;
      PackNestedCopies(f, g, k, n - 1);
      PackAppend(Copies(g, n - 1), [g]);
      PackOne(g);
      CopiesAdd(f, (n - 1) * k, k);
      PackAppend(Copies(f, (n - 1) * k), Copies(f, k));
    } else {
      assert n * k == 0;
    }
  }

  /** One packing step of the evaluator adds the field above the bits in place. */
  lemma PackStep(f: Field, acc: nat, shift: nat)
    requires f.bits < Pow2(f.width) && acc < Pow2(shift) && shift + f.width <= 63
    ensures Bitwise(Or, acc, U64(Raise(f.bits, shift))) == Raise(f.bits, shift) + acc < Pow2(shift + f.width)
  {
    RaiseBound(f.bits, f.width, acc, shift);
    WordFits(Raise(f.bits, shift), shift + f.width);
    OrIsAdd(acc, f.bits, shift);
  }

  lemma WordFits(x: nat, w: nat)
    requires w <= 63 && x < Pow2(w)
    ensures U64(x) == x == I64(x)
  {
    FitsInWord(w);
    SmallMod(x, TWO64);
  }

  /** One turn of the copying loop adds a copy below the ones in place. */
  lemma RepeatStep(f: Field, acc: nat, k: nat)
    requires f.bits < Pow2(f.width) && acc < Pow2(k) && k + f.width <= 63
    ensures Bitwise(Or, U64(Raise(acc, f.width)), f.bits) == Raise(acc, f.width) + f.bits < Pow2(k + f.width)
  {
    RaiseBound(acc, k, f.bits, f.width);
    WordFits(Raise(acc, f.width), k + f.width);
    OrIsAdd(f.bits, acc, f.width);
  }

  lemma {:induction false} RepeatPacks(f: Field, n: nat)
    requires f.bits < Pow2(f.width) && Width(Copies(f, n)) <= 63
    ensures Repeat(f.bits, f.width, n) == Pack(Copies(f, n)) < Pow2(Width(Copies(f, n)))
  {
    if n > 0 {
      PackAppend(Copies(f, n - 1), [f]);
      PackOne(f);
      RepeatPacks(f, n - 1);
      RepeatStep(f, Repeat(f.bits, f.width, n - 1), Width(Copies(f, n - 1)));
    }
  }

  // ---- the packing loop on fields ----

  function Sum(ws: seq<nat>): nat {
    if ws == [] then 0 else ws[0] + Sum(ws[1..])
  }

  lemma {:induction false} SumAppend(a: seq<nat>, b: seq<nat>)
    ensures Sum(a + b) == Sum(a) + Sum(b)
  {
    if a == [] {
      assert a + b == b;
    } else {
      SumAppend(a[1..], b);
      assert (a + b)[1..] == a[1..] + b;
    }
  }

  lemma SumLast(ws: seq<nat>)
    requires ws != []
    ensures Sum(ws) == Sum(ws[..|ws| - 1]) + ws[|ws| - 1]
  {
    var n := |ws| - 1;
    assert ws == ws[..n] + [ws[n]];
    SumAppend(ws[..n], [ws[n]]);
    assert [ws[n]][1..] == [];
  }

  lemma {:induction false} SumPositive(ws: seq<nat>)
    requires ws != [] && forall i :: 0 <= i < |ws| ==> ws[i] >= 1
    ensures Sum(ws) >= 1
  {
  }

  /** The fields that did not fail have these widths, and fit them. */
  predicate HaveWidths(rs: seq<Result<Field>>, ws: seq<nat>) {
    |rs| == |ws| && forall i :: 0 <= i < |rs| && rs[i].Ok? ==>
                      rs[i].value.width == ws[i] && (ws[i] <= 63 ==> rs[i].value.bits < Pow2(ws[i]))
  }

  predicate Positive(ws: seq<nat>) {
    forall i :: 0 <= i < |ws| ==> ws[i] >= 1
  }

  /** All the fields, or an error if any failed. */
  function Collect(rs: seq<Result<Field>>): Result<seq<Field>> {
    if rs == [] then Ok([])
    else
      var f :- rs[0];
      var rest :- Collect(rs[1..]);
      Ok([f] + rest)
  }

  function Joined(a: Result<seq<Field>>, b: Result<seq<Field>>): Result<seq<Field>> {
    if a.Ok? && b.Ok? then Ok(a.value + b.value) else Err
  }

  lemma {:induction false} CollectAppend(a: seq<Result<Field>>, b: seq<Result<Field>>)
    ensures Collect(a + b) == Joined(Collect(a), Collect(b))
  {
    if a == [] {
      assert a + b == b;
      if Collect(b).Ok? {
        assert [] + Collect(b).value == Collect(b).value;
      }
    } else {
      CollectAppend(a[1..], b);
      assert (a + b)[0] == a[0] && (a + b)[1..] == a[1..] + b;
      if Collect(a).Ok? && Collect(b).Ok? {
        var f, x, y := [a[0].value], Collect(a[1..]).value, Collect(b).value;
        assert f + (x + y) == (f + x) + y;
      }
    }
  }

  lemma CollectOne(r: Result<Field>)
    ensures Collect([r]) == if r.Ok? then Ok([r.value]) else Err
  {
    assert [r][1..] == [] && Collect([r][1..]) == Ok([]);
    assert r.Ok? ==> [r.value] + [] == [r.value];
  }

  lemma {:induction false} CollectFits(rs: seq<Result<Field>>, ws: seq<nat>)
    requires HaveWidths(rs, ws) && Sum(ws) <= 63 && Collect(rs).Ok?
    ensures Fits(Collect(rs).value) && Width(Collect(rs).value) == Sum(ws)
  {
    if rs != [] {
      CollectFits(rs[1..], ws[1..]);
      var fs := Collect(rs).value;
      assert fs[0] == rs[0].value && fs[1..] == Collect(rs[1..]).value;
    }
  }

  /** One turn of the packing loop. */
  lemma PackTurn(rs: seq<Result<Field>>, acc: nat, shift: nat)
    requires rs != [] && rs[|rs| - 1].Ok? && acc < Pow2(shift)
    requires var f := rs[|rs| - 1].value; f.bits < Pow2(f.width) && 1 <= f.width <= 63 - shift
    ensures var f := rs[|rs| - 1].value;
            var acc' := Raise(f.bits, shift) + acc;
            && acc' < Pow2(shift + f.width)
            && PackFields(rs, acc, shift) ==
               if shift + f.width >= 63 then Ok(acc') else PackFields(rs[..|rs| - 1], acc', shift + f.width)
  {
    var f := rs[|rs| - 1].value;
    PackStep(f, acc, shift);
    WordFits(Raise(f.bits, shift) + acc, shift + f.width);
  }

  lemma CollectLast(rs: seq<Result<Field>>)
    requires rs != []
    ensures var (init, last) := (Collect(rs[..|rs| - 1]), rs[|rs| - 1]);
            Collect(rs) == if init.Ok? && last.Ok? then Ok(init.value + [last.value]) else Err
  {
    var n := |rs| - 1;
    assert rs == rs[..n] + [rs[n]];
    CollectAppend(rs[..n], [rs[n]]);
    CollectOne(rs[n]);
  }

  lemma InitWidths(rs: seq<Result<Field>>, ws: seq<nat>)
    requires HaveWidths(rs, ws) && Positive(ws) && rs != []
    ensures var n := |rs| - 1; HaveWidths(rs[..n], ws[..n]) && Positive(ws[..n]) && Sum(ws) == Sum(ws[..n]) + ws[n]
    ensures Sum(ws[..|rs| - 1]) == 0 ==> |rs| == 1
  {
    SumLast(ws);
    if |rs| > 1 {
      SumPositive(ws[..|rs| - 1]);
    }
  }

  /** One turn, whether or not it leaves the loop. */
  lemma Turned(rs: seq<Result<Field>>, ws: seq<nat>, acc: nat, shift: nat)
    requires HaveWidths(rs, ws) && Positive(ws) && shift + Sum(ws) <= 63 && acc < Pow2(shift)
    requires rs != [] && rs[|rs| - 1].Ok?
    ensures var (f, init) := (rs[|rs| - 1].value, rs[..|rs| - 1]);
            && shift + f.width + Sum(ws[..|rs| - 1]) <= 63
            && Raise(f.bits, shift) + acc < Pow2(shift + f.width)
            && PackFields(rs, acc, shift) == PackFields(init, Raise(f.bits, shift) + acc, shift + f.width)
  {
    var n := |rs| - 1;
    var f := rs[n].value;
    InitWidths(rs, ws);
    PackTurn(rs, acc, shift);
    if shift + f.width >= 63 {
      LastTurn(rs[..n], Raise(f.bits, shift) + acc, shift + f.width);
    }
  }

  lemma FailedTurn(rs: seq<Result<Field>>, acc: nat, shift: nat)
    requires rs != [] && rs[|rs| - 1].Err?
    ensures PackFields(rs, acc, shift) == Err
  {
  }

  /** What the loop returns: all the fields packed, or an error if any failed. */
  lemma {:induction false} PackFieldsIs(rs: seq<Result<Field>>, ws: seq<nat>, acc: nat, shift: nat)
    requires HaveWidths(rs, ws) && Positive(ws) && shift + Sum(ws) <= 63 && acc < Pow2(shift)
    ensures PackFields(rs, acc, shift) ==
            if Collect(rs).Ok? then Ok(Raise(Pack(Collect(rs).value), shift) + acc) else Err
    decreases |rs|
  {
    assert |rs| == |ws|;
    hide PackFields, Collect, Raise, Pack, Pow2, Sum, HaveWidths, Positive;
    if rs == [] {
      NothingToPack(rs, acc, shift);
    } else {
      var n := |rs| - 1;
      CollectLast(rs);
      if rs[n].Ok? {
        var f := rs[n].value;
        InitWidths(rs, ws);
        Turned(rs, ws, acc, shift);
        PackFieldsIs(rs[..n], ws[..n], Raise(f.bits, shift) + acc, shift + f.width);
        AfterTurn(Collect(rs[..n]), f, shift, acc);
      } else {
        FailedTurn(rs, acc, shift);
      }
    }
  }

  lemma LastTurn(rs: seq<Result<Field>>, acc: nat, shift: nat)
    requires rs == [] && acc < Pow2(shift) && shift <= 63
    ensures PackFields(rs, acc, shift) == Ok(acc)
  {
    WordFits(acc, shift);
  }

  lemma NothingToPack(rs: seq<Result<Field>>, acc: nat, shift: nat)
    requires rs == [] && acc < Pow2(shift) && shift <= 63
    ensures Collect(rs).Ok? && PackFields(rs, acc, shift) == Ok(Raise(Pack(Collect(rs).value), shift) + acc)
  {
    LastTurn(rs, acc, shift);
    RaiseZero(shift);
  }

  lemma AfterTurn(fs: Result<seq<Field>>, f: Field, shift: nat, acc: nat)
    ensures fs.Ok? ==>
              Raise(Pack(fs.value), shift + f.width) + (Raise(f.bits, shift) + acc)
              == Raise(Pack(fs.value + [f]), shift) + acc
  {
    if fs.Ok? {
      PackAppend(fs.value, [f]);
      PackOne(f);
      RaiseSum(Raise(Pack(fs.value), f.width), f.bits, shift);
      RaiseTwice(Pack(fs.value), f.width, shift);
    }
  }

  lemma BoundedTurn(rs: seq<Result<Field>>, ws: seq<nat>, acc: nat, shift: nat)
    requires HaveWidths(rs, ws) && shift + Sum(ws) <= 63 && acc < Pow2(shift)
    requires rs != [] && PackFields(rs, acc, shift).Ok?
    ensures var n := |rs| - 1;
            && rs[n].Ok? && HaveWidths(rs[..n], ws[..n]) && Sum(ws) == Sum(ws[..n]) + rs[n].value.width
            && var (w, acc') := (rs[n].value.width, Raise(rs[n].value.bits, shift) + acc);
               && acc' < Pow2(shift + w)
               && PackFields(rs, acc, shift) ==
                  if shift + w >= 63 then Ok(acc') else PackFields(rs[..n], acc', shift + w)
  {
    SumLast(ws);
    PackTurn(rs, acc, shift);
  }

  /** A packing never needs more bits than the widths add up to. */
  lemma {:induction false} PackFieldsBound(rs: seq<Result<Field>>, ws: seq<nat>, acc: nat, shift: nat)
    requires HaveWidths(rs, ws) && shift + Sum(ws) <= 63 && acc < Pow2(shift)
    requires PackFields(rs, acc, shift).Ok?
    ensures 0 <= PackFields(rs, acc, shift).value < Pow2(shift + Sum(ws))
    decreases |rs|
  {
    if rs == [] {
      WordFits(acc, shift);
    } else {
      var n := |rs| - 1;
      BoundedTurn(rs, ws, acc, shift);
      hide PackFields, Raise, Pow2, HaveWidths;
      var f := rs[n].value;
      if shift + f.width >= 63 {
        assert shift + f.width == shift + Sum(ws);
      } else {
        PackFieldsBound(rs[..n], ws[..n], Raise(f.bits, shift) + acc, shift + f.width);
      }
    }
  }

  // ---- elements with known widths ----

  /** Every element has a known width of at least one bit. */
  predicate Sized(elems: seq<Expr>) {
    forall i :: 0 <= i < |elems| ==> SizedWidth(elems[i]).Some? && SizedWidth(elems[i]).value >= 1
  }

  function Widths(elems: seq<Expr>): (ws: seq<nat>)
    requires Sized(elems)
    ensures |ws| == |elems| && forall i :: 0 <= i < |ws| ==> ws[i] == SizedWidth(elems[i]).value
  {
    if elems == [] then [] else [SizedWidth(elems[0]).value] + Widths(elems[1..])
  }

  /** The bits of a list of elements. */
  function Total(elems: seq<Expr>): nat
    requires Sized(elems)
  {
    Sum(Widths(elems))
  }

  lemma WidthsAppend(a: seq<Expr>, b: seq<Expr>)
    requires Sized(a) && Sized(b)
    ensures Sized(a + b) && Total(a + b) == Total(a) + Total(b)
  {
    assert Widths(a + b) == Widths(a) + Widths(b);
    SumAppend(Widths(a), Widths(b));
  }

  lemma WidthsOne(x: Expr)
    requires SizedWidth(x).Some? && SizedWidth(x).value >= 1
    ensures Sized([x]) && Total([x]) == SizedWidth(x).value
  {
    var ws := Widths([x]);
    assert ws == [SizedWidth(x).value];
    assert ws[1..] == [] && Sum(ws[1..]) == 0;
  }

  lemma {:induction false} TotalIsSum(elems: seq<Expr>)
    requires Sized(elems)
    ensures SumWidths(elems) == Some(Total(elems))
    ensures elems != [] ==> Total(elems) >= 1
  {
    if elems != [] {
      TotalIsSum(elems[1..]);
      assert Widths(elems)[1..] == Widths(elems[1..]);
    }
  }

  lemma {:induction false} SumBounds(ws: seq<nat>, i: nat)
    requires i < |ws|
    ensures ws[i] <= Sum(ws)
  {
    if i > 0 {
      SumBounds(ws[1..], i - 1);
    }
  }

  lemma {:induction false} EvalFieldsAt(elems: seq<Expr>, env: Params, i: nat)
    requires i < |elems|
    ensures EvalFields(elems, env)[i] == ElementField(elems[i], Eval(elems[i], env))
  {
    if i > 0 {
      EvalFieldsAt(elems[1..], env, i - 1);
    }
  }

  lemma KnownField(e: Expr, r: Result<int>)
    requires SizedWidth(e).Some? && 1 <= SizedWidth(e).value <= 63
    ensures var w := SizedWidth(e).value;
            ElementField(e, r) == if r.Ok? then Ok(Field(LowBits(r.value, w), w)) else Err
  {
  }

  lemma FieldsHaveWidths(elems: seq<Expr>, env: Params)
    requires Sized(elems) && Total(elems) <= 63
    ensures HaveWidths(EvalFields(elems, env), Widths(elems))
  {
    forall i | 0 <= i < |elems|
      ensures EvalFields(elems, env)[i].Ok? ==>
                EvalFields(elems, env)[i].value.width == Widths(elems)[i]
                && EvalFields(elems, env)[i].value.bits < Pow2(Widths(elems)[i])
    {
      SumBounds(Widths(elems), i);
      EvalFieldsAt(elems, env, i);
      KnownField(elems[i], Eval(elems[i], env));
    }
  }

  lemma {:induction false} EvalFieldsAppend(a: seq<Expr>, b: seq<Expr>, env: Params)
    ensures EvalFields(a + b, env) == EvalFields(a, env) + EvalFields(b, env)
  {
    forall i | 0 <= i < |a + b|
      ensures EvalFields(a + b, env)[i] == (EvalFields(a, env) + EvalFields(b, env))[i]
    {
      EvalFieldsAt(a + b, env, i);
      if i < |a| {
        EvalFieldsAt(a, env, i);
      } else {
        EvalFieldsAt(b, env, i - |a|);
      }
    }
  }

  /** The fields of a list of elements, or an error if any element fails. */
  function FieldsOf(elems: seq<Expr>, env: Params): Result<seq<Field>> {
    Collect(EvalFields(elems, env))
  }

  lemma FieldsOfAppend(a: seq<Expr>, b: seq<Expr>, env: Params)
    ensures FieldsOf(a + b, env) == Joined(FieldsOf(a, env), FieldsOf(b, env))
  {
    EvalFieldsAppend(a, b, env);
    CollectAppend(EvalFields(a, env), EvalFields(b, env));
  }

  lemma FieldsOfOne(x: Expr, env: Params)
    ensures FieldsOf([x], env) ==
            match ElementField(x, Eval(x, env)) case Ok(f) => Ok([f]) case Err => Err
  {
    EvalFieldsAt([x], env, 0);
    assert EvalFields([x], env) == [ElementField(x, Eval(x, env))];
    CollectOne(ElementField(x, Eval(x, env)));
  }

  lemma NoTexts(elems: seq<Expr>)
    requires Sized(elems)
    ensures !HasText(elems)
  {
    forall x | x in elems
      ensures !x.Text?
    {
      var i :| 0 <= i < |elems| && elems[i] == x;
      assert SizedWidth(elems[i]).Some?;
    }
  }

  /** A concatenation of sized elements totalling at most 63 bits evaluates to its packing, or fails with an element. */
  lemma ConcatIs(elems: seq<Expr>, env: Params)
    requires Sized(elems) && Total(elems) <= 63
    ensures Eval(Concat(elems), env) == if FieldsOf(elems, env).Ok? then Ok(Pack(FieldsOf(elems, env).value)) else Err
    ensures FieldsOf(elems, env).Ok? ==>
              Fits(FieldsOf(elems, env).value) && Width(FieldsOf(elems, env).value) == Total(elems)
  {
    NoTexts(elems);
    FieldsHaveWidths(elems, env);
    PackFieldsIs(EvalFields(elems, env), Widths(elems), 0, 0);
    if FieldsOf(elems, env).Ok? {
      CollectFits(EvalFields(elems, env), Widths(elems));
    }
  }

  lemma ConcatEval(elems: seq<Expr>, env: Params)
    ensures Eval(Concat(elems), env) == if HasText(elems) then Err else PackFields(EvalFields(elems, env), 0, 0)
  {
  }

  /** The evaluator's packing loop: elements from the last one up, until one fails or 63 bits are in use. */
  method PackConcat(elems: seq<Expr>, env: Params) returns (r: Result<int>)
    ensures r == Eval(Concat(elems), env)
  {
    ConcatEval(elems, env);
    hide Eval, EvalFields, Bitwise, Raise, LowBits, SizedWidth, ElementWidth, BitLength;
    if HasText(elems) {
      return Err;
    }
    ghost var fields := EvalFields(elems, env);
    var acc, shift, i := 0, 0, |elems|;
    assert fields[..i] == fields;
    while i > 0
      invariant 0 <= i <= |elems|
      invariant PackFields(fields, 0, 0) == PackFields(fields[..i], acc, shift)
    {
      i := i - 1;
      EvalFieldsAt(elems, env, i);
      assert fields[..i + 1][..i] == fields[..i];
      var v := Eval(elems[i], env);
      if v.Err? {
        return Err;
      }
      var w := ElementWidth(elems[i], v.value);
      if w == 0 || shift + w > 63 {
        return Err;
      }
      acc := Bitwise(Or, acc, U64(Raise(LowBits(v.value, w), shift)));
      shift := shift + w;
      if shift >= 63 {
        return Ok(I64(acc));
      }
    }
    r := Ok(I64(acc));
  }

  /** Splitting: `{a, b}` is `{a}` times two to the width of `b`, plus `{b}`. */
  lemma ConcatSplits(a: seq<Expr>, b: seq<Expr>, env: Params, hi: int, lo: int)
    requires Sized(a) && Sized(b) && Total(a) + Total(b) <= 63
    requires Eval(Concat(a), env) == Ok(hi) && Eval(Concat(b), env) == Ok(lo)
    ensures Eval(Concat(a + b), env) == Ok(hi * Pow2(Total(b)) + lo)
  {
    ConcatJoins(a, b, env);
    PackSplits(FieldsOf(a, env).value, FieldsOf(b, env).value);
  }

  lemma ConcatJoins(a: seq<Expr>, b: seq<Expr>, env: Params)
    requires Sized(a) && Sized(b) && Total(a) + Total(b) <= 63
    requires Eval(Concat(a), env).Ok? && Eval(Concat(b), env).Ok?
    ensures FieldsOf(a, env).Ok? && FieldsOf(b, env).Ok?
    ensures var (fa, fb) := (FieldsOf(a, env).value, FieldsOf(b, env).value);
            && Width(fb) == Total(b)
            && Eval(Concat(a), env) == Ok(Pack(fa))
            && Eval(Concat(b), env) == Ok(Pack(fb))
            && Eval(Concat(a + b), env) == Ok(Pack(fa + fb))
  {
    WidthsAppend(a, b);
    FieldsOfAppend(a, b, env);
    ConcatIs(a, env);
    ConcatIs(b, env);
    ConcatIs(a + b, env);
  }

  lemma PackSplits(a: seq<Field>, b: seq<Field>)
    ensures Pack(a + b) == Pack(a) * Pow2(Width(b)) + Pack(b)
  {
    PackAppend(a, b);
    RaiseIsMultiply(Pack(a), Width(b));
  }

  /** A nested concatenation may be flattened; value and failure are the same. */
  lemma ConcatFlattens(a: seq<Expr>, b: seq<Expr>, c: seq<Expr>, env: Params)
    requires Sized(a) && Sized(b) && Sized(c) && b != [] && Total(a) + Total(b) + Total(c) <= 63
    ensures Eval(Concat(a + [Concat(b)] + c), env) == Eval(Concat(a + b + c), env)
  {
    TotalIsSum(b);
    var nest := Concat(b);
    assert SizedWidth(nest) == Some(Total(b));
    ConcatIs(b, env);
    WidthsOne(nest);
    FieldsOfOne(nest, env);
    KnownField(nest, Eval(nest, env));
    JoinThree(a, [nest], c, env);
    JoinThree(a, b, c, env);
    ConcatIs(a + [nest] + c, env);
    ConcatIs(a + b + c, env);
    var fa, fb, fc := FieldsOf(a, env), FieldsOf(b, env), FieldsOf(c, env);
    if fa.Ok? && fb.Ok? && fc.Ok? {
      PackBound(fb.value);
      SmallMod(Pack(fb.value), Pow2(Total(b)));
      PackGroup(fa.value, fb.value, fc.value);
    }
  }

  lemma JoinThree(a: seq<Expr>, b: seq<Expr>, c: seq<Expr>, env: Params)
    requires Sized(a) && Sized(b) && Sized(c)
    ensures Sized(a + b + c) && Total(a + b + c) == Total(a) + Total(b) + Total(c)
    ensures FieldsOf(a + b + c, env) == Joined(Joined(FieldsOf(a, env), FieldsOf(b, env)), FieldsOf(c, env))
  {
    WidthsAppend(a, b);
    WidthsAppend(a + b, c);
    FieldsOfAppend(a, b, env);
    FieldsOfAppend(a + b, c, env);
  }

  // ---- replication ----

  /** A body's field at its known width. */
  function BodyField(e: Expr, v: int): Field
    requires SizedWidth(e).Some?
  {
    Field(LowBits(v, SizedWidth(e).value), SizedWidth(e).value)
  }

  /** The copying loop on a sized body: the copies packed. */
  lemma ReplicateIs(e: Expr, n: nat, v: int)
    requires n >= 1 && SizedWidth(e).Some? && SizedWidth(e).value >= 1 && n * SizedWidth(e).value <= 63
    ensures SizedWidth(e).value <= 63
    ensures EvalReplicate(e, n, v) == Ok(Pack(Copies(BodyField(e, v), n)))
    ensures Pack(Copies(BodyField(e, v), n)) < Pow2(Width(Copies(BodyField(e, v), n)))
  {
    var w := SizedWidth(e).value;
    MulOrder(1, n, w);
    var f := BodyField(e, v);
    CopiesWidth(f, n);
    RepeatPacks(f, n);
    WordFits(Pack(Copies(f, n)), Width(Copies(f, n)));
    assert Repeat(f.bits, f.width, n) == Pack(Copies(f, n));
  }

  /** The evaluator's replication, with its copying loop. */
  method EvaluateReplicate(body: Expr, count: int, v: int) returns (r: Result<int>)
    ensures r == EvalReplicate(body, count, v)
    ensures SizedWidth(body).Some? && SizedWidth(body).value >= 1 && count >= 1 && count * SizedWidth(body).value <= 63 ==>
              r == Ok(Pack(Copies(BodyField(body, v), count)))
  {
    if count <= 0 {
      return Ok(0);
    }
    var width := SizedWidth(body);
    if width.None? || width.value == 0 {
      return UnknownReplicate(count, v);
    }
    var w := width.value;
    if count * w > 63 {
      return Err;
    }
    ReplicateIs(body, count, v);
    var pat, acc := LowBits(v, w), 0;
    for i := 0 to count
      invariant acc == Repeat(pat, w, i)
    {
      acc := Bitwise(Or, U64(Raise(acc, w)), pat);
    }
    r := Ok(I64(acc));
  }

  lemma {:induction false} CollectCopies(r: Result<Field>, n: nat)
    ensures r.Ok? ==> Collect(Copies(r, n)) == Ok(Copies(r.value, n))
    ensures n >= 1 && r.Err? ==> Collect(Copies(r, n)) == Err
  {
    if n > 0 {
      CollectCopies(r, n - 1);
      CollectAppend(Copies(r, n - 1), [r]);
      CollectOne(r);
    }
  }

  lemma {:induction false} CopiesSized(e: Expr, n: nat)
    requires SizedWidth(e).Some? && SizedWidth(e).value >= 1
    ensures Sized(Copies(e, n)) && Total(Copies(e, n)) == n * SizedWidth(e).value
  {
    if n > 0 {
      CopiesSized(e, n - 1);
      WidthsOne(e);
      WidthsAppend(Copies(e, n - 1), [e]);
      assert n * SizedWidth(e).value == (n - 1) * SizedWidth(e).value + SizedWidth(e).value;
    }
  }

  lemma EvalFieldsCopies(e: Expr, env: Params, n: nat)
    ensures EvalFields(Copies(e, n), env) == Copies(ElementField(e, Eval(e, env)), n)
  {
    forall i | 0 <= i < n
      ensures EvalFields(Copies(e, n), env)[i] == ElementField(e, Eval(e, env))
    {
      EvalFieldsAt(Copies(e, n), env, i);
    }
  }

  /** `{n{e}}` is the concatenation of `n` copies of `e`; value and failure are the same. */
  lemma ReplicateIsConcat(count: Expr, e: Expr, env: Params, n: nat)
    requires Eval(count, env) == Ok(n) && n >= 1
    requires SizedWidth(e).Some? && SizedWidth(e).value >= 1 && n * SizedWidth(e).value <= 63
    ensures Eval(Replicate(count, e), env) == Eval(Concat(Copies(e, n)), env)
  {
    var r := Eval(e, env);
    ReplicateEval(count, e, n, env);
    hide Eval, EvalReplicate, Pack, Width, Raise;
    ReplicateIs(e, n, if r.Ok? then r.value else 0);
    KnownField(e, r);
    CopiesSized(e, n);
    EvalFieldsCopies(e, env, n);
    CollectCopies(ElementField(e, r), n);
    ConcatIs(Copies(e, n), env);
  }

  /** Nested replication multiplies the counts: `{n{ {k{e}} }}` is `{n*k{e}}`. */
  lemma ReplicateNests(e: Expr, env: Params, k: nat, n: nat)
    requires k >= 1 && n >= 1 && SizedWidth(e).Some? && SizedWidth(e).value >= 1
    requires n * (k * SizedWidth(e).value) <= 63
    ensures Eval(Replicate(Decimal(n), Replicate(Decimal(k), e)), env) == Eval(Replicate(Decimal(n * k), e), env)
  {
    ReplicateEval(Decimal(n * k), e, n * k, env);
    ReplicateEval(Decimal(k), e, k, env);
    ReplicateEval(Decimal(n), Replicate(Decimal(k), e), n, env);
    if Eval(e, env).Ok? {
      NestedCounts(e, Eval(e, env).value, k, n);
    }
  }

  lemma ReplicateEval(count: Expr, e: Expr, n: int, env: Params)
    requires Eval(count, env) == Ok(n)
    ensures Eval(Replicate(count, e), env) == if Eval(e, env).Ok? then EvalReplicate(e, n, Eval(e, env).value) else Err
  {
    hide EvalReplicate;
  }

  lemma NestedCounts(e: Expr, v: int, k: nat, n: nat)
    requires k >= 1 && n >= 1 && SizedWidth(e).Some? && SizedWidth(e).value >= 1
    requires n * (k * SizedWidth(e).value) <= 63
    ensures EvalReplicate(e, k, v).Ok?
    ensures EvalReplicate(Replicate(Decimal(k), e), n, EvalReplicate(e, k, v).value) == EvalReplicate(e, n * k, v)
  {
    var w, f, inner := SizedWidth(e).value, BodyField(e, v), Replicate(Decimal(k), e);
    NestedOrder(n, k, w);
    ReplicateIs(e, k, v);
    ReplicateIs(e, n * k, v);
    CopiesWidth(f, k);
    assert SizedWidth(inner) == Some(k * w);
    var u := EvalReplicate(e, k, v).value;
    SmallField(inner, u);
    ReplicateIs(inner, n, u);
    PackNestedCopies(f, BodyField(inner, u), k, n);
    hide EvalReplicate, Copies, Pack, Width, Pow2, BodyField;
  }

  lemma NestedOrder(n: nat, k: nat, w: nat)
    requires n >= 1 && k >= 1 && w >= 1 && n * (k * w) <= 63
    ensures 1 <= k * w <= 63 && n * k >= 1 && n * k * w <= 63
  {
    MulOrder(1, k, w);
    MulOrder(1, n, k * w);
    MulOrder(1, n, k);
    MulThree(n, k, w);
  }

  lemma SmallField(e: Expr, u: int)
    requires SizedWidth(e).Some? && SizedWidth(e).value <= 63 && 0 <= u < Pow2(SizedWidth(e).value)
    ensures BodyField(e, u) == Field(u, SizedWidth(e).value)
  {
    SmallMod(u, Pow2(SizedWidth(e).value));
  }

  // ---- selecting an element back ----

  lemma SelectPacked(top: nat, hi: nat, f: Field, low: nat, s: nat)
    requires top == Raise(hi, f.width) + f.bits
    requires f.bits < Pow2(f.width) && low < Pow2(s) && 1 <= f.width && s + f.width <= 63
    ensures SelectRange(Raise(top, s) + low, s + f.width - 1, s) == f.bits
  {
    SmallMod(s, 64);
    RaiseIsMultiply(top, s);
    RaiseIsMultiply(hi, f.width);
    DivModUnique(Raise(top, s) + low, Pow2(s), top, low);
    ModAddMultiple(f.bits, hi, Pow2(f.width));
    SmallMod(f.bits, Pow2(f.width));
  }

  lemma PackSnoc(fa: seq<Field>, f: Field)
    ensures Pack(fa + [f]) == Raise(Pack(fa), f.width) + f.bits
  {
    PackAppend(fa, [f]);
    PackOne(f);
  }

  lemma SelectPackedField(fa: seq<Field>, f: Field, fc: seq<Field>)
    requires f.bits < Pow2(f.width) && Fits(fc) && 1 <= f.width && Width(fc) + f.width <= 63
    ensures SelectRange(Pack(fa + [f] + fc), Width(fc) + f.width - 1, Width(fc)) == f.bits
  {
    PackBound(fc);
    PackSnoc(fa, f);
    PackAppend(fa + [f], fc);
    SelectPacked(Pack(fa + [f]), Pack(fa), f, Pack(fc), Width(fc));
  }

  /** Selecting an element's position out of a concatenation gives the element modulo two to its width. */
  lemma SelectsElement(a: seq<Expr>, x: Expr, c: seq<Expr>, env: Params)
    requires Sized(a) && Sized(c) && SizedWidth(x).Some? && SizedWidth(x).value >= 1
    requires Total(a) + SizedWidth(x).value + Total(c) <= 63
    requires Eval(Concat(a), env).Ok? && Eval(x, env).Ok? && Eval(Concat(c), env).Ok?
    ensures var s, w := Total(c), SizedWidth(x).value;
            Eval(RangeSelect(Concat(a + [x] + c), Decimal(s + w - 1), Decimal(s)), env)
            == Ok(Eval(x, env).value % Pow2(w))
  {
    var f := BodyField(x, Eval(x, env).value);
    ConcatAround(a, x, c, env);
    SelectPackedField(FieldsOf(a, env).value, f, FieldsOf(c, env).value);
    RangeOf(Concat(a + [x] + c), Total(c) + f.width - 1, Total(c), env);
  }

  lemma ConcatAround(a: seq<Expr>, x: Expr, c: seq<Expr>, env: Params)
    requires Sized(a) && Sized(c) && SizedWidth(x).Some? && SizedWidth(x).value >= 1
    requires Total(a) + SizedWidth(x).value + Total(c) <= 63
    requires Eval(Concat(a), env).Ok? && Eval(x, env).Ok? && Eval(Concat(c), env).Ok?
    ensures FieldsOf(a, env).Ok? && FieldsOf(c, env).Ok?
    ensures Fits(FieldsOf(c, env).value) && Width(FieldsOf(c, env).value) == Total(c)
    ensures Eval(Concat(a + [x] + c), env)
            == Ok(Pack(FieldsOf(a, env).value + [BodyField(x, Eval(x, env).value)] + FieldsOf(c, env).value))
  {
    WidthsOne(x);
    FieldsOfOne(x, env);
    KnownField(x, Eval(x, env));
    JoinThree(a, [x], c, env);
    ConcatIs(a, env);
    ConcatIs(c, env);
    ConcatIs(a + [x] + c, env);
  }

  lemma RangeOf(e: Expr, m: int, l: int, env: Params)
    requires Eval(e, env).Ok?
    ensures Eval(RangeSelect(e, Decimal(m), Decimal(l)), env) == Ok(SelectRange(Eval(e, env).value, m, l))
  {
  }

  // ---- widths are sound ----

  /** Literals standing directly in a concatenation have a width. */
  predicate NonZeroLiterals(elems: seq<Expr>) {
    forall i :: 0 <= i < |elems| && elems[i].Based? ==> LiteralWidth(elems[i]) >= 1
  }

  lemma {:induction false} SummedWidths(elems: seq<Expr>) returns (ws: seq<nat>)
    requires SumWidths(elems).Some?
    ensures |ws| == |elems| && Sum(ws) == SumWidths(elems).value
    ensures forall i :: 0 <= i < |elems| ==> SizedWidth(elems[i]) == Some(ws[i])
  {
    if elems == [] {
      ws := [];
    } else {
      var rest := SummedWidths(elems[1..]);
      ws := [SizedWidth(elems[0]).value] + rest;
    }
  }

  lemma ConcatBound(elems: seq<Expr>, env: Params)
    requires SumWidths(elems).Some? && SumWidths(elems).value <= 63 && NonZeroLiterals(elems)
    requires Eval(Concat(elems), env).Ok?
    ensures 0 <= Eval(Concat(elems), env).value < Pow2(SumWidths(elems).value)
  {
    var ws := SummedWidths(elems);
    var rs := EvalFields(elems, env);
    forall i | 0 <= i < |elems|
      ensures rs[i].Ok? ==> rs[i].value.width == ws[i] && rs[i].value.bits < Pow2(ws[i])
    {
      SumBounds(ws, i);
      EvalFieldsAt(elems, env, i);
      FieldAsSummed(elems[i], Eval(elems[i], env));
    }
    PackFieldsBound(rs, ws, 0, 0);
  }

  lemma FieldAsSummed(e: Expr, r: Result<int>)
    requires SizedWidth(e).Some? && SizedWidth(e).value <= 63 && (e.Based? ==> LiteralWidth(e) >= 1)
    ensures ElementField(e, r).Ok? ==>
              ElementField(e, r).value.width == SizedWidth(e).value
              && ElementField(e, r).value.bits < Pow2(SizedWidth(e).value)
  {
  }

  lemma MaskBound(x: int, w: nat)
    requires 1 <= w <= 63
    ensures 0 <= I64(LowBits(x, w)) < Pow2(w)
  {
    FitsInWord(w);
  }

  lemma ShiftBound(op: BinaryOp, l: int, r: int, w: nat)
    requires IsShift(op) && op != Sshr && 1 <= w <= 63
    ensures 0 <= EvalShift(op, l, r, w) < Pow2(w)
  {
    MaskBound(ShiftLeft(l, r), w);
    MaskBound(ShiftRight(l, r), w);
  }

  lemma BitBound(w: nat)
    requires w >= 1
    ensures Pow2(w) >= 2
  {
    Pow2Monotone(1, w);
  }

  lemma UnaryBound(op: UnaryOp, arg: Expr, v: int, w: nat)
    requires op != Plus && op != Minus && 1 <= w <= 63
    requires if IsReduction(op) then w == 1 else SizedWidth(arg) == Some(w)
    ensures 0 <= EvalUnary(op, arg, v) < Pow2(w)
  {
    BitBound(w);
  }

  lemma BinaryBound(op: BinaryOp, lhs: Expr, rhs: Expr, l: int, r: int, w: nat)
    requires op != Sshr && 1 <= w <= 63 && SizedWidth(Binary(op, lhs, rhs)) == Some(w)
    ensures EvalBinary(op, lhs, rhs, l, r).Ok? && 0 <= EvalBinary(op, lhs, rhs, l, r).value < Pow2(w)
  {
    BitBound(w);
    if IsShift(op) {
      ShiftBound(op, l, r, w);
    }
  }

  /** The top bit of a value masked to `w` bits. */
  predicate TopBitSet(v: int, w: nat)
    requires w >= 1
  {
    DropBits(LowBits(v, w), w - 1) % 2 == 1
  }

  /** A literal keeps within `w` bits if its digits fit and a mark does not make it negative. */
  predicate LiteralInWidth(e: Expr, w: nat)
    requires e.Based? && w >= 1
  {
    match ParsePattern(e.digits, e.radix)
    case Ok(u) =>
      if e.signed && e.width.Some? && TopBitSet(u, w) then Pow2(w) <= u < 2 * Pow2(w) else u < Pow2(w)
    case Err => true
  }

  /**
   The nodes whose bits show above the width: a literal, a unary minus of anything but zero or a small
   negative number, and a `>>>` whose left operand has its top bit set.
   */
  predicate InWidth(e: Expr, env: Params, w: nat)
    requires w >= 1
  {
    match e
    case Paren(inner) => InWidth(inner, env, w)
    case Based(_, _, _, _) => LiteralInWidth(e, w)
    case Unary(op, arg) =>
      if op == Plus then InWidth(arg, env, w)
      else op == Minus ==>
        (match Eval(arg, env)
         case Ok(a) => -Pow2(w) < I64(a) <= 0
         case Err => true)
    case Binary(op, lhs, rhs) =>
      op == Sshr ==>
        (match (Eval(lhs, env), Eval(rhs, env))
         case (Ok(l), Ok(r)) => r < 0 || !TopBitSet(l, w)
         case _ => true)
    case _ => true
  }

  /** A literal of width zero, which section 5.7.1 of IEEE 1800-2017 forbids, shows in no concatenation that is read whole. */
  predicate NoZeroLiteral(e: Expr) {
    match e
    case Paren(inner) => NoZeroLiteral(inner)
    case Unary(op, arg) => op == Plus ==> NoZeroLiteral(arg)
    case Concat(elems) => NonZeroLiterals(elems)
    case _ => true
  }

  /** The top bit of a pattern is that of its low bits. */
  lemma SameTopBit(u: nat, w: nat)
    requires 1 <= w <= 63
    ensures DropBits(u, w - 1) % 2 == DropBits(LowBits(u, w), w - 1) % 2
  {
    HalfQuotient(u, Pow2(w - 1));
    assert Pow2(w) == 2 * Pow2(w - 1);
    DivNonNegative(u, Pow2(w - 1));
    DivNonNegative(LowBits(u, w), Pow2(w - 1));
    hide Pow2;
  }

  /** Reducing modulo an even multiple of `h` keeps the parity of the quotient by `h`. */
  lemma HalfQuotient(u: nat, h: nat)
    requires h > 0
    ensures (u / h) % 2 == ((u % (2 * h)) / h) % 2
  {
    var q, p := u / (2 * h), u % (2 * h);
    var t, s := p / h, p % h;
    assert u == q * (2 * h) + p;
    assert p == t * h + s;
    TwoHalves(q, t, h);
    DivModUnique(u, h, 2 * q + t, s);
    EvenMore(q, t);
  }

  lemma EvenMore(q: int, t: int)
    ensures (2 * q + t) % 2 == t % 2
  {
  }

  lemma TwoHalves(q: int, t: int, h: int)
    ensures q * (2 * h) + t * h == (2 * q + t) * h
  {
    MulThree(q, 2, h);
    DistributeSum(2 * q, t, h);
  }

  lemma DistributeSum(a: int, b: int, c: int)
    ensures (a + b) * c == a * c + b * c
  {
  }

  lemma WordRange(u: nat, p: nat)
    requires u < TWO64 && 0 < p <= TWO63
    ensures 0 <= I64(u) < p <==> u < p
    ensures 0 <= I64(u - p) < p <==> p <= u < 2 * p
  {
  }

  lemma LiteralBound(e: Expr, w: nat, v: int)
    requires e.Based? && LiteralWidth(e) == w && 1 <= w <= 63 && LiteralValue(e) == Ok(v)
    ensures 0 <= v < Pow2(w) <==> LiteralInWidth(e, w)
  {
    var u := ParsePattern(e.digits, e.radix).value;
    SameTopBit(u, w);
    FitsInWord(w);
    WordRange(u, Pow2(w));
    hide Pow2, DropBits, LowBits, I64;
  }

  lemma NegateWraps(a: int)
    ensures I64(-a) == I64(-I64(a))
  {
    var k := if a % TWO64 < TWO63 then a / TWO64 else a / TWO64 + 1;
    assert a == I64(a) + k * TWO64;
    ModAddMultiple(-I64(a), -k, TWO64);
  }

  lemma MinusBound(a: int, w: nat)
    requires 1 <= w <= 63
    ensures 0 <= I64(-a) < Pow2(w) <==> -Pow2(w) < I64(a) <= 0
  {
    FitsInWord(w);
    NegateWraps(a);
    NegatedRange(I64(a), Pow2(w));
    hide I64, Pow2;
  }

  lemma NegatedRange(n: int, p: int)
    requires -TWO63 <= n < TWO63 && 0 < p <= TWO63
    ensures 0 <= I64(-n) < p <==> -p < n <= 0
  {
  }

  lemma ArithmeticShiftBound(l: int, r: int, w: nat)
    requires 1 <= w <= 63
    ensures 0 <= ArithmeticShiftRight(l, r, w) < Pow2(w) <==> r < 0 || !TopBitSet(l, w)
  {
    BitBound(w);
    if 0 <= r < w {
      if TopBitSet(l, w) {
        SignShowsAbove(l, r, w);
      } else {
        DropWithin(LowBits(l, w), r, w);
      }
    }
    hide DropBits, LowBits, I64, Bitwise, HighOnes, Pow2;
  }

  lemma SignShowsAbove(l: int, r: nat, w: nat)
    requires r < w <= 63
    ensures I64(Bitwise(Or, DropBits(LowBits(l, w), r), HighOnes(w - r))) < 0
  {
    DropKeepsBound(LowBits(l, w), r, w);
    FillHigh(DropBits(LowBits(l, w), r), w - r);
  }

  lemma DropWithin(p: nat, r: nat, w: nat)
    requires w <= 63 && p < Pow2(w)
    ensures 0 <= I64(DropBits(p, r)) < Pow2(w)
  {
    FitsInWord(w);
    DropShrinks(p, r);
  }

  lemma DropShrinks(p: nat, r: nat)
    ensures DropBits(p, r) <= p
  {
    var d := Pow2(r);
    assert p == d * (p / d) + p % d;
    MulOrder(1, d, DropBits(p, r));
  }

  lemma DropKeepsBound(p: nat, r: nat, w: nat)
    requires r <= w && p < Pow2(w)
    ensures DropBits(p, r) < Pow2(w - r)
  {
    Pow2Add(w - r, r);
    var d, q := Pow2(r), DropBits(p, r);
    assert p == q * d + p % d;
    if q >= Pow2(w - r) {
      MulOrder(Pow2(w - r), q, d);
    }
  }

  /**
   Width soundness: where the syntax gives a width from 1 to 63 and evaluation gives a value, the value
   is an unsigned number of that many bits exactly if no node shows bits above the width.
   */
  lemma {:induction false} WidthSound(e: Expr, env: Params, w: nat, v: int)
    requires SizedWidth(e) == Some(w) && 1 <= w <= 63 && Eval(e, env) == Ok(v) && NoZeroLiteral(e)
    ensures 0 <= v < Pow2(w) <==> InWidth(e, env, w)
  {
    hide Pow2, I64, LiteralInWidth, TopBitSet, EvalReplicate, EvalBinary, NonZeroLiterals, EvalFields, PackFields;
    if e.Paren? {
      WidthSound(e.inner, env, w, v);
    } else if e.Unary? && e.op == Plus {
      WidthSound(e.arg, env, w, v);
    } else {
      WidthOfNode(e, env, w, v);
    }
  }

  lemma WidthOfNode(e: Expr, env: Params, w: nat, v: int)
    requires SizedWidth(e) == Some(w) && 1 <= w <= 63 && Eval(e, env) == Ok(v) && NoZeroLiteral(e)
    requires !e.Paren? && (e.Unary? ==> e.op != Plus)
    ensures 0 <= v < Pow2(w) <==> InWidth(e, env, w)
  {
    hide Pow2, I64, LiteralInWidth, TopBitSet, EvalReplicate, EvalUnary, EvalBinary, LiteralValue, PackFields;
    match e
    case Based(_, _, _, _) => LiteralBound(e, w, v);
    case Unary(op, arg) => WidthOfUnary(op, arg, Eval(arg, env).value, w);
    case Binary(op, lhs, rhs) => WidthOfBinary(op, lhs, rhs, env, w, v);
    case Concat(elems) => ConcatBound(elems, env);
    case Replicate(count, body) => WidthOfReplicate(count.n, body, Eval(body, env).value, w);
  }

  lemma WidthOfReplicate(n: int, body: Expr, v: int, w: nat)
    requires n >= 1 && SizedWidth(body).Some? && w == n * SizedWidth(body).value && 1 <= w <= 63
    ensures EvalReplicate(body, n, v).Ok? && 0 <= EvalReplicate(body, n, v).value < Pow2(w)
  {
    PositiveFactor(n, SizedWidth(body).value);
    ReplicateIs(body, n, v);
    CopiesWidth(BodyField(body, v), n);
  }

  lemma WidthOfUnary(op: UnaryOp, arg: Expr, a: int, w: nat)
    requires op != Plus && 1 <= w <= 63
    requires if IsReduction(op) then w == 1 else SizedWidth(arg) == Some(w)
    ensures 0 <= EvalUnary(op, arg, a) < Pow2(w) <==> (op == Minus ==> -Pow2(w) < I64(a) <= 0)
  {
    if op == Minus {
      MinusBound(a, w);
    } else {
      UnaryBound(op, arg, a, w);
    }
  }

  lemma WidthOfBinary(op: BinaryOp, lhs: Expr, rhs: Expr, env: Params, w: nat, v: int)
    requires SizedWidth(Binary(op, lhs, rhs)) == Some(w) && 1 <= w <= 63 && Eval(Binary(op, lhs, rhs), env) == Ok(v)
    ensures 0 <= v < Pow2(w) <==> InWidth(Binary(op, lhs, rhs), env, w)
  {
    var l, r := Eval(lhs, env).value, Eval(rhs, env).value;
    if op == Sshr {
      ArithmeticShiftBound(l, r, w);
    } else {
      BinaryBound(op, lhs, rhs, l, r, w);
    }
  }

  /** An instance: a unary minus keeps its operand's width but goes negative. */
  lemma MinusEscapesWidth() returns (e: Expr)
    ensures SizedWidth(e) == Some(4)
    ensures forall env: Params :: Eval(e, env) == Ok(-1) && !InWidth(e, env, 4)
  {
    var one := Based("1", 2, Some(4), false);
    e := Unary(Minus, one);
    assert "1"[..0] == "" && DigitsValue("", 2) == Some(0);
    assert DigitsValue("1", 2) == Some(1);
    assert ParsePattern("1", 2) == Ok(1);
    assert LiteralValue(one) == Ok(1);
    assert forall env: Params :: Eval(one, env) == Ok(1);
  }
}
