/**
 Where a package parameter's value is kept: scalars, flattened arrays and structs in tables of their own, and
 the scalar fields of structs under keys of their own besides.
 */
module PackageStore {
  import opened Basics
  import opened Outcomes
  import opened ConstSyntax
  import opened ExtEval

  // ---- storing a value ----

  function FieldKey(q: Key, at: Option<nat>, field: string): Key
    requires q.Qual?
  {
    match at
    case None => FieldOf(q.pkg, q.name, field)
    case Some(i) => ElemField(q.pkg, q.name, i, field)
  }

  function RecordField(s: map<Key, int>, q: Key, at: Option<nat>, f: SField): map<Key, int>
    requires q.Qual?
  {
    if f.name.Some? && f.val.Scalar? then s[FieldKey(q, at, f.name.value) := f.val.n] else s
  }

  /** Named scalar fields get keys of their own; a later field of the same name replaces an earlier one. */
  function RecordFields(s: map<Key, int>, q: Key, at: Option<nat>, fields: seq<SField>): map<Key, int>
    requires q.Qual?
  {
    if fields == [] then s
    else
      var n := |fields| - 1;
      RecordField(RecordFields(s, q, at, fields[..n]), q, at, fields[n])
  }

  function RecordElems(s: map<Key, int>, q: Key, elems: seq<CVal>): map<Key, int>
    requires q.Qual?
  {
    if elems == [] then s
    else
      var n := |elems| - 1;
      var rest := RecordElems(s, q, elems[..n]);
      if elems[n].Struct? then RecordFields(rest, q, Some(n), elems[n].fields) else rest
  }

  /** Stores a parameter's value: an array flattened, and what can be read off structs beside it. */
  function Insert(env: Env, q: Key, v: CVal): Env
    requires q.Qual?
  {
    match v
    case Scalar(n) => env.(scalars := env.scalars[q := n])
    case Array(a) => env.(arrays := env.arrays[q := Flatten(a)], scalars := RecordElems(env.scalars, q, a))
    case Struct(fs) => env.(structs := env.structs[q := fs], scalars := RecordFields(env.scalars, q, None, fs))
  }

  predicate Has(env: Env, q: Key) {
    q in env.scalars || q in env.arrays || q in env.structs
  }

  // ---- what a stored value touches ----

  /** The parameter a key belongs to. */
  function Owner(k: Key): Key {
    match k
    case FieldOf(p, n, _) => Qual(p, n)
    case ElemField(p, n, _, _) => Qual(p, n)
    case _ => k
  }

  predicate SameAt<T(==)>(s: map<Key, T>, t: map<Key, T>, k: Key) {
    (k in s <==> k in t) && (k in s ==> s[k] == t[k])
  }

  /** The tables say the same of a key. */
  predicate Agree(a: Env, b: Env, k: Key) {
    SameAt(a.scalars, b.scalars, k) && SameAt(a.arrays, b.arrays, k) && SameAt(a.structs, b.structs, k)
  }

  predicate NothingAt(env: Env, k: Key) {
    k !in env.scalars && k !in env.arrays && k !in env.structs
  }

  lemma {:induction false} FieldsLocal(s: map<Key, int>, t: map<Key, int>, q: Key, at: Option<nat>, fs: seq<SField>, k: Key)
    requires q.Qual?
    ensures SameAt(s, t, k) ==> SameAt(RecordFields(s, q, at, fs), RecordFields(t, q, at, fs), k)
    ensures Owner(k) != q || k == q ==> SameAt(RecordFields(s, q, at, fs), s, k)
  {
    if fs != [] {
      FieldsLocal(s, t, q, at, fs[..|fs| - 1], k);
    }
  }

  lemma {:induction false} ElemsLocal(s: map<Key, int>, t: map<Key, int>, q: Key, es: seq<CVal>, k: Key)
    requires q.Qual?
    ensures SameAt(s, t, k) ==> SameAt(RecordElems(s, q, es), RecordElems(t, q, es), k)
    ensures Owner(k) != q || k == q ==> SameAt(RecordElems(s, q, es), s, k)
  {
    if es != [] {
      var n := |es| - 1;
      ElemsLocal(s, t, q, es[..n], k);
      if es[n].Struct? {
        FieldsLocal(RecordElems(s, q, es[..n]), RecordElems(t, q, es[..n]), q, Some(n), es[n].fields, k);
      }
    }
  }

  /** Storing is a function of the key's own contents, and touches no other parameter's keys. */
  lemma InsertLocal(a: Env, b: Env, q: Key, v: CVal, k: Key)
    requires q.Qual?
    ensures Agree(a, b, k) ==> Agree(Insert(a, q, v), Insert(b, q, v), k)
    ensures Owner(k) != q ==> Agree(Insert(a, q, v), a, k)
    ensures Has(Insert(a, q, v), q)
  {
    match v {
      case Scalar(_) =>
      case Array(es) => ElemsLocal(a.scalars, b.scalars, q, es, k);
      case Struct(fs) => FieldsLocal(a.scalars, b.scalars, q, None, fs, k);
    }
  }

  // ---- what is read back ----

  /** Field `i` is the last of the scalar fields of this name. */
  predicate LastScalar(fields: seq<SField>, field: string, i: nat) {
    && i < |fields| && fields[i].name == Some(field) && fields[i].val.Scalar?
    && forall j :: i < j < |fields| && fields[j].name == Some(field) ==> !fields[j].val.Scalar?
  }

  /** There is a scalar field of this name. */
  predicate NamesScalar(fields: seq<SField>, field: string) {
    exists f :: f in fields && f.name == Some(field) && f.val.Scalar?
  }

  /** What is found under the key of a struct's field: the last scalar of the name, if there is one. */
  ghost predicate KeyReadsBack(env: Env, k: Key, fields: seq<SField>, field: string) {
    && (forall i: nat :: LastScalar(fields, field, i) ==> env.Lookup(k) == Some(fields[i].val))
    && (!NamesScalar(fields, field) ==> env.Lookup(k) == None)
  }

  lemma {:induction false} FieldKeyHolds(s: map<Key, int>, q: Key, at: Option<nat>, fields: seq<SField>, field: string)
    requires q.Qual?
    ensures var (t, k) := (RecordFields(s, q, at, fields), FieldKey(q, at, field));
            && (forall i: nat :: LastScalar(fields, field, i) ==> k in t && t[k] == fields[i].val.n)
            && (!NamesScalar(fields, field) ==> SameAt(t, s, k))
  {
    if fields != [] {
      var n := |fields| - 1;
      FieldKeyHolds(s, q, at, fields[..n], field);
      assert fields[n] in fields && forall f :: f in fields[..n] ==> f in fields;
      forall i: nat | LastScalar(fields, field, i)
        ensures i == n || (LastScalar(fields[..n], field, i) && !(fields[n].name == Some(field) && fields[n].val.Scalar?))
      {
      }
    }
  }

  lemma OtherFieldsAt(s: map<Key, int>, q: Key, at: Option<nat>, fields: seq<SField>, i: nat, field: string)
    requires q.Qual? && at != Some(i)
    ensures SameAt(RecordFields(s, q, at, fields), s, ElemField(q.pkg, q.name, i, field))
  {
    if fields != [] {
      OtherFieldsAt(s, q, at, fields[..|fields| - 1], i, field);
    }
  }

  lemma {:induction false} ElemKeyHolds(s: map<Key, int>, q: Key, elems: seq<CVal>, i: nat, field: string)
    requires q.Qual?
    ensures var (t, k) := (RecordElems(s, q, elems), ElemField(q.pkg, q.name, i, field));
            if i < |elems| && elems[i].Struct? then
              && (forall j: nat :: LastScalar(elems[i].fields, field, j) ==> k in t && t[k] == elems[i].fields[j].val.n)
              && (!NamesScalar(elems[i].fields, field) ==> SameAt(t, s, k))
            else SameAt(t, s, k)
  {
    hide LastScalar, NamesScalar, RecordFields;
    if elems != [] {
      var n := |elems| - 1;
      ElemKeyHolds(s, q, elems[..n], i, field);
      if elems[n].Struct? {
        FieldKeyHolds(RecordElems(s, q, elems[..n]), q, Some(n), elems[n].fields, field);
        if i != n {
          OtherFieldsAt(RecordElems(s, q, elems[..n]), q, Some(n), elems[n].fields, i, field);
        }
      }
    }
  }

  predicate AllScalars(a: seq<CVal>) {
    forall i :: 0 <= i < |a| ==> a[i].Scalar?
  }

  /** An array of rows of `w` scalars each. */
  predicate IsGrid(a: seq<CVal>, w: nat) {
    forall i :: 0 <= i < |a| ==> a[i].Array? && |a[i].elems| == w && AllScalars(a[i].elems)
  }

  /** An array of scalars is kept as it is. */
  lemma {:induction false} ScalarsAreKept(a: seq<CVal>)
    requires AllScalars(a)
    ensures Scalars(Flatten(a)) == a
  {
    if a != [] {
      ScalarsAreKept(a[1..]);
      assert Flatten(a) == [a[0].n] + Flatten(a[1..]);
      assert Flatten(a)[1..] == Flatten(a[1..]);
    }
  }

  /** What an array's first element contributes. */
  function Opened(v: CVal): seq<int> {
    Flatten([v])
  }

  lemma FlattenCons(a: seq<CVal>)
    requires a != []
    ensures Flatten(a) == Opened(a[0]) + Flatten(a[1..])
  {
    assert [a[0]][1..] == [];
    assert Flatten([]) == [];
  }

  lemma {:induction false} FlattenAppend(a: seq<CVal>, b: seq<CVal>)
    ensures Flatten(a + b) == Flatten(a) + Flatten(b)
  {
    if a == [] {
      assert a + b == b && Flatten(a) == [];
    } else {
      var t := a[1..];
      FlattenCons(a);
      FlattenCons(a + b);
      FlattenAppend(t, b);
      hide Flatten, Opened;
      assert (a + b)[1..] == t + b && (a + b)[0] == a[0];
      AppendAssociates(Opened(a[0]), Flatten(t), Flatten(b));
    }
  }

  /** Opening an inner array up where it stands changes nothing, and a struct counts as one scalar, 0. */
  lemma FlattenOpens(a: seq<CVal>, inner: seq<CVal>, fs: seq<SField>, b: seq<CVal>)
    ensures Flatten(a + [Array(inner)] + b) == Flatten(a + inner + b)
    ensures Flatten(a + [Struct(fs)] + b) == Flatten(a + [Scalar(0)] + b)
  {
    FlattenAppend(a + [Array(inner)], b);
    FlattenAppend(a + inner, b);
    FlattenAppend(a + [Struct(fs)], b);
    FlattenAppend(a + [Scalar(0)], b);
    FlattenAppend(a, [Array(inner)]);
    FlattenAppend(a, inner);
    FlattenAppend(a, [Struct(fs)]);
    FlattenAppend(a, [Scalar(0)]);
    assert Flatten([Array(inner)]) == Flatten(inner) + Flatten([]) == Flatten(inner);
    assert Flatten([Struct(fs)]) == [0] + Flatten([]) == Flatten([Scalar(0)]);
  }

  lemma RowEnds(i: nat, j: nat, w: nat)
    requires i > 0 && j < w
    ensures i * w + j >= w && i * w + j - w == (i - 1) * w + j
  {
  }

  /** Rows are kept one after the other. */
  lemma {:induction false} GridIsRowMajor(a: seq<CVal>, w: nat, i: nat, j: nat)
    requires IsGrid(a, w) && i < |a| && j < w
    ensures i * w + j < |Flatten(a)| && Scalar(Flatten(a)[i * w + j]) == a[i].elems[j]
  {
    ScalarsAreKept(a[0].elems);
    assert |Flatten(a[0].elems)| == w;
    if i > 0 {
      GridIsRowMajor(a[1..], w, i - 1, j);
      RowEnds(i, j, w);
    }
  }

  /** The name of a parameter as an expression. */
  function NameOf(q: Key): Expr
    requires q.Qual?
  {
    ScopedIdent(q.pkg, q.name)
  }

  /** The value of an expression in these tables, outside any package. */
  function Read(e: Expr, env: Env): Result<CVal> {
    Eval(e, env, None, NoFunctions())
  }

  /** Field `i` is the one a struct's member is read from: the first of the name or, without any, the first default. */
  predicate IsMember(fields: seq<SField>, field: string, i: nat) {
    && i < |fields|
    && if exists f :: f in fields && f.name == Some(field)
       then fields[i].name == Some(field) && forall j :: 0 <= j < i ==> fields[j].name != Some(field)
       else fields[i].isDefault && forall j :: 0 <= j < i ==> !fields[j].isDefault
  }

  /** Neither a field of this name nor a default. */
  predicate NoMember(fields: seq<SField>, field: string) {
    forall f :: f in fields ==> f.name != Some(field) && !f.isDefault
  }

  /**
   A stored value as expressions read it: a scalar by the parameter's name, an array of scalars as a whole and by
   element, rows of scalars by element one row after the other, a struct as a whole and by member; and the
   scalar fields of structs under their own keys. Within its package the plain name does as well.
   */
  ghost predicate ReadsBack(env: Env, q: Key, v: CVal)
    requires q.Qual?
  {
    && Eval(Ident(q.name), env, Some(q.pkg), NoFunctions()) == Read(NameOf(q), env)
    && (v.Scalar? ==> Read(NameOf(q), env) == Ok(v))
    && (v.Array? && AllScalars(v.elems) ==>
          && Read(NameOf(q), env) == Ok(v)
          && forall i :: 0 <= i < |v.elems| ==> Read(BitSelect(NameOf(q), Decimal(i)), env) == Ok(v.elems[i]))
    && (v.Array? ==> Read(NameOf(q), env) == Ok(Array(Scalars(Flatten(v.elems)))))
    && (v.Array? ==>
          forall w: nat, i: nat, j: nat :: IsGrid(v.elems, w) && i < |v.elems| && j < w ==>
            Read(BitSelect(NameOf(q), Decimal(i * w + j)), env) == Ok(v.elems[i].elems[j]))
    && (v.Array? ==>
          forall i: nat, field: string {:trigger ElemField(q.pkg, q.name, i, field)} ::
            KeyReadsBack(env, ElemField(q.pkg, q.name, i, field),
                         if i < |v.elems| && v.elems[i].Struct? then v.elems[i].fields else [], field))
    && (v.Struct? ==>
          && Read(NameOf(q), env) == Ok(v)
          && (forall field, i: nat {:trigger IsMember(v.fields, field, i)} :: IsMember(v.fields, field, i) ==>
                Read(MemberAccess(NameOf(q), field), env) == Ok(v.fields[i].val))
          && (forall field :: NoMember(v.fields, field) ==> Read(MemberAccess(NameOf(q), field), env) == Err)
          && forall field {:trigger FieldOf(q.pkg, q.name, field)} ::
               KeyReadsBack(env, FieldOf(q.pkg, q.name, field), v.fields, field))
  }

  lemma {:induction false} NamedIs(fields: seq<SField>, field: string, i: nat)
    requires i < |fields| && fields[i].name == Some(field) && forall j :: 0 <= j < i ==> fields[j].name != Some(field)
    ensures NamedField(fields, field) == Some(fields[i].val)
  {
    if i > 0 {
      NamedIs(fields[1..], field, i - 1);
    }
  }

  lemma {:induction false} DefaultIs(fields: seq<SField>, i: nat)
    requires i < |fields| && fields[i].isDefault && forall j :: 0 <= j < i ==> !fields[j].isDefault
    ensures DefaultField(fields) == Some(fields[i].val)
  {
    if i > 0 {
      DefaultIs(fields[1..], i - 1);
    }
  }

  lemma {:induction false} NoneNamed(fields: seq<SField>, field: string)
    requires forall f :: f in fields ==> f.name != Some(field)
    ensures NamedField(fields, field) == None
  {
    if fields != [] {
      assert fields[0] in fields;
      NoneNamed(fields[1..], field);
    }
  }

  lemma {:induction false} NoDefault(fields: seq<SField>)
    requires forall f :: f in fields ==> !f.isDefault
    ensures DefaultField(fields) == None
  {
    if fields != [] {
      assert fields[0] in fields;
      NoDefault(fields[1..]);
    }
  }

  lemma MemberRead(fields: seq<SField>, field: string, i: nat)
    ensures IsMember(fields, field, i) ==> MemberValue(Struct(fields), field) == Ok(fields[i].val)
    ensures NoMember(fields, field) ==> MemberValue(Struct(fields), field) == Err
  {
    if exists f :: f in fields && f.name == Some(field) {
      if IsMember(fields, field, i) {
        NamedIs(fields, field, i);
      }
    } else {
      NoneNamed(fields, field);
      if IsMember(fields, field, i) {
        DefaultIs(fields, i);
      }
      if NoMember(fields, field) {
        NoDefault(fields);
      }
    }
  }

  /** The tables hold of the parameter exactly what storing the value puts there. */
  ghost predicate Holds(env: Env, q: Key, v: CVal)
    requires q.Qual?
  {
    forall k {:trigger Owner(k)} :: Owner(k) == q ==> Agree(env, Insert(EMPTY, q, v), k)
  }

  lemma StoredIsFound(env: Env, q: Key, v: CVal)
    requires q.Qual? && Holds(env, q, v)
    ensures env.Lookup(q) == Some(if v.Array? then Array(Scalars(Flatten(v.elems))) else v)
  {
    assert Owner(q) == q;
    match v {
      case Scalar(_) =>
      case Array(es) => ElemsLocal(EMPTY.scalars, EMPTY.scalars, q, es, q);
      case Struct(fs) => FieldsLocal(EMPTY.scalars, EMPTY.scalars, q, None, fs, q);
    }
  }

  lemma ElemKeyReads(env: Env, q: Key, a: seq<CVal>, i: nat, field: string)
    requires q.Qual? && Holds(env, q, Array(a))
    ensures KeyReadsBack(env, ElemField(q.pkg, q.name, i, field), if i < |a| && a[i].Struct? then a[i].fields else [], field)
  {
    assert Owner(ElemField(q.pkg, q.name, i, field)) == q;
    ElemKeyHolds(EMPTY.scalars, q, a, i, field);
  }

  lemma FieldKeyReads(env: Env, q: Key, fs: seq<SField>, field: string)
    requires q.Qual? && Holds(env, q, Struct(fs))
    ensures KeyReadsBack(env, FieldOf(q.pkg, q.name, field), fs, field)
  {
    assert Owner(FieldOf(q.pkg, q.name, field)) == q;
    FieldKeyHolds(EMPTY.scalars, q, None, fs, field);
  }

  lemma ElementRead(env: Env, q: Key, a: seq<CVal>, i: nat)
    requires q.Qual? && env.Lookup(q) == Some(Array(a)) && i < |a|
    ensures Read(BitSelect(NameOf(q), Decimal(i)), env) == Ok(a[i])
  {
    hide Scalars, Flatten;
    NameRead(env, q, Array(a));
    assert Read(Decimal(i), env) == Ok(Scalar(i));
  }

  lemma MemberOf(env: Env, q: Key, v: CVal, field: string)
    requires q.Qual? && env.Lookup(q) == Some(v)
    ensures Read(MemberAccess(NameOf(q), field), env) == MemberValue(v, field)
  {
    hide MemberValue, Scalars;
    NameRead(env, q, v);
  }

  lemma NameRead(env: Env, q: Key, v: CVal)
    requires q.Qual? && env.Lookup(q) == Some(v)
    ensures Read(NameOf(q), env) == Ok(v)
    ensures Eval(Ident(q.name), env, Some(q.pkg), NoFunctions()) == Ok(v)
  {
  }

  lemma ElementsRead(env: Env, q: Key, a: seq<CVal>)
    requires q.Qual? && env.Lookup(q) == Some(Array(Scalars(Flatten(a))))
    ensures AllScalars(a) ==>
              && Read(NameOf(q), env) == Ok(Array(a))
              && forall i :: 0 <= i < |a| ==> Read(BitSelect(NameOf(q), Decimal(i)), env) == Ok(a[i])
    ensures forall w: nat, i: nat, j: nat :: IsGrid(a, w) && i < |a| && j < w ==>
              Read(BitSelect(NameOf(q), Decimal(i * w + j)), env) == Ok(a[i].elems[j])
  {
    NameRead(env, q, Array(Scalars(Flatten(a))));
    hide Flatten, Read, Eval, IsGrid, Scalars;
    if AllScalars(a) {
      ScalarsAreKept(a);
      forall i: nat | i < |a|
        ensures Read(BitSelect(NameOf(q), Decimal(i)), env) == Ok(a[i])
      {
        ElementRead(env, q, a, i);
      }
    }
    forall w: nat, i: nat, j: nat | IsGrid(a, w) && i < |a| && j < w
      ensures a[i].Array? && j < |a[i].elems|
      ensures Read(BitSelect(NameOf(q), Decimal(i * w + j)), env) == Ok(a[i].elems[j])
    {
      GridRead(env, q, a, w, i, j);
    }
  }

  lemma GridRead(env: Env, q: Key, a: seq<CVal>, w: nat, i: nat, j: nat)
    requires q.Qual? && env.Lookup(q) == Some(Array(Scalars(Flatten(a)))) && IsGrid(a, w) && i < |a| && j < w
    ensures a[i].Array? && j < |a[i].elems|
    ensures Read(BitSelect(NameOf(q), Decimal(i * w + j)), env) == Ok(a[i].elems[j])
  {
    hide *;
    RowOf(a, w, i);
    GridIsRowMajor(a, w, i, j);
    ElementAt(env, q, Flatten(a), i * w + j);
  }

  lemma RowOf(a: seq<CVal>, w: nat, i: nat)
    requires IsGrid(a, w) && i < |a|
    ensures a[i].Array? && |a[i].elems| == w
  {
  }

  lemma ElementAt(env: Env, q: Key, ns: seq<int>, k: int)
    requires q.Qual? && env.Lookup(q) == Some(Array(Scalars(ns))) && 0 <= k < |ns|
    ensures Read(BitSelect(NameOf(q), Decimal(k)), env) == Ok(Scalar(ns[k]))
  {
    hide *;
    ScalarsAre(ns, k);
    ElementRead(env, q, Scalars(ns), k);
  }

  lemma ScalarsAre(ns: seq<int>, i: nat)
    requires i < |ns|
    ensures |Scalars(ns)| == |ns| && Scalars(ns)[i] == Scalar(ns[i])
  {
  }

  lemma ArrayReadsBack(env: Env, q: Key, a: seq<CVal>)
    requires q.Qual? && Holds(env, q, Array(a))
    ensures ReadsBack(env, q, Array(a))
  {
    StoredIsFound(env, q, Array(a));
    NameRead(env, q, Array(Scalars(Flatten(a))));
    forall i: nat, field: string
      ensures KeyReadsBack(env, ElemField(q.pkg, q.name, i, field), if i < |a| && a[i].Struct? then a[i].fields else [], field)
    {
      ElemKeyReads(env, q, a, i, field);
    }
    hide Holds, KeyReadsBack, Flatten, Insert, Read, Eval, AllScalars, IsGrid;
    ElementsRead(env, q, a);
  }

  lemma StructReadsBack(env: Env, q: Key, fs: seq<SField>)
    requires q.Qual? && Holds(env, q, Struct(fs))
    ensures ReadsBack(env, q, Struct(fs))
  {
    StoredIsFound(env, q, Struct(fs));
    forall field: string
      ensures KeyReadsBack(env, FieldOf(q.pkg, q.name, field), fs, field)
    {
      FieldKeyReads(env, q, fs, field);
    }
    NameRead(env, q, Struct(fs));
    hide Holds, KeyReadsBack, Insert, IsMember, NoMember, MemberValue, Read, Eval;
    forall field: string, i: nat
      ensures IsMember(fs, field, i) ==> Read(MemberAccess(NameOf(q), field), env) == Ok(fs[i].val)
      ensures NoMember(fs, field) ==> Read(MemberAccess(NameOf(q), field), env) == Err
    {
      MemberRead(fs, field, i);
      MemberOf(env, q, Struct(fs), field);
    }
  }

  lemma StoredReadsBack(env: Env, q: Key, v: CVal)
    requires q.Qual? && Holds(env, q, v)
    ensures ReadsBack(env, q, v)
  {
    match v
    case Scalar(_) =>
      StoredIsFound(env, q, v);
      NameRead(env, q, v);
    case Array(a) => ArrayReadsBack(env, q, a);
    case Struct(fs) => StructReadsBack(env, q, fs);
  }
}
