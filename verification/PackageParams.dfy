/**
 Package parameters: the evaluator goes round the parameters, in whatever order the tables happen to give
 them, storing each default that has a value, until a round changes nothing or 256 rounds have passed.
 */
module PackageParams {
  import opened Basics
  import opened Outcomes
  import opened ConstSyntax
  import opened ExtEval
  import opened PackageStore

  /** The parameters and their defaults. */
  type Params = map<Key, Expr>

  /** Parameters have qualified names, and no parameter is called by a number. */
  ghost predicate WellNamed(params: Params) {
    forall q :: q in params ==> q.Qual? && q.name != "1"
  }

  // ---- visits ----

  function Default(params: Params, env: Env, q: Key): Result<CVal>
    requires q in params && q.Qual?
  {
    Eval(params[q], env, Some(q.pkg), NoFunctions())
  }

  /** One visit: a parameter not stored yet is stored if its default has a value. */
  function Visit(params: Params, env: Env, q: Key): Env
    requires q in params && q.Qual?
  {
    if Has(env, q) then env
    else match Default(params, env, q)
         case Ok(v) => Insert(env, q, v)
         case Err => env
  }

  /** A run is a sequence of visits. */
  ghost predicate Visits(params: Params, order: seq<Key>) {
    forall q :: q in order ==> q in params
  }

  ghost function Run(params: Params, order: seq<Key>): Env
    requires WellNamed(params) && Visits(params, order)
  {
    if order == [] then EMPTY
    else
      var n := |order| - 1;
      assert order[n] in order;
      Visit(params, Run(params, order[..n]), order[n])
  }

  // ---- what every run keeps ----

  /** What the tables hold of key `k` is exactly what its parameter's default, evaluated in these same tables, stores. */
  ghost predicate ExplainedAt(params: Params, env: Env, k: Key)
    requires WellNamed(params)
  {
    var q := Owner(k);
    if q in params && Has(env, q)
    then Default(params, env, q).Ok? && Agree(env, Insert(EMPTY, q, Default(params, env, q).value), k)
    else NothingAt(env, k)
  }

  ghost predicate Explained(params: Params, env: Env)
    requires WellNamed(params)
  {
    forall k {:trigger Owner(k)} :: ExplainedAt(params, env, k)
  }

  /** Every parameter stored reads back as what its default, evaluated in these same tables, is. */
  ghost predicate ReadBack(params: Params, env: Env)
    requires WellNamed(params)
  {
    forall q :: q in params && env.Lookup(q).Some? ==>
      var r := Eval(params[q], env, Some(q.pkg), NoFunctions());
      r.Ok? && ReadsBack(env, q, r.value)
  }

  lemma ExplainedReadsBack(params: Params, env: Env)
    requires WellNamed(params) && Explained(params, env)
    ensures ReadBack(params, env)
  {
    forall q | q in params && env.Lookup(q).Some?
      ensures Default(params, env, q).Ok? && ReadsBack(env, q, Default(params, env, q).value)
    {
      assert Owner(q) == q && ExplainedAt(params, env, q);
      var v := Default(params, env, q).value;
      forall k | Owner(k) == q
        ensures Agree(env, Insert(EMPTY, q, v), k)
      {
        assert ExplainedAt(params, env, k);
      }
      hide Default, ReadsBack, Insert;
      StoredReadsBack(env, q, v);
    }
  }

  /** Every parameter left out still fails. */
  ghost predicate Complete(params: Params, env: Env)
    requires WellNamed(params)
  {
    forall q :: q in params && env.Lookup(q) == None ==> Eval(params[q], env, Some(q.pkg), NoFunctions()) == Err
  }

  lemma ExplainedIsQualified(params: Params, env: Env)
    requires WellNamed(params) && Explained(params, env)
    ensures Qualified(env)
  {
    forall k | env.Lookup(k).Some?
      ensures !k.Plain? && k.name != "1"
    {
      assert ExplainedAt(params, env, k) && Owner(k).name == k.name;
    }
  }

  lemma VisitExtends(params: Params, env: Env, q: Key)
    requires WellNamed(params) && Explained(params, env) && q in params
    ensures Extends(env, Visit(params, env, q))
    ensures forall k {:trigger Owner(k)} :: Owner(k) != q ==> Agree(Visit(params, env, q), env, k)
    ensures !Has(env, q) && Default(params, env, q).Ok? ==>
              forall k {:trigger Owner(k)} :: Owner(k) == q ==>
                Agree(Visit(params, env, q), Insert(EMPTY, q, Default(params, env, q).value), k)
  {
    if !Has(env, q) && Default(params, env, q).Ok? {
      var v := Default(params, env, q).value;
      forall k
        ensures Owner(k) != q ==> Agree(Insert(env, q, v), env, k)
        ensures Owner(k) == q ==> NothingAt(env, k) && Agree(Insert(env, q, v), Insert(EMPTY, q, v), k)
      {
        assert ExplainedAt(params, env, k);
        InsertLocal(env, EMPTY, q, v, k);
      }
      forall k | env.Lookup(k).Some?
        ensures Visit(params, env, q).Lookup(k) == env.Lookup(k)
      {
        assert Agree(Insert(env, q, v), env, k);
      }
    }
  }

  /** A visit keeps the tables explained: values stored earlier are still what their defaults evaluate to. */
  lemma VisitExplained(params: Params, env: Env, q: Key)
    requires WellNamed(params) && Explained(params, env) && q in params
    ensures Explained(params, Visit(params, env, q))
    ensures ReadBack(params, Visit(params, env, q))
  {
    VisitStaysExplained(params, env, q);
    ExplainedReadsBack(params, Visit(params, env, q));
  }

  lemma VisitStaysExplained(params: Params, env: Env, q: Key)
    requires WellNamed(params) && Explained(params, env) && q in params
    ensures Explained(params, Visit(params, env, q))
  {
    if !Has(env, q) && Default(params, env, q).Ok? {
      var v, next := Default(params, env, q).value, Visit(params, env, q);
      VisitExtends(params, env, q);
      VisitQualified(params, env, q);
      EvalMonotone(params[q], env, next, Some(q.pkg), NoFunctions());
      forall k
        ensures ExplainedAt(params, next, k)
      {
        assert ExplainedAt(params, env, k);
        var p := Owner(k);
        assert Owner(p) == p;
        if p != q && p in params && Has(env, p) {
          EvalMonotone(params[p], env, next, Some(p.pkg), NoFunctions());
        }
      }
    }
  }

  lemma VisitQualified(params: Params, env: Env, q: Key)
    requires WellNamed(params) && Explained(params, env) && q in params
    ensures Qualified(Visit(params, env, q))
  {
    VisitExtends(params, env, q);
    ExplainedIsQualified(params, env);
    forall k | Visit(params, env, q).Lookup(k).Some?
      ensures !k.Plain? && k.name != "1"
    {
      assert Owner(k).name == k.name;
      assert Owner(k) != q ==> Agree(Visit(params, env, q), env, k);
    }
  }

  /** Every table a run reaches is explained, and what it stores reads back as the default. */
  lemma RunExplained(params: Params, order: seq<Key>)
    requires WellNamed(params) && Visits(params, order)
    ensures Explained(params, Run(params, order))
    ensures ReadBack(params, Run(params, order))
  {
    RunStaysExplained(params, order);
    ExplainedReadsBack(params, Run(params, order));
  }

  lemma {:induction false} RunStaysExplained(params: Params, order: seq<Key>)
    requires WellNamed(params) && Visits(params, order)
    ensures Explained(params, Run(params, order))
  {
    if order == [] {
      forall k
        ensures ExplainedAt(params, EMPTY, k)
      {
        assert NothingAt(EMPTY, k) && !Has(EMPTY, Owner(k));
      }
    } else {
      var n := |order| - 1;
      RunStaysExplained(params, order[..n]);
      assert order[n] in order;
      VisitStaysExplained(params, Run(params, order[..n]), order[n]);
    }
  }

  // ---- the order does not matter ----

  /** Everything `a` holds, `b` holds. */
  ghost predicate Within(a: Env, b: Env) {
    forall k {:trigger Owner(k)} :: NothingAt(a, k) || Agree(a, b, k)
  }

  lemma VisitWithin(params: Params, env: Env, q: Key, final: Env)
    requires WellNamed(params) && Explained(params, env) && q in params
    requires Explained(params, final) && Within(env, final) && (Has(final, q) || Complete(params, final))
    ensures Within(Visit(params, env, q), final)
  {
    hide Eval, Insert, ReadBack, Qualified;
    if !Has(env, q) && Default(params, env, q).Ok? {
      VisitExtends(params, env, q);
      ExplainedIsQualified(params, final);
      forall k | env.Lookup(k).Some?
        ensures final.Lookup(k) == env.Lookup(k)
      {
        assert Owner(k) == Owner(k);
      }
      EvalMonotone(params[q], env, final, Some(q.pkg), NoFunctions());
      forall k
        ensures NothingAt(Visit(params, env, q), k) || Agree(Visit(params, env, q), final, k)
      {
        assert ExplainedAt(params, final, k);
        assert Owner(k) != q ==> Agree(Visit(params, env, q), env, k);
      }
    }
  }

  /** Whatever a run stores is in every explained and complete table: the result is the least of them. */
  lemma {:induction false} RunIsLeast(params: Params, order: seq<Key>, final: Env)
    requires WellNamed(params) && Visits(params, order)
    requires Explained(params, final) && Complete(params, final)
    ensures Within(Run(params, order), final)
  {
    if order == [] {
      assert Run(params, order) == EMPTY;
      assert forall k :: NothingAt(EMPTY, k);
    } else {
      var n := |order| - 1;
      RunIsLeast(params, order[..n], final);
      RunExplained(params, order[..n]);
      assert order[n] in order;
      VisitWithin(params, Run(params, order[..n]), order[n], final);
    }
  }

  lemma WithinBothWays(a: Env, b: Env)
    requires Within(a, b) && Within(b, a)
    ensures a == b
  {
    forall k
      ensures SameAt(a.scalars, b.scalars, k) && SameAt(a.arrays, b.arrays, k) && SameAt(a.structs, b.structs, k)
    {
      assert Owner(k) == Owner(k);
    }
    SameTables(a.scalars, b.scalars);
    SameTables(a.arrays, b.arrays);
    SameTables(a.structs, b.structs);
  }

  lemma SameTables<T>(s: map<Key, T>, t: map<Key, T>)
    requires forall k :: SameAt(s, t, k)
    ensures s == t
  {
    assert forall k :: k in s ==> SameAt(s, t, k);
    assert forall k :: k in t ==> SameAt(s, t, k);
  }

  /** Any two runs that leave nothing to store end in the same tables, whatever order they visited in. */
  lemma OrderDoesNotMatter(params: Params, order: seq<Key>, other: seq<Key>)
    requires WellNamed(params) && Visits(params, order) && Visits(params, other)
    requires Complete(params, Run(params, order)) && Complete(params, Run(params, other))
    ensures Run(params, order) == Run(params, other)
  {
    RunExplained(params, order);
    RunExplained(params, other);
    RunIsLeast(params, order, Run(params, other));
    RunIsLeast(params, other, Run(params, order));
    WithinBothWays(Run(params, order), Run(params, other));
  }

  // ---- the algorithm ----

  method StoreFields(s: map<Key, int>, q: Key, at: Option<nat>, fields: seq<SField>) returns (t: map<Key, int>)
    requires q.Qual?
    ensures t == RecordFields(s, q, at, fields)
  {
    t := s;
    for i := 0 to |fields|
      invariant t == RecordFields(s, q, at, fields[..i])
    {
      assert fields[..i + 1][..i] == fields[..i];
      t := RecordField(t, q, at, fields[i]);
    }
    assert fields[..|fields|] == fields;
  }

  method StoreElems(s: map<Key, int>, q: Key, elems: seq<CVal>) returns (t: map<Key, int>)
    requires q.Qual?
    ensures t == RecordElems(s, q, elems)
  {
    t := s;
    for i := 0 to |elems|
      invariant t == RecordElems(s, q, elems[..i])
    {
      assert elems[..i + 1][..i] == elems[..i];
      if elems[i].Struct? {
        t := StoreFields(t, q, Some(i), elems[i].fields);
      }
    }
    assert elems[..|elems|] == elems;
  }

  /** The parameters that have been stored. */
  ghost function Stored(params: Params, env: Env): set<Key> {
    set q | q in params && Has(env, q)
  }

  lemma VisitStores(params: Params, env: Env, q: Key)
    requires WellNamed(params) && Explained(params, env) && q in params
    ensures Stored(params, Visit(params, env, q)) ==
            if Default(params, env, q).Ok? then Stored(params, env) + {q} else Stored(params, env)
  {
    assert ExplainedAt(params, env, q);
    VisitExtends(params, env, q);
    forall p | p in params && p != q
      ensures Has(Visit(params, env, q), p) == Has(env, p)
    {
      assert Owner(p) == p;
    }
    if !Has(env, q) && Default(params, env, q).Ok? {
      InsertLocal(env, env, q, Default(params, env, q).value, q);
    }
  }

  lemma AllStored(params: Params, env: Env)
    requires WellNamed(params) && |Stored(params, env)| >= |params|
    ensures Complete(params, env)
  {
    var left := params.Keys - Stored(params, env);
    assert |left| == |params.Keys| - |Stored(params, env)|;
    assert forall q :: q in params && !Has(env, q) ==> q in left;
  }

  /** Stores one value, the way `Insert` says. */
  method Store(env: Env, q: Key, v: CVal) returns (next: Env)
    requires q.Qual?
    ensures next == Insert(env, q, v)
  {
    var scalars, arrays, structs := env.scalars, env.arrays, env.structs;
    match v {
      case Scalar(n) =>
        scalars := scalars[q := n];
      case Array(a) =>
        arrays := arrays[q := Flatten(a)];
        scalars := StoreElems(scalars, q, a);
      case Struct(fields) =>
        structs := structs[q := fields];
        scalars := StoreFields(scalars, q, None, fields);
    }
    next := Env(scalars, arrays, structs);
  }

  lemma RunSnoc(params: Params, order: seq<Key>, q: Key)
    requires WellNamed(params) && Visits(params, order) && q in params
    ensures Visits(params, order + [q])
    ensures Run(params, order + [q]) == Visit(params, Run(params, order), q)
  {
    assert (order + [q])[..|order|] == order;
    assert forall p :: p in order + [q] ==> p in order || p == q;
  }

  lemma RunStep(params: Params, order: seq<Key>, q: Key)
    requires WellNamed(params) && Visits(params, order) && q in params
    ensures Visits(params, order + [q])
    ensures Run(params, order + [q]) == Visit(params, Run(params, order), q)
    ensures var (env, next) := (Run(params, order), Run(params, order + [q]));
            if !Has(env, q) && Default(params, env, q).Ok?
            then |Stored(params, next)| == |Stored(params, env)| + 1
            else next == env
  {
    RunSnoc(params, order, q);
    RunExplained(params, order);
    VisitStores(params, Run(params, order), q);
    assert !Has(Run(params, order), q) ==> q !in Stored(params, Run(params, order));
  }

  // ---- rounds, and the laziest of them ----

  /** A round visits every parameter once. */
  ghost predicate IsRound(params: Params, round: seq<Key>) {
    Visits(params, round) && Distinct(round) && forall q :: q in params ==> q in round
  }

  /** `n` rounds one after the other, each in an order of its own. */
  ghost predicate IsRounds(params: Params, order: seq<Key>, n: nat)
    decreases n
  {
    if n == 0 then order == []
    else exists k: nat :: k <= |order| && IsRounds(params, order[..k], n - 1) && IsRound(params, order[k..])
  }

  /** The same order `n` times. */
  ghost function Repeated(round: seq<Key>, n: nat): seq<Key> {
    if n == 0 then [] else Repeated(round, n - 1) + round
  }

  ghost function RunFrom(params: Params, env: Env, order: seq<Key>): Env
    requires WellNamed(params) && Visits(params, order)
  {
    if order == [] then env
    else
      var n := |order| - 1;
      assert order[n] in order;
      Visit(params, RunFrom(params, env, order[..n]), order[n])
  }

  lemma {:induction false} RunFromAppend(params: Params, env: Env, a: seq<Key>, b: seq<Key>)
    requires WellNamed(params) && Visits(params, a) && Visits(params, b)
    ensures Visits(params, a + b)
    ensures RunFrom(params, env, a + b) == RunFrom(params, RunFrom(params, env, a), b)
  {
    hide Visit;
    if b == [] {
      assert a + b == a;
    } else {
      var n := |b| - 1;
      assert b[n] in b;
      RunFromAppend(params, env, a, b[..n]);
      assert (a + b)[..|a| + n] == a + b[..n] && (a + b)[|a| + n] == b[n];
    }
  }

  lemma {:induction false} RunIsRunFrom(params: Params, order: seq<Key>)
    requires WellNamed(params) && Visits(params, order)
    ensures Run(params, order) == RunFrom(params, EMPTY, order)
  {
    hide Visit;
    if order != [] {
      RunIsRunFrom(params, order[..|order| - 1]);
    }
  }

  /** Visiting keeps the tables explained and everything they hold. */
  lemma {:induction false} RunFromKeeps(params: Params, env: Env, order: seq<Key>)
    requires WellNamed(params) && Explained(params, env) && Visits(params, order)
    ensures var end := RunFrom(params, env, order);
            Explained(params, end) && Qualified(end) && Extends(env, end) && Within(env, end)
            && Stored(params, env) <= Stored(params, end)
    decreases |order|
  {
    if order == [] {
      ExplainedIsQualified(params, env);
      assert forall k :: Agree(env, env, k);
    } else {
      var n := |order| - 1;
      assert order[n] in order;
      RunFromKeeps(params, env, order[..n]);
      VisitKeeps(params, env, RunFrom(params, env, order[..n]), order[n]);
    }
  }

  lemma VisitKeeps(params: Params, start: Env, env: Env, q: Key)
    requires WellNamed(params) && Explained(params, env) && q in params
    requires Extends(start, env) && Within(start, env) && Stored(params, start) <= Stored(params, env)
    ensures var end := Visit(params, env, q);
            Explained(params, end) && Qualified(end) && Extends(start, end) && Within(start, end)
            && Stored(params, start) <= Stored(params, end)
  {
    VisitExplained(params, env, q);
    VisitQualified(params, env, q);
    VisitExtends(params, env, q);
    VisitStores(params, env, q);
    var end := Visit(params, env, q);
    hide Visit, Explained, Has, Qualified;
    forall k
      ensures NothingAt(start, k) || Agree(start, end, k)
    {
      VisitKeepsAt(params, start, env, q, k);
    }
  }

  lemma VisitKeepsAt(params: Params, start: Env, env: Env, q: Key, k: Key)
    requires WellNamed(params) && Explained(params, env) && q in params && Within(start, env)
    ensures NothingAt(start, k) || Agree(start, Visit(params, env, q), k)
  {
    VisitExtends(params, env, q);
    assert ExplainedAt(params, env, k);
    assert Owner(k) == Owner(k);
  }

  /** Parameters that are stored already, or have no value yet, are passed over. */
  lemma {:induction false} RunFromSkips(params: Params, env: Env, order: seq<Key>)
    requires WellNamed(params) && Visits(params, order)
    requires forall q :: q in order ==> Has(env, q) || Default(params, env, q).Err?
    ensures RunFrom(params, env, order) == env
    decreases |order|
  {
    if order != [] {
      var n := |order| - 1;
      assert order[n] in order;
      RunFromSkips(params, env, order[..n]);
    }
  }

  /** A parameter that has a value when a round begins is stored when it ends. */
  lemma {:induction false} RoundStores(params: Params, env: Env, order: seq<Key>, q: Key)
    requires WellNamed(params) && Explained(params, env) && Visits(params, order)
    requires q in order && Default(params, env, q).Ok?
    ensures Has(RunFrom(params, env, order), q)
    decreases |order|
  {
    var n := |order| - 1;
    assert order[n] in order;
    var before := RunFrom(params, env, order[..n]);
    RunFromKeeps(params, env, order[..n]);
    VisitStores(params, before, order[n]);
    if order[n] == q {
      EvalMonotone(params[q], env, before, Some(q.pkg), NoFunctions());
    } else {
      assert q in order[..n];
      RoundStores(params, env, order[..n], q);
      assert q in Stored(params, before);
    }
    assert q in Stored(params, RunFrom(params, env, order));
  }

  /** What can be stored now. */
  ghost function Ready(params: Params, env: Env): set<Key>
    requires WellNamed(params)
  {
    set q | q in params && !Has(env, q) && Default(params, env, q).Ok?
  }

  lemma ReadyIs(params: Params, env: Env)
    requires WellNamed(params)
    ensures Ready(params, env) !! Stored(params, env) && Ready(params, env) <= params.Keys
    ensures Ready(params, env) == {} ==> Complete(params, env)
  {
    assert forall q :: q in params && !Has(env, q) && Default(params, env, q).Ok? ==> q in Ready(params, env);
  }

  ghost function Listed(s: set<Key>): (q: seq<Key>)
    ensures Distinct(q) && forall x :: x in q <==> x in s
  {
    if s == {} then []
    else
      var x :| x in s;
      Listed(s - {x}) + [x]
  }

  /** The tables after `k` rounds each of which stores no more than what had a value when it began. */
  ghost function LazyEnv(params: Params, k: nat): (env: Env)
    requires WellNamed(params)
    ensures Explained(params, env)
  {
    if k == 0 then
      RunExplained(params, []);
      EMPTY
    else
      var before := LazyEnv(params, k - 1);
      RunFromKeeps(params, before, Listed(Ready(params, before)));
      RunFrom(params, before, Listed(Ready(params, before)))
  }

  /** A parameter visited keeps the rest of what is stored. */
  lemma {:induction false} OnlyVisitedStored(params: Params, env: Env, order: seq<Key>)
    requires WellNamed(params) && Explained(params, env) && Visits(params, order)
    ensures forall q :: q in Stored(params, RunFrom(params, env, order)) ==> q in Stored(params, env) || q in order
    decreases |order|
  {
    if order != [] {
      var n := |order| - 1;
      assert order[n] in order;
      OnlyVisitedStored(params, env, order[..n]);
      RunFromKeeps(params, env, order[..n]);
      VisitStores(params, RunFrom(params, env, order[..n]), order[n]);
    }
  }

  /** Each lazy round stores exactly what was ready. */
  lemma LazyStores(params: Params, k: nat)
    requires WellNamed(params)
    ensures var env := LazyEnv(params, k);
            Stored(params, LazyEnv(params, k + 1)) == Stored(params, env) + Ready(params, env)
  {
    var env := LazyEnv(params, k);
    var ready := Listed(Ready(params, env));
    RunFromKeeps(params, env, ready);
    OnlyVisitedStored(params, env, ready);
    forall q | q in ready
      ensures q in Stored(params, LazyEnv(params, k + 1))
    {
      RoundStores(params, env, ready, q);
    }
  }

  lemma {:induction false} LazyGrows(params: Params, k: nat, n: nat)
    requires WellNamed(params) && k <= n
    ensures Stored(params, LazyEnv(params, k)) <= Stored(params, LazyEnv(params, n))
    decreases n
  {
    hide LazyEnv, Stored, Ready;
    if k < n {
      LazyGrows(params, k, n - 1);
      LazyStores(params, n - 1);
    }
  }

  /** What a later round finds ready is neither stored nor ready now. */
  lemma NotYetReady(params: Params, k: nat, j: nat, q: Key)
    requires WellNamed(params) && k < j && q in params && !Has(LazyEnv(params, j), q)
    ensures !Has(LazyEnv(params, k), q) && Default(params, LazyEnv(params, k), q).Err?
  {
    LazyStores(params, k);
    LazyGrows(params, k + 1, j);
    assert q !in Stored(params, LazyEnv(params, j));
  }

  /** What the first `n` lazy rounds store, the last round's first. */
  ghost function Stages(params: Params, n: nat): seq<Key>
    requires WellNamed(params)
  {
    if n == 0 then [] else Listed(Ready(params, LazyEnv(params, n - 1))) + Stages(params, n - 1)
  }

  lemma NothingYet(params: Params)
    requires WellNamed(params)
    ensures LazyEnv(params, 0) == Run(params, []) == EMPTY && Stored(params, EMPTY) == {}
  {
  }

  lemma {:induction false} StagesAre(params: Params, n: nat)
    requires WellNamed(params)
    ensures Visits(params, Stages(params, n)) && Distinct(Stages(params, n))
    ensures forall q :: q in Stages(params, n) <==> q in Stored(params, LazyEnv(params, n))
  {
    hide LazyEnv, Stored, Ready, Listed, Has;
    if n > 0 {
      StagesAre(params, n - 1);
      LazyStores(params, n - 1);
      ReadyIs(params, LazyEnv(params, n - 1));
      DistinctAppend(Listed(Ready(params, LazyEnv(params, n - 1))), Stages(params, n - 1));
    } else {
      NothingYet(params);
    }
  }

  /** A round in this order stores as little as a round can, `n` times over. */
  ghost function Laziest(params: Params, n: nat): seq<Key>
    requires WellNamed(params)
  {
    Listed(params.Keys - Stored(params, LazyEnv(params, n))) + Stages(params, n)
  }

  lemma LaziestIsRound(params: Params, n: nat)
    requires WellNamed(params)
    ensures IsRound(params, Laziest(params, n)) && Visits(params, Stages(params, n))
  {
    StagesAre(params, n);
    var stored := Stored(params, LazyEnv(params, n));
    hide LazyEnv, Stored, Stages;
    DistinctAppend(Listed(params.Keys - stored), Stages(params, n));
  }

  lemma {:induction false} StagesStore(params: Params, k: nat, j: nat)
    requires WellNamed(params)
    ensures Visits(params, Stages(params, j))
    ensures RunFrom(params, LazyEnv(params, k), Stages(params, j)) == LazyEnv(params, if j > k then k + 1 else k)
    decreases j
  {
    hide LazyEnv, Ready, RunFrom, Listed;
    StagesAre(params, j);
    if j == 0 {
      NoVisits(params, LazyEnv(params, k));
    } else {
      if j == k + 1 {
        LazyStep(params, k);
        StagesStore(params, k + 1, j - 1);
      } else {
        StageSkips(params, k, j);
        StagesStore(params, k, j - 1);
      }
      RunFromAppend(params, LazyEnv(params, k), Listed(Ready(params, LazyEnv(params, j - 1))), Stages(params, j - 1));
    }
  }

  lemma NoVisits(params: Params, env: Env)
    requires WellNamed(params)
    ensures RunFrom(params, env, []) == env
  {
  }

  lemma LazyStep(params: Params, k: nat)
    requires WellNamed(params)
    ensures var ready := Listed(Ready(params, LazyEnv(params, k)));
            Visits(params, ready) && LazyEnv(params, k + 1) == RunFrom(params, LazyEnv(params, k), ready)
  {
    hide RunFrom;
  }

  /** Another stage than the next is passed over. */
  lemma StageSkips(params: Params, k: nat, j: nat)
    requires WellNamed(params) && 0 < j != k + 1
    ensures var stage := Listed(Ready(params, LazyEnv(params, j - 1)));
            Visits(params, stage) && RunFrom(params, LazyEnv(params, k), stage) == LazyEnv(params, k)
  {
    hide LazyEnv, Ready, Has, Default, RunFrom, Listed;
    ReadyIs(params, LazyEnv(params, j - 1));
    var stage := Listed(Ready(params, LazyEnv(params, j - 1)));
    forall q | q in stage
      ensures Has(LazyEnv(params, k), q) || Default(params, LazyEnv(params, k), q).Err?
    {
      StagePassedOver(params, k, j, q);
    }
    RunFromSkips(params, LazyEnv(params, k), stage);
  }

  lemma StoredIs(params: Params, env: Env, q: Key)
    ensures q in Stored(params, env) <==> q in params && Has(env, q)
  {
  }

  lemma StagePassedOver(params: Params, k: nat, j: nat, q: Key)
    requires WellNamed(params) && 0 < j != k + 1 && q in Ready(params, LazyEnv(params, j - 1))
    ensures q in params
    ensures Has(LazyEnv(params, k), q) || Default(params, LazyEnv(params, k), q).Err?
  {
    hide LazyEnv, Stored, Ready, Has, Default;
    ReadyIs(params, LazyEnv(params, j - 1));
    StoredIs(params, LazyEnv(params, j - 1), q);
    if j > k + 1 {
      NotYetReady(params, k, j - 1, q);
    } else {
      LazyStores(params, j - 1);
      LazyGrows(params, j, k);
      StoredIs(params, LazyEnv(params, k), q);
    }
  }

  lemma LaziestStores(params: Params, n: nat, k: nat)
    requires WellNamed(params) && k < n
    ensures IsRound(params, Laziest(params, n))
    ensures RunFrom(params, LazyEnv(params, k), Laziest(params, n)) == LazyEnv(params, k + 1)
  {
    LaziestIsRound(params, n);
    var env, rest := LazyEnv(params, k), Listed(params.Keys - Stored(params, LazyEnv(params, n)));
    RunFromAppend(params, env, rest, Stages(params, n));
    forall q | q in rest
      ensures Has(env, q) || Default(params, env, q).Err?
    {
      NotYetReady(params, k, n, q);
    }
    RunFromSkips(params, env, rest);
    StagesStore(params, k, n);
  }

  /** The lazy tables are those of one fixed order, gone round again and again. */
  lemma {:induction false} LaziestRun(params: Params, n: nat, k: nat)
    requires WellNamed(params) && k <= n
    ensures IsRound(params, Laziest(params, n))
    ensures Visits(params, Repeated(Laziest(params, n), k))
    ensures Run(params, Repeated(Laziest(params, n), k)) == LazyEnv(params, k)
    decreases k
  {
    hide Laziest, LazyEnv, IsRound, Run, RunFrom;
    LaziestIsRound(params, n);
    if k > 0 {
      LaziestRun(params, n, k - 1);
      LaziestStores(params, n, k - 1);
      RoundVisits(params, Laziest(params, n));
      RunAppend(params, Repeated(Laziest(params, n), k - 1), Laziest(params, n));
    } else {
      NothingYet(params);
    }
  }

  lemma RoundVisits(params: Params, round: seq<Key>)
    requires IsRound(params, round)
    ensures Visits(params, round)
  {
  }

  lemma RunAppend(params: Params, a: seq<Key>, b: seq<Key>)
    requires WellNamed(params) && Visits(params, a) && Visits(params, b)
    ensures Visits(params, a + b) && Run(params, a + b) == RunFrom(params, Run(params, a), b)
  {
    RunFromAppend(params, EMPTY, a, b);
    RunIsRunFrom(params, a);
    RunIsRunFrom(params, a + b);
  }

  lemma RoundsAppend(params: Params, before: seq<Key>, round: seq<Key>, n: nat)
    requires IsRounds(params, before, n) && IsRound(params, round)
    ensures IsRounds(params, before + round, n + 1)
  {
    var order, k := before + round, |before|;
    assert order[..k] == before && order[k..] == round;
  }

  lemma {:induction false} RoundsVisit(params: Params, order: seq<Key>, n: nat)
    requires IsRounds(params, order, n)
    ensures Visits(params, order)
    decreases n
  {
    if n > 0 {
      var k: nat :| k <= |order| && IsRounds(params, order[..k], n - 1) && IsRound(params, order[k..]);
      RoundsVisit(params, order[..k], n - 1);
      assert order == order[..k] + order[k..];
    }
  }

  /** Visits of what `final` has stay within it. */
  lemma {:induction false} FillWithin(params: Params, env: Env, order: seq<Key>, final: Env)
    requires WellNamed(params) && Explained(params, env) && Explained(params, final) && Visits(params, order)
    requires Within(env, final) && forall q :: q in order ==> Has(final, q)
    ensures Within(RunFrom(params, env, order), final)
    decreases |order|
  {
    if order != [] {
      var n := |order| - 1;
      assert order[n] in order;
      FillWithin(params, env, order[..n], final);
      RunFromKeeps(params, env, order[..n]);
      VisitWithin(params, RunFrom(params, env, order[..n]), order[n], final);
    }
  }

  lemma WithinExtends(a: Env, b: Env)
    requires Within(a, b)
    ensures Extends(a, b)
  {
    forall k | a.Lookup(k).Some?
      ensures b.Lookup(k) == a.Lookup(k)
    {
      assert Owner(k) == Owner(k);
    }
  }

  lemma WithinJoins(a: Env, b: Env, c: Env)
    requires Within(a, b) && Within(b, c)
    ensures Within(a, c)
  {
    forall k
      ensures NothingAt(a, k) || Agree(a, c, k)
    {
      assert Owner(k) == Owner(k);
    }
  }

  /** Whatever the orders, `n` rounds store at least what `n` lazy rounds do. */
  lemma {:induction false} LazyIsLeast(params: Params, order: seq<Key>, n: nat)
    requires WellNamed(params) && IsRounds(params, order, n) && Visits(params, order)
    ensures Within(LazyEnv(params, n), Run(params, order))
    decreases n
  {
    if n == 0 {
      assert forall k :: NothingAt(EMPTY, k);
    } else {
      var k: nat :| k <= |order| && IsRounds(params, order[..k], n - 1) && IsRound(params, order[k..]);
      RoundsVisit(params, order[..k], n - 1);
      LazyIsLeast(params, order[..k], n - 1);
      assert order == order[..k] + order[k..];
      RunAppend(params, order[..k], order[k..]);
      RunStaysExplained(params, order[..k]);
      hide Run, Visit, Explained, Within, Ready, IsRounds, IsRound, Visits, Complete, Listed;
      LazyRoundWithin(params, LazyEnv(params, n - 1), Run(params, order[..k]), order[k..]);
    }
  }

  lemma LazyRoundWithin(params: Params, lazy: Env, env: Env, round: seq<Key>)
    requires WellNamed(params) && Explained(params, lazy) && Explained(params, env)
    requires Within(lazy, env) && IsRound(params, round)
    ensures Within(RunFrom(params, lazy, Listed(Ready(params, lazy))), RunFrom(params, env, round))
  {
    var ready, final := Listed(Ready(params, lazy)), RunFrom(params, env, round);
    RunFromKeeps(params, env, round);
    WithinJoins(lazy, env, final);
    WithinExtends(lazy, env);
    ExplainedIsQualified(params, env);
    forall q | q in ready
      ensures Has(final, q)
    {
      EvalMonotone(params[q], lazy, env, Some(q.pkg), NoFunctions());
      RoundStores(params, env, round, q);
    }
    FillWithin(params, lazy, ready, final);
  }

  /** Every run of `n` rounds, whatever the orders, leaves nothing to store. */
  ghost predicate RoundsSuffice(params: Params, n: nat)
    requires WellNamed(params)
  {
    forall order :: IsRounds(params, order, n) && Visits(params, order) ==> Complete(params, Run(params, order))
  }

  /** So does every run that keeps one order for all its rounds. */
  ghost predicate OneOrderSuffices(params: Params, n: nat)
    requires WellNamed(params)
  {
    forall round {:trigger Repeated(round, n)} ::
      IsRound(params, round) && Visits(params, Repeated(round, n)) ==> Complete(params, Run(params, Repeated(round, n)))
  }

  /**
   Whether `n` rounds are enough is decided by the lazy rounds alone: every run is complete exactly if they
   are, and it makes no difference whether the order may change from round to round.
   */
  lemma RoundsSufficeIff(params: Params, n: nat)
    requires WellNamed(params)
    ensures RoundsSuffice(params, n) <==> Complete(params, LazyEnv(params, n))
    ensures OneOrderSuffices(params, n) <==> Complete(params, LazyEnv(params, n))
  {
    LaziestRun(params, n, n);
    RepeatedRounds(params, Laziest(params, n), n);
    hide Laziest, LazyEnv, Complete, Run, IsRounds, IsRound;
    if Complete(params, LazyEnv(params, n)) {
      forall order | IsRounds(params, order, n) && Visits(params, order)
        ensures Complete(params, Run(params, order))
      {
        LazyCompletes(params, order, n);
      }
      forall r | IsRound(params, r)
        ensures IsRounds(params, Repeated(r, n), n)
      {
        RepeatedRounds(params, r, n);
      }
    }
  }

  lemma {:induction false} RepeatedRounds(params: Params, round: seq<Key>, n: nat)
    requires IsRound(params, round)
    ensures IsRounds(params, Repeated(round, n), n)
    decreases n
  {
    if n > 0 {
      RepeatedRounds(params, round, n - 1);
      RoundsAppend(params, Repeated(round, n - 1), round, n - 1);
    }
  }

  lemma LazyCompletes(params: Params, order: seq<Key>, n: nat)
    requires WellNamed(params) && IsRounds(params, order, n) && Visits(params, order)
    requires Complete(params, LazyEnv(params, n))
    ensures Run(params, order) == LazyEnv(params, n)
  {
    LazyIsLeast(params, order, n);
    RunIsLeast(params, order, LazyEnv(params, n));
    WithinBothWays(Run(params, order), LazyEnv(params, n));
  }

  /** Lazy rounds that are complete stay so. */
  lemma {:induction false} LazyStays(params: Params, k: nat, n: nat)
    requires WellNamed(params) && k <= n && Complete(params, LazyEnv(params, k))
    ensures LazyEnv(params, n) == LazyEnv(params, k)
    decreases n
  {
    if k < n {
      LazyStays(params, k, n - 1);
      assert Ready(params, LazyEnv(params, n - 1)) == {};
    }
  }

  /** A lazy round that finds something to store stores more. */
  lemma LazyCounts(params: Params, k: nat)
    requires WellNamed(params) && !Complete(params, LazyEnv(params, k))
    ensures |Stored(params, LazyEnv(params, k + 1))| > |Stored(params, LazyEnv(params, k))|
  {
    LazyStores(params, k);
    var stored, ready := Stored(params, LazyEnv(params, k)), Ready(params, LazyEnv(params, k));
    ReadyIs(params, LazyEnv(params, k));
    hide LazyEnv, Ready, Stored, Complete;
    assert |stored + ready| == |stored| + |ready|;
  }

  lemma {:induction false} LazyCompleteOrMany(params: Params, k: nat)
    requires WellNamed(params)
    ensures Complete(params, LazyEnv(params, k)) || |Stored(params, LazyEnv(params, k))| >= k
    decreases k
  {
    hide LazyEnv, Stored, Complete;
    if k > 0 {
      LazyCompleteOrMany(params, k - 1);
      if Complete(params, LazyEnv(params, k - 1)) {
        LazyStays(params, k - 1, k);
      } else {
        LazyCounts(params, k - 1);
      }
    }
  }

  /** As many rounds as parameters are always enough. */
  lemma SizeSuffices(params: Params, k: nat)
    requires WellNamed(params) && k >= |params|
    ensures Complete(params, LazyEnv(params, k))
  {
    LazyCompleteOrMany(params, k);
    if |Stored(params, LazyEnv(params, k))| >= k {
      AllStored(params, LazyEnv(params, k));
    }
  }

  /** However many they are, parameters that do not depend on each other need one round. */
  lemma IndependentNeedOneRound(params: Params, n: nat)
    requires WellNamed(params) && n >= 1 && forall q :: q in params ==> Default(params, EMPTY, q).Ok?
    ensures RoundsSuffice(params, n)
  {
    LazyStores(params, 0);
    assert LazyEnv(params, 0) == EMPTY;
    forall q | q in params
      ensures Has(LazyEnv(params, 1), q)
    {
      assert q in Stored(params, EMPTY) + Ready(params, EMPTY);
    }
    LazyStays(params, 1, n);
    RoundsSufficeIff(params, n);
  }

  /** One round: every parameter is visited once, in any order. */
  method Round(params: Params, env: Env, ghost order: seq<Key>) returns (next: Env, changed: bool, ghost order': seq<Key>)
    requires WellNamed(params) && Visits(params, order) && env == Run(params, order)
    ensures Visits(params, order') && next == Run(params, order')
    ensures order <= order' && IsRound(params, order'[|order|..])
    ensures changed ==> |Stored(params, next)| > |Stored(params, env)|
    ensures !changed ==> Complete(params, next)
  {
    hide Complete, ReadBack, Explained, Run, Insert, Stored, Eval;
    next, changed, order' := env, false, order;
    var todo := params.Keys;
    ghost var round := [];
    while todo != {}
      invariant order' == order + round && Distinct(round)
      invariant forall q :: q in round <==> q in params && q !in todo
      invariant todo <= params.Keys && Visits(params, order') && next == Run(params, order')
      invariant |Stored(params, next)| >= |Stored(params, env)| + if changed then 1 else 0
      invariant !changed ==> next == env
      invariant !changed ==> forall q :: q in params && q !in todo && !Has(env, q) ==> Default(params, env, q).Err?
      decreases |todo|
    {
      var q :| q in todo;
      RunStep(params, order', q);
      todo := todo - {q};
      assert order' + [q] == order + (round + [q]);
      round := round + [q];
      order' := order' + [q];
      if q !in next.scalars && q !in next.arrays && q !in next.structs {
        var r := Default(params, next, q);
        if r.Ok? {
          next := Store(next, q, r.value);
          changed := true;
        }
      }
    }
    if !changed {
      CompleteIs(params, next);
    }
  }

  lemma CompleteIs(params: Params, env: Env)
    requires WellNamed(params)
    ensures Complete(params, env) <==> forall q :: q in params && !Has(env, q) ==> Default(params, env, q).Err?
  {
    hide Eval;
  }

  /** The most rounds there are. */
  const ROUNDS: nat := 256

  lemma NoRounds(params: Params)
    ensures IsRounds(params, [], 0) && Visits(params, [])
  {
  }

  /**
   Goes round the parameters, at most 256 times. If 256 lazy rounds are enough, nothing that can be stored is
   left out, and the tables are those of every other complete run; if not, some orders leave a parameter out
   (`RoundsSufficeIff`). With at most 256 parameters they are enough.
   */
  method EvalPackageConstants(params: Params) returns (env: Env, ghost order: seq<Key>)
    requires WellNamed(params)
    ensures Visits(params, order) && env == Run(params, order)
    ensures Explained(params, env) && ReadBack(params, env)
    ensures Complete(params, LazyEnv(params, ROUNDS)) ==> Complete(params, env) && env == LazyEnv(params, ROUNDS)
    ensures |params| <= 256 ==> Complete(params, env)
    ensures Complete(params, env) ==>
              forall other :: Visits(params, other) && Complete(params, Run(params, other)) ==> Run(params, other) == env
  {
    hide Explained, ReadBack, Complete, Stored, LazyEnv, IsRounds, IsRound, Run, Visits;
    NothingYet(params);
    NoRounds(params);
    env, order := EMPTY, [];
    var round := 0;
    var changed := true;
    while round < ROUNDS && changed
      invariant round <= ROUNDS
      invariant Visits(params, order) && env == Run(params, order) && IsRounds(params, order, round)
      invariant !changed ==> Complete(params, env)
    {
      ghost var before := order;
      env, changed, order := Round(params, env, order);
      assert order == before + order[|before|..];
      RoundsAppend(params, before, order[|before|..], round);
      round := round + 1;
    }
    RunExplained(params, order);
    Finished(params, order, env, changed, ROUNDS);
  }

  /** What holds when the rounds have ended: `n` of them, or fewer the last of which changed nothing. */
  lemma Finished(params: Params, order: seq<Key>, env: Env, changed: bool, n: nat)
    requires WellNamed(params) && Visits(params, order) && env == Run(params, order)
    requires if changed then IsRounds(params, order, n) else Complete(params, env)
    ensures Complete(params, LazyEnv(params, n)) ==> Complete(params, env) && env == LazyEnv(params, n)
    ensures |params| <= n ==> Complete(params, env)
    ensures Complete(params, env) ==>
              forall other :: Visits(params, other) && Complete(params, Run(params, other)) ==> Run(params, other) == env
  {
    hide Complete, LazyEnv, Laziest, IsRounds, Run, Repeated;
    if |params| <= n {
      SizeSuffices(params, n);
    }
    if Complete(params, LazyEnv(params, n)) {
      if changed {
        LazyCompletes(params, order, n);
      }
      LaziestRun(params, n, n);
      OrderDoesNotMatter(params, order, Repeated(Laziest(params, n), n));
    }
    if Complete(params, env) {
      forall other | Visits(params, other) && Complete(params, Run(params, other))
        ensures Run(params, other) == env
      {
        OrderDoesNotMatter(params, order, other);
      }
    }
  }

  // ---- the bound is tight ----

  /** A chain of parameters, each defined as the next one; the last one is 0. */
  function Link(i: nat): Key {
    Qual("p", seq(i + 2, _ => 'x'))
  }

  function ChainDefault(n: nat, i: nat): Expr {
    if i + 1 < n then Ident(Link(i + 1).name) else Decimal(0)
  }

  /** The first `m` links of a chain of `n`. */
  ghost function ChainPrefix(n: nat, m: nat): (params: Params)
    ensures |params| == m
    ensures forall i: nat {:trigger Link(i)} :: Link(i) in params <==> i < m
    ensures forall i: nat {:trigger ChainDefault(n, i)} :: i < m ==> params[Link(i)] == ChainDefault(n, i)
    ensures forall q :: q in params ==> q.Qual? && q.name != "1"
  {
    if m == 0 then map[]
    else
      LinksAreDistinct();
      ChainPrefix(n, m - 1)[Link(m - 1) := ChainDefault(n, m - 1)]
  }

  ghost function Chain(n: nat): Params {
    ChainPrefix(n, n)
  }

  /** The chain's tables with its last `r` links stored. */
  ghost function ChainEnv(n: nat, r: nat): (env: Env)
    requires r <= n
    ensures env.arrays == map[] && env.structs == map[]
    ensures forall i: nat {:trigger Link(i)} :: Link(i) in env.scalars <==> n - r <= i < n
    ensures forall k :: k in env.scalars ==> k.Qual? && env.scalars[k] == 0
  {
    if r == 0 then EMPTY
    else
      LinksAreDistinct();
      Insert(ChainEnv(n, r - 1), Link(n - r), Scalar(0))
  }

  lemma LinksAreDistinct()
    ensures forall i: nat {:trigger Link(i)} :: |Link(i).name| == i + 2
  {
  }

  /** Visiting link `i` when the last `r` are stored: only the one just before them gets a value. */
  lemma ChainVisit(n: nat, r: nat, i: nat)
    requires r <= n && i < n
    ensures Visit(Chain(n), ChainEnv(n, r), Link(i)) == ChainEnv(n, if i + r + 1 == n then r + 1 else r)
    ensures Default(Chain(n), ChainEnv(n, r), Link(i)) == if i + r + 1 >= n then Ok(Scalar(0)) else Err
  {
    LinksAreDistinct();
    ChainEval(n, r, i);
    assert Chain(n)[Link(i)] == ChainDefault(n, i);
  }

  lemma ChainEval(n: nat, r: nat, i: nat)
    requires r <= n && i < n
    ensures Eval(ChainDefault(n, i), ChainEnv(n, r), Some("p"), NoFunctions())
            == if i + r + 1 >= n then Ok(Scalar(0)) else Err
  {
    LinksAreDistinct();
    if i + 1 < n {
      var name := Link(i + 1).name;
      assert Qual("p", name) == Link(i + 1);
      assert Plain(name) !in ChainEnv(n, r).scalars;
    }
  }

  /** A run, and then the first `m` links in order. */
  ghost function Pass(n: nat, before: seq<Key>, m: nat): (order: seq<Key>)
    requires Visits(Chain(n), before) && m <= n
    ensures Visits(Chain(n), order)
  {
    if m == 0 then before
    else
      assert Link(m - 1) in Chain(n);
      Pass(n, before, m - 1) + [Link(m - 1)]
  }

  /** The links in order, again and again. */
  ghost function Forward(n: nat, rounds: nat): (order: seq<Key>)
    ensures Visits(Chain(n), order)
  {
    if rounds == 0 then [] else Pass(n, Forward(n, rounds - 1), n)
  }

  lemma LinkVisited(n: nat, order: seq<Key>, r: nat, i: nat)
    requires Visits(Chain(n), order) && r <= n && i < n && Run(Chain(n), order) == ChainEnv(n, r)
    ensures Visits(Chain(n), order + [Link(i)])
    ensures Run(Chain(n), order + [Link(i)]) == ChainEnv(n, if i + r + 1 == n then r + 1 else r)
  {
    RunSnoc(Chain(n), order, Link(i));
    ChainVisit(n, r, i);
  }

  lemma PassGrows(n: nat, before: seq<Key>, m: nat, r: nat)
    requires Visits(Chain(n), before) && 1 <= m <= n && r <= n && Run(Chain(n), Pass(n, before, m - 1)) == ChainEnv(n, r)
    ensures Run(Chain(n), Pass(n, before, m)) == ChainEnv(n, if m + r == n then r + 1 else r)
  {
    hide Run, Visit, ChainEnv;
    LinkVisited(n, Pass(n, before, m - 1), r, m - 1);
  }

  /** The links up to the one to be stored change nothing ... */
  lemma {:induction false} PassSkips(n: nat, before: seq<Key>, r: nat, m: nat)
    requires Visits(Chain(n), before) && m + r < n && Run(Chain(n), before) == ChainEnv(n, r)
    ensures Run(Chain(n), Pass(n, before, m)) == ChainEnv(n, r)
  {
    hide Run, Visit, ChainEnv;
    if m > 0 {
      PassSkips(n, before, r, m - 1);
      PassGrows(n, before, m, r);
    }
  }

  /** ... and a whole pass stores that one. */
  lemma {:induction false} PassStoresOne(n: nat, before: seq<Key>, r: nat, m: nat)
    requires Visits(Chain(n), before) && r < n && n - r <= m <= n && Run(Chain(n), before) == ChainEnv(n, r)
    ensures Run(Chain(n), Pass(n, before, m)) == ChainEnv(n, r + 1)
  {
    hide Run, Visit, ChainEnv;
    if m + r == n {
      PassSkips(n, before, r, m - 1);
      PassGrows(n, before, m, r);
    } else {
      PassStoresOne(n, before, r, m - 1);
      PassGrows(n, before, m, r + 1);
    }
  }

  lemma NothingStored(n: nat)
    ensures Run(Chain(n), []) == ChainEnv(n, 0)
  {
  }

  lemma {:induction false} ForwardStores(n: nat, rounds: nat)
    requires rounds <= n
    ensures Run(Chain(n), Forward(n, rounds)) == ChainEnv(n, rounds)
  {
    hide Run, Visit, ChainEnv, Pass;
    if rounds == 0 {
      NothingStored(n);
    } else {
      ForwardStores(n, rounds - 1);
      PassStoresOne(n, Forward(n, rounds - 1), rounds - 1, n);
    }
  }

  lemma NotComplete(params: Params, env: Env, q: Key)
    requires WellNamed(params) && q in params && !Has(env, q) && Default(params, env, q).Ok?
    ensures !Complete(params, env)
  {
  }

  /**
   Fewer rounds than parameters may be too few: in a chain visited from its far end, every round stores one
   link, and another could be evaluated in the next.
   */
  lemma BoundIsTight(n: nat, rounds: nat)
    requires rounds < n
    ensures |Chain(n)| == n && WellNamed(Chain(n))
    ensures !Has(Run(Chain(n), Forward(n, rounds)), Link(0))
    ensures !Complete(Chain(n), Run(Chain(n), Forward(n, rounds)))
    ensures Has(Run(Chain(n), Forward(n, n)), Link(0))
  {
    ForwardStores(n, rounds);
    ForwardStores(n, n);
    ChainVisit(n, rounds, n - rounds - 1);
    hide Run, Visit, Forward, Complete, Default;
    var last := n - rounds - 1;
    assert Link(0) in Chain(n) && Link(last) in Chain(n);
    LinksAreDistinct();
    NotComplete(Chain(n), ChainEnv(n, rounds), Link(last));
  }
}
