/** The check for types that contain themselves by value, and the finite unfolding that it guarantees. */
module RecursiveTypes {
  import opened Prelude
  import opened Types

  /** The definition of a named type with `arity` generic parameters. */
  datatype Def =
    | RecordDef(arity: nat, fields: seq<Ty>)
    | VariantDef(arity: nat, cases: seq<Option<Ty>>)
  {
    /** The field types of a record, or the payload types of a variant. */
    function AllFields(): seq<Ty> {
      match this
      case RecordDef(_, fields) => fields
      case VariantDef(_, cases) => Payloads(cases)
    }
  }

  function Payloads(cases: seq<Option<Ty>>): seq<Ty> {
    if cases == [] then []
    else Payloads(cases[..|cases| - 1]) + (match cases[|cases| - 1] case Some(t) => [t] case None => [])
  }

  type Defs = seq<Def>

  /** Named types are defined and have all their arguments; pointers have one element type. */
  ghost predicate Known(defs: Defs, t: Ty) {
    t.Con? ==>
      && (t.head.Named? ==> t.head.id < |defs| && |t.args| == defs[t.head.id].arity)
      && (t.head.Uninit? ==> |t.args| == 1)
      && forall i :: 0 <= i < |t.args| ==> Known(defs, t.args[i])
  }

  ghost predicate AllKnown(defs: Defs, ts: seq<Ty>) {
    forall i :: 0 <= i < |ts| ==> Known(defs, ts[i])
  }

  ghost predicate KnownTable(defs: Defs) {
    forall id :: 0 <= id < |defs| ==> AllKnown(defs, defs[id].AllFields())
  }

  lemma {:induction false} KnownBind(defs: Defs, t: Ty, args: seq<Ty>)
    requires Known(defs, t) && AllKnown(defs, args)
    ensures Known(defs, Bind(t, args))
  {
    if t.Con? {
      forall i | 0 <= i < |t.args| ensures Known(defs, Bind(t, args).args[i]) { KnownBind(defs, t.args[i], args); }
    }
  }

  function BoundFields(defs: Defs, id: nat, args: seq<Ty>): seq<Ty>
    requires id < |defs|
  {
    BindEach(defs[id].AllFields(), args)
  }

  lemma KnownFields(defs: Defs, id: nat, args: seq<Ty>)
    requires KnownTable(defs) && id < |defs| && AllKnown(defs, args)
    ensures AllKnown(defs, BoundFields(defs, id, args))
  {
    var fields := defs[id].AllFields();
    forall i | 0 <= i < |fields| ensures Known(defs, Bind(fields[i], args)) { KnownBind(defs, fields[i], args); }
  }

  // ---------------------------------------------------------------- the check

  datatype Seen = Seen(ids: set<nat>, recursive: bool)

  function Visit(defs: Defs, ty: Ty, seen: set<nat>): (r: Seen)
    requires KnownTable(defs) && Known(defs, ty)
    ensures seen <= r.ids
    decreases Ids(|defs|) - seen, Size(ty), 0
  {
    if !ty.Con? then Seen(seen, false)
    else if ty.head.Named? then
      var id := ty.head.id;
      if id in seen then Seen(seen, true)
      else
        KnownFields(defs, id, ty.args);
        assert id in Ids(|defs|) - seen;
        VisitAll(defs, BoundFields(defs, id, ty.args), seen + {id})
    else if ty.head.Array? || ty.head.Box? || ty.head.Function? then Seen(seen, false)
    else VisitAll(defs, ty.args, seen)
  }

  function VisitAll(defs: Defs, tys: seq<Ty>, seen: set<nat>): (r: Seen)
    requires KnownTable(defs) && AllKnown(defs, tys)
    ensures seen <= r.ids
    decreases Ids(|defs|) - seen, TotalSize(tys), 1
  {
    if tys == [] then Seen(seen, false)
    else
      var first := Visit(defs, tys[0], seen);
      if first.recursive then first else VisitAll(defs, tys[1..], first.ids)
  }

  function Itself(defs: Defs, id: nat): Ty
    requires id < |defs|
  {
    Con(Named(id), Parameters(defs[id].arity))
  }

  predicate IsTypeRecursive(defs: Defs, id: nat)
    requires KnownTable(defs) && id < |defs|
  {
    Visit(defs, Itself(defs, id), {}).recursive
  }

  /** The visitor of the check: it stops as soon as its flag is set. */
  class RecursiveIndirection {
    const defs: Defs
    var seen: set<nat>
    var recursive: bool

    constructor (defs: Defs)
      ensures this.defs == defs && seen == {} && !recursive
    {
      this.defs := defs;
      seen, recursive := {}, false;
    }

    method VisitType(ty: Ty)
      requires KnownTable(defs) && Known(defs, ty)
      modifies this
      ensures old(seen) <= seen
      ensures Seen(seen, recursive) == if old(recursive) then Seen(old(seen), true) else Visit(defs, ty, old(seen))
      decreases Ids(|defs|) - seen, Size(ty), 0
    {
      if recursive || !ty.Con? { return; }
      match ty.head {
        case Named(id) =>
          if id in seen {
            recursive := true;
            return;
          }
          KnownFields(defs, id, ty.args);
          assert id in Ids(|defs|) - seen;
          seen := seen + {id};
          VisitTypes(BoundFields(defs, id, ty.args));
        case Array => return;
        case Box => return;
        case Function => return;
        case _ => VisitTypes(ty.args);
      }
    }

    method VisitTypes(tys: seq<Ty>)
      requires KnownTable(defs) && AllKnown(defs, tys) && !recursive
      modifies this
      ensures old(seen) <= seen
      ensures Seen(seen, recursive) == VisitAll(defs, tys, old(seen))
      decreases Ids(|defs|) - seen, TotalSize(tys), 1
    {
      if tys == [] { return; }
      VisitType(tys[0]);
      if recursive { return; }
      VisitTypes(tys[1..]);
    }
  }

  method CheckRecursive(defs: Defs, id: nat) returns (recursive: bool)
    requires KnownTable(defs) && id < |defs|
    ensures recursive == IsTypeRecursive(defs, id)
  {
    var r := new RecursiveIndirection(defs);
    r.VisitType(Itself(defs, id));
    recursive := r.recursive;
  }

  // ---------------------------------------------------------------- unfolding by value

  /** The types whose layouts the layout of a type needs. */
  function Components(defs: Defs, t: Ty): seq<Ty>
    requires Known(defs, t)
  {
    match t
    case Con(Named(id), args) => BoundFields(defs, id, args)
    case Con(Uninit, args) => args
    case Con(Tuple, args) => args
    case _ => []
  }

  lemma KnownComponents(defs: Defs, t: Ty)
    requires KnownTable(defs) && Known(defs, t)
    ensures AllKnown(defs, Components(defs, t))
  {
    if t.Con? && t.head.Named? { KnownFields(defs, t.head.id, t.args); }
  }

  /** Unfolding the type by value comes to an end after at most d steps. */
  ghost predicate Unfolds(defs: Defs, t: Ty, d: nat)
    requires KnownTable(defs) && Known(defs, t)
    decreases d, 1
  {
    KnownComponents(defs, t);
    AllUnfold(defs, Components(defs, t), d)
  }

  ghost predicate AllUnfold(defs: Defs, ts: seq<Ty>, d: nat)
    requires KnownTable(defs) && AllKnown(defs, ts)
    decreases d, 0
  {
    ts == [] || (d > 0 && forall i :: 0 <= i < |ts| ==> Unfolds(defs, ts[i], d - 1))
  }

  lemma {:induction false} UnfoldsMore(defs: Defs, t: Ty, d: nat, e: nat)
    requires KnownTable(defs) && Known(defs, t) && Unfolds(defs, t, d) && d <= e
    ensures Unfolds(defs, t, e)
    decreases d, 1
  {
    KnownComponents(defs, t);
    AllUnfoldMore(defs, Components(defs, t), d, e);
  }

  lemma {:induction false} AllUnfoldMore(defs: Defs, ts: seq<Ty>, d: nat, e: nat)
    requires KnownTable(defs) && AllKnown(defs, ts) && AllUnfold(defs, ts, d) && d <= e
    ensures AllUnfold(defs, ts, e)
    decreases d, 0
  {
    forall i | 0 <= i < |ts| ensures Unfolds(defs, ts[i], e - 1) { UnfoldsMore(defs, ts[i], d - 1, e - 1); }
  }

  /** Substituting what unfolds into what unfolds gives what unfolds. */
  lemma {:induction false} UnfoldsBind(defs: Defs, t: Ty, d: nat, args: seq<Ty>, e: nat)
    requires KnownTable(defs) && Known(defs, t) && Unfolds(defs, t, d)
    requires AllKnown(defs, args) && forall i :: 0 <= i < |args| ==> Unfolds(defs, args[i], e)
    ensures Known(defs, Bind(t, args)) && Unfolds(defs, Bind(t, args), d + e)
    decreases d
  {
    KnownBind(defs, t, args);
    KnownComponents(defs, Bind(t, args));
    match t
    case Param(i) =>
      if i < |args| { UnfoldsMore(defs, args[i], e, d + e); }
    case Con(head, us) =>
      var cs, cs' := Components(defs, t), Components(defs, Bind(t, args));
      KnownComponents(defs, t);
      ComponentsBind(defs, t, args);
      var n := d + e;
      forall i | 0 <= i < |cs'| ensures n > 0 && Unfolds(defs, cs'[i], n - 1) {
        assert cs'[i] == Bind(cs[i], args);
        UnfoldsBind(defs, cs[i], d - 1, args, e);
      }
    case _ =>
  }

  /** The components of an instance are the instances of the components. */
  lemma ComponentsBind(defs: Defs, t: Ty, args: seq<Ty>)
    requires t.Con? && Known(defs, t) && Known(defs, Bind(t, args))
    ensures Components(defs, Bind(t, args)) == BindEach(Components(defs, t), args)
  {
    var cs, cs' := Components(defs, t), Components(defs, Bind(t, args));
    if t.head.Named? {
      var fields := defs[t.head.id].AllFields();
      assert Bind(t, args).args == BindEach(t.args, args);
      forall i | 0 <= i < |fields| ensures cs'[i] == Bind(cs[i], args) { BindCompose(fields[i], t.args, args); }
    }
    assert BindAll(t, args) == BindEach(t.args, args);
    assert cs' == BindEach(cs, args);
  }

  /** What the check passes unfolds finitely. */
  lemma {:induction false} VisitedUnfolds(defs: Defs, ty: Ty, seen: set<nat>) returns (d: nat)
    requires KnownTable(defs) && Known(defs, ty) && !Visit(defs, ty, seen).recursive
    ensures Unfolds(defs, ty, d)
    decreases Ids(|defs|) - seen, Size(ty), 0
  {
    KnownComponents(defs, ty);
    d := 0;
    if ty.Con? {
      if ty.head.Named? {
        assert ty.head.id in Ids(|defs|) - seen;
        d := VisitedAllUnfold(defs, Components(defs, ty), seen + {ty.head.id});
      } else if ty.head.Uninit? || ty.head.Tuple? {
        d := VisitedAllUnfold(defs, ty.args, seen);
      }
    }
  }

  lemma {:induction false} VisitedAllUnfold(defs: Defs, tys: seq<Ty>, seen: set<nat>) returns (d: nat)
    requires KnownTable(defs) && AllKnown(defs, tys) && !VisitAll(defs, tys, seen).recursive
    ensures AllUnfold(defs, tys, d)
    decreases Ids(|defs|) - seen, TotalSize(tys), 1
  {
    d := 0;
    if tys != [] {
      var d0 := VisitedUnfolds(defs, tys[0], seen);
      var d1 := VisitedAllUnfold(defs, tys[1..], Visit(defs, tys[0], seen).ids);
      d := 1 + d0 + d1;
      AllUnfoldMore(defs, tys[1..], d1, d);
      UnfoldsMore(defs, tys[0], d0, d - 1);
      forall i | 0 <= i < |tys| ensures Unfolds(defs, tys[i], d - 1) {
        if i > 0 { assert tys[i] == tys[1..][i - 1]; }
      }
    }
  }

  ghost predicate Accepted(defs: Defs) {
    KnownTable(defs) && forall id :: 0 <= id < |defs| ==> !IsTypeRecursive(defs, id)
  }

  ghost predicate Unfolding(defs: Defs, id: nat)
    requires KnownTable(defs) && id < |defs|
  {
    exists d: nat :: Unfolds(defs, Itself(defs, id), d)
  }

  /** When every definition's own type unfolds finitely, every type does, at any instance. */
  lemma {:induction false} DefinitionsUnfold(defs: Defs, t: Ty) returns (d: nat)
    requires KnownTable(defs) && Known(defs, t) && forall id: nat :: id < |defs| ==> Unfolding(defs, id)
    ensures Unfolds(defs, t, d)
    decreases t, 1
  {
    d := 0;
    if t.Con? && t.head.Named? {
      var id := t.head.id;
      var e := ArgumentsUnfold(defs, t, |t.args|);
      KnownItself(defs, id);
      assert Unfolding(defs, id);
      var d0: nat :| Unfolds(defs, Itself(defs, id), d0);
      UnfoldsBind(defs, Itself(defs, id), d0, t.args, e);
      ItselfBind(defs, id, t.args);
      d := d0 + e;
    } else if t.Con? && (t.head.Uninit? || t.head.Tuple?) {
      var e := ArgumentsUnfold(defs, t, |t.args|);
      d := e + 1;
    }
  }

  lemma {:induction false} ArgumentsUnfold(defs: Defs, t: Ty, k: nat) returns (e: nat)
    requires KnownTable(defs) && Known(defs, t) && forall id: nat :: id < |defs| ==> Unfolding(defs, id)
    requires t.Con? && k <= |t.args|
    ensures forall i :: 0 <= i < k ==> Unfolds(defs, t.args[i], e)
    decreases t, 0, k
  {
    e := 0;
    if k > 0 {
      var e0 := ArgumentsUnfold(defs, t, k - 1);
      var e1 := DefinitionsUnfold(defs, t.args[k - 1]);
      e := e0 + e1;
      forall i | 0 <= i < k ensures Unfolds(defs, t.args[i], e) {
        UnfoldsMore(defs, t.args[i], if i < k - 1 then e0 else e1, e);
      }
    }
  }

  /** When the check passes every definition, every type unfolds finitely, at any instance. */
  lemma AcceptedUnfolds(defs: Defs, t: Ty) returns (d: nat)
    requires Accepted(defs) && Known(defs, t)
    ensures Unfolds(defs, t, d)
  {
    forall id: nat | id < |defs| ensures Unfolding(defs, id) {
      assert !IsTypeRecursive(defs, id);
      KnownItself(defs, id);
      var d0 := VisitedUnfolds(defs, Itself(defs, id), {});
    }
    d := DefinitionsUnfold(defs, t);
  }

  lemma KnownItself(defs: Defs, id: nat)
    requires id < |defs|
    ensures Known(defs, Itself(defs, id))
  {
  }

  lemma ItselfBind(defs: Defs, id: nat, args: seq<Ty>)
    requires id < |defs| && |args| == defs[id].arity
    ensures Bind(Itself(defs, id), args) == Con(Named(id), args)
  {
    var bound := BindAll(Itself(defs, id), args);
    forall i | 0 <= i < |args| ensures bound[i] == args[i] {
      assert Itself(defs, id).args[i] == Param(i);
      assert bound[i] == Bind(Param(i), args);
    }
    assert bound == args;
  }

  const BOOL := Con(Bool, [])
  const INNER := Con(Named(0), [])
  const DIAMOND: Defs := [RecordDef(0, [BOOL]), RecordDef(0, [INNER, INNER])]

  lemma DiamondFields()
    ensures KnownTable(DIAMOND) && Known(DIAMOND, INNER) && Known(DIAMOND, BOOL)
    ensures BoundFields(DIAMOND, 0, []) == [BOOL] && BoundFields(DIAMOND, 1, []) == [INNER, INNER]
    ensures Itself(DIAMOND, 1) == Con(Named(1), [])
  {
    assert Known(DIAMOND, BOOL) && Known(DIAMOND, INNER);
    assert DIAMOND[0].AllFields() == [BOOL] && DIAMOND[1].AllFields() == [INNER, INNER];
    assert Bind(BOOL, []) == BOOL by { assert BindAll(BOOL, []) == []; }
    assert Bind(INNER, []) == INNER by { assert BindAll(INNER, []) == []; }
    assert Parameters(0) == [];
  }

  lemma DiamondVisit()
    ensures KnownTable(DIAMOND) && IsTypeRecursive(DIAMOND, 1)
  {
    DiamondFields();
    assert VisitAll(DIAMOND, [], {1} + {0}) == Seen({1} + {0}, false);
    assert Visit(DIAMOND, BOOL, {1} + {0}) == Seen({1} + {0}, false);
    assert [BOOL][0] == BOOL && [BOOL][1..] == [];
    assert VisitAll(DIAMOND, [BOOL], {1} + {0}) == Seen({1} + {0}, false);
    assert Visit(DIAMOND, INNER, {1}) == Seen({1} + {0}, false);
    assert [INNER, INNER][1..] == [INNER];
    assert Visit(DIAMOND, INNER, {1} + {0}).recursive;
    assert VisitAll(DIAMOND, [INNER], {1} + {0}).recursive;
    assert VisitAll(DIAMOND, [INNER, INNER], {1}).recursive;
    assert {} + {1} == {1};
  }

  /** The check refuses more than it must: a record that holds another one twice unfolds in two steps. */
  lemma DiamondRefused()
    ensures KnownTable(DIAMOND) && Known(DIAMOND, Con(Named(1), []))
    ensures IsTypeRecursive(DIAMOND, 1) && Unfolds(DIAMOND, Con(Named(1), []), 2)
  {
    DiamondFields();
    DiamondVisit();
    assert Components(DIAMOND, BOOL) == [];
    assert Unfolds(DIAMOND, BOOL, 0);
    assert Components(DIAMOND, INNER) == [BOOL];
    assert AllUnfold(DIAMOND, [BOOL], 1);
    assert Unfolds(DIAMOND, INNER, 1);
    assert AllUnfold(DIAMOND, [INNER, INNER], 2);
  }
}
