/** Which tables of definitions have only types that unfold finitely by value, and when the check agrees. */
module FiniteTypes {
  import opened Prelude
  import opened Types
  import opened RecursiveTypes
  import opened TypeUnfolding

  /** By value, below its root, the definition's own type meets the definition again. */
  ghost predicate ContainsItself(defs: Defs, id: nat)
    requires KnownTable(defs) && id < |defs|
  {
    exists path: seq<nat> :: HoldsAt(defs, id, path, id)
  }

  /** The definition's own type holds the named type x by value, at the path. */
  ghost predicate HoldsAt(defs: Defs, id: nat, path: seq<nat>, x: nat)
    requires KnownTable(defs) && id < |defs|
  {
    path != [] && IsNamed(TypeAt(defs, ByValue, Itself(defs, id), path), x)
  }

  /** Every type unfolds finitely by value. */
  ghost predicate AllFinite(defs: Defs)
    requires KnownTable(defs)
  {
    forall t :: Known(defs, t) ==> Finite(defs, t)
  }

  ghost predicate Finite(defs: Defs, t: Ty)
    requires KnownTable(defs) && Known(defs, t)
  {
    exists d: nat :: Unfolds(defs, t, d)
  }

  // ---------------------------------------------------------------- paths

  lemma {:induction false} KnownAt(defs: Defs, w: Walk, t: Ty, path: seq<nat>)
    requires KnownTable(defs) && Known(defs, t) && TypeAt(defs, w, t, path).Some?
    ensures Known(defs, TypeAt(defs, w, t, path).value)
    decreases |path|
  {
    if path != [] {
      KnownParts(defs, w, t);
      KnownAt(defs, w, Parts(defs, w, t)[path[0]], path[1..]);
    }
  }

  lemma PartAt(defs: Defs, t: Ty, k: nat)
    requires KnownTable(defs) && Known(defs, t) && k < |Components(defs, t)|
    ensures TypeAt(defs, ByValue, t, [k]) == Some(Components(defs, t)[k])
  {
    KnownParts(defs, ByValue, t);
    var path: seq<nat> := [k];
    assert path[1..] == [];
    var cs := Parts(defs, ByValue, t);
    assert TypeAt(defs, ByValue, cs[k], path[1..]) == Some(cs[k]);
    assert TypeIn(defs, ByValue, cs, path) == TypeAt(defs, ByValue, cs[k], path[1..]);
    assert TypeAt(defs, ByValue, t, path) == TypeIn(defs, ByValue, cs, path);
  }

  lemma {:induction false} PathConcat(defs: Defs, w: Walk, t: Ty, p: seq<nat>, q: seq<nat>)
    requires KnownTable(defs) && Known(defs, t) && TypeAt(defs, w, t, p).Some?
    requires Known(defs, TypeAt(defs, w, t, p).value)
    ensures TypeAt(defs, w, t, p + q) == TypeAt(defs, w, TypeAt(defs, w, t, p).value, q)
    decreases |p|
  {
    if p == [] {
      assert p + q == q;
    } else {
      KnownParts(defs, w, t);
      assert (p + q)[1..] == p[1..] + q && (p + q)[0] == p[0];
      PathConcat(defs, w, Parts(defs, w, t)[p[0]], p[1..], q);
    }
  }

  /** An instance has, at each path, the instance of what stood there. */
  lemma {:induction false} PathBind(defs: Defs, t: Ty, path: seq<nat>, args: seq<Ty>)
    requires KnownTable(defs) && Known(defs, t) && Known(defs, Bind(t, args))
    requires TypeAt(defs, ByValue, t, path).Some?
    ensures TypeAt(defs, ByValue, Bind(t, args), path) == Some(Bind(TypeAt(defs, ByValue, t, path).value, args))
    decreases |path|
  {
    if path != [] {
      KnownParts(defs, ByValue, t);
      KnownParts(defs, ByValue, Bind(t, args));
      ComponentsBind(defs, t, args);
      PathBind(defs, Components(defs, t)[path[0]], path[1..], args);
    }
  }

  /** What unfolds in d steps has no path longer than d. */
  lemma {:induction false} UnfoldsAlong(defs: Defs, t: Ty, d: nat, path: seq<nat>)
    requires KnownTable(defs) && Known(defs, t) && Unfolds(defs, t, d) && TypeAt(defs, ByValue, t, path).Some?
    ensures Known(defs, TypeAt(defs, ByValue, t, path).value)
    ensures |path| <= d && Unfolds(defs, TypeAt(defs, ByValue, t, path).value, d - |path|)
    decreases |path|
  {
    if path != [] {
      KnownParts(defs, ByValue, t);
      var c := Components(defs, t)[path[0]];
      assert d > 0 && Unfolds(defs, c, d - 1);
      UnfoldsAlong(defs, c, d - 1, path[1..]);
    }
  }

  // ---------------------------------------------------------------- what contains itself does not end

  /** An instance of a definition that contains itself holds another instance of it. */
  lemma HoldsInstance(defs: Defs, id: nat, path: seq<nat>, x: nat, args: seq<Ty>) returns (us: seq<Ty>)
    requires KnownTable(defs) && id < |defs| && HoldsAt(defs, id, path, x)
    requires Known(defs, Con(Named(id), args))
    ensures TypeAt(defs, ByValue, Con(Named(id), args), path) == Some(Con(Named(x), us))
    ensures Known(defs, Con(Named(x), us))
  {
    KnownItself(defs, id);
    ItselfBind(defs, id, args);
    PathBind(defs, Itself(defs, id), path, args);
    us := BindAll(TypeAt(defs, ByValue, Itself(defs, id), path).value, args);
    KnownAt(defs, ByValue, Con(Named(id), args), path);
  }

  lemma {:induction false} SelfContainedEndless(defs: Defs, id: nat, path: seq<nat>, args: seq<Ty>, d: nat)
    requires KnownTable(defs) && id < |defs| && HoldsAt(defs, id, path, id)
    requires Known(defs, Con(Named(id), args))
    ensures !Unfolds(defs, Con(Named(id), args), d)
    decreases d
  {
    if Unfolds(defs, Con(Named(id), args), d) {
      var us := HoldsInstance(defs, id, path, id, args);
      UnfoldsAlong(defs, Con(Named(id), args), d, path);
      SelfContainedEndless(defs, id, path, us, d - |path|);
    }
  }

  // ---------------------------------------------------------------- what does not contain itself ends

  /** The definitions that a definition's own type holds by value, below its root. */
  ghost function Held(defs: Defs, id: nat): set<nat>
    requires KnownTable(defs) && id < |defs|
  {
    set x | x in Ids(|defs|) && exists path: seq<nat> :: HoldsAt(defs, id, path, x)
  }

  lemma HeldMember(defs: Defs, id: nat, path: seq<nat>, x: nat)
    requires KnownTable(defs) && id < |defs| && HoldsAt(defs, id, path, x)
    ensures x < |defs| && x in Held(defs, id)
  {
    KnownAt(defs, ByValue, Itself(defs, id), path);
    assert x in Ids(|defs|);
  }

  /** Holding is transitive, so what is held holds less, if it does not contain itself. */
  lemma HeldShrinks(defs: Defs, id: nat, x: nat)
    requires KnownTable(defs) && id < |defs| && x in Held(defs, id) && x < |defs| && !ContainsItself(defs, x)
    ensures Held(defs, x) < Held(defs, id)
  {
    var p: seq<nat> :| HoldsAt(defs, id, p, x);
    forall y | y in Held(defs, x) ensures y in Held(defs, id) {
      var q: seq<nat> :| HoldsAt(defs, x, q, y);
      HoldsThrough(defs, id, p, x, q, y);
      HeldMember(defs, id, p + q, y);
    }
    assert x !in Held(defs, x);
  }

  lemma HoldsThrough(defs: Defs, id: nat, p: seq<nat>, x: nat, q: seq<nat>, y: nat)
    requires KnownTable(defs) && id < |defs| && x < |defs| && HoldsAt(defs, id, p, x) && HoldsAt(defs, x, q, y)
    ensures HoldsAt(defs, id, p + q, y)
  {
    KnownItself(defs, id);
    KnownAt(defs, ByValue, Itself(defs, id), p);
    var t := TypeAt(defs, ByValue, Itself(defs, id), p).value;
    var us := HoldsInstance(defs, x, q, y, t.args);
    PathConcat(defs, ByValue, Itself(defs, id), p, q);
  }

  /** Where a parameter is held by value. */
  ghost predicate HoldsParam(defs: Defs, t: Ty, i: nat)
    requires KnownTable(defs) && Known(defs, t)
  {
    exists path: seq<nat> :: TypeAt(defs, ByValue, t, path) == Some(Param(i))
  }

  lemma HoldsParamBelow(defs: Defs, t: Ty, k: nat, i: nat)
    requires KnownTable(defs) && Known(defs, t) && AllKnown(defs, Components(defs, t)) && k < |Components(defs, t)|
    requires HoldsParam(defs, Components(defs, t)[k], i)
    ensures HoldsParam(defs, t, i)
  {
    var path: seq<nat> :| TypeAt(defs, ByValue, Components(defs, t)[k], path) == Some(Param(i));
    assert ([k] + path)[1..] == path;
    assert TypeAt(defs, ByValue, t, [k] + path) == Some(Param(i));
  }

  /** Only the arguments that are held by value need to unfold. */
  lemma {:induction false} UnfoldsBindHeld(defs: Defs, t: Ty, d: nat, args: seq<Ty>, e: nat)
    requires KnownTable(defs) && Known(defs, t) && Unfolds(defs, t, d) && AllKnown(defs, args)
    requires forall i: nat :: i < |args| && HoldsParam(defs, t, i) ==> Unfolds(defs, args[i], e)
    ensures Known(defs, Bind(t, args)) && Unfolds(defs, Bind(t, args), d + e)
    decreases d
  {
    KnownBind(defs, t, args);
    KnownComponents(defs, Bind(t, args));
    if t.Param? {
      assert TypeAt(defs, ByValue, t, []) == Some(t);
      if t.index < |args| { UnfoldsMore(defs, args[t.index], e, d + e); }
    } else if t.Con? {
      var cs, cs' := Components(defs, t), Components(defs, Bind(t, args));
      KnownComponents(defs, t);
      ComponentsBind(defs, t, args);
      var n := d + e;
      forall k | 0 <= k < |cs'| ensures n > 0 && Unfolds(defs, cs'[k], n - 1) {
        assert d > 0 && Unfolds(defs, cs[k], d - 1);
        forall i: nat | i < |args| && HoldsParam(defs, cs[k], i) ensures Unfolds(defs, args[i], e) {
          HoldsParamBelow(defs, t, k, i);
        }
        UnfoldsBindHeld(defs, cs[k], d - 1, args, e);
      }
    }
  }

  ghost predicate NoneContainsItself(defs: Defs)
    requires KnownTable(defs)
  {
    forall id: nat :: id < |defs| ==> !ContainsItself(defs, id)
  }

  /** The i-th argument of a type is held by it by value. */
  ghost predicate HoldsArg(defs: Defs, t: Ty, i: nat)
    requires KnownTable(defs) && Known(defs, t) && t.Con? && i < |t.args|
  {
    exists path: seq<nat> :: TypeAt(defs, ByValue, t, path) == Some(t.args[i])
  }

  lemma ParamHeld(defs: Defs, x: nat, args: seq<Ty>, i: nat)
    requires KnownTable(defs) && x < |defs| && Known(defs, Con(Named(x), args)) && i < |args|
    requires HoldsParam(defs, Itself(defs, x), i)
    ensures HoldsArg(defs, Con(Named(x), args), i)
  {
    KnownItself(defs, x);
    ItselfBind(defs, x, args);
    var path: seq<nat> :| TypeAt(defs, ByValue, Itself(defs, x), path) == Some(Param(i));
    PathBind(defs, Itself(defs, x), path, args);
    assert TypeAt(defs, ByValue, Con(Named(x), args), path) == Some(args[i]);
  }

  lemma ComponentHeld(defs: Defs, t: Ty, i: nat)
    requires KnownTable(defs) && Known(defs, t) && t.Con? && (t.head.Uninit? || t.head.Tuple?) && i < |t.args|
    ensures HoldsArg(defs, t, i)
  {
    PartAt(defs, t, i);
  }

  lemma {:induction false} ItselfFinite(defs: Defs, held: set<nat>, id: nat) returns (d: nat)
    requires KnownTable(defs) && id < |defs| && NoneContainsItself(defs) && held == Held(defs, id)
    ensures Unfolds(defs, Itself(defs, id), d)
    decreases held, 2, UNKNOWN, 0, 0
  {
    KnownItself(defs, id);
    KnownComponents(defs, Itself(defs, id));
    d := FieldsFinite(defs, held, id, |Components(defs, Itself(defs, id))|);
  }

  /** The first k types unfold in less than d steps. */
  ghost predicate FirstUnfold(defs: Defs, ts: seq<Ty>, k: nat, d: nat)
    requires KnownTable(defs) && AllKnown(defs, ts) && k <= |ts|
  {
    k == 0 || (d > 0 && forall i :: 0 <= i < k ==> Unfolds(defs, ts[i], d - 1))
  }

  lemma OneMoreUnfolds(defs: Defs, ts: seq<Ty>, k: nat, d: nat, e: nat)
    requires KnownTable(defs) && AllKnown(defs, ts) && 0 < k <= |ts|
    requires FirstUnfold(defs, ts, k - 1, d) && Unfolds(defs, ts[k - 1], e)
    ensures FirstUnfold(defs, ts, k, d + e + 1)
  {
    forall i | 0 <= i < k ensures Unfolds(defs, ts[i], d + e) {
      if i < k - 1 { UnfoldsMore(defs, ts[i], d - 1, d + e); } else { UnfoldsMore(defs, ts[i], e, d + e); }
    }
  }

  lemma {:induction false} FieldsFinite(defs: Defs, held: set<nat>, id: nat, k: nat) returns (d: nat)
    requires KnownTable(defs) && id < |defs| && NoneContainsItself(defs) && held == Held(defs, id)
    requires AllKnown(defs, Components(defs, Itself(defs, id))) && k <= |Components(defs, Itself(defs, id))|
    ensures FirstUnfold(defs, Components(defs, Itself(defs, id)), k, d)
    decreases held, 1, UNKNOWN, 0, k
  {
    d := 0;
    if k > 0 {
      var cs := Components(defs, Itself(defs, id));
      var d0 := FieldsFinite(defs, held, id, k - 1);
      PartAt(defs, Itself(defs, id), k - 1);
      var d1 := PartFinite(defs, held, id, [k - 1], cs[k - 1]);
      d := d0 + d1 + 1;
      OneMoreUnfolds(defs, cs, k, d0, d1);
    }
  }

  /** Whatever the definition's own type holds by value unfolds finitely. */
  lemma {:induction false} PartFinite(defs: Defs, held: set<nat>, id: nat, path: seq<nat>, t: Ty) returns (d: nat)
    requires KnownTable(defs) && id < |defs| && NoneContainsItself(defs) && held == Held(defs, id) && path != [] && Known(defs, t)
    requires TypeAt(defs, ByValue, Itself(defs, id), path) == Some(t)
    ensures Unfolds(defs, t, d)
    decreases held, 0, t, 1, 0
  {
    d := 0;
    if t.Con? && t.head.Named? {
      var x := t.head.id;
      assert HoldsAt(defs, id, path, x);
      HeldMember(defs, id, path, x);
      HeldShrinks(defs, id, x);
      var d0 := ItselfFinite(defs, Held(defs, x), x);
      var e := ArgsFinite(defs, held, id, path, t, |t.args|);
      KnownItself(defs, x);
      forall i: nat | i < |t.args| && HoldsParam(defs, Itself(defs, x), i) ensures Unfolds(defs, t.args[i], e) {
        ParamHeld(defs, x, t.args, i);
      }
      UnfoldsBindHeld(defs, Itself(defs, x), d0, t.args, e);
      ItselfBind(defs, x, t.args);
      d := d0 + e;
    } else if t.Con? && (t.head.Uninit? || t.head.Tuple?) {
      var e := ArgsFinite(defs, held, id, path, t, |t.args|);
      forall i: nat | i < |t.args| ensures Unfolds(defs, t.args[i], e) { ComponentHeld(defs, t, i); }
      d := e + 1;
    }
  }

  lemma {:induction false} ArgsFinite(defs: Defs, held: set<nat>, id: nat, path: seq<nat>, t: Ty, k: nat) returns (e: nat)
    requires KnownTable(defs) && id < |defs| && NoneContainsItself(defs) && held == Held(defs, id) && path != []
    requires Known(defs, t) && t.Con? && k <= |t.args|
    requires TypeAt(defs, ByValue, Itself(defs, id), path) == Some(t)
    ensures forall i: nat :: i < k && HoldsArg(defs, t, i) ==> Unfolds(defs, t.args[i], e)
    decreases held, 0, t, 0, k
  {
    e := 0;
    if k > 0 {
      var e0 := ArgsFinite(defs, held, id, path, t, k - 1);
      var e1 := 0;
      if HoldsArg(defs, t, k - 1) {
        var q: seq<nat> :| TypeAt(defs, ByValue, t, q) == Some(t.args[k - 1]);
        KnownItself(defs, id);
        PathConcat(defs, ByValue, Itself(defs, id), path, q);
        e1 := PartFinite(defs, held, id, path + q, t.args[k - 1]);
      }
      e := e0 + e1;
      forall i: nat | i < k && HoldsArg(defs, t, i) ensures Unfolds(defs, t.args[i], e) {
        UnfoldsMore(defs, t.args[i], if i < k - 1 then e0 else e1, e);
      }
    }
  }

  // ---------------------------------------------------------------- the two together

  /** Every type unfolds finitely by value, nested generic instances included, exactly if no definition
      contains itself by value. */
  lemma FiniteExactly(defs: Defs)
    requires KnownTable(defs)
    ensures AllFinite(defs) <==> NoneContainsItself(defs)
  {
    if AllFinite(defs) {
      forall id: nat | id < |defs| ensures !ContainsItself(defs, id) {
        if path: seq<nat> :| HoldsAt(defs, id, path, id) {
          KnownItself(defs, id);
          assert Finite(defs, Itself(defs, id));
          var d: nat :| Unfolds(defs, Itself(defs, id), d);
          SelfContainedEndless(defs, id, path, Parameters(defs[id].arity), d);
        }
      }
    }
    if NoneContainsItself(defs) {
      forall id: nat | id < |defs| ensures Unfolding(defs, id) { var d := ItselfFinite(defs, Held(defs, id), id); }
      forall t | Known(defs, t) ensures Finite(defs, t) { var d := DefinitionsUnfold(defs, t); }
    }
  }

  /** By value one goes nowhere that the check does not look. */
  lemma {:induction false} ByValueChecked(defs: Defs, t: Ty, path: seq<nat>)
    requires KnownTable(defs) && Known(defs, t) && TypeAt(defs, ByValue, t, path).Some?
    ensures TypeAt(defs, Checked, t, path) == TypeAt(defs, ByValue, t, path)
    decreases |path|
  {
    if path != [] {
      KnownParts(defs, ByValue, t);
      KnownParts(defs, Checked, t);
      ByValueChecked(defs, Components(defs, t)[path[0]], path[1..]);
    }
  }

  /** The check refuses every definition that contains itself. */
  lemma ContainedRefused(defs: Defs, id: nat)
    requires KnownTable(defs) && id < |defs| && ContainsItself(defs, id)
    ensures IsTypeRecursive(defs, id)
  {
    var path: seq<nat> :| HoldsAt(defs, id, path, id);
    var t := Itself(defs, id);
    KnownItself(defs, id);
    ByValueChecked(defs, t, path);
    assert ([0] + path)[1..] == path && [0][1..] == [];
    assert MetIn(defs, [t], [0], id) && MetIn(defs, [t], [0] + path, id);
    assert [0] != [0] + path by { assert |[0] + path| > 1; }
    RecursiveExactly(defs, id);
  }

  /** The table is accepted exactly if no definition's unfolding meets a name twice, and then all types are finite.
      So its verdict is whether all types are finite exactly if, whenever some name is met twice, some definition
      contains itself by value. */
  lemma CheckExactly(defs: Defs)
    requires KnownTable(defs)
    ensures Accepted(defs) <==> forall id: nat :: id < |defs| ==> !MeetsTwice(defs, [Itself(defs, id)])
    ensures Accepted(defs) ==> AllFinite(defs)
    ensures (Accepted(defs) <==> AllFinite(defs)) <==>
              ((exists id: nat :: id < |defs| && MeetsTwice(defs, [Itself(defs, id)])) ==> !NoneContainsItself(defs))
  {
    forall id: nat | id < |defs| ensures IsTypeRecursive(defs, id) <==> MeetsTwice(defs, [Itself(defs, id)]) {
      RecursiveExactly(defs, id);
    }
    FiniteExactly(defs);
    if Accepted(defs) {
      forall id: nat | id < |defs| ensures !ContainsItself(defs, id) {
        if ContainsItself(defs, id) { ContainedRefused(defs, id); }
      }
    }
  }

  // ---------------------------------------------------------------- what is refused though it is finite

  /** A record that only points to itself unfolds in one step, but the check looks behind raw pointers. */
  const POINTED: Defs := [RecordDef(0, [Con(RawPtr, [INNER])])]

  lemma PointedRefused()
    ensures KnownTable(POINTED) && Known(POINTED, INNER)
    ensures IsTypeRecursive(POINTED, 0) && Unfolds(POINTED, INNER, 1)
  {
    var pointer := Con(RawPtr, [INNER]);
    assert Known(POINTED, INNER);
    assert POINTED[0].AllFields() == [pointer];
    assert KnownTable(POINTED);
    assert BindAll(INNER, []) == [] && Bind(INNER, []) == INNER;
    assert BindAll(pointer, []) == [INNER] && Bind(pointer, []) == pointer;
    assert BoundFields(POINTED, 0, []) == [pointer];
    assert Itself(POINTED, 0) == INNER by { assert Parameters(0) == []; }
    assert {} + {0} == {0};
    assert Visit(POINTED, INNER, {0}).recursive;
    assert VisitAll(POINTED, [INNER], {0}).recursive;
    assert Visit(POINTED, pointer, {0}).recursive;
    assert VisitAll(POINTED, [pointer], {0}).recursive;
    assert Components(POINTED, pointer) == [] && Components(POINTED, INNER) == [pointer];
    assert Unfolds(POINTED, pointer, 0);
    assert AllUnfold(POINTED, [pointer], 1);
  }

  /** A wrapper around a wrapper: the second is met below the first, but as its argument. */
  const WRAPPED: Defs := [RecordDef(1, [Param(0)]), RecordDef(0, [Con(Named(0), [Con(Named(0), [BOOL])])])]

  lemma WrappedFields()
    ensures KnownTable(WRAPPED) && Known(WRAPPED, Con(Named(0), [BOOL])) && Known(WRAPPED, BOOL)
    ensures Known(WRAPPED, Con(Named(0), [Con(Named(0), [BOOL])])) && Known(WRAPPED, Con(Named(1), []))
    ensures forall t :: BoundFields(WRAPPED, 0, [t]) == [t]
    ensures BoundFields(WRAPPED, 1, []) == [Con(Named(0), [Con(Named(0), [BOOL])])]
    ensures Itself(WRAPPED, 1) == Con(Named(1), [])
  {
    var once := Con(Named(0), [BOOL]);
    var twice := Con(Named(0), [once]);
    assert Known(WRAPPED, BOOL) && Known(WRAPPED, once) && Known(WRAPPED, twice);
    assert WRAPPED[0].AllFields() == [Param(0)] && WRAPPED[1].AllFields() == [twice];
    assert Bind(BOOL, []) == BOOL by { assert BindAll(BOOL, []) == []; }
    assert Bind(once, []) == once by { assert BindAll(once, []) == [BOOL]; }
    assert Bind(twice, []) == twice by { assert BindAll(twice, []) == [once]; }
    forall t ensures BoundFields(WRAPPED, 0, [t]) == [t] { assert Bind(Param(0), [t]) == t; }
    assert Parameters(0) == [];
  }

  lemma WrappedVisit()
    ensures KnownTable(WRAPPED) && IsTypeRecursive(WRAPPED, 1)
  {
    WrappedFields();
    var once := Con(Named(0), [BOOL]);
    var twice := Con(Named(0), [once]);
    assert {} + {1} == {1};
    assert Visit(WRAPPED, once, {1} + {0}).recursive;
    assert VisitAll(WRAPPED, [once], {1} + {0}).recursive;
    assert Visit(WRAPPED, twice, {1}).recursive;
    assert VisitAll(WRAPPED, [twice], {1}).recursive;
  }

  lemma OneComponent(defs: Defs, t: Ty, c: Ty, d: nat)
    requires KnownTable(defs) && Known(defs, t) && Components(defs, t) == [c] && Known(defs, c) && Unfolds(defs, c, d)
    ensures Unfolds(defs, t, d + 1)
  {
    assert AllUnfold(defs, [c], d + 1);
  }

  lemma WrappedRefused()
    ensures KnownTable(WRAPPED) && Known(WRAPPED, Con(Named(1), []))
    ensures IsTypeRecursive(WRAPPED, 1) && Unfolds(WRAPPED, Con(Named(1), []), 3)
  {
    WrappedFields();
    WrappedVisit();
    var once := Con(Named(0), [BOOL]);
    var twice := Con(Named(0), [once]);
    assert Unfolds(WRAPPED, BOOL, 0);
    OneComponent(WRAPPED, once, BOOL, 0);
    OneComponent(WRAPPED, twice, once, 1);
    OneComponent(WRAPPED, Con(Named(1), []), twice, 2);
  }
}
