/** Types with definitions as pattern matching sees them: trees that stop at boxes. */
module PatternTypes {
  import opened Prelude
  import opened Types
  import opened RecursiveTypes
  import opened Emptiness
  import Patterns

  // ---------------------------------------------------------------- the tree of a type

  /** t unfolded at most d deep by value. Cases are named by their position. */
  ghost function Tree(c: Checked, d: nat, t: Ty): Patterns.Ty
    decreases d, 3
  {
    if IsDefined(c, t) then
      match c.defs[t.head.id]
      case RecordDef(_, fields) => Patterns.Record(Trees(c, d, BindEach(fields, t.args)))
      case VariantDef(_, cases) => Patterns.Variant(CaseTrees(c, d, cases, t.args))
    else
      match t
      case Con(Tuple, args) => Patterns.Tuple(Trees(c, d, args))
      case Con(Box, args) => Patterns.Box(forall i :: 0 <= i < |args| ==> Inhabited(c, args[i]))
      case Con(Never, _) => Patterns.Never
      case Con(Bool, _) => Patterns.Bool
      case Con(Char, _) => Patterns.Char
      case Con(Int(_), _) => Patterns.Int
      case _ => Patterns.Open
  }

  ghost function Trees(c: Checked, d: nat, ts: seq<Ty>): (r: seq<Patterns.Ty>)
    ensures |r| == |ts|
    decreases d, 2
  {
    seq(|ts|, i requires 0 <= i < |ts| => Below(c, d, ts[i]))
  }

  ghost function CaseTrees(c: Checked, d: nat, cases: seq<Option<Ty>>, args: seq<Ty>): (r: seq<Patterns.Case>)
    ensures |r| == |cases|
    decreases d, 2
  {
    seq(|cases|, i requires 0 <= i < |cases| => Patterns.Case(i, CaseTree(c, d, cases[i], args)))
  }

  ghost function CaseTree(c: Checked, d: nat, payload: Option<Ty>, args: seq<Ty>): Option<Patterns.Ty>
    decreases d, 1
  {
    match payload
    case None => None
    case Some(t) => Some(Below(c, d, Bind(t, args)))
  }

  ghost function Below(c: Checked, d: nat, t: Ty): Patterns.Ty
    decreases d, 0
  {
    if d == 0 then Patterns.Open else Tree(c, d - 1, t)
  }

  // ---------------------------------------------------------------- which types have values

  lemma {:induction false} InhabitedAll(c: Checked, ts: seq<Ty>) returns (k: nat)
    requires forall i :: 0 <= i < |ts| ==> Inhabited(c, ts[i])
    ensures forall i :: 0 <= i < |ts| ==> HasValue(c, k, ts[i])
    decreases ts
  {
    k := 0;
    if ts != [] {
      var l: nat :| HasValue(c, l, ts[0]);
      var m := InhabitedAll(c, ts[1..]);
      k := l + m;
      HasValueMore(c, l, k, ts[0]);
      forall i | 0 <= i < |ts| ensures HasValue(c, k, ts[i]) {
        if i > 0 { HasValueMore(c, m, k, ts[1..][i - 1]); }
      }
    }
  }

  /** A record, tuple or box has a value exactly if all it holds has. */
  lemma InhabitedProduct(c: Checked, t: Ty)
    requires !IsVariant(c, t) && (IsDefined(c, t) || (t.Con? && (t.head.Tuple? || t.head.Box?)))
    ensures Inhabited(c, t) <==> forall i :: 0 <= i < |Questions(c, t)| ==> Inhabited(c, Questions(c, t)[i])
  {
    var qs := Questions(c, t);
    if k: nat :| HasValue(c, k, t) {
      forall i | 0 <= i < |qs| ensures Inhabited(c, qs[i]) { assert HasValue(c, k - 1, qs[i]); }
    }
    if forall i :: 0 <= i < |qs| ==> Inhabited(c, qs[i]) {
      var k := InhabitedAll(c, qs);
      assert HasValue(c, k + 1, t);
    }
  }

  ghost predicate CaseInhabited(c: Checked, payload: Option<Ty>, args: seq<Ty>) {
    payload.Some? ==> Inhabited(c, Bind(payload.value, args))
  }

  /** A variant has a value exactly if one of its cases has. */
  lemma InhabitedVariant(c: Checked, t: Ty)
    requires IsVariant(c, t)
    ensures var cases := c.defs[t.head.id].cases;
            Inhabited(c, t) <==> exists i :: 0 <= i < |cases| && CaseInhabited(c, cases[i], t.args)
  {
    var cases := c.defs[t.head.id].cases;
    if k: nat :| HasValue(c, k, t) {
      var i :| 0 <= i < |cases| && CaseHasValue(c, k - 1, cases[i], t.args);
      if cases[i].Some? { assert HasValue(c, k - 1, Bind(cases[i].value, t.args)); }
      assert CaseInhabited(c, cases[i], t.args);
    }
    if i :| 0 <= i < |cases| && CaseInhabited(c, cases[i], t.args) {
      var k: nat := 0;
      if cases[i].Some? { k :| HasValue(c, k, Bind(cases[i].value, t.args)); }
      assert CaseHasValue(c, k, cases[i], t.args);
      assert HasValue(c, k + 1, t);
    }
  }

  // ---------------------------------------------------------------- the tree says which types have values

  lemma {:induction false} PayloadIn(cases: seq<Option<Ty>>, i: nat)
    requires i < |cases| && cases[i].Some?
    ensures cases[i].value in Payloads(cases)
  {
    if i < |cases| - 1 { PayloadIn(cases[..|cases| - 1], i); }
  }

  lemma PartUnfolds(defs: Defs, t: Ty, d: nat, q: Ty)
    requires KnownTable(defs) && Known(defs, t) && Unfolds(defs, t, d) && q in Components(defs, t)
    ensures d > 0 && Known(defs, q) && Unfolds(defs, q, d - 1)
  {
    KnownComponents(defs, t);
  }

  lemma PayloadUnfolds(defs: Defs, t: Ty, d: nat, i: nat)
    requires KnownTable(defs) && Known(defs, t) && Unfolds(defs, t, d) && IsVariant(Check(defs), t)
    requires i < |defs[t.head.id].cases| && defs[t.head.id].cases[i].Some?
    ensures var q := Bind(defs[t.head.id].cases[i].value, t.args); d > 0 && Known(defs, q) && Unfolds(defs, q, d - 1)
  {
    var cases := defs[t.head.id].cases;
    PayloadIn(cases, i);
    var j :| 0 <= j < |Payloads(cases)| && Payloads(cases)[j] == cases[i].value;
    assert Components(defs, t)[j] == Bind(cases[i].value, t.args);
    PartUnfolds(defs, t, d, Bind(cases[i].value, t.args));
  }

  /** Deep enough the tree is well formed, and is one without values exactly if the type is. */
  lemma {:induction false} TreeRight(defs: Defs, t: Ty, d: nat)
    requires KnownTable(defs) && Known(defs, t) && Unfolds(defs, t, d)
    ensures var tree := Tree(Check(defs), d, t);
            Patterns.WellFormed(tree) && (Patterns.Uninhabited(tree) <==> !Inhabited(Check(defs), t))
    decreases d
  {
    var c := Check(defs);
    if IsVariant(c, t) {
      InhabitedVariant(c, t);
      var cases := defs[t.head.id].cases;
      forall i: nat | i < |cases| ensures CaseRight(c, d, cases[i], t.args) {
        if cases[i].Some? {
          PayloadUnfolds(defs, t, d, i);
          TreeRight(defs, Bind(cases[i].value, t.args), d - 1);
        }
      }
      VariantRight(c, d, t);
    } else if IsDefined(c, t) || (t.Con? && t.head.Tuple?) {
      InhabitedProduct(c, t);
      var qs := Questions(c, t);
      forall i | 0 <= i < |qs| ensures PartRight(c, d, qs[i]) {
        assert qs[i] in Components(defs, t);
        PartUnfolds(defs, t, d, qs[i]);
        TreeRight(defs, qs[i], d - 1);
      }
      ProductRight(c, d, t);
    } else if t.Con? && t.head.Box? {
      InhabitedProduct(c, t);
      assert Questions(c, t) == t.args;
      assert Tree(c, d, t) == Patterns.Box(forall i :: 0 <= i < |t.args| ==> Inhabited(c, t.args[i]));
    } else {
      assert HasValue(c, 0, t) <==> !(t.Con? && t.head.Never?);
    }
  }

  ghost predicate PartRight(c: Checked, d: nat, q: Ty) {
    Patterns.WellFormed(Below(c, d, q)) && (Patterns.Uninhabited(Below(c, d, q)) <==> !Inhabited(c, q))
  }

  ghost predicate CaseRight(c: Checked, d: nat, payload: Option<Ty>, args: seq<Ty>) {
    payload.Some? ==> PartRight(c, d, Bind(payload.value, args))
  }

  lemma ProductRight(c: Checked, d: nat, t: Ty)
    requires !IsVariant(c, t) && (IsDefined(c, t) || (t.Con? && t.head.Tuple?))
    requires forall i :: 0 <= i < |Questions(c, t)| ==> PartRight(c, d, Questions(c, t)[i])
    ensures Patterns.WellFormed(Tree(c, d, t))
    ensures Patterns.Uninhabited(Tree(c, d, t))
            <==> exists i :: 0 <= i < |Questions(c, t)| && !Inhabited(c, Questions(c, t)[i])
  {
    var qs, parts := Questions(c, t), Trees(c, d, Questions(c, t));
    assert Tree(c, d, t) == if IsDefined(c, t) then Patterns.Record(parts) else Patterns.Tuple(parts);
    forall i | 0 <= i < |qs| ensures Patterns.WellFormed(parts[i]) && (Patterns.Uninhabited(parts[i]) <==> !Inhabited(c, qs[i])) {
      assert PartRight(c, d, qs[i]);
    }
  }

  lemma VariantRight(c: Checked, d: nat, t: Ty)
    requires IsVariant(c, t)
    requires forall i: nat :: i < |c.defs[t.head.id].cases| ==> CaseRight(c, d, c.defs[t.head.id].cases[i], t.args)
    ensures Patterns.WellFormed(Tree(c, d, t))
    ensures var cases := c.defs[t.head.id].cases;
            Patterns.Uninhabited(Tree(c, d, t)) <==> !exists i :: 0 <= i < |cases| && CaseInhabited(c, cases[i], t.args)
  {
    var cases, parts := c.defs[t.head.id].cases, CaseTrees(c, d, c.defs[t.head.id].cases, t.args);
    assert Tree(c, d, t) == Patterns.Variant(parts);
    forall i: nat | i < |cases|
      ensures parts[i].field.Some? ==> Patterns.WellFormed(parts[i].field.value)
      ensures Patterns.CaseUninhabited(parts[i]) <==> !CaseInhabited(c, cases[i], t.args)
    {
      assert parts[i].field == CaseTree(c, d, cases[i], t.args);
      assert CaseRight(c, d, cases[i], t.args);
    }
    if Patterns.Uninhabited(Tree(c, d, t)) {
      forall i | 0 <= i < |cases| ensures !CaseInhabited(c, cases[i], t.args) { assert Patterns.CaseUninhabited(parts[i]); }
    }
  }

  /** Under an accepted table every type has a tree, and where the emptiness test ends it answers as the tree says. */
  lemma AcceptedTree(defs: Defs, t: Ty) returns (d: nat)
    requires Accepted(defs) && Known(defs, t)
    ensures Unfolds(defs, t, d) && Patterns.WellFormed(Tree(Check(defs), d, t))
    ensures forall n: nat :: Empty(Check(defs), n, t).Some? ==>
              Empty(Check(defs), n, t).value == Patterns.Uninhabited(Tree(Check(defs), d, t))
  {
    d := AcceptedUnfolds(defs, t);
    TreeRight(defs, t, d);
    forall n: nat | Empty(Check(defs), n, t).Some?
      ensures Empty(Check(defs), n, t).value == Patterns.Uninhabited(Tree(Check(defs), d, t))
    {
      EmptyRight(defs, n, t);
    }
  }

  /** The tree does not depend on the depth, if it is enough. */
  lemma {:induction false} TreeSame(defs: Defs, t: Ty, d: nat, e: nat)
    requires KnownTable(defs) && Known(defs, t) && Unfolds(defs, t, d) && d <= e
    ensures Tree(Check(defs), e, t) == Tree(Check(defs), d, t)
    decreases d
  {
    var c := Check(defs);
    if IsVariant(c, t) {
      var cases := defs[t.head.id].cases;
      forall i: nat | i < |cases| ensures CaseTree(c, e, cases[i], t.args) == CaseTree(c, d, cases[i], t.args) {
        if cases[i].Some? {
          PayloadUnfolds(defs, t, d, i);
          TreeSame(defs, Bind(cases[i].value, t.args), d - 1, e - 1);
        }
      }
      assert CaseTrees(c, e, cases, t.args) == CaseTrees(c, d, cases, t.args);
    } else if IsDefined(c, t) || (t.Con? && t.head.Tuple?) {
      var qs := Questions(c, t);
      forall i | 0 <= i < |qs| ensures Below(c, e, qs[i]) == Below(c, d, qs[i]) {
        assert qs[i] in Components(defs, t);
        PartUnfolds(defs, t, d, qs[i]);
        TreeSame(defs, qs[i], d - 1, e - 1);
      }
      assert Trees(c, e, qs) == Trees(c, d, qs);
    }
  }
}
