/** Unification of types over a table of type variables. */
module Infer {
  import opened Prelude
  import opened Types

  type Table = seq<Option<Ty>>

  // ---------------------------------------------------------------- types over a table

  /** Every variable of t is in d. */
  ghost predicate VarsIn(t: Ty, d: set<nat>) {
    match t
    case Infer(v) => v in d
    case IntVar(v) => v in d
    case Param(_) => true
    case Con(_, ts) => forall i :: 0 <= i < |ts| ==> VarsIn(ts[i], d)
  }

  /** Every variable of t has a rank below h. */
  ghost predicate RankBelow(t: Ty, rank: seq<nat>, h: nat) {
    match t
    case Infer(v) => v < |rank| && rank[v] < h
    case IntVar(v) => v < |rank| && rank[v] < h
    case Param(_) => true
    case Con(_, ts) => forall i :: 0 <= i < |ts| ==> RankBelow(ts[i], rank, h)
  }

  /** The variables of t exist and are used at their kind: isInt[v] for integer variables. */
  ghost predicate Kinded(t: Ty, isInt: seq<bool>) {
    match t
    case Infer(v) => v < |isInt| && !isInt[v]
    case IntVar(v) => v < |isInt| && isInt[v]
    case Param(_) => true
    case Con(head, ts) => (head.Int? ==> ts == []) && forall i :: 0 <= i < |ts| ==> Kinded(ts[i], isInt)
  }

  predicate IntLike(t: Ty) {
    t.IntVar? || (t.Con? && t.head.Int?)
  }

  /** The bindings are acyclic: what a variable is bound to has only variables of lower rank. */
  ghost predicate Ranked(tab: Table, rank: seq<nat>) {
    |rank| == |tab| && forall v :: 0 <= v < |tab| && tab[v].Some? ==> RankBelow(tab[v].value, rank, rank[v])
  }

  /** Integer variables are bound to integer types and integer variables only. */
  ghost predicate TableKinded(tab: Table, isInt: seq<bool>) {
    |isInt| == |tab| && forall v :: 0 <= v < |tab| && tab[v].Some? ==>
      Kinded(tab[v].value, isInt) && (isInt[v] ==> IntLike(tab[v].value))
  }

  // ---------------------------------------------------------------- reading the table

  /** Whether resolving t meets the variable. */
  function Occurs(tab: Table, ghost rank: seq<nat>, ghost h: nat, variable: nat, t: Ty): bool
    requires Ranked(tab, rank) && RankBelow(t, rank, h)
    decreases h, t
  {
    match t
    case Param(_) => false
    case Con(_, ts) => exists i :: 0 <= i < |ts| && Occurs(tab, rank, h, variable, ts[i])
    case _ =>
      t.tyVar == variable
      || (tab[t.tyVar].Some? && Occurs(tab, rank, rank[t.tyVar], variable, tab[t.tyVar].value))
  }

  /** t with every bound variable replaced by what it stands for. */
  function Simplify(tab: Table, ghost rank: seq<nat>, ghost h: nat, t: Ty): Ty
    requires Ranked(tab, rank) && RankBelow(t, rank, h)
    decreases h, t
  {
    match t
    case Param(_) => t
    case Con(head, ts) => Con(head, seq(|ts|, i requires 0 <= i < |ts| => Simplify(tab, rank, h, ts[i])))
    case _ =>
      match tab[t.tyVar]
      case None => t
      case Some(ty) => Simplify(tab, rank, rank[t.tyVar], ty)
  }

  /** The type expression for variable v. */
  function VarTy(isInt: seq<bool>, v: nat): Ty
    requires v < |isInt|
  {
    if isInt[v] then IntVar(v) else Infer(v)
  }

  ghost function Top(rank: seq<nat>): (h: nat)
    ensures forall v :: 0 <= v < |rank| ==> rank[v] < h
  {
    if rank == [] then 0
    else var h := Top(rank[..|rank| - 1]); var r := rank[|rank| - 1];
         if r < h then h else r + 1
  }

  lemma {:induction false} TopBelow(t: Ty, rank: seq<nat>, isInt: seq<bool>)
    requires Kinded(t, isInt) && |rank| == |isInt|
    ensures RankBelow(t, rank, Top(rank))
  {
    if t.Con? {
      forall i | 0 <= i < |t.args| ensures RankBelow(t.args[i], rank, Top(rank)) { TopBelow(t.args[i], rank, isInt); }
    }
  }

  lemma {:induction false} RankMore(t: Ty, rank: seq<nat>, h: nat, k: nat)
    requires RankBelow(t, rank, h) && h <= k
    ensures RankBelow(t, rank, k)
  {
    if t.Con? {
      forall i | 0 <= i < |t.args| ensures RankBelow(t.args[i], rank, k) { RankMore(t.args[i], rank, h, k); }
    }
  }

  /** The bound on the ranks does not matter. */
  lemma {:induction false} OccursAnyBound(tab: Table, rank: seq<nat>, h: nat, k: nat, variable: nat, t: Ty)
    requires Ranked(tab, rank) && RankBelow(t, rank, h) && RankBelow(t, rank, k)
    ensures Occurs(tab, rank, h, variable, t) == Occurs(tab, rank, k, variable, t)
  {
    if t.Con? {
      forall i | 0 <= i < |t.args|
        ensures Occurs(tab, rank, h, variable, t.args[i]) == Occurs(tab, rank, k, variable, t.args[i])
      {
        OccursAnyBound(tab, rank, h, k, variable, t.args[i]);
      }
    }
  }

  lemma {:induction false} SimplifyAnyBound(tab: Table, rank: seq<nat>, h: nat, k: nat, t: Ty)
    requires Ranked(tab, rank) && RankBelow(t, rank, h) && RankBelow(t, rank, k)
    ensures Simplify(tab, rank, h, t) == Simplify(tab, rank, k, t)
  {
    if t.Con? {
      forall i | 0 <= i < |t.args| ensures Simplify(tab, rank, h, t.args[i]) == Simplify(tab, rank, k, t.args[i]) {
        SimplifyAnyBound(tab, rank, h, k, t.args[i]);
      }
      assert Simplify(tab, rank, h, t).args == Simplify(tab, rank, k, t).args;
    }
  }

  // ---------------------------------------------------------------- what the occurs check decides

  /** d is closed: what is bound in it speaks of variables in it. */
  ghost predicate Closed(d: set<nat>, tab: Table) {
    forall v :: v in d ==> v < |tab| && (tab[v].Some? ==> VarsIn(tab[v].value, d))
  }

  lemma {:induction false} NotReached(tab: Table, rank: seq<nat>, h: nat, variable: nat, t: Ty, d: set<nat>)
    requires Ranked(tab, rank) && RankBelow(t, rank, h)
    requires Closed(d, tab) && VarsIn(t, d) && variable !in d
    ensures !Occurs(tab, rank, h, variable, t)
    decreases h, t
  {
    match t
    case Param(_) =>
    case Con(_, ts) =>
      forall i | 0 <= i < |ts| ensures !Occurs(tab, rank, h, variable, ts[i]) {
        NotReached(tab, rank, h, variable, ts[i], d);
      }
    case _ =>
      if tab[t.tyVar].Some? { NotReached(tab, rank, rank[t.tyVar], variable, tab[t.tyVar].value, d); }
  }

  /** The variables from which resolving does not meet the given one. */
  ghost function Without(tab: Table, rank: seq<nat>, variable: nat): set<nat>
    requires Ranked(tab, rank)
  {
    set v | 0 <= v < |tab| && !Occurs(tab, rank, rank[v] + 1, variable, Infer(v))
  }

  lemma {:induction false} WithoutVars(tab: Table, rank: seq<nat>, h: nat, variable: nat, t: Ty)
    requires Ranked(tab, rank) && RankBelow(t, rank, h)
    ensures VarsIn(t, Without(tab, rank, variable)) <==> !Occurs(tab, rank, h, variable, t)
    decreases t
  {
    var d := Without(tab, rank, variable);
    match t
    case Param(_) =>
    case Con(_, ts) =>
      forall i | 0 <= i < |ts| ensures VarsIn(ts[i], d) <==> !Occurs(tab, rank, h, variable, ts[i]) {
        WithoutVars(tab, rank, h, variable, ts[i]);
      }
    case _ => assert t.tyVar in d <==> !Occurs(tab, rank, rank[t.tyVar] + 1, variable, Infer(t.tyVar));
  }

  lemma WithoutClosed(tab: Table, rank: seq<nat>, variable: nat)
    requires Ranked(tab, rank)
    ensures Closed(Without(tab, rank, variable), tab) && variable !in Without(tab, rank, variable)
  {
    var d := Without(tab, rank, variable);
    forall v | v in d && tab[v].Some? ensures VarsIn(tab[v].value, d) {
      WithoutVars(tab, rank, rank[v], variable, tab[v].value);
    }
  }

  /** The variable is in every closed set with the variables of t. */
  ghost predicate Reaches(tab: Table, variable: nat, t: Ty) {
    forall d :: Closed(d, tab) && VarsIn(t, d) ==> variable in d
  }

  /** The occurs check answers whether the variable is in every closed set with the variables of t. */
  lemma OccursMeaning(tab: Table, rank: seq<nat>, h: nat, variable: nat, t: Ty)
    requires Ranked(tab, rank) && RankBelow(t, rank, h)
    ensures Occurs(tab, rank, h, variable, t) <==> Reaches(tab, variable, t)
  {
    if Occurs(tab, rank, h, variable, t) {
      forall d | Closed(d, tab) && VarsIn(t, d) ensures variable in d {
        if variable !in d { NotReached(tab, rank, h, variable, t, d); }
      }
    } else {
      WithoutClosed(tab, rank, variable);
      WithoutVars(tab, rank, h, variable, t);
    }
  }

  // ---------------------------------------------------------------- solutions

  /** t with the value s[v] for each variable v. */
  ghost function Apply(s: seq<Ty>, t: Ty): Ty {
    match t
    case Param(_) => t
    case Con(head, ts) => Con(head, seq(|ts|, i requires 0 <= i < |ts| => Apply(s, ts[i])))
    case _ => if t.tyVar < |s| then s[t.tyVar] else t
  }

  /** s gives every bound variable in d the value of what it is bound to. */
  ghost predicate Solves(s: seq<Ty>, d: set<nat>, tab: Table) {
    |s| == |tab| && forall v :: v in d && v < |tab| && tab[v].Some? ==> s[v] == Apply(s, tab[v].value)
  }

  ghost function All(tab: Table): set<nat> {
    Ids(|tab|)
  }

  ghost function Unbound(tab: Table): set<nat> {
    set v | 0 <= v < |tab| && tab[v].None?
  }

  /** The solution that simplification computes. */
  ghost function Canonical(tab: Table, isInt: seq<bool>, rank: seq<nat>): (s: seq<Ty>)
    requires Ranked(tab, rank) && |isInt| == |tab|
    ensures |s| == |tab|
  {
    seq(|tab|, v requires 0 <= v < |tab| => Simplify(tab, rank, rank[v] + 1, VarTy(isInt, v)))
  }

  lemma {:induction false} ApplyCanonical(tab: Table, isInt: seq<bool>, rank: seq<nat>, h: nat, t: Ty)
    requires Ranked(tab, rank) && |isInt| == |tab| && RankBelow(t, rank, h) && Kinded(t, isInt)
    ensures Apply(Canonical(tab, isInt, rank), t) == Simplify(tab, rank, h, t)
    decreases t
  {
    var s := Canonical(tab, isInt, rank);
    match t
    case Param(_) =>
    case Con(_, ts) =>
      forall i | 0 <= i < |ts| ensures Apply(s, ts[i]) == Simplify(tab, rank, h, ts[i]) {
        ApplyCanonical(tab, isInt, rank, h, ts[i]);
      }
      assert Apply(s, t).args == Simplify(tab, rank, h, t).args;
    case _ => SimplifyAnyBound(tab, rank, h, rank[t.tyVar] + 1, t);
  }

  /** Simplification solves the table. */
  lemma CanonicalSolves(tab: Table, isInt: seq<bool>, rank: seq<nat>)
    requires Ranked(tab, rank) && TableKinded(tab, isInt)
    ensures Solves(Canonical(tab, isInt, rank), All(tab), tab)
  {
    var s := Canonical(tab, isInt, rank);
    forall v | 0 <= v < |tab| && tab[v].Some? ensures s[v] == Apply(s, tab[v].value) {
      ApplyCanonical(tab, isInt, rank, rank[v], tab[v].value);
    }
  }

  /** Simplification changes no type under any solution. */
  lemma {:induction false} SolvesSimplify(s: seq<Ty>, tab: Table, rank: seq<nat>, h: nat, t: Ty)
    requires Ranked(tab, rank) && RankBelow(t, rank, h) && Solves(s, All(tab), tab)
    ensures Apply(s, Simplify(tab, rank, h, t)) == Apply(s, t)
    decreases h, t
  {
    match t
    case Param(_) =>
    case Con(_, ts) =>
      var ts' := Simplify(tab, rank, h, t).args;
      forall i | 0 <= i < |ts| ensures Apply(s, ts'[i]) == Apply(s, ts[i]) {
        SolvesSimplify(s, tab, rank, h, ts[i]);
      }
      assert Apply(s, Simplify(tab, rank, h, t)).args == Apply(s, t).args;
    case _ =>
      if tab[t.tyVar].Some? {
        assert t.tyVar in All(tab);
        SolvesSimplify(s, tab, rank, rank[t.tyVar], tab[t.tyVar].value);
      }
  }

  /** Only unbound variables are left. */
  lemma {:induction false} SimplifyUnbound(tab: Table, isInt: seq<bool>, rank: seq<nat>, h: nat, t: Ty)
    requires Ranked(tab, rank) && TableKinded(tab, isInt) && RankBelow(t, rank, h) && Kinded(t, isInt)
    ensures VarsIn(Simplify(tab, rank, h, t), Unbound(tab)) && Kinded(Simplify(tab, rank, h, t), isInt)
    decreases h, t
  {
    match t
    case Param(_) =>
    case Con(_, ts) =>
      var ts' := Simplify(tab, rank, h, t).args;
      forall i | 0 <= i < |ts| ensures VarsIn(ts'[i], Unbound(tab)) && Kinded(ts'[i], isInt) {
        SimplifyUnbound(tab, isInt, rank, h, ts[i]);
      }
    case _ =>
      if tab[t.tyVar].Some? { SimplifyUnbound(tab, isInt, rank, rank[t.tyVar], tab[t.tyVar].value); }
  }

  lemma {:induction false} CanonicalUnbound(tab: Table, isInt: seq<bool>, rank: seq<nat>, t: Ty)
    requires Ranked(tab, rank) && |isInt| == |tab| && Kinded(t, isInt) && VarsIn(t, Unbound(tab))
    ensures Apply(Canonical(tab, isInt, rank), t) == t
  {
    if t.Con? {
      var s := Canonical(tab, isInt, rank);
      forall i | 0 <= i < |t.args| ensures Apply(s, t.args[i]) == t.args[i] {
        CanonicalUnbound(tab, isInt, rank, t.args[i]);
      }
      assert Apply(s, t).args == t.args;
    }
  }

  /** A table with fewer solutions and the same unbound variables simplifies everything alike. */
  lemma SimplifySame(tab: Table, tab': Table, isInt: seq<bool>, rank: seq<nat>, rank': seq<nat>, h: nat, h': nat, t: Ty)
    requires Ranked(tab, rank) && TableKinded(tab, isInt) && Ranked(tab', rank') && TableKinded(tab', isInt)
    requires Unbound(tab') == Unbound(tab)
    requires forall s: seq<Ty> :: Solves(s, All(tab'), tab') ==> Solves(s, All(tab), tab)
    requires Kinded(t, isInt) && RankBelow(t, rank, h) && RankBelow(t, rank', h')
    ensures Simplify(tab', rank', h', t) == Simplify(tab, rank, h, t)
  {
    var s := Canonical(tab', isInt, rank');
    var x := Simplify(tab, rank, h, t);
    CanonicalSolves(tab', isInt, rank');
    SolvesSimplify(s, tab, rank, h, t);
    ApplyCanonical(tab', isInt, rank', h', t);
    SimplifyUnbound(tab, isInt, rank, h, t);
    CanonicalUnbound(tab', isInt, rank', x);
  }

  // ---------------------------------------------------------------- one step of unification

  /** From tab to tab' exactly the solutions that equate t1 and t2 are kept, r being their common value;
      nothing outside d is touched and no variable is unbound again. */
  ghost predicate Unified(d: set<nat>, tab: Table, tab': Table, t1: Ty, t2: Ty, r: Ty) {
    && |tab'| == |tab| && Closed(d, tab')
    && (forall v :: 0 <= v < |tab| && v !in d ==> tab'[v] == tab[v])
    && (forall v :: 0 <= v < |tab| && tab[v].Some? ==> tab'[v].Some?)
    && VarsIn(r, d)
    && (forall s: seq<Ty> :: Solves(s, d, tab') <==> Solves(s, d, tab) && Apply(s, t1) == Apply(s, t2))
    && (forall s: seq<Ty> :: Solves(s, d, tab') ==> Apply(s, r) == Apply(s, t1))
  }

  lemma UnifiedSame(d: set<nat>, tab: Table, t1: Ty, t2: Ty, r: Ty)
    requires Closed(d, tab) && VarsIn(r, d)
    requires forall s: seq<Ty> :: Solves(s, d, tab) ==> Apply(s, t1) == Apply(s, t2) == Apply(s, r)
    ensures Unified(d, tab, tab, t1, t2, r)
  {
  }

  lemma UnifiedSwap(d: set<nat>, tab: Table, tab': Table, t1: Ty, t2: Ty, r: Ty)
    requires Unified(d, tab, tab', t1, t2, r)
    ensures Unified(d, tab, tab', t2, t1, r)
  {
    forall s: seq<Ty> | Solves(s, d, tab') ensures Apply(s, r) == Apply(s, t2) {
      assert Apply(s, t1) == Apply(s, t2);
    }
  }

  /** Binding an unbound variable. */
  lemma UnifiedBind(d: set<nat>, tab: Table, isInt: seq<bool>, v: nat, t: Ty)
    requires Closed(d, tab) && v in d && VarsIn(t, d) && |isInt| == |tab| && tab[v].None?
    ensures Unified(d, tab, tab[v := Some(t)], VarTy(isInt, v), t, t)
  {
    var tab' := tab[v := Some(t)];
    forall s: seq<Ty> ensures Solves(s, d, tab') <==> Solves(s, d, tab) && Apply(s, VarTy(isInt, v)) == Apply(s, t) {
      if Solves(s, d, tab) && s[v] == Apply(s, t) {
        forall u | u in d && u < |tab| && tab'[u].Some? ensures s[u] == Apply(s, tab'[u].value) {
          if u != v { assert tab[u].Some?; }
        }
      }
      if Solves(s, d, tab') {
        assert tab'[v].Some?;
        forall u | u in d && u < |tab| && tab[u].Some? ensures s[u] == Apply(s, tab[u].value) { assert tab'[u].Some?; }
      }
    }
  }

  /** Rebinding a bound variable to what its binding was unified to, with the variable itself left out. */
  lemma UnifiedRebind(d: set<nat>, d': set<nat>, tab: Table, tab1: Table, isInt: seq<bool>, v: nat, t: Ty, r: Ty)
    requires Closed(d, tab) && d' <= d && v in d && v !in d' && |isInt| == |tab| && tab[v].Some?
    requires Unified(d', tab, tab1, tab[v].value, t, r)
    ensures Unified(d, tab, tab1[v := Some(r)], VarTy(isInt, v), t, r)
  {
    var e := tab[v].value;
    var tab' := tab1[v := Some(r)];
    VarsInMore(r, d', d);
    forall u | u in d && tab'[u].Some? ensures VarsIn(tab'[u].value, d) {
      if u == v {
      } else if u in d' {
        VarsInMore(tab1[u].value, d', d);
      } else {
        assert tab1[u] == tab[u];
      }
    }
    forall s: seq<Ty>
      ensures Solves(s, d, tab') <==> Solves(s, d, tab) && Apply(s, VarTy(isInt, v)) == Apply(s, t)
      ensures Solves(s, d, tab') ==> Apply(s, r) == Apply(s, VarTy(isInt, v))
    {
      if Solves(s, d, tab') {
        assert tab'[v].Some?;
        forall u | u in d' && u < |tab| && tab1[u].Some? ensures s[u] == Apply(s, tab1[u].value) { assert tab'[u].Some?; }
        assert Solves(s, d', tab1);
        assert Solves(s, d', tab) && Apply(s, e) == Apply(s, t);
        forall u | u in d && u < |tab| && tab[u].Some? ensures s[u] == Apply(s, tab[u].value) {
          if u != v && u !in d' { assert tab1[u] == tab[u] && tab'[u].Some?; }
        }
      }
      if Solves(s, d, tab) && s[v] == Apply(s, t) {
        assert s[v] == Apply(s, e);
        assert Solves(s, d', tab);
        assert Solves(s, d', tab1);
        forall u | u in d && u < |tab| && tab'[u].Some? ensures s[u] == Apply(s, tab'[u].value) {
          if u != v && u !in d' { assert tab1[u] == tab[u]; }
        }
      }
    }
  }

  lemma {:induction false} VarsInMore(t: Ty, d: set<nat>, e: set<nat>)
    requires VarsIn(t, d) && d <= e
    ensures VarsIn(t, e)
  {
    if t.Con? {
      forall i | 0 <= i < |t.args| ensures VarsIn(t.args[i], e) { VarsInMore(t.args[i], d, e); }
    }
  }

  lemma {:induction false} VarsInAll(t: Ty, isInt: seq<bool>, tab: Table)
    requires Kinded(t, isInt) && |isInt| == |tab|
    ensures VarsIn(t, All(tab))
  {
    if t.Con? {
      forall i | 0 <= i < |t.args| ensures VarsIn(t.args[i], All(tab)) { VarsInAll(t.args[i], isInt, tab); }
    }
  }

  /** An integer variable that resolves to another has its value in every solution. */
  lemma {:induction false} IntChain(s: seq<Ty>, d: set<nat>, tab: Table, isInt: seq<bool>, rank: seq<nat>, h: nat, v: nat, t: Ty)
    requires Ranked(tab, rank) && TableKinded(tab, isInt) && RankBelow(t, rank, h)
    requires IntLike(t) && Kinded(t, isInt) && VarsIn(t, d) && Closed(d, tab) && Solves(s, d, tab)
    requires v < |tab| && Occurs(tab, rank, h, v, t)
    ensures Apply(s, t) == s[v]
    decreases h
  {
    if t.IntVar? && t.tyVar != v {
      var e := tab[t.tyVar].value;
      assert s[t.tyVar] == Apply(s, e);
      IntChain(s, d, tab, isInt, rank, rank[t.tyVar], v, e);
    }
  }

  // ---------------------------------------------------------------- new ranks

  /** Ranks after v is bound to t: everything that resolves to v moves above all others. */
  ghost function Lifted(tab: Table, rank: seq<nat>, v: nat): (r: seq<nat>)
    requires Ranked(tab, rank)
    ensures |r| == |rank|
  {
    seq(|tab|, u requires 0 <= u < |tab| =>
      if u in Without(tab, rank, v) then rank[u] else rank[u] + Top(rank))
  }

  lemma {:induction false} LiftedBelow(tab: Table, rank: seq<nat>, v: nat, t: Ty, h: nat)
    requires Ranked(tab, rank) && RankBelow(t, rank, h)
    ensures VarsIn(t, Without(tab, rank, v)) ==> RankBelow(t, Lifted(tab, rank, v), h)
    ensures RankBelow(t, Lifted(tab, rank, v), h + Top(rank))
  {
    if t.Con? {
      forall i | 0 <= i < |t.args|
        ensures VarsIn(t, Without(tab, rank, v)) ==> RankBelow(t.args[i], Lifted(tab, rank, v), h)
        ensures RankBelow(t.args[i], Lifted(tab, rank, v), h + Top(rank))
      {
        LiftedBelow(tab, rank, v, t.args[i], h);
      }
    }
  }

  /** Binding v to a type that does not resolve to v keeps the table acyclic. */
  lemma BindRanked(tab: Table, rank: seq<nat>, v: nat, t: Ty)
    requires Ranked(tab, rank) && v < |tab| && VarsIn(t, Without(tab, rank, v))
    requires RankBelow(t, rank, Top(rank))
    ensures Ranked(tab[v := Some(t)], Lifted(tab, rank, v))
  {
    var tab', rank' := tab[v := Some(t)], Lifted(tab, rank, v);
    WithoutClosed(tab, rank, v);
    forall u | 0 <= u < |tab| && tab'[u].Some? ensures RankBelow(tab'[u].value, rank', rank'[u]) {
      if u == v {
        LiftedBelow(tab, rank, v, t, Top(rank));
        RankMore(t, rank', Top(rank), rank'[v]);
      } else {
        LiftedBelow(tab, rank, v, tab[u].value, rank[u]);
      }
    }
  }

  // ---------------------------------------------------------------- sizes

  ghost function Size(t: Ty): nat {
    match t
    case Con(_, ts) => 1 + SizeAll(ts)
    case _ => 1
  }

  ghost function SizeAll(ts: seq<Ty>): nat {
    if ts == [] then 0 else Size(ts[0]) + SizeAll(ts[1..])
  }

  lemma {:induction false} SizeOfArg(ts: seq<Ty>, i: nat)
    requires i < |ts|
    ensures Size(ts[i]) <= SizeAll(ts)
  {
    if i > 0 { SizeOfArg(ts[1..], i - 1); }
  }

  /** The size of t once everything bound is put in. */
  ghost function Resolved(tab: Table, isInt: seq<bool>, rank: seq<nat>, t: Ty): nat
    requires Ranked(tab, rank) && |isInt| == |tab| && Kinded(t, isInt)
  {
    TopBelow(t, rank, isInt);
    Size(Simplify(tab, rank, Top(rank), t))
  }

  lemma ResolvedArg(tab: Table, isInt: seq<bool>, rank: seq<nat>, t: Ty, i: nat)
    requires Ranked(tab, rank) && |isInt| == |tab| && Kinded(t, isInt) && t.Con? && i < |t.args|
    ensures Resolved(tab, isInt, rank, t.args[i]) < Resolved(tab, isInt, rank, t)
  {
    TopBelow(t, rank, isInt);
    SizeOfArg(Simplify(tab, rank, Top(rank), t).args, i);
  }

  lemma ResolvedBound(tab: Table, isInt: seq<bool>, rank: seq<nat>, v: nat)
    requires Ranked(tab, rank) && TableKinded(tab, isInt) && v < |tab| && tab[v].Some?
    ensures Resolved(tab, isInt, rank, tab[v].value) == Resolved(tab, isInt, rank, VarTy(isInt, v))
  {
    var e := tab[v].value;
    TopBelow(e, rank, isInt);
    TopBelow(VarTy(isInt, v), rank, isInt);
    SimplifyAnyBound(tab, rank, Top(rank), rank[v], e);
  }

  // ---------------------------------------------------------------- when a refusal is right

  /** t is a variable that stands for v: it is v, or bound to one that stands for v. */
  ghost predicate StandsFor(tab: Table, rank: seq<nat>, h: nat, v: nat, t: Ty)
    requires Ranked(tab, rank) && RankBelow(t, rank, h)
    decreases h
  {
    (t.Infer? || t.IntVar?)
    && (t.tyVar == v || (tab[t.tyVar].Some? && StandsFor(tab, rank, rank[t.tyVar], v, tab[t.tyVar].value)))
  }

  lemma {:induction false} SizeApplied(s: seq<Ty>, head: Head, ts: seq<Ty>, i: nat)
    requires i < |ts|
    ensures Size(Apply(s, ts[i])) < Size(Apply(s, Con(head, ts)))
  {
    SizeOfArg(Apply(s, Con(head, ts)).args, i);
  }

  /** Where v occurs in t, t stands for v, or every solution makes t larger than v. */
  lemma {:induction false} OccursLarger(s: seq<Ty>, d: set<nat>, tab: Table, rank: seq<nat>, h: nat, v: nat, t: Ty)
    requires Ranked(tab, rank) && RankBelow(t, rank, h) && Closed(d, tab) && VarsIn(t, d) && Solves(s, d, tab)
    requires v < |tab| && Occurs(tab, rank, h, v, t)
    ensures if StandsFor(tab, rank, h, v, t) then Apply(s, t) == s[v] else Size(Apply(s, t)) > Size(s[v])
    decreases h, t
  {
    if t.Con? {
      var i :| 0 <= i < |t.args| && Occurs(tab, rank, h, v, t.args[i]);
      OccursLarger(s, d, tab, rank, h, v, t.args[i]);
      SizeApplied(s, t.head, t.args, i);
    } else if t.tyVar != v {
      var e := tab[t.tyVar].value;
      assert s[t.tyVar] == Apply(s, e);
      OccursLarger(s, d, tab, rank, rank[t.tyVar], v, e);
    }
  }

  lemma {:induction false} StandsForSame(tab: Table, isInt: seq<bool>, rank: seq<nat>, h: nat, v: nat, t: Ty)
    requires Ranked(tab, rank) && TableKinded(tab, isInt) && RankBelow(t, rank, h) && Kinded(t, isInt)
    requires v < |tab| && StandsFor(tab, rank, h, v, t)
    ensures Simplify(tab, rank, h, t) == Simplify(tab, rank, rank[v] + 1, VarTy(isInt, v))
    decreases h
  {
    if t.tyVar == v {
      SimplifyAnyBound(tab, rank, h, rank[v] + 1, t);
    } else {
      StandsForSame(tab, isInt, rank, rank[t.tyVar], v, tab[t.tyVar].value);
    }
  }

  /** Where v occurs in t, some solution equates the two exactly if they are the same already. */
  lemma OccursRight(tab: Table, isInt: seq<bool>, rank: seq<nat>, h: nat, v: nat, t: Ty)
    requires Ranked(tab, rank) && TableKinded(tab, isInt) && RankBelow(t, rank, h) && Kinded(t, isInt)
    requires v < |tab| && Occurs(tab, rank, h, v, t)
    ensures (exists s: seq<Ty> :: Solves(s, All(tab), tab) && Apply(s, t) == Apply(s, VarTy(isInt, v)))
            <==> Simplify(tab, rank, h, t) == Simplify(tab, rank, rank[v] + 1, VarTy(isInt, v))
  {
    var x := VarTy(isInt, v);
    if s: seq<Ty> :| Solves(s, All(tab), tab) && Apply(s, t) == Apply(s, x) {
      AllClosed(tab, isInt);
      VarsInAll(t, isInt, tab);
      OccursLarger(s, All(tab), tab, rank, h, v, t);
      StandsForSame(tab, isInt, rank, h, v, t);
    }
    if Simplify(tab, rank, h, t) == Simplify(tab, rank, rank[v] + 1, x) {
      var s := Canonical(tab, isInt, rank);
      CanonicalSolves(tab, isInt, rank);
      ApplyCanonical(tab, isInt, rank, h, t);
      ApplyCanonical(tab, isInt, rank, rank[v] + 1, x);
    }
  }

  // ---------------------------------------------------------------- the unifier as a function

  /** Where two different types are not both taken apart: the variable that is treated, and its counterpart. */
  function Chosen(t1: Ty, t2: Ty): Option<(Ty, Ty)> {
    if t1 == t2 then None
    else if t1.Con? && t1.head.Int? && t2.IntVar? then Some((t2, t1))
    else if t1.IntVar? && IntLike(t2) then Some((t1, t2))
    else if t1.Infer? then Some((t1, t2))
    else if t2.Infer? then Some((t2, t1))
    else None
  }

  predicate SameShape(t1: Ty, t2: Ty) {
    t1.Con? && t2.Con? && t1.head == t2.head && |t1.args| == |t2.args|
  }

  /** What unifying the two types gives, a type and a table, if it succeeds within n calls deep. */
  ghost function Run(n: nat, tab: Table, t1: Ty, t2: Ty): Option<(Ty, Table)>
    decreases n, 0
  {
    if n == 0 then None
    else if SameShape(t1, t2) then
      match RunAll(n - 1, tab, t1.args, t2.args)
      case None => None
      case Some((rs, tab')) => Some((Con(t1.head, rs), tab'))
    else if t1 == t2 then Some((t1, tab))
    else
      match Chosen(t1, t2)
      case None => None
      case Some((x, t)) =>
        if !Reaches(tab, x.tyVar, t) then RunVar(n - 1, tab, x.tyVar, t)
        else if x.IntVar? then Some((t, tab))
        else None
  }

  /** Likewise for a variable and a type in which it does not occur. */
  ghost function RunVar(n: nat, tab: Table, v: nat, t: Ty): Option<(Ty, Table)>
    decreases n, 1
  {
    if v >= |tab| then None
    else
      match tab[v]
      case None => Some((t, tab[v := Some(t)]))
      case Some(entry) =>
        match Run(n, tab, entry, t)
        case None => None
        case Some((r, tab')) => if v < |tab'| then Some((r, tab'[v := Some(r)])) else None
  }

  /** Likewise for components, from left to right. */
  ghost function RunAll(n: nat, tab: Table, ts1: seq<Ty>, ts2: seq<Ty>): Option<(seq<Ty>, Table)>
    requires |ts1| == |ts2|
    decreases n, 1 + |ts1|
  {
    if ts1 == [] then Some(([], tab))
    else
      var k := |ts1| - 1;
      match RunAll(n, tab, ts1[..k], ts2[..k])
      case None => None
      case Some((rs, tab1)) =>
        match Run(n, tab1, ts1[k], ts2[k])
        case None => None
        case Some((r, tab2)) => Some((rs + [r], tab2))
  }

  lemma {:induction false} RunMore(n: nat, m: nat, tab: Table, t1: Ty, t2: Ty)
    requires n <= m && Run(n, tab, t1, t2).Some?
    ensures Run(m, tab, t1, t2) == Run(n, tab, t1, t2)
    decreases n, 0
  {
    if SameShape(t1, t2) {
      RunAllMore(n - 1, m - 1, tab, t1.args, t2.args);
    } else if t1 != t2 {
      var (x, t) := Chosen(t1, t2).value;
      if !Reaches(tab, x.tyVar, t) { RunVarMore(n - 1, m - 1, tab, x.tyVar, t); }
    }
  }

  lemma {:induction false} RunVarMore(n: nat, m: nat, tab: Table, v: nat, t: Ty)
    requires n <= m && RunVar(n, tab, v, t).Some?
    ensures RunVar(m, tab, v, t) == RunVar(n, tab, v, t)
    decreases n, 1
  {
    if tab[v].Some? { RunMore(n, m, tab, tab[v].value, t); }
  }

  lemma {:induction false} RunAllMore(n: nat, m: nat, tab: Table, ts1: seq<Ty>, ts2: seq<Ty>)
    requires n <= m && |ts1| == |ts2| && RunAll(n, tab, ts1, ts2).Some?
    ensures RunAll(m, tab, ts1, ts2) == RunAll(n, tab, ts1, ts2)
    decreases n, 1 + |ts1|
  {
    if ts1 != [] {
      var k := |ts1| - 1;
      RunAllMore(n, m, tab, ts1[..k], ts2[..k]);
      RunMore(n, m, RunAll(n, tab, ts1[..k], ts2[..k]).value.1, ts1[k], ts2[k]);
    }
  }

  /** Unifying the two types succeeds with type r and leaves table tab'. */
  ghost predicate Gives(tab: Table, t1: Ty, t2: Ty, r: Ty, tab': Table) {
    exists n: nat :: Run(n, tab, t1, t2) == Some((r, tab'))
  }

  ghost predicate GivesVar(tab: Table, v: nat, t: Ty, r: Ty, tab': Table) {
    exists n: nat :: RunVar(n, tab, v, t) == Some((r, tab'))
  }

  /** The first k components of the two types give the types rs. */
  ghost predicate GivesUpto(k: nat, tab: Table, t1: Ty, t2: Ty, rs: seq<Ty>, tab': Table)
    requires SameShape(t1, t2) && k <= |t1.args|
  {
    exists n: nat :: RunAll(n, tab, t1.args[..k], t2.args[..k]) == Some((rs, tab'))
  }

  lemma GivesCon(tab: Table, t1: Ty, t2: Ty, rs: seq<Ty>, tab': Table)
    requires SameShape(t1, t2) && GivesUpto(|t1.args|, tab, t1, t2, rs, tab')
    ensures Gives(tab, t1, t2, Con(t1.head, rs), tab')
  {
    assert t1.args[..|t1.args|] == t1.args && t2.args[..|t1.args|] == t2.args;
    var n: nat :| RunAll(n, tab, t1.args, t2.args) == Some((rs, tab'));
    assert Run(n + 1, tab, t1, t2) == Some((Con(t1.head, rs), tab'));
  }

  lemma GivesSame(tab: Table, t: Ty)
    requires !t.Con?
    ensures Gives(tab, t, t, t, tab)
  {
    assert Run(1, tab, t, t) == Some((t, tab));
  }

  lemma GivesChosen(tab: Table, t1: Ty, t2: Ty, x: Ty, t: Ty, r: Ty, tab': Table)
    requires Chosen(t1, t2) == Some((x, t))
    requires if Reaches(tab, x.tyVar, t) then x.IntVar? && r == t && tab' == tab else GivesVar(tab, x.tyVar, t, r, tab')
    ensures Gives(tab, t1, t2, r, tab')
  {
    if Reaches(tab, x.tyVar, t) {
      assert Run(1, tab, t1, t2) == Some((r, tab'));
    } else {
      var n: nat :| RunVar(n, tab, x.tyVar, t) == Some((r, tab'));
      assert Run(n + 1, tab, t1, t2) == Some((r, tab'));
    }
  }

  lemma GivesUnbound(tab: Table, v: nat, t: Ty)
    requires v < |tab| && tab[v].None?
    ensures GivesVar(tab, v, t, t, tab[v := Some(t)])
  {
    assert RunVar(0, tab, v, t) == Some((t, tab[v := Some(t)]));
  }

  lemma GivesBound(tab: Table, v: nat, t: Ty, r: Ty, tab': Table)
    requires v < |tab| == |tab'| && tab[v].Some? && Gives(tab, tab[v].value, t, r, tab')
    ensures GivesVar(tab, v, t, r, tab'[v := Some(r)])
  {
    var n: nat :| Run(n, tab, tab[v].value, t) == Some((r, tab'));
    assert RunVar(n, tab, v, t) == Some((r, tab'[v := Some(r)]));
  }

  lemma GivesNone(tab: Table, t1: Ty, t2: Ty)
    requires SameShape(t1, t2)
    ensures GivesUpto(0, tab, t1, t2, [], tab)
  {
    assert RunAll(0, tab, t1.args[..0], t2.args[..0]) == Some(([], tab));
  }

  lemma GivesNext(k: nat, tab: Table, t1: Ty, t2: Ty, rs: seq<Ty>, tab1: Table, r: Ty, tab2: Table)
    requires SameShape(t1, t2) && k < |t1.args| && GivesUpto(k, tab, t1, t2, rs, tab1)
    requires Gives(tab1, t1.args[k], t2.args[k], r, tab2)
    ensures GivesUpto(k + 1, tab, t1, t2, rs + [r], tab2)
  {
    var ts1, ts2 := t1.args[..k + 1], t2.args[..k + 1];
    assert ts1[..k] == t1.args[..k] && ts2[..k] == t2.args[..k];
    var n: nat :| RunAll(n, tab, ts1[..k], ts2[..k]) == Some((rs, tab1));
    var m: nat :| Run(m, tab1, ts1[k], ts2[k]) == Some((r, tab2));
    RunAllMore(n, n + m, tab, ts1[..k], ts2[..k]);
    RunMore(m, n + m, tab1, ts1[k], ts2[k]);
    assert RunAll(n + m, tab, ts1, ts2) == Some((rs + [r], tab2));
  }

  // ---------------------------------------------------------------- what a run meets

  /** The way from a pair of types to a pair met while unifying them: through the binding of a bound variable,
      or to a component once those before it are unified, which gave the types and the table recorded. */
  datatype Trail = Here | Entered(rest: Trail) | Component(done: seq<Ty>, table: Table, rest: Trail)

  /** The pair with the variable treated, if any, on the left. */
  function Treated(t1: Ty, t2: Ty): (Ty, Ty) {
    match Chosen(t1, t2)
    case None => (t1, t2)
    case Some(p) => p
  }

  /** Unifying t1 and t2 comes, along the trail, to x and t at the table given. */
  ghost predicate Met(trail: Trail, tab: Table, t1: Ty, t2: Ty, table: Table, x: Ty, t: Ty) {
    match trail
    case Here => table == tab && (x, t) == Treated(t1, t2)
    case Entered(rest) =>
      && Chosen(t1, t2).Some?
      && var (y, u) := Chosen(t1, t2).value;
         && !Reaches(tab, y.tyVar, u) && y.tyVar < |tab| && tab[y.tyVar].Some?
         && Met(rest, tab, tab[y.tyVar].value, u, table, x, t)
    case Component(done, tab1, rest) =>
      var k := |done|;
      && SameShape(t1, t2) && k < |t1.args| && GivesUpto(k, tab, t1, t2, done, tab1)
      && Met(rest, tab1, t1.args[k], t2.args[k], table, x, t)
  }

  /** Nothing unifies the pair at this table: the shapes clash, or a general variable occurs in the other type. */
  ghost predicate FailsAt(table: Table, x: Ty, t: Ty) {
    if Chosen(x, t).Some? then x.Infer? && Reaches(table, x.tyVar, t) else x != t && !SameShape(x, t)
  }

  lemma {:induction false} RunAllPrefix(n: nat, tab: Table, ts1: seq<Ty>, ts2: seq<Ty>, k: nat)
    requires k < |ts1| == |ts2| && RunAll(n, tab, ts1, ts2).Some?
    ensures RunAll(n, tab, ts1[..k], ts2[..k]).Some?
    ensures Run(n, RunAll(n, tab, ts1[..k], ts2[..k]).value.1, ts1[k], ts2[k]).Some?
    decreases |ts1|
  {
    var l := |ts1| - 1;
    if k < l {
      RunAllPrefix(n, tab, ts1[..l], ts2[..l], k);
      assert ts1[..l][..k] == ts1[..k] && ts2[..l][..k] == ts2[..k];
    }
  }

  lemma {:induction false} MetRun(trail: Trail, n: nat, tab: Table, t1: Ty, t2: Ty, table: Table, x: Ty, t: Ty)
    requires Met(trail, tab, t1, t2, table, x, t) && FailsAt(table, x, t)
    ensures Run(n, tab, t1, t2).None?
    decreases trail
  {
    if n > 0 {
      match trail
      case Here =>
      case Entered(rest) =>
        var (y, u) := Chosen(t1, t2).value;
        MetRun(rest, n - 1, tab, tab[y.tyVar].value, u, table, x, t);
      case Component(done, tab1, rest) =>
        var k := |done|;
        if RunAll(n - 1, tab, t1.args, t2.args).Some? {
          RunAllPrefix(n - 1, tab, t1.args, t2.args, k);
          var m: nat :| RunAll(m, tab, t1.args[..k], t2.args[..k]) == Some((done, tab1));
          RunAllMore(m, m + n, tab, t1.args[..k], t2.args[..k]);
          RunAllMore(n - 1, m + n, tab, t1.args[..k], t2.args[..k]);
          MetRun(rest, n - 1, tab1, t1.args[k], t2.args[k], table, x, t);
        }
    }
  }

  /** A run that meets a pair that nothing unifies does not succeed. */
  lemma MetFails(trail: Trail, tab: Table, t1: Ty, t2: Ty, table: Table, x: Ty, t: Ty)
    requires Met(trail, tab, t1, t2, table, x, t) && FailsAt(table, x, t)
    ensures forall r: Ty, tab': Table :: !Gives(tab, t1, t2, r, tab')
  {
    forall r: Ty, tab': Table ensures !Gives(tab, t1, t2, r, tab') {
      if n: nat :| Run(n, tab, t1, t2) == Some((r, tab')) { MetRun(trail, n, tab, t1, t2, table, x, t); }
    }
  }

  // ---------------------------------------------------------------- what a failure means

  /** Integer variables have integer types or integer variables as values. */
  ghost predicate IntSolution(s: seq<Ty>, isInt: seq<bool>) {
    |s| == |isInt| && forall v :: 0 <= v < |s| && isInt[v] ==> IntLike(s[v])
  }

  /** A solution that equates t1 and t2. */
  ghost predicate Wanted(s: seq<Ty>, d: set<nat>, tab: Table, isInt: seq<bool>, t1: Ty, t2: Ty) {
    IntSolution(s, isInt) && Solves(s, d, tab) && Apply(s, t1) == Apply(s, t2)
  }

  /** A pair that failed: how the run came to it, the table it then had with its ranks, and the two types. */
  datatype Failure = Failure(trail: Trail, table: Table, rank: seq<nat>, left: Ty, right: Ty)

  ghost predicate WellKinded(f: Failure, isInt: seq<bool>) {
    Ranked(f.table, f.rank) && |f.rank| == |isInt| && Kinded(f.left, isInt) && Kinded(f.right, isInt)
  }

  /** The pair is a variable and another one that stands for it. */
  ghost predicate IsAlias(f: Failure, isInt: seq<bool>)
    requires WellKinded(f, isInt)
  {
    TopBelow(f.right, f.rank, isInt);
    f.left.Infer? && StandsFor(f.table, f.rank, Top(f.rank), f.left.tyVar, f.right)
  }

  /** Every solution wanted gives the two types the same value, of variables in d. */
  ghost predicate Implied(f: Failure, d: set<nat>, tab: Table, isInt: seq<bool>, t1: Ty, t2: Ty) {
    && VarsIn(f.left, d) && VarsIn(f.right, d)
    && forall s: seq<Ty> :: Wanted(s, d, tab, isInt, t1, t2) ==> Apply(s, f.left) == Apply(s, f.right)
  }

  ghost predicate Hopeless(d: set<nat>, tab: Table, isInt: seq<bool>, t1: Ty, t2: Ty) {
    forall s: seq<Ty> :: !Wanted(s, d, tab, isInt, t1, t2)
  }

  /** Why two types were not unified: the run met a pair that nothing unifies, and either no solution
      equates the types, or the pair is an alias, two variables that every solution wanted equates. */
  ghost predicate Explained(f: Failure, d: set<nat>, tab: Table, isInt: seq<bool>, t1: Ty, t2: Ty) {
    && Met(f.trail, tab, t1, t2, f.table, f.left, f.right) && FailsAt(f.table, f.left, f.right)
    && WellKinded(f, isInt)
    && if IsAlias(f, isInt) then Implied(f, d, tab, isInt, t1, t2) else Hopeless(d, tab, isInt, t1, t2)
  }

  /** What explains a failure explains one farther back whose wanted solutions are among those of the first. */
  lemma ExplainedOnward(f: Failure, g: Failure, d: set<nat>, tab: Table, t1: Ty, t2: Ty,
                        e: set<nat>, tab': Table, u1: Ty, u2: Ty, isInt: seq<bool>)
    requires Explained(f, d, tab, isInt, t1, t2) && d <= e && g == f.(trail := g.trail)
    requires Met(g.trail, tab', u1, u2, g.table, g.left, g.right)
    requires forall s: seq<Ty> :: Wanted(s, e, tab', isInt, u1, u2) ==> Wanted(s, d, tab, isInt, t1, t2)
    ensures Explained(g, e, tab', isInt, u1, u2)
  {
    assert IsAlias(g, isInt) == IsAlias(f, isInt);
    if IsAlias(f, isInt) {
      VarsInMore(f.left, d, e);
      VarsInMore(f.right, d, e);
    }
  }

  lemma ExplainedSwap(f: Failure, d: set<nat>, tab: Table, isInt: seq<bool>, t1: Ty, t2: Ty)
    requires Explained(f, d, tab, isInt, t1, t2) && Chosen(t1, t2) == Chosen(t2, t1) != None
    ensures Explained(f, d, tab, isInt, t2, t1)
  {
    forall s: seq<Ty> | Wanted(s, d, tab, isInt, t2, t1) ensures Wanted(s, d, tab, isInt, t1, t2) { }
    ExplainedOnward(f, f, d, tab, t1, t2, d, tab, t2, t1, isInt);
  }

  lemma {:induction false} StandsForAnyBound(tab: Table, rank: seq<nat>, h: nat, k: nat, v: nat, t: Ty)
    requires Ranked(tab, rank) && RankBelow(t, rank, h) && RankBelow(t, rank, k)
    ensures StandsFor(tab, rank, h, v, t) == StandsFor(tab, rank, k, v, t)
  {
  }

  /** The occurs check's refusal of a general variable. */
  lemma RefusalExplained(d: set<nat>, tab: Table, isInt: seq<bool>, rank: seq<nat>, h: nat, v: nat, t: Ty)
    requires Ranked(tab, rank) && TableKinded(tab, isInt) && RankBelow(t, rank, h) && Kinded(t, isInt)
    requires Closed(d, tab) && v in d && VarsIn(t, d) && Occurs(tab, rank, h, v, t)
    requires !isInt[v] && t != Infer(v)
    ensures Explained(Failure(Here, tab, rank, Infer(v), t), d, tab, isInt, Infer(v), t)
  {
    OccursMeaning(tab, rank, h, v, t);
    TopBelow(t, rank, isInt);
    StandsForAnyBound(tab, rank, h, Top(rank), v, t);
    forall s: seq<Ty> | Wanted(s, d, tab, isInt, Infer(v), t)
      ensures StandsFor(tab, rank, h, v, t) && Apply(s, t) == s[v]
    {
      OccursLarger(s, d, tab, rank, h, v, t);
    }
  }

  function ThroughEntry(f: Failure): Failure {
    f.(trail := Entered(f.trail))
  }

  function ThroughComponent(f: Failure, done: seq<Ty>, table: Table): Failure {
    f.(trail := Component(done, table, f.trail))
  }

  /** Failing on the binding of v explains failing on v. */
  lemma EntryExplained(f: Failure, d: set<nat>, d': set<nat>, tab: Table, isInt: seq<bool>, v: nat, t: Ty)
    requires v < |tab| == |isInt| && tab[v].Some? && v in d && d' <= d
    requires Chosen(VarTy(isInt, v), t) == Some((VarTy(isInt, v), t)) && !Reaches(tab, v, t)
    requires Explained(f, d', tab, isInt, tab[v].value, t)
    ensures Explained(ThroughEntry(f), d, tab, isInt, VarTy(isInt, v), t)
  {
    forall s: seq<Ty> | Wanted(s, d, tab, isInt, VarTy(isInt, v), t) ensures Wanted(s, d', tab, isInt, tab[v].value, t) {
      assert s[v] == Apply(s, tab[v].value);
    }
    ExplainedOnward(f, ThroughEntry(f), d', tab, tab[v].value, t, d, tab, VarTy(isInt, v), t, isInt);
  }

  /** Types of different shapes are equated by no solution. */
  lemma ClashExplained(d: set<nat>, tab: Table, rank: seq<nat>, isInt: seq<bool>, t1: Ty, t2: Ty)
    requires Ranked(tab, rank) && |isInt| == |tab| && Kinded(t1, isInt) && Kinded(t2, isInt)
    requires t1 != t2 && Chosen(t1, t2).None? && !SameShape(t1, t2)
    ensures Explained(Failure(Here, tab, rank, t1, t2), d, tab, isInt, t1, t2)
  {
    forall s: seq<Ty> | IntSolution(s, isInt) ensures Apply(s, t1) != Apply(s, t2) {
      if t1.Con? && t2.Con? && t1.head == t2.head { assert |Apply(s, t1).args| != |Apply(s, t2).args|; }
    }
  }

  /** Failing on one pair of components explains failing on the whole. */
  lemma ArgExplained(f: Failure, d: set<nat>, tab: Table, tab1: Table, isInt: seq<bool>, t1: Ty, t2: Ty, rs: seq<Ty>)
    requires SameShape(t1, t2) && |t1.args| > |rs|
    requires UnifiedAll(d, tab, tab1, t1.args, t2.args, rs)
    requires GivesUpto(|rs|, tab, t1, t2, rs, tab1)
    requires Explained(f, d, tab1, isInt, t1.args[|rs|], t2.args[|rs|])
    ensures Explained(ThroughComponent(f, rs, tab1), d, tab, isInt, t1, t2)
  {
    var k := |rs|;
    forall s: seq<Ty> | Wanted(s, d, tab, isInt, t1, t2) ensures Wanted(s, d, tab1, isInt, t1.args[k], t2.args[k]) {
      ApplyCon(s, t1.head, t1.args, t2.args);
      assert Equates(s, t1.args, t2.args, k);
    }
    ExplainedOnward(f, ThroughComponent(f, rs, tab1), d, tab1, t1.args[k], t2.args[k], d, tab, t1, t2, isInt);
  }

  // ---------------------------------------------------------------- the table as an object

  datatype UnifyError = OccursCheck | NoMatch

  datatype VarResult = Ok(ty: Ty) | Err(error: UnifyError)

  /** Fewer variables are unbound, or types resolve to what they did. */
  ghost predicate Progress(tab: Table, isInt: seq<bool>, rank: seq<nat>, tab': Table, rank': seq<nat>)
    requires Ranked(tab, rank) && Ranked(tab', rank') && |tab| == |tab'| == |isInt|
  {
    Unbound(tab') < Unbound(tab)
    || (Unbound(tab') == Unbound(tab)
        && forall t: Ty :: Kinded(t, isInt) ==> Resolved(tab', isInt, rank', t) == Resolved(tab, isInt, rank, t))
  }

  lemma UnifiedProgress(d: set<nat>, tab: Table, tab': Table, isInt: seq<bool>, rank: seq<nat>, rank': seq<nat>, t1: Ty, t2: Ty, r: Ty)
    requires Ranked(tab, rank) && TableKinded(tab, isInt) && Ranked(tab', rank') && TableKinded(tab', isInt)
    requires Unified(d, tab, tab', t1, t2, r)
    ensures Progress(tab, isInt, rank, tab', rank')
  {
    assert Unbound(tab') <= Unbound(tab);
    if Unbound(tab') == Unbound(tab) {
      forall s: seq<Ty> | Solves(s, All(tab'), tab') ensures Solves(s, All(tab), tab) {
        assert Solves(s, d, tab');
        assert Solves(s, d, tab);
        forall v | v in All(tab) && tab[v].Some? ensures s[v] == Apply(s, tab[v].value) {
          if v !in d { assert tab'[v] == tab[v]; }
        }
      }
      forall t: Ty | Kinded(t, isInt) ensures Resolved(tab', isInt, rank', t) == Resolved(tab, isInt, rank, t) {
        TopBelow(t, rank, isInt);
        TopBelow(t, rank', isInt);
        SimplifySame(tab, tab', isInt, rank, rank', Top(rank), Top(rank'), t);
      }
    }
  }

  // ---------------------------------------------------------------- argument lists

  ghost predicate UnifiedAll(d: set<nat>, tab: Table, tab': Table, ts1: seq<Ty>, ts2: seq<Ty>, rs: seq<Ty>)
    requires |ts1| == |ts2| >= |rs|
  {
    && |tab'| == |tab| && Closed(d, tab')
    && (forall v :: 0 <= v < |tab| && v !in d ==> tab'[v] == tab[v])
    && (forall v :: 0 <= v < |tab| && tab[v].Some? ==> tab'[v].Some?)
    && (forall i :: 0 <= i < |rs| ==> VarsIn(rs[i], d))
    && (forall s: seq<Ty> :: Solves(s, d, tab') <==> Solves(s, d, tab) && Equates(s, ts1, ts2, |rs|))
    && (forall s: seq<Ty> :: Solves(s, d, tab') ==> Equates(s, rs, ts1, |rs|))
  }

  ghost predicate Equates(s: seq<Ty>, ts1: seq<Ty>, ts2: seq<Ty>, k: nat)
    requires k <= |ts1| && k <= |ts2|
  {
    forall i :: 0 <= i < k ==> Apply(s, ts1[i]) == Apply(s, ts2[i])
  }

  lemma UnifiedAllNext(d: set<nat>, tab: Table, tab1: Table, tab2: Table, ts1: seq<Ty>, ts2: seq<Ty>, rs: seq<Ty>, r: Ty)
    requires |ts1| == |ts2| > |rs|
    requires UnifiedAll(d, tab, tab1, ts1, ts2, rs) && Unified(d, tab1, tab2, ts1[|rs|], ts2[|rs|], r)
    ensures UnifiedAll(d, tab, tab2, ts1, ts2, rs + [r])
  {
    var k := |rs|;
    forall v | 0 <= v < |tab| && v !in d ensures tab2[v] == tab[v] { assert tab1[v] == tab[v]; }
    forall s: seq<Ty>
      ensures Solves(s, d, tab2) <==> Solves(s, d, tab) && Equates(s, ts1, ts2, k + 1)
      ensures Solves(s, d, tab2) ==> Equates(s, rs + [r], ts1, k + 1)
    {
      if Solves(s, d, tab2) {
        assert Solves(s, d, tab1);
        assert Equates(s, rs, ts1, k);
        forall i | 0 <= i < k + 1 ensures Apply(s, (rs + [r])[i]) == Apply(s, ts1[i]) {
          if i < k { assert Apply(s, rs[i]) == Apply(s, ts1[i]); }
        }
      }
      if Solves(s, d, tab) && Equates(s, ts1, ts2, k + 1) {
        assert Equates(s, ts1, ts2, k);
        assert Solves(s, d, tab1);
      }
    }
  }

  lemma UnifiedAllCon(d: set<nat>, tab: Table, tab': Table, head: Head, ts1: seq<Ty>, ts2: seq<Ty>, rs: seq<Ty>)
    requires |ts1| == |ts2| == |rs| && UnifiedAll(d, tab, tab', ts1, ts2, rs)
    ensures Unified(d, tab, tab', Con(head, ts1), Con(head, ts2), Con(head, rs))
  {
    forall s: seq<Ty> ensures Apply(s, Con(head, ts1)) == Apply(s, Con(head, ts2)) <==> Equates(s, ts1, ts2, |rs|) {
      ApplyCon(s, head, ts1, ts2);
    }
    forall s: seq<Ty> ensures Apply(s, Con(head, rs)) == Apply(s, Con(head, ts1)) <==> Equates(s, rs, ts1, |rs|) {
      ApplyCon(s, head, rs, ts1);
    }
  }

  lemma ApplyCon(s: seq<Ty>, head: Head, ts: seq<Ty>, us: seq<Ty>)
    requires |ts| == |us|
    ensures Apply(s, Con(head, ts)) == Apply(s, Con(head, us)) <==> Equates(s, ts, us, |ts|)
  {
    var x, y := Apply(s, Con(head, ts)).args, Apply(s, Con(head, us)).args;
    if Equates(s, ts, us, |ts|) { assert x == y; }
    if x == y {
      forall i | 0 <= i < |ts| ensures Apply(s, ts[i]) == Apply(s, us[i]) { assert x[i] == y[i]; }
    }
  }

  // ---------------------------------------------------------------- the unifier

  lemma {:induction false} RankExtend(t: Ty, rank: seq<nat>, h: nat, r: nat)
    requires RankBelow(t, rank, h)
    ensures RankBelow(t, rank + [r], h)
  {
    if t.Con? {
      forall i | 0 <= i < |t.args| ensures RankBelow(t.args[i], rank + [r], h) { RankExtend(t.args[i], rank, h, r); }
    }
  }

  lemma {:induction false} KindExtend(t: Ty, isInt: seq<bool>, k: bool)
    requires Kinded(t, isInt)
    ensures Kinded(t, isInt + [k])
  {
    if t.Con? {
      forall i | 0 <= i < |t.args| ensures Kinded(t.args[i], isInt + [k]) { KindExtend(t.args[i], isInt, k); }
    }
  }

  class TypeInfer {
    var typeVars: Table
    ghost var isInt: seq<bool>
    ghost var rank: seq<nat>

    /** The table is acyclic and respects the kinds of its variables. */
    ghost predicate Valid()
      reads this
    {
      Ranked(typeVars, rank) && TableKinded(typeVars, isInt)
    }

    constructor ()
      ensures Valid() && typeVars == []
    {
      typeVars, isInt, rank := [], [], [];
    }

    method Clear()
      modifies this
      ensures Valid() && typeVars == []
    {
      typeVars, isInt, rank := [], [], [];
    }

    method FreshTy(ghost integer: bool) returns (v: nat)
      requires Valid()
      modifies this
      ensures Valid() && v == |old(typeVars)| && typeVars == old(typeVars) + [None] && isInt == old(isInt) + [integer]
    {
      v := |typeVars|;
      forall u | 0 <= u < v && typeVars[u].Some?
        ensures RankBelow(typeVars[u].value, rank + [0], rank[u])
        ensures Kinded(typeVars[u].value, isInt + [integer])
      {
        RankExtend(typeVars[u].value, rank, rank[u], 0);
        KindExtend(typeVars[u].value, isInt, integer);
      }
      typeVars := typeVars + [None];
      isInt := isInt + [integer];
      rank := rank + [0];
    }

    method SimplifyType(t: Ty) returns (r: Ty)
      requires Valid() && Kinded(t, isInt)
      ensures RankBelow(t, rank, Top(rank)) && r == Simplify(typeVars, rank, Top(rank), t)
      ensures VarsIn(r, Unbound(typeVars))
    {
      TopBelow(t, rank, isInt);
      SimplifyUnbound(typeVars, isInt, rank, Top(rank), t);
      r := Simplify(typeVars, rank, Top(rank), t);
    }

    /** Unifies variable v with t, where d is a closed set with the variables of both. */
    method UnifyVarTy(v: nat, t: Ty, ghost h1: nat, ghost h2: nat, ghost d: set<nat>)
      returns (r: VarResult, ghost failure: Option<Failure>)
      requires Valid() && v < |typeVars| && Kinded(t, isInt) && (isInt[v] ==> IntLike(t))
      requires rank[v] < h1 && RankBelow(t, rank, h2)
      requires Closed(d, typeVars) && v in d && VarsIn(t, d)
      modifies this
      ensures Valid() && |typeVars| == |old(typeVars)| && isInt == old(isInt)
      ensures Reaches(old(typeVars), v, t) <==> r == Err(OccursCheck)
      ensures r == Err(OccursCheck) ==> typeVars == old(typeVars) && rank == old(rank)
      ensures !Reaches(old(typeVars), v, t) && old(typeVars)[v].None? ==>
                r == Ok(t) && typeVars == old(typeVars)[v := Some(t)]
      ensures r.Ok? ==> GivesVar(old(typeVars), v, t, r.ty, typeVars)
      ensures r.Ok? ==> Unified(d, old(typeVars), typeVars, VarTy(isInt, v), t, r.ty) && Kinded(r.ty, isInt)
                        && (isInt[v] ==> IntLike(r.ty))
      ensures !r.Ok? && t != VarTy(isInt, v) && (isInt[v] ==> r != Err(OccursCheck)) ==>
                failure.Some? && Explained(failure.value, d, old(typeVars), isInt, VarTy(isInt, v), t)
      decreases Unbound(typeVars), Resolved(typeVars, isInt, rank, VarTy(isInt, v)) + Resolved(typeVars, isInt, rank, t), h1 + h2, 1
    {
      failure := None;
      OccursMeaning(typeVars, rank, h2, v, t);
      if Occurs(typeVars, rank, h2, v, t) {
        if !isInt[v] && t != Infer(v) {
          RefusalExplained(d, typeVars, isInt, rank, h2, v, t);
          failure := Some(Failure(Here, typeVars, rank, Infer(v), t));
        }
        r := Err(OccursCheck);
        return;
      }
      ghost var tab := typeVars;
      match typeVars[v]
      case Some(entry) =>
        ghost var d' := d * Without(tab, rank, v);
        WithoutEntry(d, tab, rank, h2, v, t);
        ResolvedBound(tab, isInt, rank, v);
        var u, why := UnifyTy(entry, t, rank[v], h2, d');
        if u.None? {
          EntryExplained(why.value, d, d', tab, isInt, v, t);
          UnboundAgain(typeVars, isInt, rank, v);
          typeVars := typeVars[v := None];
          r, failure := Err(NoMatch), Some(ThroughEntry(why.value));
          return;
        }
        ghost var tab1 := typeVars;
        Rebound(d, d', tab, tab1, isInt, rank, v, t, u.value);
        typeVars := typeVars[v := Some(u.value)];
        rank := Lifted(tab1, rank, v);
        r := Ok(u.value);
      case None =>
        Bound(d, tab, isInt, rank, h2, v, t);
        typeVars := typeVars[v := Some(t)];
        rank := Lifted(tab, rank, v);
        r := Ok(t);
    }

    /** Unifies t1 and t2, where d is a closed set with the variables of both. */
    method UnifyTy(t1: Ty, t2: Ty, ghost h1: nat, ghost h2: nat, ghost d: set<nat>)
      returns (r: Option<Ty>, ghost failure: Option<Failure>)
      requires Valid() && Kinded(t1, isInt) && Kinded(t2, isInt)
      requires RankBelow(t1, rank, h1) && RankBelow(t2, rank, h2)
      requires Closed(d, typeVars) && VarsIn(t1, d) && VarsIn(t2, d)
      modifies this
      ensures Valid() && |typeVars| == |old(typeVars)| && isInt == old(isInt)
      ensures r.Some? ==> Gives(old(typeVars), t1, t2, r.value, typeVars)
      ensures r.Some? ==> Unified(d, old(typeVars), typeVars, t1, t2, r.value) && Kinded(r.value, isInt)
                          && (IntLike(t1) && IntLike(t2) ==> IntLike(r.value))
      ensures r.None? ==> failure.Some? && Explained(failure.value, d, old(typeVars), isInt, t1, t2)
      decreases Unbound(typeVars), Resolved(typeVars, isInt, rank, t1) + Resolved(typeVars, isInt, rank, t2), h1 + h2, 2
    {
      failure := None;
      ghost var tab, rnk := typeVars, rank;
      if t1.Con? && t2.Con? {
        if t1.head != t2.head || |t1.args| != |t2.args| {
          ClashExplained(d, tab, rnk, isInt, t1, t2);
          r, failure := None, Some(Failure(Here, tab, rnk, t1, t2));
          return;
        }
        var rs, why := UnifyArgs(t1, t2, h1, h2, d);
        if rs.None? {
          r, failure := None, why;
          return;
        }
        UnifiedAllCon(d, tab, typeVars, t1.head, t1.args, t2.args, rs.value);
        GivesCon(tab, t1, t2, rs.value, typeVars);
        r := Some(Con(t1.head, rs.value));
        return;
      }
      if t1.Param? && t2.Param? && t1.index == t2.index {
        UnifiedSame(d, typeVars, t1, t2, t1);
        GivesSame(tab, t1);
        r := Some(t1);
        return;
      }
      if (t1.IntVar? && t2.Con? && t2.head.Int?) || (t1.Con? && t1.head.Int? && t2.IntVar?) {
        var v, t := if t1.IntVar? then t1.tyVar else t2.tyVar, if t1.IntVar? then t2 else t1;
        var u, why := UnifyVarTy(v, t, if t1.IntVar? then h1 else h2, if t1.IntVar? then h2 else h1, d);
        match u {
          case Ok(ty) =>
            if t2.IntVar? { UnifiedSwap(d, tab, typeVars, t2, t1, ty); }
            GivesChosen(tab, t1, t2, IntVar(v), t, ty, typeVars);
            r := Some(ty);
          case Err(OccursCheck) => NoVariables(tab, rnk, v, t); r := Some(t);
          case Err(NoMatch) =>
            if t2.IntVar? { ExplainedSwap(why.value, d, tab, isInt, t2, t1); }
            r, failure := None, why;
        }
        return;
      }
      if t1.IntVar? && t2.IntVar? {
        if t1.tyVar == t2.tyVar {
          UnifiedSame(d, typeVars, t1, t2, t1);
          GivesSame(tab, t1);
          r := Some(t1);
          return;
        }
        var u, why := UnifyVarTy(t1.tyVar, t2, h1, h2, d);
        match u {
          case Ok(ty) =>
            GivesChosen(tab, t1, t2, t1, t2, ty, typeVars);
            r := Some(ty);
          case Err(OccursCheck) =>
            OccursMeaning(tab, rnk, h2, t1.tyVar, t2);
            forall s: seq<Ty> | Solves(s, d, tab) ensures Apply(s, t1) == Apply(s, t2) {
              IntChain(s, d, tab, isInt, rnk, h2, t1.tyVar, t2);
            }
            UnifiedSame(d, tab, t1, t2, t2);
            GivesChosen(tab, t1, t2, t1, t2, t2, tab);
            r := Some(t2);
          case Err(NoMatch) => r, failure := None, why;
        }
        return;
      }
      if t1.Infer? && t2.Infer? && t1.tyVar == t2.tyVar {
        UnifiedSame(d, typeVars, t1, t2, t1);
        GivesSame(tab, t1);
        r := Some(t1);
        return;
      }
      if t1.Infer? {
        var u, why := UnifyVarTy(t1.tyVar, t2, h1, h2, d);
        if u.Ok? {
          GivesChosen(tab, t1, t2, t1, t2, u.ty, typeVars);
          r := Some(u.ty);
        } else {
          r, failure := None, why;
        }
        return;
      }
      if t2.Infer? {
        var u, why := UnifyVarTy(t2.tyVar, t1, h2, h1, d);
        if u.Ok? {
          UnifiedSwap(d, tab, typeVars, t2, t1, u.ty);
          GivesChosen(tab, t1, t2, t2, t1, u.ty, typeVars);
          r := Some(u.ty);
        } else {
          ExplainedSwap(why.value, d, tab, isInt, t2, t1);
          r, failure := None, why;
        }
        return;
      }
      ClashExplained(d, tab, rnk, isInt, t1, t2);
      r, failure := None, Some(Failure(Here, tab, rnk, t1, t2));
    }

    /** Unifies the components of t1 and t2 from left to right, stopping at the first failure. */
    method UnifyArgs(t1: Ty, t2: Ty, ghost h1: nat, ghost h2: nat, ghost d: set<nat>)
      returns (r: Option<seq<Ty>>, ghost failure: Option<Failure>)
      requires Valid() && Kinded(t1, isInt) && Kinded(t2, isInt) && SameShape(t1, t2)
      requires Closed(d, typeVars) && VarsIn(t1, d) && VarsIn(t2, d)
      modifies this
      ensures Valid() && |typeVars| == |old(typeVars)| && isInt == old(isInt)
      ensures r.Some? ==> GivesUpto(|t1.args|, old(typeVars), t1, t2, r.value, typeVars)
      ensures r.Some? ==> |r.value| == |t1.args| && UnifiedAll(d, old(typeVars), typeVars, t1.args, t2.args, r.value)
                          && forall i :: 0 <= i < |r.value| ==> Kinded(r.value[i], isInt)
      ensures r.None? ==> failure.Some? && Explained(failure.value, d, old(typeVars), isInt, t1, t2)
      decreases Unbound(typeVars), Resolved(typeVars, isInt, rank, t1) + Resolved(typeVars, isInt, rank, t2), h1 + h2, 0
    {
      ghost var tab, rnk, kinds := typeVars, rank, isInt;
      var rs: seq<Ty> := [];
      failure := None;
      GivesNone(tab, t1, t2);
      for i := 0 to |t1.args|
        invariant Valid() && |typeVars| == |tab| && isInt == kinds && |rs| == i
        invariant UnifiedAll(d, tab, typeVars, t1.args, t2.args, rs)
        invariant GivesUpto(i, tab, t1, t2, rs, typeVars)
        invariant forall j :: 0 <= j < i ==> Kinded(rs[j], isInt)
        invariant Progress(tab, kinds, rnk, typeVars, rank)
      {
        ghost var tab1, rnk1 := typeVars, rank;
        var x, y := t1.args[i], t2.args[i];
        TopBelow(x, rank, isInt);
        TopBelow(y, rank, isInt);
        ArgSmaller(tab, typeVars, isInt, rnk, rank, t1, t2, i);
        var u, why := UnifyTy(x, y, Top(rank), Top(rank), d);
        if u.None? {
          ArgExplained(why.value, d, tab, tab1, isInt, t1, t2, rs);
          r, failure := None, Some(ThroughComponent(why.value, rs, tab1));
          return;
        }
        ArgUnified(d, tab, tab1, typeVars, isInt, rnk, rnk1, rank, t1, t2, rs, u.value);
        rs := rs + [u.value];
      }
      r := Some(rs);
    }

    /** What the type checker calls. On success both types and the result simplify to the same type,
        what simplified to the same type before still does, and the solutions of the table are exactly
        its old solutions that equate the two types, so the bindings are most general. On failure the run met
        a pair that nothing unifies, and no old solution equates the two types unless that pair
        is a variable and one that stands for it. */
    method Unify(t1: Ty, t2: Ty) returns (r: Option<Ty>, ghost failure: Option<Failure>)
      requires Valid() && Kinded(t1, isInt) && Kinded(t2, isInt)
      modifies this
      ensures Valid() && |typeVars| == |old(typeVars)| && isInt == old(isInt)
      ensures r.Some? ==> Kinded(r.value, isInt) && SameType(typeVars, isInt, rank, t1, t2)
                          && SameType(typeVars, isInt, rank, t1, r.value)
      ensures r.Some? ==> forall x: Ty, y: Ty | Kinded(x, isInt) && Kinded(y, isInt) ::
                old(SameType(typeVars, isInt, rank, x, y)) ==> SameType(typeVars, isInt, rank, x, y)
      ensures r.Some? ==> KeepsSolutions(old(typeVars), typeVars, t1, t2)
      ensures r.Some? ==> Gives(old(typeVars), t1, t2, r.value, typeVars)
      ensures r.None? ==> failure.Some? && Explained(failure.value, All(old(typeVars)), old(typeVars), isInt, t1, t2)
      ensures r.None? ==> forall x: Ty, tab': Table :: !Gives(old(typeVars), t1, t2, x, tab')
      // a variable without binding is refused exactly a different type in which it occurs
      ensures ChoosesUnbound(old(typeVars), t1, t2) ==> (r.None? <==> Refused(old(typeVars), t1, t2))
      // a solution that gives different variables different types is always found
      ensures (exists s :: Wanted(s, All(old(typeVars)), old(typeVars), isInt, t1, t2) && Separates(s)) ==> r.Some?
    {
      ghost var tab, rnk, d := typeVars, rank, All(typeVars);
      TopBelow(t1, rank, isInt);
      TopBelow(t2, rank, isInt);
      VarsInAll(t1, isInt, tab);
      VarsInAll(t2, isInt, tab);
      AllClosed(tab, isInt);
      r, failure := UnifyTy(t1, t2, Top(rank), Top(rank), d);
      if r.None? {
        ghost var f := failure.value;
        NoneSeparates(f, tab, isInt, t1, t2);
        MetFails(f.trail, tab, t1, t2, f.table, f.left, f.right);
      }
      if ChoosesUnbound(tab, t1, t2) { UnboundDecides(tab, t1, t2); }
      if r.Some? {
        Resolves(d, tab, typeVars, isInt, rnk, rank, t1, t2, r.value);
      }
    }
  }

  /** Unifying the two types treats a variable that is not bound. */
  ghost predicate ChoosesUnbound(tab: Table, t1: Ty, t2: Ty) {
    match Chosen(t1, t2)
    case None => false
    case Some((x, _)) => x.tyVar < |tab| && tab[x.tyVar].None?
  }

  /** Unifying the two types is refused at once: the variable treated is general and occurs in the other type. */
  ghost predicate Refused(tab: Table, t1: Ty, t2: Ty) {
    match Chosen(t1, t2)
    case None => false
    case Some((x, t)) => x.Infer? && Reaches(tab, x.tyVar, t)
  }

  lemma UnboundDecides(tab: Table, t1: Ty, t2: Ty)
    requires ChoosesUnbound(tab, t1, t2)
    ensures Refused(tab, t1, t2) <==> forall r: Ty, tab': Table :: !Gives(tab, t1, t2, r, tab')
  {
    var (x, t) := Chosen(t1, t2).value;
    if Refused(tab, t1, t2) {
      MetFails(Here, tab, t1, t2, tab, x, t);
    } else if Reaches(tab, x.tyVar, t) {
      GivesChosen(tab, t1, t2, x, t, t, tab);
    } else {
      GivesUnbound(tab, x.tyVar, t);
      GivesChosen(tab, t1, t2, x, t, t, tab[x.tyVar := Some(t)]);
    }
  }

  lemma NoVariables(tab: Table, rank: seq<nat>, v: nat, t: Ty)
    requires Ranked(tab, rank) && t.Con? && t.args == []
    ensures !Reaches(tab, v, t)
  {
    OccursMeaning(tab, rank, 0, v, t);
  }

  /** After success both types and their common value simplify to the same type, and what did before still does. */
  lemma Resolves(d: set<nat>, tab: Table, tab': Table, isInt: seq<bool>, rank: seq<nat>, rank': seq<nat>, t1: Ty, t2: Ty, r: Ty)
    requires Ranked(tab, rank) && TableKinded(tab, isInt) && Ranked(tab', rank') && TableKinded(tab', isInt)
    requires Kinded(t1, isInt) && Kinded(t2, isInt) && Kinded(r, isInt)
    requires d == All(tab) && |tab'| == |tab| && Unified(d, tab, tab', t1, t2, r)
    ensures SameType(tab', isInt, rank', t1, t2) && SameType(tab', isInt, rank', t1, r)
    ensures forall x: Ty, y: Ty | Kinded(x, isInt) && Kinded(y, isInt) ::
              SameType(tab, isInt, rank, x, y) ==> SameType(tab', isInt, rank', x, y)
  {
    CanonicalSolves(tab', isInt, rank');
    var s := Canonical(tab', isInt, rank');
    assert Solves(s, d, tab');
    SameTypeCanonical(tab', isInt, rank', t1, t2);
    SameTypeCanonical(tab', isInt, rank', t1, r);
    forall x: Ty, y: Ty | Kinded(x, isInt) && Kinded(y, isInt) && SameType(tab, isInt, rank, x, y)
      ensures SameType(tab', isInt, rank', x, y)
    {
      TopBelow(x, rank, isInt);
      TopBelow(y, rank, isInt);
      SolvesSimplify(s, tab, rank, Top(rank), x);
      SolvesSimplify(s, tab, rank, Top(rank), y);
      SameTypeCanonical(tab', isInt, rank', x, y);
    }
  }

  lemma NoneSeparates(f: Failure, tab: Table, isInt: seq<bool>, t1: Ty, t2: Ty)
    requires Explained(f, All(tab), tab, isInt, t1, t2)
    ensures forall s :: Wanted(s, All(tab), tab, isInt, t1, t2) ==> !Separates(s)
  {
    forall s | Wanted(s, All(tab), tab, isInt, t1, t2) ensures !Separates(s) {
      assert s[f.left.tyVar] == s[f.right.tyVar];
    }
  }

  /** Different variables have different values. */
  ghost predicate Separates(s: seq<Ty>) {
    forall u, v :: 0 <= u < v < |s| ==> s[u] != s[v]
  }

  /** The solutions of tab' are exactly those of tab that equate the two types. */
  ghost predicate KeepsSolutions(tab: Table, tab': Table, t1: Ty, t2: Ty) {
    forall s: seq<Ty> :: Solves(s, All(tab'), tab') <==> Solves(s, All(tab'), tab) && Apply(s, t1) == Apply(s, t2)
  }

  /** The two types simplify to the same type. */
  ghost predicate SameType(tab: Table, isInt: seq<bool>, rank: seq<nat>, x: Ty, y: Ty)
    requires Ranked(tab, rank) && |isInt| == |tab| && Kinded(x, isInt) && Kinded(y, isInt)
  {
    TopBelow(x, rank, isInt);
    TopBelow(y, rank, isInt);
    Simplify(tab, rank, Top(rank), x) == Simplify(tab, rank, Top(rank), y)
  }

  lemma SameTypeCanonical(tab: Table, isInt: seq<bool>, rank: seq<nat>, x: Ty, y: Ty)
    requires Ranked(tab, rank) && |isInt| == |tab| && Kinded(x, isInt) && Kinded(y, isInt)
    ensures var s := Canonical(tab, isInt, rank); SameType(tab, isInt, rank, x, y) <==> Apply(s, x) == Apply(s, y)
  {
    TopBelow(x, rank, isInt);
    TopBelow(y, rank, isInt);
    ApplyCanonical(tab, isInt, rank, Top(rank), x);
    ApplyCanonical(tab, isInt, rank, Top(rank), y);
  }

  lemma AllClosed(tab: Table, isInt: seq<bool>)
    requires TableKinded(tab, isInt)
    ensures Closed(All(tab), tab)
  {
    forall v | 0 <= v < |tab| && tab[v].Some? ensures VarsIn(tab[v].value, All(tab)) {
      VarsInAll(tab[v].value, isInt, tab);
    }
  }

  /** Fewer variables are unbound by now, or the components are smaller than the types. */
  lemma ArgSmaller(tab: Table, tab1: Table, isInt: seq<bool>, rank: seq<nat>, rank1: seq<nat>, t1: Ty, t2: Ty, i: nat)
    requires Ranked(tab, rank) && Ranked(tab1, rank1) && |tab| == |tab1| == |isInt| && Progress(tab, isInt, rank, tab1, rank1)
    requires Kinded(t1, isInt) && Kinded(t2, isInt) && SameShape(t1, t2) && i < |t1.args|
    ensures Unbound(tab1) < Unbound(tab)
            || (Unbound(tab1) == Unbound(tab)
                && Resolved(tab1, isInt, rank1, t1.args[i]) + Resolved(tab1, isInt, rank1, t2.args[i])
                   < Resolved(tab, isInt, rank, t1) + Resolved(tab, isInt, rank, t2))
  {
    ResolvedArg(tab, isInt, rank, t1, i);
    ResolvedArg(tab, isInt, rank, t2, i);
  }

  /** One more pair of components is unified. */
  lemma ArgUnified(d: set<nat>, tab: Table, tab1: Table, tab2: Table, isInt: seq<bool>,
                   rank: seq<nat>, rank1: seq<nat>, rank2: seq<nat>, t1: Ty, t2: Ty, rs: seq<Ty>, r: Ty)
    requires Ranked(tab, rank) && Ranked(tab1, rank1) && |tab| == |tab1| == |isInt| && Progress(tab, isInt, rank, tab1, rank1)
    requires TableKinded(tab1, isInt) && Ranked(tab2, rank2) && TableKinded(tab2, isInt)
    requires SameShape(t1, t2) && |rs| < |t1.args| && UnifiedAll(d, tab, tab1, t1.args, t2.args, rs)
    requires GivesUpto(|rs|, tab, t1, t2, rs, tab1)
    requires var (x, y) := (t1.args[|rs|], t2.args[|rs|]); Unified(d, tab1, tab2, x, y, r) && Gives(tab1, x, y, r, tab2)
    ensures UnifiedAll(d, tab, tab2, t1.args, t2.args, rs + [r]) && GivesUpto(|rs| + 1, tab, t1, t2, rs + [r], tab2)
    ensures Progress(tab, isInt, rank, tab2, rank2)
  {
    UnifiedAllNext(d, tab, tab1, tab2, t1.args, t2.args, rs, r);
    GivesNext(|rs|, tab, t1, t2, rs, tab1, r, tab2);
    UnifiedProgress(d, tab1, tab2, isInt, rank1, rank2, t1.args[|rs|], t2.args[|rs|], r);
  }

  /** An acyclic table never resolves the binding of v back to v. */
  lemma NotSelf(tab: Table, rank: seq<nat>, v: nat)
    requires Ranked(tab, rank) && v < |tab| && tab[v].Some?
    ensures !Occurs(tab, rank, rank[v], v, tab[v].value)
  {
    HigherNotReached(tab, rank, rank[v], v, tab[v].value);
  }

  lemma {:induction false} HigherNotReached(tab: Table, rank: seq<nat>, h: nat, v: nat, t: Ty)
    requires Ranked(tab, rank) && RankBelow(t, rank, h) && v < |tab| && rank[v] >= h
    ensures !Occurs(tab, rank, h, v, t)
    decreases h, t
  {
    match t
    case Param(_) =>
    case Con(_, ts) =>
      forall i | 0 <= i < |ts| ensures !Occurs(tab, rank, h, v, ts[i]) { HigherNotReached(tab, rank, h, v, ts[i]); }
    case _ => if tab[t.tyVar].Some? { HigherNotReached(tab, rank, rank[t.tyVar], v, tab[t.tyVar].value); }
  }

  lemma {:induction false} VarsInBoth(t: Ty, d: set<nat>, e: set<nat>)
    requires VarsIn(t, d) && VarsIn(t, e)
    ensures VarsIn(t, d * e)
  {
    if t.Con? {
      forall i | 0 <= i < |t.args| ensures VarsIn(t.args[i], d * e) { VarsInBoth(t.args[i], d, e); }
    }
  }

  lemma ClosedBoth(d: set<nat>, e: set<nat>, tab: Table)
    requires Closed(d, tab) && Closed(e, tab)
    ensures Closed(d * e, tab)
  {
    forall v | v in d * e && tab[v].Some? ensures VarsIn(tab[v].value, d * e) { VarsInBoth(tab[v].value, d, e); }
  }

  /** Where v does not occur in t, its binding and t get along with the variables that do not resolve to v. */
  lemma WithoutEntry(d: set<nat>, tab: Table, rank: seq<nat>, h: nat, v: nat, t: Ty)
    requires Ranked(tab, rank) && RankBelow(t, rank, h) && Closed(d, tab) && v in d && VarsIn(t, d)
    requires v < |tab| && tab[v].Some? && !Occurs(tab, rank, h, v, t)
    ensures var d' := d * Without(tab, rank, v);
            Closed(d', tab) && VarsIn(tab[v].value, d') && VarsIn(t, d') && d' <= d && v !in d'
  {
    var without := Without(tab, rank, v);
    WithoutVars(tab, rank, h, v, t);
    WithoutClosed(tab, rank, v);
    WithoutVars(tab, rank, rank[v], v, tab[v].value);
    NotSelf(tab, rank, v);
    VarsInBoth(tab[v].value, d, without);
    VarsInBoth(t, d, without);
    ClosedBoth(d, without, tab);
  }

  /** Binding v keeps the table acyclic and kinded, and its solutions those wanted. */
  lemma Bound(d: set<nat>, tab: Table, isInt: seq<bool>, rank: seq<nat>, h: nat, v: nat, t: Ty)
    requires Ranked(tab, rank) && TableKinded(tab, isInt) && Kinded(t, isInt) && RankBelow(t, rank, h) && v < |tab|
    requires isInt[v] ==> IntLike(t)
    requires Closed(d, tab) && v in d && VarsIn(t, d) && tab[v].None? && !Occurs(tab, rank, h, v, t)
    ensures var tab' := tab[v := Some(t)];
            && Unified(d, tab, tab', VarTy(isInt, v), t, t) && TableKinded(tab', isInt)
            && Ranked(tab', Lifted(tab, rank, v)) && GivesVar(tab, v, t, t, tab')
  {
    TopBelow(t, rank, isInt);
    WithoutVars(tab, rank, h, v, t);
    BindRanked(tab, rank, v, t);
    UnifiedBind(d, tab, isInt, v, t);
    GivesUnbound(tab, v, t);
  }

  lemma UnboundAgain(tab: Table, isInt: seq<bool>, rank: seq<nat>, v: nat)
    requires Ranked(tab, rank) && TableKinded(tab, isInt) && v < |tab|
    ensures Ranked(tab[v := None], rank) && TableKinded(tab[v := None], isInt)
  {
  }

  /** Rebinding v keeps the table acyclic and kinded, and its solutions those wanted. */
  lemma Rebound(d: set<nat>, d': set<nat>, tab: Table, tab1: Table, isInt: seq<bool>, rank1: seq<nat>, v: nat, t: Ty, r: Ty)
    requires Ranked(tab1, rank1) && TableKinded(tab1, isInt) && Kinded(r, isInt) && v < |tab1|
    requires isInt[v] ==> IntLike(r)
    requires Closed(d, tab) && d' <= d && v in d && v !in d' && |isInt| == |tab| && tab[v].Some?
    requires Unified(d', tab, tab1, tab[v].value, t, r) && Gives(tab, tab[v].value, t, r, tab1)
    ensures var tab' := tab1[v := Some(r)];
            && Unified(d, tab, tab', VarTy(isInt, v), t, r) && TableKinded(tab', isInt)
            && Ranked(tab', Lifted(tab1, rank1, v)) && GivesVar(tab, v, t, r, tab')
  {
    GivesBound(tab, v, t, r, tab1);
    UnifiedRebind(d, d', tab, tab1, isInt, v, t, r);
    TopBelow(r, rank1, isInt);
    NotReachedVars(tab1, rank1, v, r, d');
    BindRanked(tab1, rank1, v, r);
  }

  lemma NotReachedVars(tab: Table, rank: seq<nat>, v: nat, t: Ty, d: set<nat>)
    requires Ranked(tab, rank) && RankBelow(t, rank, Top(rank)) && Closed(d, tab) && VarsIn(t, d) && v !in d
    ensures VarsIn(t, Without(tab, rank, v))
  {
    NotReached(tab, rank, Top(rank), v, t, d);
    WithoutVars(tab, rank, Top(rank), v, t);
  }

  // ---------------------------------------------------------------- what success does not cover

  /** With variable 0 standing for variable 1, every solution equates the two, and yet the occurs check
      refuses to unify the second with the first: unification is not complete on general variables. */
  lemma AliasRefused(s: seq<Ty>)
    ensures var tab, rank := [Some(Infer(1)), None], [1, 0];
            && Ranked(tab, rank) && RankBelow(Infer(0), rank, 2)
            && Occurs(tab, rank, 2, 1, Infer(0))
            && (Solves(s, All(tab), tab) ==> Apply(s, Infer(0)) == Apply(s, Infer(1)))
  {
    var tab: Table, rank: seq<nat> := [Some(Infer(1)), None], [1, 0];
    assert tab[0].Some?;
    assert 0 in All(tab);
  }

  /** From a table without bindings, (a, b) is not unified with (b, a), although giving both variables
      the same type equates the two: the first components make a stand for b, and so the second are refused. */
  lemma SwappedRefused(t: Ty)
    ensures var (tab, t1, t2) := (UNBOUND_PAIR, Con(Tuple, [Infer(0), Infer(1)]), Con(Tuple, [Infer(1), Infer(0)]));
            && Wanted([t, t], All(tab), tab, [false, false], t1, t2)
            && forall r: Ty, tab': Table :: !Gives(tab, t1, t2, r, tab')
  {
    var tab, a, b := UNBOUND_PAIR, Infer(0), Infer(1);
    var t1, t2 := Con(Tuple, [a, b]), Con(Tuple, [b, a]);
    ApplyCon([t, t], Tuple, t1.args, t2.args);
    var tab1: Table := tab[0 := Some(b)];
    assert !Reaches(tab, 0, b) by { assert Closed({1}, tab); }
    assert Reaches(tab1, 0 + 1, a) by { assert tab1[0].Some?; }
    GivesUnbound(tab, 0, b);
    GivesChosen(tab, a, b, a, b, b, tab1);
    GivesNone(tab, t1, t2);
    GivesNext(0, tab, t1, t2, [], tab, b, tab1);
    assert [] + [b] == [b];
    MetFails(Component([b], tab1, Here), tab, t1, t2, tab1, b, a);
  }

  const UNBOUND_PAIR: Table := [None, None]
}
