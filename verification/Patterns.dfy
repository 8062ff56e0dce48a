/** Exhaustiveness of patterns. */
module Patterns {
  import opened Prelude

  // ---------------------------------------------------------------- types and values

  /** A type as seen from the module that matches on it: named types unfolded by value to finite trees,
      with everything that the source treats as non-exhaustive an infinite inhabited domain, but for
      boxes, of which it matters whether their content has values. */
  datatype Ty =
    | Bool
    | Never
    | Int
    | Char
    | Open                              // parameters, functions, arrays, strings, pointers, opaque types
    | Box(inhabited: bool)
    | Tuple(fields: seq<Ty>)
    | Record(fields: seq<Ty>)           // a named record type
    | Variant(cases: seq<Case>)         // a named variant type

  datatype Case = Case(name: nat, field: Option<Ty>)

  datatype Value =
    | BoolVal(b: bool)
    | IntVal(n: int)
    | CharVal(c: int)
    | OpenVal(n: int)
    | RecordVal(fields: seq<Value>)
    | CaseVal(name: nat, field: seq<Value>)

  /** Case names are distinct within a variant. */
  ghost predicate WellFormed(t: Ty) {
    match t
    case Tuple(ts) => forall i :: 0 <= i < |ts| ==> WellFormed(ts[i])
    case Record(ts) => forall i :: 0 <= i < |ts| ==> WellFormed(ts[i])
    case Variant(cs) =>
      && (forall i :: 0 <= i < |cs| ==> cs[i].field.Some? ==> WellFormed(cs[i].field.value))
      && (forall i, j :: 0 <= i < j < |cs| ==> cs[i].name != cs[j].name)
    case _ => true
  }

  predicate Uninhabited(t: Ty) {
    match t
    case Never => true
    case Box(inhabited) => !inhabited
    case Tuple(ts) => exists i :: 0 <= i < |ts| && Uninhabited(ts[i])
    case Record(ts) => exists i :: 0 <= i < |ts| && Uninhabited(ts[i])
    case Variant(cs) => forall i :: 0 <= i < |cs| ==> cs[i].field.Some? && Uninhabited(cs[i].field.value)
    case _ => false
  }

  predicate CaseUninhabited(c: Case) {
    c.field.Some? && Uninhabited(c.field.value)
  }

  function FieldTypes(c: Case): seq<Ty> {
    if c.field.Some? then [c.field.value] else []
  }

  ghost predicate HasType(v: Value, t: Ty)
    decreases t
  {
    match t
    case Bool => v.BoolVal?
    case Never => false
    case Int => v.IntVal?
    case Char => v.CharVal?
    case Open => v.OpenVal?
    case Box(inhabited) => v.OpenVal? && inhabited
    case Tuple(ts) => v.RecordVal? && |v.fields| == |ts| && forall i :: 0 <= i < |ts| ==> HasType(v.fields[i], ts[i])
    case Record(ts) => v.RecordVal? && |v.fields| == |ts| && forall i :: 0 <= i < |ts| ==> HasType(v.fields[i], ts[i])
    case Variant(cs) =>
      v.CaseVal? && exists i :: 0 <= i < |cs| && CaseHasType(v, cs[i])
  }

  ghost predicate CaseHasType(v: Value, c: Case)
    requires v.CaseVal?
    decreases c
  {
    c.name == v.name &&
    match c.field
    case None => v.field == []
    case Some(x) => |v.field| == 1 && HasType(v.field[0], x)
  }

  ghost predicate HaveTypes(vs: seq<Value>, ts: seq<Ty>) {
    |vs| == |ts| && forall i :: 0 <= i < |ts| ==> HasType(vs[i], ts[i])
  }

  /** The emptiness test of the source is right: it tells exactly the types without values. */
  lemma {:induction false} UninhabitedEmpty(t: Ty, v: Value)
    requires Uninhabited(t)
    ensures !HasType(v, t)
    decreases t
  {
    match t
    case Tuple(ts) =>
      var i :| 0 <= i < |ts| && Uninhabited(ts[i]);
      if v.RecordVal? && |v.fields| == |ts| { UninhabitedEmpty(ts[i], v.fields[i]); }
    case Record(ts) =>
      var i :| 0 <= i < |ts| && Uninhabited(ts[i]);
      if v.RecordVal? && |v.fields| == |ts| { UninhabitedEmpty(ts[i], v.fields[i]); }
    case Variant(cs) =>
      if HasType(v, t) {
        var i :| 0 <= i < |cs| && CaseHasType(v, cs[i]);
        UninhabitedEmpty(cs[i].field.value, v.field[0]);
      }
    case _ =>
  }

  lemma {:induction false} Inhabitant(t: Ty) returns (v: Value)
    requires !Uninhabited(t)
    ensures HasType(v, t)
    decreases t
  {
    match t
    case Bool => v := BoolVal(true);
    case Never => assert false;
    case Int => v := IntVal(0);
    case Char => v := CharVal(0);
    case Open => v := OpenVal(0);
    case Box(_) => v := OpenVal(0);
    case Tuple(ts) =>
      var vs := Inhabitants(ts);
      v := RecordVal(vs);
    case Record(ts) =>
      var vs := Inhabitants(ts);
      v := RecordVal(vs);
    case Variant(cs) =>
      var i :| 0 <= i < |cs| && !(cs[i].field.Some? && Uninhabited(cs[i].field.value));
      if cs[i].field.Some? {
        var w := Inhabitant(cs[i].field.value);
        v := CaseVal(cs[i].name, [w]);
      } else {
        v := CaseVal(cs[i].name, []);
      }
  }

  lemma {:induction false} Inhabitants(ts: seq<Ty>) returns (vs: seq<Value>)
    requires forall i :: 0 <= i < |ts| ==> !Uninhabited(ts[i])
    ensures HaveTypes(vs, ts)
    decreases ts
  {
    if ts == [] {
      vs := [];
    } else {
      var v := Inhabitant(ts[0]);
      var ws := Inhabitants(ts[1..]);
      vs := [v] + ws;
    }
  }

  // ---------------------------------------------------------------- patterns

  datatype Constructor =
    | BoolCtor(b: bool)
    | IntCtor(n: int)
    | CharCtor(c: int)
    | Wildcard
    | RecordCtor
    | CaseCtor(name: nat)
    | NonExhaustive
    | Missing

  /** Only some fields of a record pattern need be listed, each with its index. */
  datatype Pat = Pat(ctor: Constructor, fields: seq<PatWithIndex>)

  datatype PatWithIndex = PatWithIndex(pat: Pat, index: nat)

  const WILD := Pat(Wildcard, [])

  type Row = seq<Pat>

  /** The field types below a constructor of a type. */
  function FieldsOf(t: Ty, c: Constructor): seq<Ty> {
    match c
    case RecordCtor => if t.Tuple? || t.Record? then t.fields else []
    case CaseCtor(name) => if t.Variant? then FieldsOfCase(t.cases, name) else []
    case _ => []
  }

  /** The first case of that name. */
  function FieldsOfCase(cs: seq<Case>, name: nat): seq<Ty> {
    if cs == [] then [] else if cs[0].name == name then FieldTypes(cs[0]) else FieldsOfCase(cs[1..], name)
  }

  /** The pattern may be written at the type. */
  ghost predicate PatOk(p: Pat, t: Ty)
    decreases p
  {
    && (match p.ctor
        case BoolCtor(_) => t.Bool?
        case IntCtor(_) => t.Int?
        case CharCtor(_) => t.Char?
        case RecordCtor => t.Tuple? || t.Record?
        case CaseCtor(name) => t.Variant? && exists i :: 0 <= i < |t.cases| && t.cases[i].name == name
        case Wildcard => true
        case NonExhaustive => false
        case Missing => false)
    && var ts := FieldsOf(t, p.ctor);
       && (forall i :: 0 <= i < |p.fields| ==> p.fields[i].index < |ts| && PatOk(p.fields[i].pat, ts[p.fields[i].index]))
       && (forall i, j :: 0 <= i < j < |p.fields| ==> p.fields[i].index != p.fields[j].index)
  }

  ghost predicate RowOk(row: Row, ts: seq<Ty>) {
    |row| == |ts| && forall i :: 0 <= i < |ts| ==> PatOk(row[i], ts[i])
  }

  ghost predicate MatrixOk(m: seq<Row>, ts: seq<Ty>) {
    forall i :: 0 <= i < |m| ==> RowOk(m[i], ts)
  }

  /** The values directly below the constructor of a value. */
  function Below(v: Value): seq<Value> {
    match v
    case RecordVal(fs) => fs
    case CaseVal(_, f) => f
    case _ => []
  }

  /** The constructor matches the head of the value. */
  predicate HeadMatches(c: Constructor, v: Value) {
    match c
    case BoolCtor(b) => v == BoolVal(b)
    case IntCtor(n) => v == IntVal(n)
    case CharCtor(n) => v == CharVal(n)
    case RecordCtor => v.RecordVal?
    case CaseCtor(name) => v.CaseVal? && v.name == name
    case Wildcard => true
    case NonExhaustive => v.IntVal? || v.CharVal? || v.OpenVal?
    case Missing => false
  }

  ghost predicate Matches(p: Pat, v: Value)
    decreases p
  {
    HeadMatches(p.ctor, v) && forall i :: 0 <= i < |p.fields| ==>
      p.fields[i].index < |Below(v)| && Matches(p.fields[i].pat, Below(v)[p.fields[i].index])
  }

  ghost predicate RowMatches(row: Row, vs: seq<Value>) {
    |row| == |vs| && forall i :: 0 <= i < |row| ==> Matches(row[i], vs[i])
  }

  ghost predicate SomeMatches(m: seq<Row>, vs: seq<Value>) {
    exists i :: 0 <= i < |m| && RowMatches(m[i], vs)
  }

  // ---------------------------------------------------------------- constructor sets

  datatype ConstructorSet = BoolSet | NeverSet | NonExhaustiveSet | RecordSet | CaseSet(names: seq<nat>)

  function InhabitedCases(cs: seq<Case>): seq<nat> {
    if cs == [] then []
    else (if CaseUninhabited(cs[0]) then [] else [cs[0].name]) + InhabitedCases(cs[1..])
  }

  function ConstructorsOfTy(t: Ty): ConstructorSet {
    match t
    case Bool => BoolSet
    case Never => NeverSet
    case Int => NonExhaustiveSet
    case Char => NonExhaustiveSet
    case Open => NonExhaustiveSet
    case Box(_) => NonExhaustiveSet
    case Tuple(_) => RecordSet
    case Record(ts) => if Uninhabited(t) then NeverSet else RecordSet
    case Variant(cs) => CaseSet(InhabitedCases(cs))
  }

  function Ctors(s: ConstructorSet): seq<Constructor> {
    match s
    case BoolSet => [BoolCtor(true), BoolCtor(false)]
    case NeverSet => []
    case NonExhaustiveSet => [NonExhaustive]
    case RecordSet => [RecordCtor]
    case CaseSet(names) => seq(|names|, i requires 0 <= i < |names| => CaseCtor(names[i]))
  }

  function Keep(cs: seq<Constructor>, s: set<Constructor>, keep: bool): (r: seq<Constructor>)
    ensures forall c :: c in r <==> c in cs && (c in s) == keep
  {
    if cs == [] then []
    else
      var last := cs[|cs| - 1];
      var before := Keep(cs[..|cs| - 1], s, keep);
      if (last in s) == keep then before + [last] else before
  }

  // ---------------------------------------------------------------- the algorithm as a function

  function Size(t: Ty): nat {
    match t
    case Tuple(ts) => 1 + SizeAll(ts)
    case Record(ts) => 1 + SizeAll(ts)
    case Variant(cs) => 1 + SizeCases(cs)
    case _ => 1
  }

  /** The total unfolded size of the column types. */
  function SizeAll(ts: seq<Ty>): nat {
    if ts == [] then 0 else Size(ts[0]) + SizeAll(ts[1..])
  }

  function SizeCases(cs: seq<Case>): nat {
    if cs == [] then 0 else SizeCase(cs[0]) + SizeCases(cs[1..])
  }

  function SizeCase(c: Case): nat {
    match c.field case None => 0 case Some(t) => Size(t)
  }

  lemma {:induction false} SizeConcat(ts: seq<Ty>, us: seq<Ty>)
    ensures SizeAll(ts + us) == SizeAll(ts) + SizeAll(us)
  {
    if ts == [] {
      assert ts + us == us;
    } else {
      assert (ts + us)[1..] == ts[1..] + us;
      SizeConcat(ts[1..], us);
    }
  }

  lemma {:induction false} SizeOfCase(cs: seq<Case>, name: nat)
    ensures SizeAll(FieldsOfCase(cs, name)) <= SizeCases(cs)
  {
    if cs != [] {
      if cs[0].name == name {
        if cs[0].field.Some? { assert FieldTypes(cs[0])[1..] == []; }
      } else {
        SizeOfCase(cs[1..], name);
      }
    }
  }

  /** The columns left after looking below one constructor are smaller. */
  lemma SizeBelow(t: Ty, c: Constructor, rest: seq<Ty>)
    ensures SizeAll(FieldsOf(t, c) + rest) < Size(t) + SizeAll(rest)
  {
    SizeConcat(FieldsOf(t, c), rest);
    if c.CaseCtor? && t.Variant? { SizeOfCase(t.cases, c.name); }
  }

  function Wilds(n: nat): (r: Row)
    ensures |r| == n
  {
    seq(n, _ => WILD)
  }

  /** The listed fields over wildcards; a later one of the same index wins. */
  function Placed(n: nat, fs: seq<PatWithIndex>): (r: Row)
    ensures |r| == n
  {
    if fs == [] then Wilds(n)
    else
      var last := fs[|fs| - 1];
      var r := Placed(n, fs[..|fs| - 1]);
      if last.index < n then r[last.index := last.pat] else r
  }

  /** What a row requires below constructor c, if it allows c. */
  function SpecializedRow(c: Constructor, n: nat, row: Row): Option<Row> {
    if row == [] then None
    else if row[0].ctor == c then Some(Placed(n, row[0].fields) + row[1..])
    else if row[0].ctor.Wildcard? then Some(Wilds(n) + row[1..])
    else None
  }

  function Specialized(c: Constructor, n: nat, m: seq<Row>): seq<Row> {
    if m == [] then []
    else
      var before := Specialized(c, n, m[..|m| - 1]);
      match SpecializedRow(c, n, m[|m| - 1])
      case Some(row) => before + [row]
      case None => before
  }

  /** The constructors heading the first column. */
  function SeenCtors(m: seq<Row>): set<Constructor> {
    set i | 0 <= i < |m| && m[i] != [] :: m[i][0].ctor
  }

  /** The constructors of the type that are seen, and those that are missing. */
  function Split(s: ConstructorSet, seen: set<Constructor>): (r: (seq<Constructor>, seq<Constructor>))
    ensures forall c :: c in r.0 ==> c in Ctors(s) && c in seen && !c.NonExhaustive?
    ensures forall c :: c in r.1 <==> c in Ctors(s) && (c !in seen || c.NonExhaustive?)
  {
    if s.NonExhaustiveSet? then ([], [NonExhaustive]) else (Keep(Ctors(s), seen, true), Keep(Ctors(s), seen, false))
  }

  function Indexed(row: Row): (r: seq<PatWithIndex>)
    ensures |r| == |row| && forall i :: 0 <= i < |r| ==> r[i] == PatWithIndex(row[i], i)
  {
    seq(|row|, i requires 0 <= i < |row| => PatWithIndex(row[i], i))
  }

  /** One row for each missing constructor, before the given row. */
  function Completed(t: Ty, missing: seq<Constructor>, row: Row): seq<Row> {
    seq(|missing|, i requires 0 <= i < |missing| =>
      [Pat(missing[i], Indexed(Wilds(|FieldsOf(t, missing[i])|)))] + row)
  }

  /** The row with its first n patterns put below constructor c. */
  function Folded(c: Constructor, n: nat, row: Row): Row {
    if n <= |row| then [Pat(c, Indexed(row[..n]))] + row[n..] else [Pat(c, Indexed(row))]
  }

  function Rebuilt(t: Ty, c: Constructor, missing: seq<Constructor>, rows: seq<Row>): seq<Row> {
    if rows == [] then []
    else
      var row := rows[|rows| - 1];
      Rebuilt(t, c, missing, rows[..|rows| - 1])
      + (if c.Missing? then Completed(t, missing, row) else [Folded(c, |FieldsOf(t, c)|, row)])
  }

  function Flatten(rss: seq<seq<Row>>): seq<Row> {
    if rss == [] then [] else Flatten(rss[..|rss| - 1]) + rss[|rss| - 1]
  }

  /** The constructors of the first column's type that head no row. */
  function MissingCtors(t: Ty, m: seq<Row>): seq<Constructor> {
    Split(ConstructorsOfTy(t), SeenCtors(m)).1
  }

  /** The constructors to look below: those seen, and Missing for all others together. */
  function ToVisit(t: Ty, m: seq<Row>): seq<Constructor> {
    Split(ConstructorsOfTy(t), SeenCtors(m)).0 + (if MissingCtors(t, m) == [] then [] else [Missing])
  }

  /** The rows of patterns that nothing in the matrix covers. */
  function MissingRows(ts: seq<Ty>, m: seq<Row>): seq<Row>
    decreases SizeAll(ts), 1
  {
    if ts == [] then (if m == [] then [[]] else [])
    else
      var cs := ToVisit(ts[0], m);
      Flatten(seq(|cs|, i requires 0 <= i < |cs| => MissingBelow(ts, m, cs[i])))
  }

  function MissingBelow(ts: seq<Ty>, m: seq<Row>, c: Constructor): seq<Row>
    requires ts != []
    decreases SizeAll(ts), 0
  {
    var fields := FieldsOf(ts[0], c);
    SizeBelow(ts[0], c, ts[1..]);
    Rebuilt(ts[0], c, MissingCtors(ts[0], m), MissingRows(fields + ts[1..], Specialized(c, |fields|, m)))
  }

  // ---------------------------------------------------------------- the order of the answers

  /** The patterns are of ctors of the type in this order, and the fields below them match everything. */
  ghost predicate OneEach(t: Ty, ctors: seq<Constructor>, rows: seq<Row>) {
    && |rows| == |ctors|
    && forall i :: 0 <= i < |rows| ==>
         |rows[i]| == 1 && rows[i][0].ctor == ctors[i] && |rows[i][0].fields| == |FieldsOf(t, ctors[i])|
         && forall k :: 0 <= k < |rows[i][0].fields| ==> rows[i][0].fields[k] == PatWithIndex(WILD, k)
  }

  lemma {:induction false} KeepAll(cs: seq<Constructor>, s: set<Constructor>, keep: bool)
    requires forall c :: c in cs ==> (c in s) == keep
    ensures Keep(cs, s, keep) == cs
  {
    if cs != [] { KeepAll(cs[..|cs| - 1], s, keep); }
  }

  lemma {:induction false} KeepNone(cs: seq<Constructor>, s: set<Constructor>, keep: bool)
    requires forall c :: c in cs ==> (c in s) != keep
    ensures Keep(cs, s, keep) == []
  {
    if cs != [] { KeepNone(cs[..|cs| - 1], s, keep); }
  }

  ghost predicate IsCase(cs: seq<Case>, name: nat) {
    exists a :: 0 <= a < |cs| && cs[a].name == name
  }

  ghost predicate DeclaredBefore(cs: seq<Case>, name: nat, later: nat) {
    exists a, b :: 0 <= a < b < |cs| && cs[a].name == name && cs[b].name == later
  }

  /** The names are of cases, in their order of declaration. */
  ghost predicate InOrder(cs: seq<Case>, names: seq<nat>) {
    && (forall i :: 0 <= i < |names| ==> IsCase(cs, names[i]))
    && (forall i, j :: 0 <= i < j < |names| ==> DeclaredBefore(cs, names[i], names[j]))
  }

  lemma DeclaredRest(cs: seq<Case>, name: nat, later: nat)
    requires cs != [] && IsCase(cs[1..], later)
    ensures IsCase(cs, later) && (name == cs[0].name || DeclaredBefore(cs[1..], name, later) ==> DeclaredBefore(cs, name, later))
  {
    var rest := cs[1..];
    var b :| 0 <= b < |rest| && rest[b].name == later;
    assert cs[b + 1].name == later;
    if a, b' :| 0 <= a < b' < |rest| && rest[a].name == name && rest[b'].name == later {
      assert cs[a + 1].name == name && cs[b' + 1].name == later;
    }
  }

  lemma OrderRest(cs: seq<Case>, names: seq<nat>)
    requires cs != [] && InOrder(cs[1..], names)
    ensures InOrder(cs, names)
  {
    forall i | 0 <= i < |names| ensures IsCase(cs, names[i]) { DeclaredRest(cs, cs[0].name, names[i]); }
    forall i, j | 0 <= i < j < |names| ensures DeclaredBefore(cs, names[i], names[j]) { DeclaredRest(cs, names[i], names[j]); }
  }

  lemma OrderFirst(cs: seq<Case>, names: seq<nat>)
    requires cs != [] && InOrder(cs[1..], names)
    ensures InOrder(cs, [cs[0].name] + names)
  {
    OrderRest(cs, names);
    var all := [cs[0].name] + names;
    assert IsCase(cs, cs[0].name);
    forall i, j | 0 <= i < j < |all| ensures DeclaredBefore(cs, all[i], all[j]) {
      if i == 0 { DeclaredRest(cs, all[0], names[j - 1]); } else { assert DeclaredBefore(cs, names[i - 1], names[j - 1]); }
    }
  }

  lemma {:induction false} CasesInOrder(cs: seq<Case>)
    ensures InOrder(cs, InhabitedCases(cs))
  {
    if cs != [] {
      CasesInOrder(cs[1..]);
      OrderRest(cs, InhabitedCases(cs[1..]));
      OrderFirst(cs, InhabitedCases(cs[1..]));
      assert [] + InhabitedCases(cs[1..]) == InhabitedCases(cs[1..]);
    }
  }

  lemma SplitUnseen(s: ConstructorSet)
    ensures Split(s, {}) == ([], Ctors(s))
  {
    if !s.NonExhaustiveSet? {
      KeepAll(Ctors(s), {}, false);
      KeepNone(Ctors(s), {}, true);
    }
  }

  lemma NothingSeen(t: Ty)
    ensures MissingCtors(t, []) == Ctors(ConstructorsOfTy(t))
    ensures ToVisit(t, []) == if Ctors(ConstructorsOfTy(t)) == [] then [] else [Missing]
  {
    SplitUnseen(ConstructorsOfTy(t));
    assert SeenCtors([]) == {};
  }

  lemma OneVisited(ts: seq<Ty>, m: seq<Row>, c: Constructor)
    requires ts != [] && ToVisit(ts[0], m) == [c]
    ensures MissingRows(ts, m) == MissingBelow(ts, m, c)
  {
    var cs := ToVisit(ts[0], m);
    var rss := seq(|cs|, i requires 0 <= i < |cs| => MissingBelow(ts, m, cs[i]));
    assert rss[..0] == [] && Flatten(rss[..0]) == [];
    assert Flatten(rss) == [] + rss[0];
  }

  lemma NothingBelow(t: Ty)
    ensures MissingBelow([t], [], Missing) == Completed(t, MissingCtors(t, []), [])
  {
    var below := MissingRows([], Specialized(Missing, 0, []));
    assert FieldsOf(t, Missing) + [t][1..] == [];
    assert below == [[]] && below[..0] == [];
    assert Rebuilt(t, Missing, MissingCtors(t, []), below) == [] + Completed(t, MissingCtors(t, []), []);
  }

  lemma CompletedEach(t: Ty, ctors: seq<Constructor>)
    ensures OneEach(t, ctors, Completed(t, ctors, []))
  {
  }

  /** The constructors are of cases as they are declared. */
  ghost predicate AreCases(cs: seq<Case>, ctors: seq<Constructor>) {
    exists names :: InOrder(cs, names) && CaseCtors(ctors, names)
  }

  ghost predicate CaseCtors(ctors: seq<Constructor>, names: seq<nat>) {
    |ctors| == |names| && forall i :: 0 <= i < |names| ==> ctors[i] == CaseCtor(names[i])
  }

  /** Where nothing is matched, there is one answer for each constructor: of booleans true before false, of
      variants the cases with values as they are declared. */
  lemma NothingMatched(t: Ty)
    ensures OneEach(t, Ctors(ConstructorsOfTy(t)), MissingRows([t], []))
    ensures t.Bool? ==> Ctors(ConstructorsOfTy(t)) == [BoolCtor(true), BoolCtor(false)]
    ensures t.Variant? ==> AreCases(t.cases, Ctors(ConstructorsOfTy(t)))
  {
    AllAnswers(t);
    if t.Variant? {
      CasesInOrder(t.cases);
      assert CaseCtors(Ctors(ConstructorsOfTy(t)), InhabitedCases(t.cases));
    }
  }

  lemma AllAnswers(t: Ty)
    ensures OneEach(t, Ctors(ConstructorsOfTy(t)), MissingRows([t], []))
  {
    var cs := Ctors(ConstructorsOfTy(t));
    NothingSeen(t);
    if cs != [] {
      OneVisited([t], [], Missing);
      NothingBelow(t);
      CompletedEach(t, cs);
    }
  }

  // ---------------------------------------------------------------- values and constructors

  /** The constructor heading a value. */
  function CtorOf(v: Value): Constructor {
    match v
    case BoolVal(b) => BoolCtor(b)
    case RecordVal(_) => RecordCtor
    case CaseVal(name, _) => CaseCtor(name)
    case _ => NonExhaustive
  }

  lemma {:induction false} InhabitedCasesMember(cs: seq<Case>, name: nat)
    ensures name in InhabitedCases(cs) <==> exists i :: 0 <= i < |cs| && cs[i].name == name && !CaseUninhabited(cs[i])
  {
    if cs != [] {
      InhabitedCasesMember(cs[1..], name);
      if i :| 0 <= i < |cs| && cs[i].name == name && !CaseUninhabited(cs[i]) {
        if i > 0 { assert cs[1..][i - 1] == cs[i]; }
      }
      if i :| 0 <= i < |cs[1..]| && cs[1..][i].name == name && !CaseUninhabited(cs[1..][i]) { assert cs[i + 1] == cs[1..][i]; }
    }
  }

  lemma {:induction false} FieldsOfCaseAt(cs: seq<Case>, i: nat)
    requires i < |cs| && forall j, k :: 0 <= j < k < |cs| ==> cs[j].name != cs[k].name
    ensures FieldsOfCase(cs, cs[i].name) == FieldTypes(cs[i])
  {
    if i > 0 { FieldsOfCaseAt(cs[1..], i - 1); }
  }

  lemma CaseCtorIn(names: seq<nat>, name: nat)
    ensures CaseCtor(name) in Ctors(CaseSet(names)) <==> name in names
  {
    var cs := Ctors(CaseSet(names));
    if name in names {
      var i :| 0 <= i < |names| && names[i] == name;
      assert cs[i] == CaseCtor(name);
    }
  }

  lemma VariantCtor(v: Value, cs: seq<Case>)
    requires HasType(v, Variant(cs)) && WellFormed(Variant(cs))
    ensures CtorOf(v) in Ctors(CaseSet(InhabitedCases(cs)))
    ensures HaveTypes(Below(v), FieldsOf(Variant(cs), CtorOf(v)))
  {
    var i :| 0 <= i < |cs| && CaseHasType(v, cs[i]);
    if cs[i].field.Some? && Uninhabited(cs[i].field.value) { UninhabitedEmpty(cs[i].field.value, v.field[0]); }
    InhabitedCasesMember(cs, v.name);
    CaseCtorIn(InhabitedCases(cs), v.name);
    FieldsOfCaseAt(cs, i);
  }

  /** The constructor of a value is in the constructor set of its type, with the value's fields below. */
  lemma ValueCtor(v: Value, t: Ty)
    requires HasType(v, t) && WellFormed(t)
    ensures CtorOf(v) in Ctors(ConstructorsOfTy(t))
    ensures HaveTypes(Below(v), FieldsOf(t, CtorOf(v)))
  {
    match t
    case Variant(cs) => VariantCtor(v, cs);
    case Record(_) => if Uninhabited(t) { UninhabitedEmpty(t, v); }
    case _ =>
  }

  /** A value with the given constructor and fields. */
  function Make(c: Constructor, ws: seq<Value>): Value {
    match c
    case BoolCtor(b) => BoolVal(b)
    case CaseCtor(name) => CaseVal(name, ws)
    case _ => RecordVal(ws)
  }

  lemma MadeValue(c: Constructor, ws: seq<Value>, t: Ty)
    requires c in Ctors(ConstructorsOfTy(t)) && !c.NonExhaustive? && WellFormed(t) && HaveTypes(ws, FieldsOf(t, c))
    ensures HasType(Make(c, ws), t) && CtorOf(Make(c, ws)) == c && Below(Make(c, ws)) == ws
  {
    if t.Variant? {
      CaseCtorIn(InhabitedCases(t.cases), c.name);
      InhabitedCasesMember(t.cases, c.name);
      var i :| 0 <= i < |t.cases| && t.cases[i].name == c.name && !CaseUninhabited(t.cases[i]);
      FieldsOfCaseAt(t.cases, i);
      assert CaseHasType(Make(c, ws), t.cases[i]);
    }
  }

  ghost predicate AllWellFormed(ts: seq<Ty>) {
    forall i :: 0 <= i < |ts| ==> WellFormed(ts[i])
  }

  lemma {:induction false} CaseFieldsWellFormed(cs: seq<Case>, name: nat)
    requires forall i :: 0 <= i < |cs| ==> cs[i].field.Some? ==> WellFormed(cs[i].field.value)
    ensures AllWellFormed(FieldsOfCase(cs, name))
  {
    if cs != [] && cs[0].name != name { CaseFieldsWellFormed(cs[1..], name); }
  }

  lemma FieldsWellFormed(t: Ty, c: Constructor)
    requires WellFormed(t)
    ensures AllWellFormed(FieldsOf(t, c))
  {
    if t.Variant? && c.CaseCtor? { CaseFieldsWellFormed(t.cases, c.name); }
  }

  lemma FieldsInhabited(t: Ty, c: Constructor)
    requires WellFormed(t) && c in Ctors(ConstructorsOfTy(t)) && (t.Tuple? ==> !Uninhabited(t))
    ensures forall i :: 0 <= i < |FieldsOf(t, c)| ==> !Uninhabited(FieldsOf(t, c)[i])
  {
    if t.Variant? {
      CaseCtorIn(InhabitedCases(t.cases), c.name);
      InhabitedCasesMember(t.cases, c.name);
      var i :| 0 <= i < |t.cases| && t.cases[i].name == c.name && !CaseUninhabited(t.cases[i]);
      FieldsOfCaseAt(t.cases, i);
    }
  }

  // ---------------------------------------------------------------- rows below a constructor

  lemma {:induction false} PlacedAt(n: nat, fs: seq<PatWithIndex>, k: nat)
    requires k < n
    ensures Placed(n, fs)[k] == WILD || exists j :: 0 <= j < |fs| && fs[j].index == k && Placed(n, fs)[k] == fs[j].pat
  {
    if fs != [] {
      var before := fs[..|fs| - 1];
      PlacedAt(n, before, k);
      if fs[|fs| - 1].index != k && Placed(n, before)[k] != WILD {
        var j :| 0 <= j < |before| && before[j].index == k && Placed(n, before)[k] == before[j].pat;
        assert fs[j] == before[j];
      }
    }
  }

  lemma {:induction false} PlacedListed(n: nat, fs: seq<PatWithIndex>, j: nat)
    requires j < |fs| && fs[j].index < n
    requires forall i, k :: 0 <= i < k < |fs| ==> fs[i].index != fs[k].index
    ensures Placed(n, fs)[fs[j].index] == fs[j].pat
  {
    if j < |fs| - 1 { PlacedListed(n, fs[..|fs| - 1], j); }
  }

  lemma WildMatches(v: Value)
    ensures Matches(WILD, v)
  {
  }

  /** The fields of a pattern match what is below a value exactly when the row of them does. */
  lemma PlacedMatches(p: Pat, t: Ty, v: Value)
    requires PatOk(p, t) && |Below(v)| == |FieldsOf(t, p.ctor)| && HeadMatches(p.ctor, v)
    ensures Matches(p, v) <==> RowMatches(Placed(|Below(v)|, p.fields), Below(v))
  {
    var n, b := |Below(v)|, Below(v);
    var row := Placed(n, p.fields);
    if Matches(p, v) {
      forall k | 0 <= k < n ensures Matches(row[k], b[k]) {
        PlacedAt(n, p.fields, k);
        if row[k] == WILD { WildMatches(b[k]); }
      }
    }
    if RowMatches(row, b) {
      forall j | 0 <= j < |p.fields| ensures Matches(p.fields[j].pat, b[p.fields[j].index]) {
        PlacedListed(n, p.fields, j);
      }
    }
  }

  lemma RowConcat(r1: Row, r2: Row, v1: seq<Value>, v2: seq<Value>)
    requires |r1| == |v1|
    ensures RowMatches(r1 + r2, v1 + v2) <==> RowMatches(r1, v1) && RowMatches(r2, v2)
  {
    if RowMatches(r1 + r2, v1 + v2) {
      forall i | 0 <= i < |r1| ensures Matches(r1[i], v1[i]) { assert (r1 + r2)[i] == r1[i] && (v1 + v2)[i] == v1[i]; }
      forall i | 0 <= i < |r2| ensures Matches(r2[i], v2[i]) {
        assert (r1 + r2)[|r1| + i] == r2[i] && (v1 + v2)[|r1| + i] == v2[i];
      }
    }
  }

  lemma WildsMatch(vs: seq<Value>)
    ensures RowMatches(Wilds(|vs|), vs)
  {
    forall i | 0 <= i < |vs| ensures Matches(Wilds(|vs|)[i], vs[i]) { WildMatches(vs[i]); }
  }

  lemma WildRowMatches(row: Row, vs: seq<Value>)
    requires |row| == |vs| > 0 && row[0].ctor.Wildcard? && row[0].fields == []
    ensures RowMatches(row, vs) <==> RowMatches(row[1..], vs[1..])
  {
    RowConcat(row[..1], row[1..], vs[..1], vs[1..]);
    assert row == row[..1] + row[1..] && vs == vs[..1] + vs[1..];
    assert Matches(row[0], vs[0]);
  }

  lemma HeadAndTail(row: Row, vs: seq<Value>)
    requires |row| == |vs| > 0
    ensures RowMatches(row, vs) <==> Matches(row[0], vs[0]) && RowMatches(row[1..], vs[1..])
  {
    RowConcat(row[..1], row[1..], vs[..1], vs[1..]);
    assert row == row[..1] + row[1..] && vs == vs[..1] + vs[1..];
    assert RowMatches(row[..1], vs[..1]) <==> Matches(row[0], vs[0]);
  }

  /** A pattern that may be written at the type of a value and matches it
      has the value's constructor, or is a constant or a wildcard. */
  lemma OtherCtor(p: Pat, t: Ty, v: Value)
    requires PatOk(p, t) && HasType(v, t) && HeadMatches(p.ctor, v) && !CtorOf(v).NonExhaustive?
    ensures p.ctor == CtorOf(v) || p.ctor.Wildcard?
  {
  }

  /** Going below the constructor of the first value changes no row's answer. */
  lemma SpecializedRowMatches(row: Row, ts: seq<Ty>, vs: seq<Value>, c: Constructor)
    requires ts != [] && RowOk(row, ts) && HaveTypes(vs, ts) && WellFormed(ts[0])
    requires c == CtorOf(vs[0]) && !c.NonExhaustive?
    ensures var r := SpecializedRow(c, |FieldsOf(ts[0], c)|, row);
            RowMatches(row, vs) <==> r.Some? && RowMatches(r.value, Below(vs[0]) + vs[1..])
  {
    var v, n := vs[0], |FieldsOf(ts[0], c)|;
    ValueCtor(v, ts[0]);
    HeadAndTail(row, vs);
    assert PatOk(row[0], ts[0]);
    if row[0].ctor == c {
      assert HeadMatches(c, v);
      PlacedMatches(row[0], ts[0], v);
      RowConcat(Placed(n, row[0].fields), row[1..], Below(v), vs[1..]);
    } else if row[0].ctor.Wildcard? {
      WildcardFields(row[0], ts[0]);
      WildsMatch(Below(v));
      RowConcat(Wilds(n), row[1..], Below(v), vs[1..]);
    } else if HeadMatches(row[0].ctor, v) {
      OtherCtor(row[0], ts[0], v);
    }
  }

  lemma {:induction false} SpecializedMember(c: Constructor, n: nat, m: seq<Row>, r: Row)
    ensures r in Specialized(c, n, m) <==> exists i :: 0 <= i < |m| && SpecializedRow(c, n, m[i]) == Some(r)
  {
    if m != [] {
      var k := |m| - 1;
      SpecializedMember(c, n, m[..k], r);
      if i :| 0 <= i < |m| && SpecializedRow(c, n, m[i]) == Some(r) {
        if i < k { assert m[..k][i] == m[i]; }
      }
    }
  }

  lemma PlacedOk(p: Pat, t: Ty)
    requires PatOk(p, t)
    ensures RowOk(Placed(|FieldsOf(t, p.ctor)|, p.fields), FieldsOf(t, p.ctor))
  {
    var n := |FieldsOf(t, p.ctor)|;
    forall k | 0 <= k < n ensures PatOk(Placed(n, p.fields)[k], FieldsOf(t, p.ctor)[k]) {
      PlacedAt(n, p.fields, k);
    }
  }

  lemma WildcardFields(p: Pat, t: Ty)
    requires PatOk(p, t) && p.ctor.Wildcard?
    ensures p.fields == []
  {
    assert p.fields == [] || p.fields[0].index < |FieldsOf(t, p.ctor)|;
  }

  lemma SpecializedRowOk(c: Constructor, row: Row, ts: seq<Ty>)
    requires ts != [] && RowOk(row, ts)
    ensures var fields := FieldsOf(ts[0], c);
            var r := SpecializedRow(c, |fields|, row);
            r.Some? ==> RowOk(r.value, fields + ts[1..])
  {
    var fields := FieldsOf(ts[0], c);
    var n := |fields|;
    var r := SpecializedRow(c, n, row);
    assert PatOk(row[0], ts[0]);
    if r.Some? {
      var top := if row[0].ctor == c then Placed(n, row[0].fields) else Wilds(n);
      if row[0].ctor == c { PlacedOk(row[0], ts[0]); }
      assert RowOk(top, fields);
      forall j | 0 <= j < n + |ts| - 1 ensures PatOk(r.value[j], (fields + ts[1..])[j]) {
        if j < n { assert PatOk(top[j], fields[j]); } else { assert PatOk(row[j - n + 1], ts[j - n + 1]); }
      }
    }
  }

  lemma SpecializedOk(c: Constructor, m: seq<Row>, ts: seq<Ty>)
    requires ts != [] && MatrixOk(m, ts)
    ensures MatrixOk(Specialized(c, |FieldsOf(ts[0], c)|, m), FieldsOf(ts[0], c) + ts[1..])
  {
    var n := |FieldsOf(ts[0], c)|;
    var m' := Specialized(c, n, m);
    forall k | 0 <= k < |m'| ensures RowOk(m'[k], FieldsOf(ts[0], c) + ts[1..]) {
      SpecializedMember(c, n, m, m'[k]);
      assert m'[k] in m';
      var i :| 0 <= i < |m| && SpecializedRow(c, n, m[i]) == Some(m'[k]);
      SpecializedRowOk(c, m[i], ts);
    }
  }

  /** The matrix below the constructor of the first value covers the rest exactly when the matrix does. */
  lemma SpecializedMatches(m: seq<Row>, ts: seq<Ty>, vs: seq<Value>, c: Constructor)
    requires ts != [] && MatrixOk(m, ts) && HaveTypes(vs, ts) && WellFormed(ts[0])
    requires c == CtorOf(vs[0]) && !c.NonExhaustive?
    ensures SomeMatches(m, vs) <==> SomeMatches(Specialized(c, |FieldsOf(ts[0], c)|, m), Below(vs[0]) + vs[1..])
  {
    var n := |FieldsOf(ts[0], c)|;
    var m', ws := Specialized(c, n, m), Below(vs[0]) + vs[1..];
    if i :| 0 <= i < |m| && RowMatches(m[i], vs) {
      SpecializedRowMatches(m[i], ts, vs, c);
      var r := SpecializedRow(c, n, m[i]).value;
      SpecializedMember(c, n, m, r);
      var k :| 0 <= k < |m'| && m'[k] == r;
    }
    if k :| 0 <= k < |m'| && RowMatches(m'[k], ws) {
      SpecializedMember(c, n, m, m'[k]);
      assert m'[k] in m';
      var i :| 0 <= i < |m| && SpecializedRow(c, n, m[i]) == Some(m'[k]);
      SpecializedRowMatches(m[i], ts, vs, c);
    }
  }

  /** The wildcard rows cover the rest only if the matrix covers the whole; and conversely
      when no constructor heading a row matches the first value. */
  lemma MissingMatches(m: seq<Row>, ts: seq<Ty>, vs: seq<Value>)
    requires ts != [] && MatrixOk(m, ts) && HaveTypes(vs, ts)
    ensures SomeMatches(Specialized(Missing, 0, m), vs[1..]) ==> SomeMatches(m, vs)
    ensures (forall c :: c in SeenCtors(m) && !c.Wildcard? ==> !HeadMatches(c, vs[0])) && SomeMatches(m, vs)
            ==> SomeMatches(Specialized(Missing, 0, m), vs[1..])
  {
    var m' := Specialized(Missing, 0, m);
    if k :| 0 <= k < |m'| && RowMatches(m'[k], vs[1..]) {
      SpecializedMember(Missing, 0, m, m'[k]);
      assert m'[k] in m';
      var i :| 0 <= i < |m| && SpecializedRow(Missing, 0, m[i]) == Some(m'[k]);
      assert RowOk(m[i], ts) && PatOk(m[i][0], ts[0]);
      WildcardFields(m[i][0], ts[0]);
      assert Wilds(0) + m[i][1..] == m[i][1..];
      WildRowMatches(m[i], vs);
    }
    if (forall c :: c in SeenCtors(m) && !c.Wildcard? ==> !HeadMatches(c, vs[0])) && SomeMatches(m, vs) {
      var i :| 0 <= i < |m| && RowMatches(m[i], vs);
      assert RowOk(m[i], ts) && PatOk(m[i][0], ts[0]);
      assert Matches(m[i][0], vs[0]);
      assert m[i][0].ctor in SeenCtors(m);
      WildcardFields(m[i][0], ts[0]);
      WildRowMatches(m[i], vs);
      assert Wilds(0) + m[i][1..] == m[i][1..];
      SpecializedMember(Missing, 0, m, m[i][1..]);
      var k :| 0 <= k < |m'| && m'[k] == m[i][1..];
    }
  }

  // ---------------------------------------------------------------- members of the result

  lemma {:induction false} FlattenMember(rss: seq<seq<Row>>, row: Row)
    ensures row in Flatten(rss) <==> exists i :: 0 <= i < |rss| && row in rss[i]
  {
    if rss != [] {
      var k := |rss| - 1;
      FlattenMember(rss[..k], row);
      if i :| 0 <= i < |rss| && row in rss[i] {
        if i < k { assert rss[..k][i] == rss[i]; }
      }
    }
  }

  /** row is what the result makes of a row r found below constructor c. */
  ghost predicate RebuiltFrom(t: Ty, c: Constructor, missing: seq<Constructor>, r: Row, row: Row) {
    if c.Missing? then row in Completed(t, missing, r) else row == Folded(c, |FieldsOf(t, c)|, r)
  }

  lemma {:induction false} RebuiltMember(t: Ty, c: Constructor, missing: seq<Constructor>, rows: seq<Row>, row: Row)
    ensures row in Rebuilt(t, c, missing, rows) <==> exists i :: 0 <= i < |rows| && RebuiltFrom(t, c, missing, rows[i], row)
  {
    if rows != [] {
      var k := |rows| - 1;
      RebuiltMember(t, c, missing, rows[..k], row);
      if i :| 0 <= i < |rows| && RebuiltFrom(t, c, missing, rows[i], row) {
        if i < k { assert rows[..k][i] == rows[i]; }
      }
    }
  }

  /** The rows found below constructor c. */
  function RowsBelow(ts: seq<Ty>, m: seq<Row>, c: Constructor): seq<Row>
    requires ts != []
  {
    MissingRows(ColumnsBelow(ts, c), MatrixBelow(ts, m, c))
  }

  lemma MissingBelowMember(ts: seq<Ty>, m: seq<Row>, c: Constructor, row: Row)
    requires ts != []
    ensures row in MissingBelow(ts, m, c)
            <==> exists r :: r in RowsBelow(ts, m, c) && RebuiltFrom(ts[0], c, MissingCtors(ts[0], m), r, row)
  {
    var rows, missing := RowsBelow(ts, m, c), MissingCtors(ts[0], m);
    assert MissingBelow(ts, m, c) == Rebuilt(ts[0], c, missing, rows);
    RebuiltMember(ts[0], c, missing, rows, row);
    if i :| 0 <= i < |rows| && RebuiltFrom(ts[0], c, missing, rows[i], row) { assert rows[i] in rows; }
    if r :| r in rows && RebuiltFrom(ts[0], c, missing, r, row) { var i :| 0 <= i < |rows| && rows[i] == r; }
  }

  lemma {:induction false} FlattenMap(cs: seq<Constructor>, f: Constructor -> seq<Row>, row: Row)
    ensures row in Flatten(seq(|cs|, i requires 0 <= i < |cs| => f(cs[i]))) <==> exists c :: c in cs && row in f(c)
  {
    var rss := seq(|cs|, i requires 0 <= i < |cs| => f(cs[i]));
    FlattenMember(rss, row);
    if i :| 0 <= i < |rss| && row in rss[i] { assert cs[i] in cs; }
    if c :| c in cs && row in f(c) {
      var i :| 0 <= i < |cs| && cs[i] == c;
      assert row in rss[i];
    }
  }

  /** What the result consists of. */
  lemma MissingRowsMember(ts: seq<Ty>, m: seq<Row>, row: Row)
    requires ts != []
    ensures row in MissingRows(ts, m) <==> exists c :: c in ToVisit(ts[0], m) && row in MissingBelow(ts, m, c)
  {
    var cs := ToVisit(ts[0], m);
    var f := c => MissingBelow(ts, m, c);
    FlattenMap(cs, f, row);
    assert seq(|cs|, i requires 0 <= i < |cs| => f(cs[i])) == seq(|cs|, i requires 0 <= i < |cs| => MissingBelow(ts, m, cs[i]));
  }

  lemma IndexedMatches(c: Constructor, row: Row, v: Value)
    requires |row| == |Below(v)| && HeadMatches(c, v)
    ensures Matches(Pat(c, Indexed(row)), v) <==> RowMatches(row, Below(v))
  {
    var p := Pat(c, Indexed(row));
    if Matches(p, v) {
      forall i | 0 <= i < |row| ensures Matches(row[i], Below(v)[i]) { assert p.fields[i] == PatWithIndex(row[i], i); }
    }
  }

  lemma FoldedMatches(c: Constructor, n: nat, row: Row, v: Value, rest: seq<Value>)
    requires |Below(v)| == n && HeadMatches(c, v)
    requires RowMatches(row, Below(v) + rest)
    ensures RowMatches(Folded(c, n, row), [v] + rest)
  {
    RowConcat(row[..n], row[n..], Below(v), rest);
    assert row == row[..n] + row[n..];
    IndexedMatches(c, row[..n], v);
    RowConcat([Pat(c, Indexed(row[..n]))], row[n..], [v], rest);
  }

  lemma CompletedMatches(c: Constructor, n: nat, row: Row, v: Value, rest: seq<Value>)
    requires |Below(v)| == n && HeadMatches(c, v) && RowMatches(row, rest)
    ensures RowMatches([Pat(c, Indexed(Wilds(n)))] + row, [v] + rest)
  {
    WildsMatch(Below(v));
    IndexedMatches(c, Wilds(n), v);
    RowConcat([Pat(c, Indexed(Wilds(n)))], row, [v], rest);
  }

  // ---------------------------------------------------------------- the algorithm is right

  /** The columns, the matrix and the values left below constructor c. */
  function ColumnsBelow(ts: seq<Ty>, c: Constructor): seq<Ty>
    requires ts != []
  {
    FieldsOf(ts[0], c) + ts[1..]
  }

  function MatrixBelow(ts: seq<Ty>, m: seq<Row>, c: Constructor): seq<Row>
    requires ts != []
  {
    Specialized(c, |FieldsOf(ts[0], c)|, m)
  }

  /** Uncovered values whose constructor is missing leave uncovered values below Missing. */
  lemma UncoveredMissing(ts: seq<Ty>, m: seq<Row>, vs: seq<Value>)
    requires ts != [] && AllWellFormed(ts) && MatrixOk(m, ts) && HaveTypes(vs, ts) && !SomeMatches(m, vs)
    ensures var ts', m' := ColumnsBelow(ts, Missing), MatrixBelow(ts, m, Missing);
            AllWellFormed(ts') && MatrixOk(m', ts') && HaveTypes(vs[1..], ts') && !SomeMatches(m', vs[1..])
            && SizeAll(ts') < SizeAll(ts)
  {
    SpecializedOk(Missing, m, ts);
    MissingMatches(m, ts, vs);
    SizeBelow(ts[0], Missing, ts[1..]);
    assert ColumnsBelow(ts, Missing) == ts[1..];
  }

  lemma UncoveredSeen(ts: seq<Ty>, m: seq<Row>, vs: seq<Value>)
    requires ts != [] && AllWellFormed(ts) && MatrixOk(m, ts) && HaveTypes(vs, ts) && !SomeMatches(m, vs)
    requires !CtorOf(vs[0]).NonExhaustive?
    ensures var c := CtorOf(vs[0]);
            var ts', m', vs' := ColumnsBelow(ts, c), MatrixBelow(ts, m, c), Below(vs[0]) + vs[1..];
            AllWellFormed(ts') && MatrixOk(m', ts') && HaveTypes(vs', ts') && !SomeMatches(m', vs')
            && SizeAll(ts') < SizeAll(ts)
  {
    var t, c := ts[0], CtorOf(vs[0]);
    ValueCtor(vs[0], t);
    FieldsWellFormed(t, c);
    SpecializedOk(c, m, ts);
    SpecializedMatches(m, ts, vs, c);
    SizeBelow(t, c, ts[1..]);
    HaveTypesConcat(Below(vs[0]), vs[1..], FieldsOf(t, c), ts[1..]);
  }

  /** A row covering what is left below the constructor gives a row of the result covering the whole. */
  lemma CoverMissing(ts: seq<Ty>, m: seq<Row>, vs: seq<Value>, r: Row) returns (row: Row)
    requires ts != [] && AllWellFormed(ts) && HaveTypes(vs, ts) && CtorOf(vs[0]) in MissingCtors(ts[0], m)
    requires r in RowsBelow(ts, m, Missing) && RowMatches(r, vs[1..])
    ensures row in MissingRows(ts, m) && RowMatches(row, vs)
  {
    var t, v, c := ts[0], vs[0], CtorOf(vs[0]);
    ValueCtor(v, t);
    row := [Pat(c, Indexed(Wilds(|FieldsOf(t, c)|)))] + r;
    assert vs == [v] + vs[1..];
    CompletedMatches(c, |FieldsOf(t, c)|, r, v, vs[1..]);
    CompletedFrom(t, m, c, r);
    MissingBelowMember(ts, m, Missing, row);
    MissingRowsMember(ts, m, row);
  }

  lemma CoverSeen(ts: seq<Ty>, m: seq<Row>, vs: seq<Value>, r: Row) returns (row: Row)
    requires ts != [] && AllWellFormed(ts) && HaveTypes(vs, ts) && CtorOf(vs[0]) !in MissingCtors(ts[0], m)
    requires r in RowsBelow(ts, m, CtorOf(vs[0])) && RowMatches(r, Below(vs[0]) + vs[1..])
    ensures row in MissingRows(ts, m) && RowMatches(row, vs)
  {
    var t, v, c := ts[0], vs[0], CtorOf(vs[0]);
    ValueCtor(v, t);
    row := Folded(c, |FieldsOf(t, c)|, r);
    assert vs == [v] + vs[1..];
    FoldedMatches(c, |FieldsOf(t, c)|, r, v, vs[1..]);
    assert c in ToVisit(t, m);
    MissingBelowMember(ts, m, c, row);
    MissingRowsMember(ts, m, row);
  }

  lemma EmptyRowMatches(m: seq<Row>)
    requires MatrixOk(m, []) && m != []
    ensures SomeMatches(m, [])
  {
    assert RowOk(m[0], []);
    assert RowMatches(m[0], []);
  }

  /** Every tuple of values that no row covers is covered by some row of the result. In particular,
      when the result is empty the matrix is exhaustive. */
  lemma {:induction false} MissingRowsCover(ts: seq<Ty>, m: seq<Row>, vs: seq<Value>) returns (row: Row)
    requires AllWellFormed(ts) && MatrixOk(m, ts) && HaveTypes(vs, ts) && !SomeMatches(m, vs)
    ensures row in MissingRows(ts, m) && RowMatches(row, vs)
    decreases SizeAll(ts)
  {
    if ts == [] {
      if m != [] { EmptyRowMatches(m); }
      row := [];
      return;
    }
    var c := CtorOf(vs[0]);
    ValueCtor(vs[0], ts[0]);
    if c in MissingCtors(ts[0], m) {
      UncoveredMissing(ts, m, vs);
      var r := MissingRowsCover(ColumnsBelow(ts, Missing), MatrixBelow(ts, m, Missing), vs[1..]);
      row := CoverMissing(ts, m, vs, r);
    } else {
      UncoveredSeen(ts, m, vs);
      var r := MissingRowsCover(ColumnsBelow(ts, c), MatrixBelow(ts, m, c), Below(vs[0]) + vs[1..]);
      row := CoverSeen(ts, m, vs, r);
    }
  }

  lemma HaveTypesConcat(v1: seq<Value>, v2: seq<Value>, t1: seq<Ty>, t2: seq<Ty>)
    requires |v1| == |t1|
    ensures HaveTypes(v1 + v2, t1 + t2) <==> HaveTypes(v1, t1) && HaveTypes(v2, t2)
  {
    if HaveTypes(v1 + v2, t1 + t2) {
      forall i | 0 <= i < |t1| ensures HasType(v1[i], t1[i]) { assert (v1 + v2)[i] == v1[i] && (t1 + t2)[i] == t1[i]; }
      forall i | 0 <= i < |t2| ensures HasType(v2[i], t2[i]) {
        assert (v1 + v2)[|t1| + i] == v2[i] && (t1 + t2)[|t1| + i] == t2[i];
      }
    }
  }

  lemma CompletedFrom(t: Ty, m: seq<Row>, c: Constructor, r: Row)
    requires c in MissingCtors(t, m)
    ensures Missing in ToVisit(t, m)
    ensures RebuiltFrom(t, Missing, MissingCtors(t, m), r, [Pat(c, Indexed(Wilds(|FieldsOf(t, c)|)))] + r)
  {
    var missing := MissingCtors(t, m);
    var i :| 0 <= i < |missing| && missing[i] == c;
    assert Completed(t, missing, r)[i] == [Pat(c, Indexed(Wilds(|FieldsOf(t, c)|)))] + r;
  }

  /** Tuples and boxes among the columns have values: what the constructor sets take for granted. */
  ghost predicate Exposed(ts: seq<Ty>) {
    forall i :: 0 <= i < |ts| ==> (ts[i].Tuple? || ts[i].Box?) ==> !Uninhabited(ts[i])
  }

  /** A constant that no row has in its first column. */
  lemma {:induction false} FreshConstant(m: seq<Row>) returns (n: int)
    ensures forall c :: c in SeenCtors(m) ==> (c.IntCtor? ==> c.n < n) && (c.CharCtor? ==> c.c < n)
  {
    if m == [] {
      n := 0;
    } else {
      var k := FreshConstant(m[1..]);
      n := k;
      if m[0] != [] {
        if m[0][0].ctor.IntCtor? && m[0][0].ctor.n >= n { n := m[0][0].ctor.n + 1; }
        if m[0][0].ctor.CharCtor? && m[0][0].ctor.c >= n { n := m[0][0].ctor.c + 1; }
      }
      forall c | c in SeenCtors(m) ensures (c.IntCtor? ==> c.n < n) && (c.CharCtor? ==> c.c < n) {
        var i :| 0 <= i < |m| && m[i] != [] && m[i][0].ctor == c;
        if i > 0 { assert m[1..][i - 1] == m[i]; assert c in SeenCtors(m[1..]); }
      }
    }
  }

  /** Some value of the type has a missing constructor and is matched by no constructor seen. */
  lemma MissingValue(t: Ty, m: seq<Row>, c: Constructor) returns (v: Value)
    requires WellFormed(t) && Exposed([t]) && c in MissingCtors(t, m)
    requires forall i :: 0 <= i < |m| ==> m[i] != [] && PatOk(m[i][0], t)
    ensures HasType(v, t) && HeadMatches(c, v) && |Below(v)| == |FieldsOf(t, c)|
    ensures forall x :: x in SeenCtors(m) && !x.Wildcard? ==> !HeadMatches(x, v)
  {
    assert [t][0] == t;
    if c.NonExhaustive? {
      var n := FreshConstant(m);
      v := if t.Int? then IntVal(n) else if t.Char? then CharVal(n) else OpenVal(0);
    } else {
      FieldsInhabited(t, c);
      var ws := Inhabitants(FieldsOf(t, c));
      MadeValue(c, ws, t);
      v := Make(c, ws);
    }
    forall x | x in SeenCtors(m) && !x.Wildcard? ensures !HeadMatches(x, v) {
      var i :| 0 <= i < |m| && m[i] != [] && m[i][0].ctor == x;
      assert PatOk(m[i][0], t);
    }
  }

  lemma ExposedBelow(ts: seq<Ty>, m: seq<Row>, c: Constructor)
    requires ts != [] && AllWellFormed(ts) && Exposed(ts) && c in ToVisit(ts[0], m)
    ensures Exposed(FieldsOf(ts[0], c) + ts[1..]) && AllWellFormed(FieldsOf(ts[0], c) + ts[1..])
  {
    var fields := FieldsOf(ts[0], c);
    FieldsWellFormed(ts[0], c);
    if !c.Missing? { FieldsInhabited(ts[0], c); }
    forall i | 0 <= i < |fields + ts[1..]|
      ensures var t := (fields + ts[1..])[i]; WellFormed(t) && ((t.Tuple? || t.Box?) ==> !Uninhabited(t))
    {
      if i >= |fields| { assert (fields + ts[1..])[i] == ts[i - |fields| + 1]; }
    }
  }

  lemma ConsTypes(v: Value, rest: seq<Value>, ts: seq<Ty>)
    requires ts != [] && HasType(v, ts[0]) && HaveTypes(rest, ts[1..])
    ensures HaveTypes([v] + rest, ts)
  {
    assert [ts[0]] + ts[1..] == ts;
    HaveTypesConcat([v], rest, [ts[0]], ts[1..]);
  }

  /** A counterexample for the whole from one for what is left below constructor c. */
  lemma WitnessBelow(ts: seq<Ty>, m: seq<Row>, c: Constructor, r: Row, ws: seq<Value>) returns (vs: seq<Value>)
    requires ts != [] && AllWellFormed(ts) && MatrixOk(m, ts) && c in ToVisit(ts[0], m) && !c.Missing?
    requires HaveTypes(ws, FieldsOf(ts[0], c) + ts[1..]) && RowMatches(r, ws)
    requires !SomeMatches(Specialized(c, |FieldsOf(ts[0], c)|, m), ws)
    ensures HaveTypes(vs, ts) && RowMatches(Folded(c, |FieldsOf(ts[0], c)|, r), vs) && !SomeMatches(m, vs)
  {
    var t, n := ts[0], |FieldsOf(ts[0], c)|;
    var top, rest := ws[..n], ws[n..];
    assert ws == top + rest;
    HaveTypesConcat(top, rest, FieldsOf(t, c), ts[1..]);
    MadeValue(c, top, t);
    var v := Make(c, top);
    vs := [v] + rest;
    ConsTypes(v, rest, ts);
    FoldedMatches(c, n, r, v, rest);
    assert vs[1..] == rest;
    SpecializedMatches(m, ts, vs, c);
  }

  lemma WitnessMissing(ts: seq<Ty>, m: seq<Row>, c: Constructor, r: Row, ws: seq<Value>) returns (vs: seq<Value>)
    requires ts != [] && AllWellFormed(ts) && Exposed(ts) && MatrixOk(m, ts) && c in MissingCtors(ts[0], m)
    requires HaveTypes(ws, ts[1..]) && RowMatches(r, ws) && !SomeMatches(Specialized(Missing, 0, m), ws)
    ensures HaveTypes(vs, ts) && RowMatches([Pat(c, Indexed(Wilds(|FieldsOf(ts[0], c)|)))] + r, vs) && !SomeMatches(m, vs)
  {
    var t := ts[0];
    forall x | 0 <= x < |m| ensures m[x] != [] && PatOk(m[x][0], t) { assert RowOk(m[x], ts); }
    var v := MissingValue(t, m, c);
    vs := [v] + ws;
    ConsTypes(v, ws, ts);
    CompletedMatches(c, |FieldsOf(t, c)|, r, v, ws);
    assert vs[1..] == ws;
    MissingMatches(m, ts, vs);
  }

  /** A counterexample for the whole from one for what is left below any constructor. */
  lemma WitnessAbove(ts: seq<Ty>, m: seq<Row>, c: Constructor, r: Row, row: Row, ws: seq<Value>) returns (vs: seq<Value>)
    requires ts != [] && AllWellFormed(ts) && Exposed(ts) && MatrixOk(m, ts) && c in ToVisit(ts[0], m)
    requires RebuiltFrom(ts[0], c, MissingCtors(ts[0], m), r, row)
    requires HaveTypes(ws, ColumnsBelow(ts, c)) && RowMatches(r, ws) && !SomeMatches(MatrixBelow(ts, m, c), ws)
    ensures HaveTypes(vs, ts) && RowMatches(row, vs) && !SomeMatches(m, vs)
  {
    if c.Missing? {
      var missing := MissingCtors(ts[0], m);
      assert ColumnsBelow(ts, c) == ts[1..];
      var j :| 0 <= j < |missing| && row == Completed(ts[0], missing, r)[j];
      vs := WitnessMissing(ts, m, missing[j], r, ws);
    } else {
      vs := WitnessBelow(ts, m, c, r, ws);
    }
  }

  lemma SmallerBelow(ts: seq<Ty>, m: seq<Row>, c: Constructor)
    requires ts != [] && AllWellFormed(ts) && Exposed(ts) && MatrixOk(m, ts) && c in ToVisit(ts[0], m)
    ensures AllWellFormed(ColumnsBelow(ts, c)) && Exposed(ColumnsBelow(ts, c))
    ensures MatrixOk(MatrixBelow(ts, m, c), ColumnsBelow(ts, c)) && SizeAll(ColumnsBelow(ts, c)) < SizeAll(ts)
  {
    SpecializedOk(c, m, ts);
    ExposedBelow(ts, m, c);
    SizeBelow(ts[0], c, ts[1..]);
  }

  /** Where a row of the result comes from. */
  lemma MissingRowsOrigin(ts: seq<Ty>, m: seq<Row>, row: Row) returns (c: Constructor, r: Row)
    requires ts != [] && row in MissingRows(ts, m)
    ensures c in ToVisit(ts[0], m) && r in RowsBelow(ts, m, c) && RebuiltFrom(ts[0], c, MissingCtors(ts[0], m), r, row)
  {
    MissingRowsMember(ts, m, row);
    c :| c in ToVisit(ts[0], m) && row in MissingBelow(ts, m, c);
    MissingBelowMember(ts, m, c, row);
    r :| r in RowsBelow(ts, m, c) && RebuiltFrom(ts[0], c, MissingCtors(ts[0], m), r, row);
  }

  /** Every row of the result is a counterexample: some values match it and no row of the matrix. */
  lemma {:induction false} MissingRowsWitness(ts: seq<Ty>, m: seq<Row>, row: Row) returns (vs: seq<Value>)
    requires AllWellFormed(ts) && Exposed(ts) && MatrixOk(m, ts) && row in MissingRows(ts, m)
    ensures HaveTypes(vs, ts) && RowMatches(row, vs) && !SomeMatches(m, vs)
    decreases SizeAll(ts)
  {
    if ts == [] {
      vs := [];
    } else {
      var c, r := MissingRowsOrigin(ts, m, row);
      SmallerBelow(ts, m, c);
      var ws := MissingRowsWitness(ColumnsBelow(ts, c), MatrixBelow(ts, m, c), r);
      vs := WitnessAbove(ts, m, c, r, row, ws);
    }
  }

  /** For one column the witnesses exist, whatever the patterns, exactly when the column's type is not
      a tuple or a box without values: those two the constructor sets do not check for emptiness. */
  lemma WitnessesExactly(t: Ty)
    requires WellFormed(t)
    ensures (forall m: seq<Row>, row: Row :: MatrixOk(m, [t]) && row in MissingRows([t], m) ==> HasWitness(t, m, row))
            <==> !((t.Tuple? || t.Box?) && Uninhabited(t))
  {
    if (t.Tuple? || t.Box?) && Uninhabited(t) {
      var row := EmptyTypeRow(t);
      if HasWitness(t, [], row) {
        var vs: seq<Value> :| HaveTypes(vs, [t]) && RowMatches(row, vs) && !SomeMatches([], vs);
        UninhabitedEmpty(t, vs[0]);
      }
      assert MatrixOk([], [t]) && !HasWitness(t, [], row);
    } else {
      forall m: seq<Row>, row: Row | MatrixOk(m, [t]) && row in MissingRows([t], m) ensures HasWitness(t, m, row) {
        var vs := MissingRowsWitness([t], m, row);
      }
    }
  }

  ghost predicate HasWitness(t: Ty, m: seq<Row>, row: Row) {
    exists vs: seq<Value> :: HaveTypes(vs, [t]) && RowMatches(row, vs) && !SomeMatches(m, vs)
  }

  lemma EmptyTypeRow(t: Ty) returns (row: Row)
    requires t.Tuple? || t.Box?
    ensures row in MissingRows([t], [])
  {
    var c := if t.Tuple? then RecordCtor else NonExhaustive;
    assert c in Ctors(ConstructorsOfTy(t));
    assert c in MissingCtors(t, []);
    CompletedFrom(t, [], c, []);
    row := [Pat(c, Indexed(Wilds(|FieldsOf(t, c)|)))] + [];
    assert ColumnsBelow([t], Missing) == [];
    assert MatrixBelow([t], [], Missing) == [];
    assert [] in RowsBelow([t], [], Missing);
    MissingBelowMember([t], [], Missing, row);
    MissingRowsMember([t], [], row);
  }

  // ---------------------------------------------------------------- the algorithm as the source runs it

  method Specialize(c: Constructor, fieldCount: nat, m: seq<Row>) returns (r: seq<Row>)
    ensures r == Specialized(c, fieldCount, m)
  {
    r := [];
    for i := 0 to |m|
      invariant r == Specialized(c, fieldCount, m[..i])
    {
      assert m[..i + 1][..i] == m[..i];
      if m[i] == [] { continue; }
      var first, row := m[i][0], m[i][1..];
      if first.ctor == c {
        var newRow := Wilds(fieldCount);
        for j := 0 to |first.fields|
          invariant newRow == Placed(fieldCount, first.fields[..j])
        {
          assert first.fields[..j + 1][..j] == first.fields[..j];
          var p := first.fields[j];
          if p.index < fieldCount { newRow := newRow[p.index := p.pat]; }
        }
        assert first.fields[..|first.fields|] == first.fields;
        r := r + [newRow + row];
      } else if first.ctor.Wildcard? {
        r := r + [Wilds(fieldCount) + row];
      }
    }
    assert m[..|m|] == m;
  }

  method SplitConstructors(s: ConstructorSet, seen: set<Constructor>) returns (present: seq<Constructor>, missing: seq<Constructor>)
    ensures (present, missing) == Split(s, seen)
  {
    present, missing := [], [];
    if s.NonExhaustiveSet? { return [], [NonExhaustive]; }
    var cs := Ctors(s);
    for i := 0 to |cs|
      invariant present == Keep(cs[..i], seen, true) && missing == Keep(cs[..i], seen, false)
    {
      assert cs[..i + 1][..i] == cs[..i];
      if cs[i] in seen { present := present + [cs[i]]; } else { missing := missing + [cs[i]]; }
    }
    assert cs[..|cs|] == cs;
  }

  lemma FlattenPrefix(rss: seq<seq<Row>>, i: nat)
    requires i < |rss|
    ensures Flatten(rss[..i + 1]) == Flatten(rss[..i]) + rss[i]
  {
    assert rss[..i + 1][..i] == rss[..i];
  }

  /** Computes the missing rows, pushing onto a vector constructor by constructor. */
  method MissingPatternsInner(ts: seq<Ty>, m: seq<Row>) returns (allMissing: seq<Row>)
    ensures allMissing == MissingRows(ts, m)
    decreases SizeAll(ts)
  {
    if ts == [] {
      if m == [] { return [[]]; } else { return []; }
    }
    var head := ts[0];
    var present, missing := SplitConstructors(ConstructorsOfTy(head), SeenCtors(m));
    var cs := if missing == [] then present else present + [Missing];
    assert cs == ToVisit(head, m);
    allMissing := [];
    ghost var rss := seq(|cs|, i requires 0 <= i < |cs| => MissingBelow(ts, m, cs[i]));
    for i := 0 to |cs|
      invariant allMissing == Flatten(rss[..i])
    {
      var c := cs[i];
      var fields := FieldsOf(head, c);
      var specialized := Specialize(c, |fields|, m);
      SizeBelow(head, c, ts[1..]);
      var rows := MissingPatternsInner(fields + ts[1..], specialized);
      var rebuilt := Rebuild(head, c, missing, rows);
      FlattenPrefix(rss, i);
      allMissing := allMissing + rebuilt;
    }
    assert rss[..|cs|] == rss;
  }

  method Rebuild(head: Ty, c: Constructor, missing: seq<Constructor>, rows: seq<Row>) returns (r: seq<Row>)
    ensures r == Rebuilt(head, c, missing, rows)
  {
    r := [];
    for k := 0 to |rows|
      invariant r == Rebuilt(head, c, missing, rows[..k])
    {
      assert rows[..k + 1][..k] == rows[..k];
      if c.Missing? {
        r := r + Completed(head, missing, rows[k]);
      } else {
        r := r + [Folded(c, |FieldsOf(head, c)|, rows[k])];
      }
    }
    assert rows[..|rows|] == rows;
  }

  ghost predicate Covered(patterns: seq<Pat>, v: Value) {
    exists i :: 0 <= i < |patterns| && Matches(patterns[i], v)
  }

  /** v is a value of type t matched by p and by none of the patterns. */
  ghost predicate Counterexample(t: Ty, patterns: seq<Pat>, p: Pat, v: Value) {
    HasType(v, t) && Matches(p, v) && !Covered(patterns, v)
  }

  ghost predicate Justified(t: Ty, patterns: seq<Pat>, p: Pat) {
    exists v :: Counterexample(t, patterns, p, v)
  }

  function Column(patterns: seq<Pat>): seq<Row> {
    seq(|patterns|, i requires 0 <= i < |patterns| => [patterns[i]])
  }

  lemma ColumnCovers(patterns: seq<Pat>, v: Value)
    ensures SomeMatches(Column(patterns), [v]) <==> Covered(patterns, v)
  {
    var m := Column(patterns);
    if i :| 0 <= i < |m| && RowMatches(m[i], [v]) { assert Matches(m[i][0], [v][0]); }
    if i :| 0 <= i < |patterns| && Matches(patterns[i], v) { assert RowMatches(m[i], [v]); }
  }

  lemma ColumnWitness(t: Ty, patterns: seq<Pat>, row: Row) returns (v: Value)
    requires WellFormed(t) && !((t.Tuple? || t.Box?) && Uninhabited(t))
    requires MatrixOk(Column(patterns), [t]) && row in MissingRows([t], Column(patterns)) && |row| == 1
    ensures Counterexample(t, patterns, row[0], v)
  {
    var vs := MissingRowsWitness([t], Column(patterns), row);
    v := vs[0];
    assert vs == [v] && HasType(vs[0], [t][0]) && Matches(row[0], vs[0]);
    ColumnCovers(patterns, v);
  }

  /** The missing patterns of a match on a value of type t: every value that no pattern covers matches
      one of them, and each is matched by a value that no pattern covers. */
  method MissingPatterns(t: Ty, patterns: seq<Pat>) returns (missing: seq<Pat>)
    requires WellFormed(t) && forall i :: 0 <= i < |patterns| ==> PatOk(patterns[i], t)
    ensures forall v :: HasType(v, t) && !Covered(patterns, v) ==> Covered(missing, v)
    ensures !((t.Tuple? || t.Box?) && Uninhabited(t)) ==>
              forall k :: 0 <= k < |missing| ==> Justified(t, patterns, missing[k])
  {
    var m := Column(patterns);
    var rows := MissingPatternsInner([t], m);
    forall k | 0 <= k < |rows| ensures |rows[k]| == 1 { MissingRowsLength([t], m, rows[k]); }
    missing := seq(|rows|, k requires 0 <= k < |rows| && |rows[k]| == 1 => rows[k][0]);
    forall v | HasType(v, t) && !Covered(patterns, v) ensures Covered(missing, v) {
      ColumnCovers(patterns, v);
      var row := MissingRowsCover([t], m, [v]);
      var k :| 0 <= k < |rows| && rows[k] == row;
      assert Matches(missing[k], v);
    }
    if !((t.Tuple? || t.Box?) && Uninhabited(t)) {
      forall k | 0 <= k < |missing| ensures Justified(t, patterns, missing[k]) {
        assert rows[k] in rows && missing[k] == rows[k][0];
        var v := ColumnWitness(t, patterns, rows[k]);
        assert Counterexample(t, patterns, missing[k], v);
      }
    }
  }

  lemma RebuiltLength(t: Ty, c: Constructor, missing: seq<Constructor>, r: Row, row: Row)
    requires RebuiltFrom(t, c, missing, r, row) && |r| >= |FieldsOf(t, c)|
    ensures |row| == |r| - |FieldsOf(t, c)| + 1
  {
    if c.Missing? {
      var j :| 0 <= j < |missing| && row == Completed(t, missing, r)[j];
    }
  }

  /** Every row of the result has one pattern for each column. */
  lemma {:induction false} MissingRowsLength(ts: seq<Ty>, m: seq<Row>, row: Row)
    requires row in MissingRows(ts, m)
    ensures |row| == |ts|
    decreases SizeAll(ts)
  {
    if ts != [] {
      var t := ts[0];
      var c, r := MissingRowsOrigin(ts, m, row);
      SizeBelow(t, c, ts[1..]);
      MissingRowsLength(ColumnsBelow(ts, c), MatrixBelow(ts, m, c), r);
      RebuiltLength(t, c, MissingCtors(t, m), r, row);
    }
  }
}
