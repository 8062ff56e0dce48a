/** The emptiness test on types with definitions, which may refer to themselves through boxes:
    what its answer means, and on which types it ends. */
module Emptiness {
  import opened Prelude
  import opened Types
  import opened RecursiveTypes

  // ---------------------------------------------------------------- the test

  /** Definitions, and which of them the check for recursive types reports. */
  datatype Checked = Checked(defs: Defs, reported: set<nat>)

  ghost function Check(defs: Defs): Checked
    requires KnownTable(defs)
  {
    Checked(defs, set id | id in Ids(|defs|) && IsTypeRecursive(defs, id))
  }

  predicate IsDefined(c: Checked, t: Ty) {
    t.Con? && t.head.Named? && t.head.id < |c.defs|
  }

  predicate IsVariant(c: Checked, t: Ty) {
    IsDefined(c, t) && c.defs[t.head.id].VariantDef?
  }

  /** The test looks into tuples, boxes and named types, but not into those reported to be recursive. */
  predicate LooksInto(c: Checked, t: Ty) {
    (t.Con? && (t.head.Tuple? || t.head.Box?)) || (IsDefined(c, t) && t.head.id !in c.reported)
  }

  /** The payloads of the cases before the first one without. */
  function LeadingPayloads(cases: seq<Option<Ty>>): (r: seq<Ty>)
    ensures |r| <= |cases| && forall i :: 0 <= i < |r| ==> cases[i] == Some(r[i])
    ensures |r| < |cases| ==> cases[|r|].None?
  {
    if cases == [] || cases[0].None? then [] else [cases[0].value] + LeadingPayloads(cases[1..])
  }

  /** What is asked about in turn: all fields, or the payloads of the cases up to the first one without. */
  function Questions(c: Checked, t: Ty): seq<Ty> {
    if IsVariant(c, t) then BindEach(LeadingPayloads(c.defs[t.head.id].cases), t.args)
    else if IsDefined(c, t) then BindEach(c.defs[t.head.id].fields, t.args)
    else if t.Con? && (t.head.Tuple? || t.head.Box?) then t.args
    else []
  }

  /** The answer that ends the asking: an empty field, or a case that is not empty. */
  predicate Decisive(c: Checked, t: Ty) {
    !IsVariant(c, t)
  }

  /** The outcome if all were asked without a decisive answer. */
  predicate Otherwise(c: Checked, t: Ty) {
    IsVariant(c, t) && forall i :: 0 <= i < |c.defs[t.head.id].cases| ==> c.defs[t.head.id].cases[i].Some?
  }

  /** Whether the test reports t as empty, if it is done within n calls deep. */
  function Empty(c: Checked, n: nat, t: Ty): Option<bool>
    decreases n, 0
  {
    if !LooksInto(c, t) then Some(t.Con? && t.head.Never?)
    else if n == 0 then None
    else
      match Asked(c, n - 1, Questions(c, t), Decisive(c, t))
      case None => None
      case Some(decided) => Some(if decided then Decisive(c, t) else Otherwise(c, t))
  }

  /** Whether one of the types, asked about in turn, gets the decisive answer. */
  function Asked(c: Checked, n: nat, ts: seq<Ty>, decisive: bool): Option<bool>
    decreases n, 1 + |ts|
  {
    if ts == [] then Some(false)
    else
      match Empty(c, n, ts[0])
      case None => None
      case Some(empty) => if empty == decisive then Some(true) else Asked(c, n, ts[1..], decisive)
  }

  /** A definition that the check for recursive types reports is never called empty; other types that are not looked
      into are empty only if they are the type without values. */
  lemma NotLookedInto(c: Checked, n: nat, t: Ty)
    ensures IsDefined(c, t) && t.head.id in c.reported ==> Empty(c, n, t) == Some(false)
    ensures !IsDefined(c, t) && !(t.Con? && (t.head.Tuple? || t.head.Box?)) ==> Empty(c, n, t) == Some(t.Con? && t.head.Never?)
  {
  }

  lemma {:induction false} EmptyMore(c: Checked, n: nat, m: nat, t: Ty)
    requires n <= m && Empty(c, n, t).Some?
    ensures Empty(c, m, t) == Empty(c, n, t)
    decreases n, 0
  {
    if LooksInto(c, t) { AskedMore(c, n - 1, m - 1, Questions(c, t), Decisive(c, t)); }
  }

  lemma {:induction false} AskedMore(c: Checked, n: nat, m: nat, ts: seq<Ty>, decisive: bool)
    requires n <= m && Asked(c, n, ts, decisive).Some?
    ensures Asked(c, m, ts, decisive) == Asked(c, n, ts, decisive)
    decreases n, 1 + |ts|
  {
    if ts != [] {
      EmptyMore(c, n, m, ts[0]);
      if Empty(c, n, ts[0]).value != decisive { AskedMore(c, n, m, ts[1..], decisive); }
    }
  }

  // ---------------------------------------------------------------- what the answer means

  /** The type has a value in which at most n types are nested; boxes hold a value of their content. */
  ghost predicate HasValue(c: Checked, n: nat, t: Ty)
    decreases n, 0
  {
    if IsVariant(c, t) then
      n > 0 && exists i :: 0 <= i < |c.defs[t.head.id].cases| && CaseHasValue(c, n - 1, c.defs[t.head.id].cases[i], t.args)
    else if IsDefined(c, t) || (t.Con? && (t.head.Tuple? || t.head.Box?)) then
      n > 0 && forall i :: 0 <= i < |Questions(c, t)| ==> HasValue(c, n - 1, Questions(c, t)[i])
    else !(t.Con? && t.head.Never?)
  }

  ghost predicate CaseHasValue(c: Checked, n: nat, payload: Option<Ty>, args: seq<Ty>)
    decreases n, 1
  {
    payload.Some? ==> HasValue(c, n, Bind(payload.value, args))
  }

  lemma {:induction false} HasValueMore(c: Checked, n: nat, m: nat, t: Ty)
    requires n <= m && HasValue(c, n, t)
    ensures HasValue(c, m, t)
    decreases n
  {
    if IsVariant(c, t) {
      var cases := c.defs[t.head.id].cases;
      var i :| 0 <= i < |cases| && CaseHasValue(c, n - 1, cases[i], t.args);
      if cases[i].Some? { HasValueMore(c, n - 1, m - 1, Bind(cases[i].value, t.args)); }
      assert CaseHasValue(c, m - 1, cases[i], t.args);
    } else if n > 0 {
      forall i | 0 <= i < |Questions(c, t)| && HasValue(c, n - 1, Questions(c, t)[i])
        ensures HasValue(c, m - 1, Questions(c, t)[i])
      {
        HasValueMore(c, n - 1, m - 1, Questions(c, t)[i]);
      }
    }
  }

  lemma {:induction false} AskedMeaning(c: Checked, n: nat, ts: seq<Ty>, decisive: bool)
    requires Asked(c, n, ts, decisive).Some?
    ensures if Asked(c, n, ts, decisive).value
            then exists i :: 0 <= i < |ts| && Empty(c, n, ts[i]) == Some(decisive)
            else forall i :: 0 <= i < |ts| ==> Empty(c, n, ts[i]) == Some(!decisive)
    decreases ts
  {
    if ts != [] && Empty(c, n, ts[0]) != Some(decisive) {
      AskedMeaning(c, n, ts[1..], decisive);
      if Asked(c, n, ts, decisive).value {
        var i :| 0 <= i < |ts[1..]| && Empty(c, n, ts[1..][i]) == Some(decisive);
        assert ts[i + 1] == ts[1..][i];
      } else {
        forall i | 0 < i < |ts| ensures Empty(c, n, ts[i]) == Some(!decisive) { assert ts[i] == ts[1..][i - 1]; }
      }
    }
  }

  lemma {:induction false} EmptyHasNone(c: Checked, n: nat, t: Ty, k: nat)
    requires c.reported == {} && Empty(c, n, t) == Some(true)
    ensures !HasValue(c, k, t)
    decreases n
  {
    if LooksInto(c, t) && k > 0 {
      var qs := Questions(c, t);
      AskedMeaning(c, n - 1, qs, Decisive(c, t));
      if IsVariant(c, t) {
        var cases := c.defs[t.head.id].cases;
        forall i | 0 <= i < |cases| ensures !CaseHasValue(c, k - 1, cases[i], t.args) {
          assert qs[i] == Bind(cases[i].value, t.args);
          EmptyHasNone(c, n - 1, qs[i], k - 1);
        }
      } else {
        var i :| 0 <= i < |qs| && Empty(c, n - 1, qs[i]) == Some(true);
        EmptyHasNone(c, n - 1, qs[i], k - 1);
      }
    }
  }

  lemma {:induction false} NotEmptyHasOne(c: Checked, n: nat, t: Ty) returns (k: nat)
    requires c.reported == {} && Empty(c, n, t) == Some(false)
    ensures HasValue(c, k, t)
    decreases n, 0
  {
    k := 0;
    if LooksInto(c, t) {
      var qs := Questions(c, t);
      AskedMeaning(c, n - 1, qs, Decisive(c, t));
      if IsVariant(c, t) {
        var cases := c.defs[t.head.id].cases;
        var i: nat := |qs|;
        if Asked(c, n - 1, qs, false).value {
          i :| 0 <= i < |qs| && Empty(c, n - 1, qs[i]) == Some(false);
          k := NotEmptyHasOne(c, n - 1, qs[i]);
        }
        assert CaseHasValue(c, k, cases[i], t.args);
      } else {
        k := NotEmptyHaveOne(c, n - 1, qs);
      }
      k := k + 1;
    }
  }

  lemma {:induction false} NotEmptyHaveOne(c: Checked, n: nat, ts: seq<Ty>) returns (k: nat)
    requires c.reported == {} && forall i :: 0 <= i < |ts| ==> Empty(c, n, ts[i]) == Some(false)
    ensures forall i :: 0 <= i < |ts| ==> HasValue(c, k, ts[i])
    decreases n, 1 + |ts|
  {
    k := 0;
    if ts != [] {
      var l := NotEmptyHasOne(c, n, ts[0]);
      var m := NotEmptyHaveOne(c, n, ts[1..]);
      k := l + m;
      HasValueMore(c, l, k, ts[0]);
      forall i | 0 <= i < |ts| ensures HasValue(c, k, ts[i]) {
        if i > 0 { HasValueMore(c, m, k, ts[1..][i - 1]); }
      }
    }
  }

  ghost predicate Inhabited(c: Checked, t: Ty) {
    exists k: nat :: HasValue(c, k, t)
  }

  /** Under an accepted table, whenever the test ends it reports exactly the types without values. */
  lemma EmptyRight(defs: Defs, n: nat, t: Ty)
    requires Accepted(defs) && Empty(Check(defs), n, t).Some?
    ensures Empty(Check(defs), n, t).value <==> !Inhabited(Check(defs), t)
  {
    var c := Check(defs);
    assert c.reported == {};
    if Empty(c, n, t).value {
      forall k: nat ensures !HasValue(c, k, t) { EmptyHasNone(c, n, t, k); }
    } else {
      var k := NotEmptyHasOne(c, n, t);
      assert HasValue(c, k, t);
    }
  }

  // ---------------------------------------------------------------- when the test ends

  ghost predicate Endless(c: Checked, t: Ty) {
    forall n: nat :: Empty(c, n, t).None?
  }

  /** The test ends on t with the answer given. */
  ghost predicate Tells(c: Checked, t: Ty, empty: bool) {
    exists n: nat :: Empty(c, n, t) == Some(empty)
  }

  /** The i-th question about t is asked: those before it were answered, none decisively. */
  ghost predicate Reached(c: Checked, t: Ty, i: nat) {
    && LooksInto(c, t) && i < |Questions(c, t)|
    && forall j :: 0 <= j < i ==> Tells(c, Questions(c, t)[j], !Decisive(c, t))
  }

  /** Testing any of the types comes to ask about one of them. */
  ghost predicate Circular(c: Checked, s: iset<Ty>) {
    forall t {:trigger AsksWithin(c, s, t)} :: t in s ==> AsksWithin(c, s, t)
  }

  ghost predicate AsksWithin(c: Checked, s: iset<Ty>, t: Ty) {
    exists i: nat :: Reached(c, t, i) && Questions(c, t)[i] in s
  }

  /** A common depth for the first i answers. */
  lemma {:induction false} TellsWithin(c: Checked, ts: seq<Ty>, i: nat, empty: bool) returns (n: nat)
    requires i <= |ts| && forall j :: 0 <= j < i ==> Tells(c, ts[j], empty)
    ensures forall j :: 0 <= j < i ==> Empty(c, n, ts[j]) == Some(empty)
    decreases i
  {
    n := 0;
    if i > 0 {
      var m := TellsWithin(c, ts, i - 1, empty);
      var k: nat :| Empty(c, k, ts[i - 1]) == Some(empty);
      n := m + k;
      EmptyMore(c, k, n, ts[i - 1]);
      forall j | 0 <= j < i - 1 ensures Empty(c, n, ts[j]) == Some(empty) { EmptyMore(c, m, n, ts[j]); }
    }
  }

  lemma {:induction false} AskedFirst(c: Checked, n: nat, ts: seq<Ty>, i: nat, decisive: bool)
    requires i <= |ts| && forall j :: 0 <= j < i ==> Empty(c, n, ts[j]) == Some(!decisive)
    ensures i == |ts| || Empty(c, n, ts[i]) == Some(decisive) ==> Asked(c, n, ts, decisive).Some?
    decreases i
  {
    if i > 0 {
      assert ts[1..] != [] ==> ts[1..][0] == ts[1];
      forall j | 0 <= j < i - 1 ensures Empty(c, n, ts[1..][j]) == Some(!decisive) { assert ts[1..][j] == ts[j + 1]; }
      AskedFirst(c, n, ts[1..], i - 1, decisive);
    }
  }

  /** The test ends once a question it comes to is answered decisively, or all are answered otherwise. */
  lemma ReachedEnds(c: Checked, t: Ty, i: nat)
    requires LooksInto(c, t) && i <= |Questions(c, t)|
    requires forall j :: 0 <= j < i ==> Tells(c, Questions(c, t)[j], !Decisive(c, t))
    requires i < |Questions(c, t)| ==> Tells(c, Questions(c, t)[i], Decisive(c, t))
    ensures !Endless(c, t)
  {
    var qs, d := Questions(c, t), Decisive(c, t);
    var n := TellsWithin(c, qs, i, !d);
    var m: nat := 0;
    if i < |qs| {
      m :| Empty(c, m, qs[i]) == Some(d);
      EmptyMore(c, m, n + m, qs[i]);
    }
    forall j | 0 <= j < i ensures Empty(c, n + m, qs[j]) == Some(!d) { EmptyMore(c, n, n + m, qs[j]); }
    AskedFirst(c, n + m, qs, i, d);
    assert Empty(c, n + m + 1, t).Some?;
  }

  /** An endless test has a question that it comes to and does not get past. */
  lemma {:induction false} EndlessAsks(c: Checked, t: Ty, i: nat) returns (k: nat)
    requires Endless(c, t) && LooksInto(c, t) && i <= |Questions(c, t)|
    requires forall j :: 0 <= j < i ==> Tells(c, Questions(c, t)[j], !Decisive(c, t))
    ensures Reached(c, t, k) && Endless(c, Questions(c, t)[k])
    decreases |Questions(c, t)| - i
  {
    var qs, d := Questions(c, t), Decisive(c, t);
    if i == |qs| || Tells(c, qs[i], d) { ReachedEnds(c, t, i); }
    k := i;
    if !Endless(c, qs[i]) {
      var m: nat :| Empty(c, m, qs[i]).Some?;
      assert Tells(c, qs[i], Empty(c, m, qs[i]).value);
      k := EndlessAsks(c, t, i + 1);
    }
  }

  /** If the asking is decided, it is by a type before which no answer is missing. */
  lemma {:induction false} AskedDecided(c: Checked, n: nat, qs: seq<Ty>, d: bool, i: nat, m: nat)
    requires i < |qs| && Asked(c, n, qs, d) == Some(true)
    requires forall j :: 0 <= j < i ==> Empty(c, m, qs[j]) == Some(!d)
    ensures Empty(c, n, qs[i]).Some?
    decreases i
  {
    if i > 0 {
      EmptyMore(c, n, n + m, qs[0]);
      EmptyMore(c, m, n + m, qs[0]);
      forall j | 0 <= j < i - 1 ensures Empty(c, m, qs[1..][j]) == Some(!d) { assert qs[1..][j] == qs[j + 1]; }
      AskedDecided(c, n, qs[1..], d, i - 1, m);
    }
  }

  /** The test is not done as long as a question it comes to is not answered. */
  lemma ReachedPending(c: Checked, t: Ty, i: nat, n: nat)
    requires Reached(c, t, i) && Empty(c, n, Questions(c, t)[i]).None?
    ensures Empty(c, n + 1, t).None?
  {
    var qs, d := Questions(c, t), Decisive(c, t);
    var m := TellsWithin(c, qs, i, !d);
    if Asked(c, n, qs, d).Some? {
      AskedMeaning(c, n, qs, d);
      if Asked(c, n, qs, d).value { AskedDecided(c, n, qs, d, i, m); }
    }
  }

  ghost predicate Pending(c: Checked, n: nat, t: Ty) {
    Empty(c, n, t).None?
  }

  /** Within n calls deep the test is done with none of the types. */
  ghost predicate AllPending(c: Checked, s: iset<Ty>, n: nat) {
    forall t {:trigger Pending(c, n, t)} :: t in s ==> Pending(c, n, t)
  }

  lemma AsksPending(c: Checked, s: iset<Ty>, t: Ty, n: nat)
    requires AsksWithin(c, s, t) && (n > 0 ==> AllPending(c, s, n - 1))
    ensures Pending(c, n, t)
  {
    var i: nat :| Reached(c, t, i) && Questions(c, t)[i] in s;
    if n > 0 {
      assert Pending(c, n - 1, Questions(c, t)[i]);
      ReachedPending(c, t, i, n - 1);
    }
  }

  lemma {:induction false} CircularPending(c: Checked, s: iset<Ty>, n: nat)
    requires Circular(c, s)
    ensures AllPending(c, s, n)
    decreases n
  {
    if n > 0 { CircularPending(c, s, n - 1); }
    forall t | t in s ensures Pending(c, n, t) {
      assert AsksWithin(c, s, t);
      AsksPending(c, s, t, n);
    }
  }

  /** The test does not end on t exactly if t is one of some types each of which leads it to ask about one of them. */
  lemma EndsExactly(c: Checked, t: Ty)
    ensures Endless(c, t) <==> exists s: iset<Ty> :: t in s && Circular(c, s)
  {
    if Endless(c, t) {
      var s := iset u: Ty | Endless(c, u);
      forall u | u in s ensures AsksWithin(c, s, u) {
        assert Empty(c, 0, u).None?;
        var k := EndlessAsks(c, u, 0);
      }
      assert t in s && Circular(c, s);
    }
    if s: iset<Ty> :| t in s && Circular(c, s) {
      forall n: nat ensures Empty(c, n, t).None? {
        CircularPending(c, s, n);
        assert Pending(c, n, t);
      }
    }
  }

  // ---------------------------------------------------------------- the types on which it ends

  /** What is before the i-th of the types asked about leaves t open: fields that have values, cases that have none. */
  ghost predicate LeftOpen(c: Checked, t: Ty, i: nat) {
    && LooksInto(c, t) && i < |Questions(c, t)|
    && forall j :: 0 <= j < i ==> (Inhabited(c, Questions(c, t)[j]) <==> Decisive(c, t))
  }

  /** Behind what leaves it open, each of the types holds one of them. */
  ghost predicate Circle(c: Checked, s: iset<Ty>) {
    forall t {:trigger HoldsOneOf(c, s, t)} :: t in s ==> HoldsOneOf(c, s, t)
  }

  ghost predicate HoldsOneOf(c: Checked, s: iset<Ty>, t: Ty) {
    exists i: nat :: LeftOpen(c, t, i) && Questions(c, t)[i] in s
  }

  lemma {:induction false} AskedPending(c: Checked, n: nat, ts: seq<Ty>, i: nat, decisive: bool)
    requires i < |ts| && Empty(c, n, ts[i]).None?
    requires forall j :: 0 <= j < i ==> Empty(c, n, ts[j]) != Some(decisive)
    ensures Asked(c, n, ts, decisive).None?
    decreases i
  {
    if i > 0 {
      forall j | 0 <= j < i - 1 ensures Empty(c, n, ts[1..][j]) != Some(decisive) { assert ts[1..][j] == ts[j + 1]; }
      AskedPending(c, n, ts[1..], i - 1, decisive);
    }
  }

  lemma TellsRight(defs: Defs, t: Ty, empty: bool)
    requires Accepted(defs) && Tells(Check(defs), t, empty)
    ensures Inhabited(Check(defs), t) <==> !empty
  {
    var n: nat :| Empty(Check(defs), n, t) == Some(empty);
    EmptyRight(defs, n, t);
  }

  /** What leaves t open does not settle the test either. */
  lemma OpenPending(defs: Defs, t: Ty, i: nat, n: nat)
    requires Accepted(defs) && LeftOpen(Check(defs), t, i) && Pending(Check(defs), n, Questions(Check(defs), t)[i])
    ensures Pending(Check(defs), n + 1, t)
  {
    var c := Check(defs);
    var qs, d := Questions(c, t), Decisive(c, t);
    forall j | 0 <= j < i ensures Empty(c, n, qs[j]) != Some(d) {
      if Empty(c, n, qs[j]).Some? { EmptyRight(defs, n, qs[j]); }
    }
    AskedPending(c, n, qs, i, d);
  }

  lemma {:induction false} CirclePending(defs: Defs, s: iset<Ty>, n: nat)
    requires Accepted(defs) && Circle(Check(defs), s)
    ensures AllPending(Check(defs), s, n)
    decreases n
  {
    var c := Check(defs);
    if n > 0 { CirclePending(defs, s, n - 1); }
    forall t | t in s ensures Pending(c, n, t) {
      assert HoldsOneOf(c, s, t);
      var i: nat :| LeftOpen(c, t, i) && Questions(c, t)[i] in s;
      if n > 0 {
        assert Pending(c, n - 1, Questions(c, t)[i]);
        OpenPending(defs, t, i, n - 1);
      }
    }
  }

  lemma CircularCircle(defs: Defs, s: iset<Ty>)
    requires Accepted(defs) && Circular(Check(defs), s)
    ensures Circle(Check(defs), s)
  {
    var c := Check(defs);
    forall t | t in s ensures HoldsOneOf(c, s, t) {
      assert AsksWithin(c, s, t);
      var i: nat :| Reached(c, t, i) && Questions(c, t)[i] in s;
      ReachedOpen(defs, t, i);
    }
  }

  lemma ReachedOpen(defs: Defs, t: Ty, i: nat)
    requires Accepted(defs) && Reached(Check(defs), t, i)
    ensures LeftOpen(Check(defs), t, i)
  {
    var c := Check(defs);
    var qs, d := Questions(c, t), Decisive(c, t);
    forall j | 0 <= j < i ensures Inhabited(c, qs[j]) <==> d { TellsRight(defs, qs[j], !d); }
  }

  /** Under an accepted table the test does not end on t exactly if t is one of some types each of which holds one
      of them, in a box, tuple or record behind types that have values, or as a payload behind payloads that have none. */
  lemma EndlessExactly(defs: Defs, t: Ty)
    requires Accepted(defs)
    ensures Endless(Check(defs), t) <==> exists s: iset<Ty> :: t in s && Circle(Check(defs), s)
  {
    var c := Check(defs);
    if Endless(c, t) {
      EndsExactly(c, t);
      var s: iset<Ty> :| t in s && Circular(c, s);
      CircularCircle(defs, s);
    }
    if s: iset<Ty> :| t in s && Circle(c, s) {
      forall n: nat ensures Empty(c, n, t).None? {
        CirclePending(defs, s, n);
        assert Pending(c, n, t);
      }
    }
  }

  // ---------------------------------------------------------------- how long it takes

  /** Whatever the test asks about when it looks into one of the types is one of them. */
  ghost predicate ClosedUnderQuestions(c: Checked, s: set<Ty>) {
    forall t, i :: t in s && LooksInto(c, t) && 0 <= i < |Questions(c, t)| ==> Questions(c, t)[i] in s
  }

  /** The types with which the test is done within n calls deep. */
  ghost function Done(c: Checked, s: set<Ty>, n: nat): set<Ty> {
    set t | t in s && Empty(c, n, t).Some?
  }

  ghost predicate AlikeAt(c: Checked, n: nat, m: nat, t: Ty) {
    Empty(c, n, t) == Empty(c, m, t)
  }

  ghost predicate Alike(c: Checked, s: set<Ty>, n: nat, m: nat) {
    forall t {:trigger AlikeAt(c, n, m, t)} :: t in s ==> AlikeAt(c, n, m, t)
  }

  lemma {:induction false} AskedAlike(c: Checked, n: nat, m: nat, ts: seq<Ty>, decisive: bool)
    requires forall i :: 0 <= i < |ts| ==> AlikeAt(c, n, m, ts[i])
    ensures Asked(c, n, ts, decisive) == Asked(c, m, ts, decisive)
    decreases ts
  {
    if ts != [] {
      forall i | 0 <= i < |ts[1..]| ensures AlikeAt(c, n, m, ts[1..][i]) { assert ts[1..][i] == ts[i + 1]; }
      assert AlikeAt(c, n, m, ts[0]);
      AskedAlike(c, n, m, ts[1..], decisive);
    }
  }

  lemma AlikeNext(c: Checked, s: set<Ty>, n: nat)
    requires ClosedUnderQuestions(c, s) && Alike(c, s, n, n + 1)
    ensures Alike(c, s, n + 1, n + 2)
  {
    forall t | t in s ensures AlikeAt(c, n + 1, n + 2, t) {
      if LooksInto(c, t) { AskedAlike(c, n, n + 1, Questions(c, t), Decisive(c, t)); }
    }
  }

  lemma {:induction false} AlikeOnward(c: Checked, s: set<Ty>, n: nat, m: nat)
    requires ClosedUnderQuestions(c, s) && Alike(c, s, n, n + 1) && n <= m
    ensures Alike(c, s, n, m) && Alike(c, s, m, m + 1)
    decreases m
  {
    if n < m {
      AlikeOnward(c, s, n, m - 1);
      AlikeNext(c, s, m - 1);
      forall t | t in s ensures AlikeAt(c, n, m, t) { assert AlikeAt(c, n, m - 1, t) && AlikeAt(c, m - 1, m, t); }
    }
  }

  lemma SmallerSet(a: set<Ty>, b: set<Ty>)
    requires a <= b
    ensures |a| <= |b| && (a != b ==> |a| < |b|)
  {
    assert b == a + (b - a);
  }

  /** Each call deeper it is done with one type more, or nothing changes any more. */
  lemma {:induction false} SettledAt(c: Checked, s: set<Ty>, n: nat) returns (k: nat)
    requires n <= |Done(c, s, n)|
    ensures n <= k <= |s| && Alike(c, s, k, k + 1)
    decreases |s| + 1 - n
  {
    var now, next := Done(c, s, n), Done(c, s, n + 1);
    SmallerSet(now, s);
    forall t | t in s && Empty(c, n, t).Some? ensures Empty(c, n + 1, t) == Empty(c, n, t) { EmptyMore(c, n, n + 1, t); }
    assert now <= next;
    k := n;
    if now != next {
      SmallerSet(now, next);
      SmallerSet(next, s);
      k := SettledAt(c, s, n + 1);
    } else {
      forall t | t in s ensures AlikeAt(c, n, n + 1, t) { assert t in now <==> t in next; }
    }
  }

  /** On a type that leads to finitely many others the test is done within as many calls deep as they are, or never. */
  lemma EndsWithin(c: Checked, s: set<Ty>, t: Ty)
    requires t in s && ClosedUnderQuestions(c, s)
    ensures Endless(c, t) <==> Empty(c, |s|, t).None?
  {
    var k := SettledAt(c, s, 0);
    AlikeOnward(c, s, k, |s|);
    assert AlikeAt(c, k, |s|, t);
    if Empty(c, |s|, t).None? {
      forall n: nat ensures Empty(c, n, t).None? {
        if n >= k {
          AlikeOnward(c, s, k, n);
          assert AlikeAt(c, k, n, t);
        } else if Empty(c, n, t).Some? {
          EmptyMore(c, n, k, t);
        }
      }
    }
  }

  // ---------------------------------------------------------------- the order of cases

  const SELF := Con(Named(0), [])
  const NODE: Option<Ty> := Some(Con(Box, [SELF]))

  lemma NodeBind()
    ensures Bind(NODE.value, []) == NODE.value && Bind(SELF, []) == SELF
  {
    assert Bind(SELF, []).args == [];
    assert Bind(NODE.value, []).args == [Bind(SELF, [])];
  }

  lemma BoxedAccepted(cases: seq<Option<Ty>>)
    requires cases in [[NODE, None], [None, NODE]]
    ensures Accepted([VariantDef(0, cases)])
  {
    var defs := [VariantDef(0, cases)];
    NodeBind();
    assert Known(defs, SELF);
    assert Payloads([NODE]) == [NODE.value] && Payloads([None]) == [];
    assert cases[..1] == [cases[0]];
    assert Payloads(cases) == [NODE.value];
    assert Known(defs, NODE.value);
    assert BoundFields(defs, 0, []) == [Bind(NODE.value, [])];
    assert Itself(defs, 0) == SELF;
    assert Visit(defs, Bind(NODE.value, []), {0}) == Seen({0}, false);
    assert VisitAll(defs, BoundFields(defs, 0, []), {0}) == Seen({0}, false);
    var none: set<nat> := {};
    assert none + {0} == {0};
    assert Visit(defs, SELF, none) == Seen({0}, false);
    assert !IsTypeRecursive(defs, 0);
  }

  /** With the case that refers to the type through a box written first, the test does not end, although
      the table is accepted and the type has a value. */
  lemma NodeFirstEndless()
    ensures var defs := [VariantDef(0, [NODE, None])]; Accepted(defs) && Endless(Check(defs), SELF) && HasValue(Check(defs), 1, SELF)
  {
    var defs := [VariantDef(0, [NODE, None])];
    BoxedAccepted([NODE, None]);
    var c := Check(defs);
    var s := iset{SELF, NODE.value};
    NodeBind();
    assert Questions(c, SELF) == [NODE.value] by { assert LeadingPayloads([NODE, None]) == [NODE.value]; }
    assert LeftOpen(c, SELF, 0) && LeftOpen(c, NODE.value, 0);
    assert HoldsOneOf(c, s, SELF) && HoldsOneOf(c, s, NODE.value);
    assert Circle(c, s);
    EndlessExactly(defs, SELF);
    assert CaseHasValue(c, 0, defs[0].cases[1], []);
  }

  /** With the other case written first it ends. */
  lemma LeafFirstEnds()
    ensures var defs := [VariantDef(0, [None, NODE])]; Accepted(defs) && Empty(Check(defs), 1, SELF) == Some(false)
  {
    BoxedAccepted([None, NODE]);
  }
}
