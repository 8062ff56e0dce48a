/** What the check for recursive types finds, and which types unfold finitely by value. */
module TypeUnfolding {
  import opened Prelude
  import opened Types
  import opened RecursiveTypes

  // ---------------------------------------------------------------- unfoldings and their names

  /** The check also looks behind raw pointers; a layout needs only what is held by value. */
  datatype Walk = Checked | ByValue

  /** The types directly below a type, its definition's fields if it is a named one. */
  function Parts(defs: Defs, w: Walk, t: Ty): seq<Ty>
    requires Known(defs, t)
  {
    match w
    case ByValue => Components(defs, t)
    case Checked =>
      if !t.Con? then []
      else if t.head.Named? then BoundFields(defs, t.head.id, t.args)
      else if t.head.Array? || t.head.Box? || t.head.Function? then []
      else t.args
  }

  lemma KnownParts(defs: Defs, w: Walk, t: Ty)
    requires KnownTable(defs) && Known(defs, t)
    ensures AllKnown(defs, Parts(defs, w, t))
  {
    KnownComponents(defs, t);
    if t.Con? && t.head.Named? { KnownFields(defs, t.head.id, t.args); }
  }

  /** The type that a path of positions leads to in the unfolding of some types; the first
      position chooses among them. */
  function TypeIn(defs: Defs, w: Walk, ts: seq<Ty>, path: seq<nat>): Option<Ty>
    requires KnownTable(defs) && AllKnown(defs, ts) && path != []
    decreases |path|, 0
  {
    if path[0] < |ts| then TypeAt(defs, w, ts[path[0]], path[1..]) else None
  }

  function TypeAt(defs: Defs, w: Walk, t: Ty, path: seq<nat>): Option<Ty>
    requires KnownTable(defs) && Known(defs, t)
    decreases |path|, 1
  {
    KnownParts(defs, w, t);
    if path == [] then Some(t) else TypeIn(defs, w, Parts(defs, w, t), path)
  }

  predicate IsNamed(t: Option<Ty>, x: nat) {
    t.Some? && t.value.Con? && t.value.head == Named(x)
  }

  /** The named type x is met in the unfolding at the path. */
  ghost predicate MetIn(defs: Defs, ts: seq<Ty>, path: seq<nat>, x: nat)
    requires KnownTable(defs) && AllKnown(defs, ts)
  {
    path != [] && IsNamed(TypeIn(defs, Checked, ts, path), x)
  }

  /** Some name that has been seen is met. */
  ghost predicate MeetsSeen(defs: Defs, ts: seq<Ty>, seen: set<nat>)
    requires KnownTable(defs) && AllKnown(defs, ts)
  {
    exists path, x: nat :: MetIn(defs, ts, path, x) && x in seen
  }

  /** Some name is met at two places. */
  ghost predicate MeetsTwice(defs: Defs, ts: seq<Ty>)
    requires KnownTable(defs) && AllKnown(defs, ts)
  {
    exists p, q, x: nat :: p != q && MetIn(defs, ts, p, x) && MetIn(defs, ts, q, x)
  }

  ghost predicate Repeats(defs: Defs, ts: seq<Ty>, seen: set<nat>)
    requires KnownTable(defs) && AllKnown(defs, ts)
  {
    MeetsSeen(defs, ts, seen) || MeetsTwice(defs, ts)
  }

  ghost predicate Meets(defs: Defs, ts: seq<Ty>, x: nat)
    requires KnownTable(defs) && AllKnown(defs, ts)
  {
    exists path :: MetIn(defs, ts, path, x)
  }

  // ---------------------------------------------------------------- below one type

  /** What is met below a type is met in its parts, and its own name at its root. */
  lemma MetBelow(defs: Defs, t: Ty, path: seq<nat>, x: nat)
    requires KnownTable(defs) && Known(defs, t) && path != []
    ensures AllKnown(defs, Parts(defs, Checked, t))
    ensures MetIn(defs, [t], path, x) <==>
              path[0] == 0 && if path == [0] then IsNamed(Some(t), x) else MetIn(defs, Parts(defs, Checked, t), path[1..], x)
  {
    KnownParts(defs, Checked, t);
    if path[0] == 0 {
      assert path == [0] + path[1..];
      assert TypeIn(defs, Checked, [t], path) == TypeAt(defs, Checked, t, path[1..]);
    }
  }

  lemma MetAbove(defs: Defs, t: Ty, path: seq<nat>, x: nat)
    requires KnownTable(defs) && Known(defs, t) && AllKnown(defs, Parts(defs, Checked, t))
    ensures MetIn(defs, Parts(defs, Checked, t), path, x) ==> MetIn(defs, [t], [0] + path, x)
    ensures IsNamed(Some(t), x) ==> MetIn(defs, [t], [0], x)
  {
    MetBelow(defs, t, [0] + path, x);
    MetBelow(defs, t, [0], x);
    assert ([0] + path)[1..] == path;
  }

  lemma RepeatsAbove(defs: Defs, t: Ty, seen: set<nat>, below: set<nat>)
    requires KnownTable(defs) && Known(defs, t) && AllKnown(defs, Parts(defs, Checked, t))
    requires below == if t.Con? && t.head.Named? then seen + {t.head.id} else seen
    requires Repeats(defs, Parts(defs, Checked, t), below)
    ensures Repeats(defs, [t], seen)
  {
    var ts := Parts(defs, Checked, t);
    if MeetsSeen(defs, ts, below) {
      var path, x: nat :| MetIn(defs, ts, path, x) && x in below;
      MetAbove(defs, t, path, x);
      assert [0] != [0] + path by { assert |[0] + path| > 1; }
    } else {
      var p, q, x: nat :| p != q && MetIn(defs, ts, p, x) && MetIn(defs, ts, q, x);
      MetAbove(defs, t, p, x);
      MetAbove(defs, t, q, x);
      assert [0] + p != [0] + q by { assert ([0] + p)[1..] == p && ([0] + q)[1..] == q; }
    }
  }

  lemma SeenBelow(defs: Defs, t: Ty, seen: set<nat>)
    requires KnownTable(defs) && Known(defs, t) && AllKnown(defs, Parts(defs, Checked, t))
    requires MeetsSeen(defs, [t], seen) && (t.Con? && t.head.Named? ==> t.head.id !in seen)
    ensures MeetsSeen(defs, Parts(defs, Checked, t), seen)
  {
    var path, x: nat :| MetIn(defs, [t], path, x) && x in seen;
    MetBelow(defs, t, path, x);
    assert MetIn(defs, Parts(defs, Checked, t), path[1..], x);
  }

  lemma TwiceBelow(defs: Defs, t: Ty)
    requires KnownTable(defs) && Known(defs, t) && AllKnown(defs, Parts(defs, Checked, t))
    requires MeetsTwice(defs, [t])
    ensures MeetsTwice(defs, Parts(defs, Checked, t))
         || (t.Con? && t.head.Named? && MeetsSeen(defs, Parts(defs, Checked, t), {t.head.id}))
  {
    var ts := Parts(defs, Checked, t);
    var p, q, x: nat :| p != q && MetIn(defs, [t], p, x) && MetIn(defs, [t], q, x);
    MetBelow(defs, t, p, x);
    MetBelow(defs, t, q, x);
    if p == [0] {
      assert MetIn(defs, ts, q[1..], x);
    } else if q == [0] {
      assert MetIn(defs, ts, p[1..], x);
    } else {
      if p[1..] == q[1..] { TailInjective(p, q); }
      assert MetIn(defs, ts, p[1..], x) && MetIn(defs, ts, q[1..], x);
    }
  }

  lemma RepeatsBelow(defs: Defs, t: Ty, seen: set<nat>, below: set<nat>)
    requires KnownTable(defs) && Known(defs, t) && AllKnown(defs, Parts(defs, Checked, t))
    requires if t.Con? && t.head.Named? then t.head.id !in seen && below == seen + {t.head.id} else below == seen
    requires Repeats(defs, [t], seen)
    ensures Repeats(defs, Parts(defs, Checked, t), below)
  {
    var ts := Parts(defs, Checked, t);
    if MeetsSeen(defs, [t], seen) {
      SeenBelow(defs, t, seen);
      var path, x: nat :| MetIn(defs, ts, path, x) && x in seen;
      assert x in below;
    } else {
      TwiceBelow(defs, t);
      if !MeetsTwice(defs, ts) {
        var path, x: nat :| MetIn(defs, ts, path, x) && x in {t.head.id};
        assert x in below;
      }
    }
  }

  lemma MeetsBelow(defs: Defs, t: Ty, x: nat)
    requires KnownTable(defs) && Known(defs, t) && AllKnown(defs, Parts(defs, Checked, t))
    ensures Meets(defs, [t], x) <==> IsNamed(Some(t), x) || Meets(defs, Parts(defs, Checked, t), x)
  {
    var ts := Parts(defs, Checked, t);
    if path :| MetIn(defs, [t], path, x) { MetBelow(defs, t, path, x); }
    if IsNamed(Some(t), x) { MetAbove(defs, t, [], x); }
    if path :| MetIn(defs, ts, path, x) { MetAbove(defs, t, path, x); }
  }

  // ---------------------------------------------------------------- one type after another

  function Shift(path: seq<nat>, up: bool): seq<nat>
    requires path != [] && (!up ==> path[0] > 0)
  {
    [if up then path[0] + 1 else path[0] - 1] + path[1..]
  }

  lemma MetSplit(defs: Defs, ts: seq<Ty>, path: seq<nat>, x: nat)
    requires KnownTable(defs) && AllKnown(defs, ts) && ts != [] && path != []
    ensures AllKnown(defs, ts[1..]) && AllKnown(defs, [ts[0]])
    ensures path[0] == 0 ==> (MetIn(defs, ts, path, x) <==> MetIn(defs, [ts[0]], path, x))
    ensures path[0] > 0 ==> (MetIn(defs, ts, path, x) <==> MetIn(defs, ts[1..], Shift(path, false), x))
  {
    if path[0] > 0 {
      var q := Shift(path, false);
      assert q[1..] == path[1..];
      if path[0] < |ts| { assert ts[1..][q[0]] == ts[path[0]]; }
    }
  }

  lemma MetShift(defs: Defs, ts: seq<Ty>, path: seq<nat>, x: nat)
    requires KnownTable(defs) && AllKnown(defs, ts) && ts != [] && AllKnown(defs, ts[1..]) && MetIn(defs, ts[1..], path, x)
    ensures MetIn(defs, ts, Shift(path, true), x)
  {
    var q := Shift(path, true);
    MetSplit(defs, ts, q, x);
    assert Shift(q, false) == path;
  }

  lemma MetFirst(defs: Defs, ts: seq<Ty>, path: seq<nat>, x: nat)
    requires KnownTable(defs) && AllKnown(defs, ts) && ts != [] && MetIn(defs, [ts[0]], path, x)
    ensures MetIn(defs, ts, path, x) && path[0] == 0
  {
    MetSplit(defs, ts, path, x);
  }

  lemma ShiftInjective(p: seq<nat>, q: seq<nat>)
    requires p != [] && q != [] && p[0] > 0 && q[0] > 0 && Shift(p, false) == Shift(q, false)
    ensures p == q
  {
    assert p[1..] == Shift(p, false)[1..] && q[1..] == Shift(q, false)[1..];
    assert p[0] - 1 == Shift(p, false)[0] && q[0] - 1 == Shift(q, false)[0];
    assert p == [p[0]] + p[1..] && q == [q[0]] + q[1..];
  }

  lemma TailInjective(p: seq<nat>, q: seq<nat>)
    requires p != [] && q != [] && p[0] == q[0] && p[1..] == q[1..]
    ensures p == q
  {
    assert p == [p[0]] + p[1..] && q == [q[0]] + q[1..];
  }

  lemma RepeatsFirst(defs: Defs, ts: seq<Ty>, seen: set<nat>)
    requires KnownTable(defs) && AllKnown(defs, ts) && ts != [] && Repeats(defs, [ts[0]], seen)
    ensures Repeats(defs, ts, seen)
  {
    if MeetsSeen(defs, [ts[0]], seen) {
      var path, x: nat :| MetIn(defs, [ts[0]], path, x) && x in seen;
      MetFirst(defs, ts, path, x);
    } else {
      var p, q, x: nat :| p != q && MetIn(defs, [ts[0]], p, x) && MetIn(defs, [ts[0]], q, x);
      MetFirst(defs, ts, p, x);
      MetFirst(defs, ts, q, x);
    }
  }

  /** The names seen once the first type has been walked through. */
  ghost predicate SeenAfter(defs: Defs, t: Ty, seen: set<nat>, after: set<nat>)
    requires KnownTable(defs) && Known(defs, t)
  {
    forall x: nat :: x in after <==> x in seen || Meets(defs, [t], x)
  }

  lemma RepeatsRest(defs: Defs, ts: seq<Ty>, seen: set<nat>, after: set<nat>)
    requires KnownTable(defs) && AllKnown(defs, ts) && ts != [] && AllKnown(defs, ts[1..])
    requires SeenAfter(defs, ts[0], seen, after) && Repeats(defs, ts[1..], after)
    ensures Repeats(defs, ts, seen)
  {
    if MeetsSeen(defs, ts[1..], after) {
      var path, x: nat :| MetIn(defs, ts[1..], path, x) && x in after;
      MetShift(defs, ts, path, x);
      if x !in seen {
        var q :| MetIn(defs, [ts[0]], q, x);
        MetFirst(defs, ts, q, x);
        assert q != Shift(path, true);
      }
    } else {
      var p, q, x: nat :| p != q && MetIn(defs, ts[1..], p, x) && MetIn(defs, ts[1..], q, x);
      MetShift(defs, ts, p, x);
      MetShift(defs, ts, q, x);
      assert Shift(Shift(p, true), false) == p && Shift(Shift(q, true), false) == q;
    }
  }

  lemma SeenSplit(defs: Defs, ts: seq<Ty>, seen: set<nat>)
    requires KnownTable(defs) && AllKnown(defs, ts) && ts != [] && AllKnown(defs, ts[1..]) && MeetsSeen(defs, ts, seen)
    ensures MeetsSeen(defs, [ts[0]], seen) || MeetsSeen(defs, ts[1..], seen)
  {
    var path, x: nat :| MetIn(defs, ts, path, x) && x in seen;
    MetSplit(defs, ts, path, x);
  }

  lemma TwiceSplit(defs: Defs, ts: seq<Ty>, after: set<nat>)
    requires KnownTable(defs) && AllKnown(defs, ts) && ts != [] && AllKnown(defs, ts[1..]) && MeetsTwice(defs, ts)
    requires forall x: nat :: Meets(defs, [ts[0]], x) ==> x in after
    ensures MeetsTwice(defs, [ts[0]]) || Repeats(defs, ts[1..], after)
  {
    var p, q, x: nat :| p != q && MetIn(defs, ts, p, x) && MetIn(defs, ts, q, x);
    MetSplit(defs, ts, p, x);
    MetSplit(defs, ts, q, x);
    if p[0] > 0 && q[0] > 0 {
      if Shift(p, false) == Shift(q, false) { ShiftInjective(p, q); }
      assert MetIn(defs, ts[1..], Shift(p, false), x) && MetIn(defs, ts[1..], Shift(q, false), x);
    } else if p[0] > 0 {
      assert MetIn(defs, [ts[0]], q, x) && MetIn(defs, ts[1..], Shift(p, false), x);
    } else if q[0] > 0 {
      assert MetIn(defs, [ts[0]], p, x) && MetIn(defs, ts[1..], Shift(q, false), x);
    }
  }

  lemma RepeatsSplit(defs: Defs, ts: seq<Ty>, seen: set<nat>, after: set<nat>)
    requires KnownTable(defs) && AllKnown(defs, ts) && ts != [] && AllKnown(defs, ts[1..])
    requires SeenAfter(defs, ts[0], seen, after) && Repeats(defs, ts, seen)
    ensures Repeats(defs, [ts[0]], seen) || Repeats(defs, ts[1..], after)
  {
    if MeetsSeen(defs, ts, seen) {
      SeenSplit(defs, ts, seen);
      if MeetsSeen(defs, ts[1..], seen) {
        var path, x: nat :| MetIn(defs, ts[1..], path, x) && x in seen;
        assert x in after;
      }
    } else {
      TwiceSplit(defs, ts, after);
    }
  }

  lemma MeetsSplit(defs: Defs, ts: seq<Ty>, x: nat)
    requires KnownTable(defs) && AllKnown(defs, ts) && ts != [] && AllKnown(defs, ts[1..])
    ensures Meets(defs, ts, x) <==> Meets(defs, [ts[0]], x) || Meets(defs, ts[1..], x)
  {
    if path :| MetIn(defs, ts, path, x) { MetSplit(defs, ts, path, x); }
    if path :| MetIn(defs, [ts[0]], path, x) { MetFirst(defs, ts, path, x); }
    if path :| MetIn(defs, ts[1..], path, x) { MetShift(defs, ts, path, x); }
  }

  // ---------------------------------------------------------------- what the check finds

  /** The visitor's flag and seen names say whether a name repeats and which names are met. */
  ghost predicate Found(defs: Defs, ts: seq<Ty>, seen: set<nat>, r: Seen)
    requires KnownTable(defs) && AllKnown(defs, ts)
  {
    && (r.recursive <==> Repeats(defs, ts, seen))
    && (!r.recursive ==> forall x: nat :: x in r.ids <==> x in seen || Meets(defs, ts, x))
  }

  lemma {:induction false} VisitFinds(defs: Defs, ty: Ty, seen: set<nat>)
    requires KnownTable(defs) && Known(defs, ty)
    ensures Found(defs, [ty], seen, Visit(defs, ty, seen))
    decreases Ids(|defs|) - seen, Size(ty), 0
  {
    KnownParts(defs, Checked, ty);
    var ts := Parts(defs, Checked, ty);
    if ty.Con? && ty.head.Named? && ty.head.id in seen {
      MetAbove(defs, ty, [], ty.head.id);
      assert MetIn(defs, [ty], [0], ty.head.id);
    } else {
      var below := if ty.Con? && ty.head.Named? then seen + {ty.head.id} else seen;
      if ty.Con? && ty.head.Named? { assert ty.head.id in Ids(|defs|) - seen; }
      if ts == [] { NothingFound(defs, below); } else { VisitAllFinds(defs, ts, below); }
      VisitParts(defs, ty, seen, below);
      if Repeats(defs, ts, below) { RepeatsAbove(defs, ty, seen, below); }
      if Repeats(defs, [ty], seen) { RepeatsBelow(defs, ty, seen, below); }
      forall x: nat ensures Meets(defs, [ty], x) <==> IsNamed(Some(ty), x) || Meets(defs, ts, x) { MeetsBelow(defs, ty, x); }
    }
  }

  lemma VisitParts(defs: Defs, ty: Ty, seen: set<nat>, below: set<nat>)
    requires KnownTable(defs) && Known(defs, ty) && AllKnown(defs, Parts(defs, Checked, ty))
    requires if ty.Con? && ty.head.Named? then ty.head.id !in seen && below == seen + {ty.head.id} else below == seen
    ensures Visit(defs, ty, seen) == VisitAll(defs, Parts(defs, Checked, ty), below)
  {
  }

  lemma NothingFound(defs: Defs, seen: set<nat>)
    requires KnownTable(defs)
    ensures Found(defs, [], seen, VisitAll(defs, [], seen))
  {
  }

  lemma {:induction false} VisitAllFinds(defs: Defs, tys: seq<Ty>, seen: set<nat>)
    requires KnownTable(defs) && AllKnown(defs, tys)
    ensures Found(defs, tys, seen, VisitAll(defs, tys, seen))
    decreases Ids(|defs|) - seen, TotalSize(tys), 1
  {
    if tys == [] {
      NothingFound(defs, seen);
    } else {
      var first := Visit(defs, tys[0], seen);
      VisitFinds(defs, tys[0], seen);
      if first.recursive {
        RepeatsFirst(defs, tys, seen);
      } else {
        VisitAllFinds(defs, tys[1..], first.ids);
        if Repeats(defs, tys[1..], first.ids) { RepeatsRest(defs, tys, seen, first.ids); }
        if Repeats(defs, tys, seen) { RepeatsSplit(defs, tys, seen, first.ids); }
        forall x: nat ensures Meets(defs, tys, x) <==> Meets(defs, [tys[0]], x) || Meets(defs, tys[1..], x) {
          MeetsSplit(defs, tys, x);
        }
      }
    }
  }

  /** A definition is refused exactly if some named type is met at two places of its unfolding, which goes
      through everything but arrays, boxes and functions. */
  lemma RecursiveExactly(defs: Defs, id: nat)
    requires KnownTable(defs) && id < |defs|
    ensures IsTypeRecursive(defs, id) <==> MeetsTwice(defs, [Itself(defs, id)])
  {
    VisitFinds(defs, Itself(defs, id), {});
  }
}
