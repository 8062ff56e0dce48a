/** Bodies on which the loop of block merging and jump threading ends, told from the body itself. */
module Settling {
  import opened Prelude
  import opened Mir
  import opened MirSim
  import opened Cfg
  import opened SimplifyCfg

  // ---------------------------------------------------------------- rings

  /** t jumps to a member of s that nothing else jumps to, and is jumped to from a member of s. */
  ghost predicate InRing(blocks: seq<Block>, s: set<nat>, t: nat) {
    && t < |blocks| && blocks[t].terminator.Goto?
    && var x := blocks[t].terminator.target;
       && x in s && (forall u: nat :: Edge(blocks, u, x) ==> u == t)
       && exists u: nat :: u in s && JumpsTo(blocks, u, t)
  }

  ghost predicate JumpsTo(blocks: seq<Block>, u: nat, t: nat) {
    u < |blocks| && blocks[u].terminator == Goto(t)
  }

  /** Blocks that jump around in a circle which nothing outside enters. */
  ghost predicate Ring(blocks: seq<Block>, s: set<nat>) {
    s != {} && forall t {:trigger InRing(blocks, s, t)} :: t in s ==> InRing(blocks, s, t)
  }

  ghost predicate HasRing(blocks: seq<Block>) {
    exists s: set<nat> :: Ring(blocks, s)
  }

  /** The only edge into a member of a ring comes from a member. */
  lemma RingEdge(blocks: seq<Block>, s: set<nat>, t: nat, u: nat)
    requires Ring(blocks, s) && t in s && Edge(blocks, u, t)
    ensures u in s && blocks[u].terminator == Goto(t)
  {
    assert InRing(blocks, s, t);
    var w: nat :| w in s && JumpsTo(blocks, w, t);
    assert InRing(blocks, s, w);
  }

  lemma JumpEdge(blocks: seq<Block>, u: nat, t: nat)
    requires JumpsTo(blocks, u, t)
    ensures Edge(blocks, u, t)
  {
  }

  /** What block w contributes to the predecessors of t. */
  function Entries(blocks: seq<Block>, w: nat, t: nat): seq<nat>
    requires w < |blocks|
  {
    Repeat(w, multiset(Succ(blocks, w))[t])
  }

  lemma UptoEntries(blocks: seq<Block>, k: nat, t: nat)
    requires 0 < k <= |blocks|
    ensures PredecessorsUpto(blocks, k, t) == PredecessorsUpto(blocks, k - 1, t) + Entries(blocks, k - 1, t)
  {
  }

  lemma UptoSkips(blocks: seq<Block>, k: nat, t: nat)
    requires 0 < k <= |blocks| && NoEntries(blocks, k - 1, t)
    ensures PredecessorsUpto(blocks, k, t) == PredecessorsUpto(blocks, k - 1, t)
  {
    UptoEntries(blocks, k, t);
  }

  lemma {:induction false} Unchanged(g: nat -> seq<nat>, j: nat, k: nat)
    requires j <= k && forall i: nat :: j < i <= k ==> g(i) == g(i - 1)
    ensures g(k) == g(j)
    decreases k
  {
    if j < k { Unchanged(g, j, k - 1); }
  }

  function Uptos(blocks: seq<Block>, t: nat): nat -> seq<nat> {
    (i: nat) => if i <= |blocks| then PredecessorsUpto(blocks, i, t) else []
  }

  /** Blocks that contribute nothing make no difference. */
  lemma EmptyEntries(blocks: seq<Block>, j: nat, k: nat, t: nat)
    requires j <= k <= |blocks| && forall w: nat :: j <= w < k ==> NoEntries(blocks, w, t)
    ensures PredecessorsUpto(blocks, k, t) == PredecessorsUpto(blocks, j, t)
  {
    var g := Uptos(blocks, t);
    forall i: nat | j < i <= k ensures g(i) == g(i - 1) {
      assert NoEntries(blocks, i - 1, t);
      UptoSkips(blocks, i, t);
    }
    Unchanged(g, j, k);
    assert g(k) == PredecessorsUpto(blocks, k, t) && g(j) == PredecessorsUpto(blocks, j, t);
  }

  ghost predicate NoEntries(blocks: seq<Block>, w: nat, t: nat) {
    w < |blocks| && Entries(blocks, w, t) == []
  }

  /** If all edges to t come from s, what s contributes are all predecessors of t. */
  lemma EntriesOfOne(blocks: seq<Block>, s: nat, t: nat)
    requires s < |blocks| && forall w: nat :: Edge(blocks, w, t) ==> w == s
    ensures PredecessorList(blocks, t) == Entries(blocks, s, t)
  {
    forall w: nat | w < |blocks| && w != s ensures Entries(blocks, w, t) == [] {
      assert !Edge(blocks, w, t);
      assert t !in Succ(blocks, w);
      assert t !in multiset(Succ(blocks, w));
    }
    EmptyEntries(blocks, 0, s, t);
    UptoEntries(blocks, s + 1, t);
    EmptyEntries(blocks, s + 1, |blocks|, t);
  }

  /** A jump to a block that nothing else leads to is its only predecessor. */
  lemma SoleJump(blocks: seq<Block>, u: nat, t: nat)
    requires JumpsTo(blocks, u, t) && forall w: nat :: Edge(blocks, w, t) ==> w == u
    ensures PredecessorList(blocks, t) == [u]
  {
    EntriesOfOne(blocks, u, t);
    assert Succ(blocks, u) == [t];
    assert multiset([t])[t] == 1;
  }

  /** Every member of a ring can be merged with the next one. */
  lemma RingSteals(blocks: seq<Block>, s: set<nat>, t: nat)
    requires Ring(blocks, s) && t in s
    ensures t < |blocks| && Steals(blocks, t)
  {
    assert InRing(blocks, s, t);
    var x := blocks[t].terminator.target;
    assert InRing(blocks, s, x);
    SoleJump(blocks, t, x);
  }

  // ---------------------------------------------------------------- no step breaks a ring

  lemma RingMerged(blocks: seq<Block>, s: set<nat>, b: nat)
    requires Ring(blocks, s) && b in s && b < |blocks| && Steals(blocks, b)
    requires SoleTarget(blocks[b].terminator).value != b
    ensures var x := SoleTarget(blocks[b].terminator).value; Ring(Stolen(blocks, x, b), s - {x})
  {
    assert InRing(blocks, s, b);
    var x := blocks[b].terminator.target;
    var after, s' := Stolen(blocks, x, b), s - {x};
    assert b in s';
    forall t | t in s' ensures InRing(after, s', t) { RingMergedAt(blocks, s, b, t); }
  }

  lemma RingMergedAt(blocks: seq<Block>, s: set<nat>, b: nat, t: nat)
    requires Ring(blocks, s) && b in s && b < |blocks| && blocks[b].terminator.Goto?
    requires blocks[b].terminator.target != b && blocks[b].terminator.target < |blocks|
    requires t in s && t != blocks[b].terminator.target
    ensures var x := blocks[b].terminator.target; InRing(Stolen(blocks, x, b), s - {x}, t)
  {
    var x := blocks[b].terminator.target;
    var after, s' := Stolen(blocks, x, b), s - {x};
    assert InRing(blocks, s, b) && InRing(blocks, s, x) && InRing(blocks, s, t);
    JumpEdge(blocks, b, x);
    var from := if t == b then x else t;
    var y := blocks[from].terminator.target;
    JumpEdge(blocks, from, y);
    assert y in s && after[t].terminator == Goto(y);
    forall u: nat | Edge(after, u, y) ensures u == t {
      StolenEdges(blocks, x, b, u, y);
      assert InRing(blocks, s, from);
    }
    var w: nat :| w in s && JumpsTo(blocks, w, t);
    assert w != b;
    assert JumpsTo(after, if w == x then b else w, t);
  }

  lemma RingKept(blocks: seq<Block>, s: set<nat>, b: nat)
    requires Ring(blocks, s) && b < |blocks| && b !in s
    ensures Ring(Simplified(blocks, b).0, s)
  {
    var after := Simplified(blocks, b).0;
    forall t | t in s ensures InRing(after, s, t) { RingKeptAt(blocks, s, b, t); }
  }

  /** A block outside a ring changes no member of it. */
  lemma RingBlockKept(blocks: seq<Block>, s: set<nat>, b: nat, t: nat)
    requires Ring(blocks, s) && b < |blocks| && b !in s && t in s
    ensures t < |blocks| && Simplified(blocks, b).0[t] == blocks[t]
  {
    assert InRing(blocks, s, t);
    if Steals(blocks, b) {
      var x := SoleTarget(blocks[b].terminator).value;
      SoleTargetStep(Init([]), blocks[b].terminator);
      assert Edge(blocks, b, x);
      if x == t { RingEdge(blocks, s, t, b); }
    }
  }

  lemma RingKeptAt(blocks: seq<Block>, s: set<nat>, b: nat, t: nat)
    requires Ring(blocks, s) && b < |blocks| && b !in s && t in s
    ensures InRing(Simplified(blocks, b).0, s, t)
  {
    var after := Simplified(blocks, b).0;
    RingBlockKept(blocks, s, b, t);
    assert InRing(blocks, s, t);
    var y := blocks[t].terminator.target;
    forall u: nat | Edge(after, u, y) ensures u == t { RingEdgeKept(blocks, s, b, t, u); }
    var w: nat :| w in s && JumpsTo(blocks, w, t);
    RingBlockKept(blocks, s, b, w);
    assert JumpsTo(after, w, t);
  }

  lemma RingEdgeKept(blocks: seq<Block>, s: set<nat>, b: nat, t: nat, u: nat)
    requires Ring(blocks, s) && b < |blocks| && b !in s && t in s
    requires InRing(blocks, s, t) && Edge(Simplified(blocks, b).0, u, blocks[t].terminator.target)
    ensures u == t
  {
    var y := blocks[t].terminator.target;
    if Steals(blocks, b) {
      var x := SoleTarget(blocks[b].terminator).value;
      SoleTargetStep(Init([]), blocks[b].terminator);
      assert Edge(blocks, b, x);
      if x != b {
        StolenEdges(blocks, x, b, u, y);
        if u == b { RingEdge(blocks, s, x, b); }
      }
    } else if blocks[b].terminator.Switch? {
      ThreadedEdges(blocks, b, u, y);
      if u == b {
        var x :| x in Succ(blocks, b) && Thread(blocks, x) == y;
        assert Edge(blocks, b, x);
        if x != y {
          assert Edge(blocks, x, y);
          RingEdge(blocks, s, x, b);
        }
      }
    }
  }

  lemma RingForward(blocks: seq<Block>, b: nat)
    requires b < |blocks| && HasRing(blocks)
    ensures HasRing(Simplified(blocks, b).0)
  {
    var s: set<nat> :| Ring(blocks, s);
    if b in s {
      RingSteals(blocks, s, b);
      var x := SoleTarget(blocks[b].terminator).value;
      if x != b {
        RingMerged(blocks, s, b);
        assert Ring(Simplified(blocks, b).0, s - {x});
      }
    } else {
      RingKept(blocks, s, b);
    }
  }

  // ---------------------------------------------------------------- no step makes a ring

  lemma MergedRing(blocks: seq<Block>, s: set<nat>, b: nat)
    requires b < |blocks| && Steals(blocks, b) && blocks[b].terminator.Goto?
    requires var x := blocks[b].terminator.target; x != b && Ring(Stolen(blocks, x, b), s)
    ensures var x := blocks[b].terminator.target; Ring(blocks, if b in s then s + {x} else s)
  {
    var x := blocks[b].terminator.target;
    var s' := if b in s then s + {x} else s;
    assert !InRing(Stolen(blocks, x, b), s, x);
    forall t | t in s' ensures InRing(blocks, s', t) {
      if t == x { MergedRingTarget(blocks, s, b); }
      else if t == b { MergedRingSource(blocks, s, b); }
      else { MergedRingOther(blocks, s, b, t); }
    }
  }

  /** An edge to a member of the ring was there before, from the merged block if now from b. */
  lemma MergedRingEdge(blocks: seq<Block>, s: set<nat>, b: nat, y: nat, u: nat)
    requires b < |blocks| && Steals(blocks, b) && blocks[b].terminator.Goto?
    requires var x := blocks[b].terminator.target; x != b && Ring(Stolen(blocks, x, b), s) && y != x
    requires y in s && Edge(blocks, u, y)
    ensures var x := blocks[b].terminator.target;
            var w := if u == x then b else u;
            u != b && w in s && JumpsTo(Stolen(blocks, x, b), w, y) && Edge(Stolen(blocks, x, b), w, y)
  {
    var x := blocks[b].terminator.target;
    var w := if u == x then b else u;
    assert Succ(blocks, b) == [x];
    StolenEdges(blocks, x, b, w, y);
    RingEdge(Stolen(blocks, x, b), s, y, w);
  }

  lemma MergedRingOther(blocks: seq<Block>, s: set<nat>, b: nat, t: nat)
    requires b < |blocks| && Steals(blocks, b) && blocks[b].terminator.Goto?
    requires var x := blocks[b].terminator.target; x != b && Ring(Stolen(blocks, x, b), s) && x !in s
    requires t in s && t != b
    ensures InRing(blocks, if b in s then s + {blocks[b].terminator.target} else s, t)
  {
    var x := blocks[b].terminator.target;
    var after, s' := Stolen(blocks, x, b), if b in s then s + {x} else s;
    assert InRing(after, s, t);
    var y := blocks[t].terminator.target;
    forall u: nat | Edge(blocks, u, y) ensures u == t { MergedRingEdge(blocks, s, b, y, u); }
    var w: nat :| w in s && JumpsTo(after, w, t);
    assert JumpsTo(blocks, if w == b then x else w, t);
  }

  lemma MergedRingSource(blocks: seq<Block>, s: set<nat>, b: nat)
    requires b < |blocks| && Steals(blocks, b) && blocks[b].terminator.Goto?
    requires var x := blocks[b].terminator.target; x != b && Ring(Stolen(blocks, x, b), s) && x !in s
    requires b in s
    ensures InRing(blocks, s + {blocks[b].terminator.target}, b)
  {
    var x := blocks[b].terminator.target;
    var after := Stolen(blocks, x, b);
    assert InRing(after, s, b);
    JumpEdge(blocks, b, x);
    forall u: nat | Edge(blocks, u, x) ensures u == b { UniquePredecessor(blocks, x, b, u); }
    var w: nat :| w in s && JumpsTo(after, w, b);
    assert JumpsTo(blocks, if w == b then x else w, b);
  }

  lemma MergedRingTarget(blocks: seq<Block>, s: set<nat>, b: nat)
    requires b < |blocks| && Steals(blocks, b) && blocks[b].terminator.Goto?
    requires var x := blocks[b].terminator.target; x != b && Ring(Stolen(blocks, x, b), s) && x !in s
    requires b in s
    ensures InRing(blocks, s + {blocks[b].terminator.target}, blocks[b].terminator.target)
  {
    var x := blocks[b].terminator.target;
    var after := Stolen(blocks, x, b);
    assert InRing(after, s, b);
    var y := blocks[x].terminator.target;
    forall u: nat | Edge(blocks, u, y) ensures u == x {
      MergedRingEdge(blocks, s, b, y, u);
    }
    assert JumpsTo(blocks, b, x);
  }

  lemma ThreadedRingEdge(blocks: seq<Block>, s: set<nat>, b: nat, t: nat, u: nat)
    requires b < |blocks| && blocks[b].terminator.Switch? && InRing(Threaded(blocks, b), s, t)
    requires t != b && Edge(blocks, u, blocks[t].terminator.target)
    ensures u == t
  {
    var y := blocks[t].terminator.target;
    var forwards := y < |blocks| && Forwards(blocks, y);
    assert forwards || Thread(blocks, y) == y;
    JumpEdge(blocks, t, y);
    ThreadedEdges(blocks, b, u, y);
    if u == b && forwards { UniquePredecessor(blocks, y, b, t); }
  }

  lemma ThreadedRing(blocks: seq<Block>, s: set<nat>, b: nat)
    requires b < |blocks| && blocks[b].terminator.Switch? && Ring(Threaded(blocks, b), s)
    ensures Ring(blocks, s)
  {
    var after := Threaded(blocks, b);
    forall t | t in s ensures InRing(blocks, s, t) {
      assert InRing(after, s, t);
      var y := blocks[t].terminator.target;
      forall u: nat | Edge(blocks, u, y) ensures u == t { ThreadedRingEdge(blocks, s, b, t, u); }
      var w: nat :| w in s && JumpsTo(after, w, t);
      assert JumpsTo(blocks, w, t);
    }
  }

  lemma RingBackward(blocks: seq<Block>, b: nat)
    requires b < |blocks| && NoConstantSwitch(blocks) && HasRing(Simplified(blocks, b).0)
    ensures HasRing(blocks)
  {
    var s: set<nat> :| Ring(Simplified(blocks, b).0, s);
    if Steals(blocks, b) {
      assert !SwitchesOnConstant(blocks[b].terminator);
      var x := blocks[b].terminator.target;
      if x != b {
        MergedRing(blocks, s, b);
        assert Ring(blocks, if b in s then s + {x} else s);
      }
    } else if blocks[b].terminator.Switch? {
      ThreadedRing(blocks, s, b);
    }
  }

  // ---------------------------------------------------------------- switches on constants

  /** Only the edge that a switch on a constant takes is left of it. */
  function PrunedTerminator(t: Terminator): Terminator {
    if SwitchesOnConstant(t) then Goto(SoleTarget(t).value) else t
  }

  function Pruned(blocks: seq<Block>): (r: seq<Block>)
    ensures |r| == |blocks|
  {
    seq(|blocks|, i requires 0 <= i < |blocks| => blocks[i].(terminator := PrunedTerminator(blocks[i].terminator)))
  }

  lemma PrunedSwitches(blocks: seq<Block>)
    ensures NoConstantSwitch(Pruned(blocks)) && (NoConstantSwitch(blocks) ==> Pruned(blocks) == blocks)
  {
  }

  lemma PrunedEdge(blocks: seq<Block>, u: nat, v: nat)
    requires Edge(Pruned(blocks), u, v)
    ensures Edge(blocks, u, v)
  {
    if SwitchesOnConstant(blocks[u].terminator) { SoleTargetStep(Init([]), blocks[u].terminator); }
  }

  lemma TrappedRing(blocks: seq<Block>, t: nat)
    requires SelfTrapped(blocks, t)
    ensures Ring(Pruned(blocks), {t})
  {
    var pruned := Pruned(blocks);
    assert JumpsTo(pruned, t, t);
    JumpEdge(pruned, t, t);
    PrunedEdge(blocks, t, t);
    forall u: nat | Edge(pruned, u, t) ensures u == t {
      PrunedEdge(blocks, u, t);
      UniquePredecessor(blocks, t, t, u);
    }
    assert InRing(pruned, {t}, t);
  }

  /** Merging goes on alike when dead edges are pruned. */
  lemma PrunedMerge(blocks: seq<Block>, b: nat)
    requires b < |blocks| && Steals(blocks, b) && SoleTarget(blocks[b].terminator).value != b
    ensures Steals(Pruned(blocks), b) && Pruned(Simplified(blocks, b).0) == Simplified(Pruned(blocks), b).0
  {
    var x := SoleTarget(blocks[b].terminator).value;
    var pruned := Pruned(blocks);
    assert JumpsTo(pruned, b, x);
    JumpEdge(pruned, b, x);
    PrunedEdge(blocks, b, x);
    forall w: nat | Edge(pruned, w, x) ensures w == b {
      PrunedEdge(blocks, w, x);
      UniquePredecessor(blocks, x, b, w);
    }
    SoleJump(pruned, b, x);
    assert Pruned(Stolen(blocks, x, b)) == Stolen(pruned, x, b);
  }

  /** A switch on a constant that is not merged keeps its live edge. */
  lemma PrunedConstant(blocks: seq<Block>, b: nat)
    requires b < |blocks| && !Steals(blocks, b) && SwitchesOnConstant(blocks[b].terminator)
    ensures Pruned(Simplified(blocks, b).0) == Pruned(blocks)
  {
    var t, f := blocks[b].terminator, x => Thread(blocks, x);
    var x := SoleTarget(t).value;
    SoleTargetStep(Init([]), t);
    SoleTargetStep(Init([]), t.MapSuccessors(f));
    StepMapSuccessors(Init([]), t, f);
    if f(x) != x { SoleEntry(blocks, b, x); }
  }

  lemma SoleEntry(blocks: seq<Block>, b: nat, x: nat)
    requires Edge(blocks, b, x) && x < |blocks| && |PredecessorList(blocks, x)| <= 1
    ensures |PredecessorList(blocks, x)| == 1
  {
    PredecessorListMember(blocks, x, b);
  }

  lemma PrunedThreadedRing(blocks: seq<Block>, s: set<nat>, b: nat)
    requires b < |blocks| && blocks[b].terminator.Switch? && !SwitchesOnConstant(blocks[b].terminator)
    requires Ring(Pruned(Threaded(blocks, b)), s)
    ensures Ring(Pruned(blocks), s)
  {
    var before, after := Pruned(blocks), Pruned(Threaded(blocks, b));
    forall t | t in s ensures InRing(before, s, t) {
      assert InRing(after, s, t);
      var y := after[t].terminator.target;
      JumpEdge(before, t, y);
      PrunedEdge(blocks, t, y);
      forall u: nat | Edge(before, u, y) ensures u == t {
        if u == b { PrunedThreadedEdge(blocks, b, t, y); } else { assert Edge(after, u, y); }
      }
      var w: nat :| w in s && JumpsTo(after, w, t);
      assert JumpsTo(before, w, t);
    }
  }

  /** A successor of b that another block jumps to is not threaded. */
  lemma PrunedThreadedEdge(blocks: seq<Block>, b: nat, t: nat, y: nat)
    requires b < |blocks| && blocks[b].terminator.Switch? && !SwitchesOnConstant(blocks[b].terminator)
    requires Edge(blocks, b, y) && Edge(blocks, t, y) && t != b
    ensures Edge(Pruned(Threaded(blocks, b)), b, y)
  {
    if y < |blocks| && Forwards(blocks, y) { UniquePredecessor(blocks, y, b, t); }
    var f := x => Thread(blocks, x);
    MapSuccessorsMember(blocks[b].terminator, f, y);
    assert y in Succ(blocks, b) && f(y) == y;
  }

  lemma PrunedBackward(blocks: seq<Block>, b: nat)
    requires b < |blocks| && HasRing(Pruned(Simplified(blocks, b).0))
    ensures HasRing(Pruned(blocks))
  {
    if Steals(blocks, b) {
      if SoleTarget(blocks[b].terminator).value != b {
        PrunedMerge(blocks, b);
        PrunedSwitches(blocks);
        RingBackward(Pruned(blocks), b);
      }
    } else if SwitchesOnConstant(blocks[b].terminator) {
      PrunedConstant(blocks, b);
    } else if blocks[b].terminator.Switch? {
      var s: set<nat> :| Ring(Pruned(Simplified(blocks, b).0), s);
      PrunedThreadedRing(blocks, s, b);
    }
  }

  // ---------------------------------------------------------------- rings and the loop

  /** No ring is broken, and none is made but by the pruning of dead edges. */
  ghost predicate KeepsRings(blocks: seq<Block>, after: seq<Block>) {
    (HasRing(blocks) ==> HasRing(after)) && (HasRing(Pruned(after)) ==> HasRing(Pruned(blocks)))
  }

  lemma SweptRings(blocks: seq<Block>)
    ensures KeepsRings(blocks, FullSweep(blocks).0)
  {
    var r: StepProperty := (after, m, i) => KeepsRings(blocks, after);
    forall before: seq<Block>, m: bool, i: nat | r(before, m, i) ensures r(Simplify()(before, i).0, m || Simplify()(before, i).1, i + 1) {
      if i < |before| {
        if HasRing(before) { RingForward(before, i); }
        if HasRing(Pruned(Simplified(before, i).0)) { PrunedBackward(before, i); }
      }
    }
    SteppedKeeps(Simplify(), blocks, |blocks|, r);
  }

  lemma SweepsRings(blocks: seq<Block>, n: nat)
    ensures KeepsRings(blocks, Sweeps(blocks, n))
  {
    var keeps := (x: seq<Block>) => KeepsRings(blocks, x);
    forall x | keeps(x) ensures keeps(SweepOnce()(x)) { SweptRings(x); }
    IterKeeps(SweepOnce(), keeps, blocks, n);
  }

  lemma RingSwept(blocks: seq<Block>)
    requires HasRing(blocks)
    ensures FullSweep(blocks).1
  {
    var s: set<nat> :| Ring(blocks, s);
    var t :| t in s;
    RingSteals(blocks, s, t);
    if !FullSweep(blocks).1 { SweptSettled(blocks, |blocks|, t); }
  }

  /** The loop ends if the body has no ring once dead edges are pruned, and only if it has none before. */
  lemma SettlesBetween(blocks: seq<Block>)
    requires InRange(blocks)
    ensures !HasRing(Pruned(blocks)) ==> Settles(blocks)
    ensures Settles(blocks) ==> !HasRing(blocks)
  {
    if Settles(blocks) {
      SettlesExactly(blocks);
      var n: nat :| !FullSweep(Sweeps(blocks, n)).1;
      SweepsRings(blocks, n);
      if HasRing(Sweeps(blocks, n)) { RingSwept(Sweeps(blocks, n)); }
    }
    if !HasRing(Pruned(blocks)) {
      forall k: nat, t: nat | k <= |blocks| ensures !SelfTrapped(Sweeps(blocks, k), t) {
        SweepsRings(blocks, k);
        if SelfTrapped(Sweeps(blocks, k), t) { TrappedRing(Sweeps(blocks, k), t); }
      }
    }
  }

  /** Without constant switches the loop ends exactly if no blocks jump around in a circle that nothing enters. */
  lemma SettlesWithoutRing(blocks: seq<Block>)
    requires InRange(blocks) && NoConstantSwitch(blocks)
    ensures Settles(blocks) <==> !HasRing(blocks)
  {
    PrunedSwitches(blocks);
    SettlesBetween(blocks);
  }

  lemma NoopsRemovedRing(blocks: seq<Block>, s: set<nat>)
    ensures Ring(NoopsRemoved(blocks, |blocks|), s) <==> Ring(blocks, s)
  {
    var after := NoopsRemoved(blocks, |blocks|);
    forall u: nat, v: nat ensures Edge(after, u, v) <==> Edge(blocks, u, v) { NoopsRemovedEdges(blocks, u, v); }
    forall u: nat, v: nat ensures JumpsTo(after, u, v) <==> JumpsTo(blocks, u, v) { }
    forall t | t in s ensures InRing(after, s, t) <==> InRing(blocks, s, t) { }
  }

  lemma NoopsRemovedRings(blocks: seq<Block>)
    ensures HasRing(NoopsRemoved(blocks, |blocks|)) <==> HasRing(blocks)
  {
    if s: set<nat> :| Ring(blocks, s) { NoopsRemovedRing(blocks, s); }
    if s: set<nat> :| Ring(NoopsRemoved(blocks, |blocks|), s) { NoopsRemovedRing(blocks, s); }
  }

  /** So the pass ends where pruning leaves no ring, and only where there is none before. */
  lemma EndsBetween(blocks: seq<Block>)
    requires InRange(blocks)
    ensures !HasRing(Pruned(blocks)) ==> Ends(blocks)
    ensures Ends(blocks) ==> !HasRing(blocks)
  {
    var after := NoopsRemoved(blocks, |blocks|);
    forall u: nat, v: nat ensures Edge(after, u, v) <==> Edge(blocks, u, v) { NoopsRemovedEdges(blocks, u, v); }
    SettlesBetween(after);
    NoopsRemovedRings(blocks);
    NoopsRemovedRings(Pruned(blocks));
    assert NoopsRemoved(Pruned(blocks), |blocks|) == Pruned(after);
  }

  /** A body without constant switches: exactly where there is no ring. */
  lemma EndsWithoutRing(blocks: seq<Block>)
    requires InRange(blocks) && NoConstantSwitch(blocks)
    ensures Ends(blocks) <==> !HasRing(blocks)
  {
    PrunedSwitches(blocks);
    EndsBetween(blocks);
  }

  /** The loop ends and leaves no switch on a constant, as it does where every such switch is folded. */
  ghost predicate FoldsSwitches(blocks: seq<Block>) {
    exists n: nat, after: seq<Block> :: SweptTo(blocks, n, after) && NoConstantSwitch(after)
  }

  lemma FoldsEnds(blocks: seq<Block>)
    requires InRange(blocks) && FoldsSwitches(blocks)
    ensures Ends(blocks)
  {
    var start := NoopsRemoved(blocks, |blocks|);
    forall u: nat, v: nat ensures Edge(start, u, v) <==> Edge(blocks, u, v) { NoopsRemovedEdges(blocks, u, v); }
    var n: nat, after: seq<Block> :| SweptTo(blocks, n, after) && NoConstantSwitch(after);
    SettlesExactly(start);
  }

  // ---------------------------------------------------------------- bodies whose switches are folded

  /** Every switch on a constant is the only way to the block that it takes, so that it can be merged with it. */
  ghost predicate Foldable(blocks: seq<Block>) {
    forall s: nat {:trigger FoldsAt(blocks, s)} :: s < |blocks| ==> FoldsAt(blocks, s)
  }

  ghost predicate FoldsAt(blocks: seq<Block>, s: nat)
    requires s < |blocks|
  {
    SwitchesOnConstant(blocks[s].terminator) ==> Steals(blocks, s)
  }

  /** One edge leads from s to t, and no other to t. */
  ghost predicate SoleEdge(blocks: seq<Block>, s: nat, t: nat) {
    s < |blocks| && multiset(Succ(blocks, s))[t] == 1 && forall w: nat :: Edge(blocks, w, t) ==> w == s
  }

  /** A block has one predecessor exactly if one edge leads there. */
  lemma SoleEdgeListed(blocks: seq<Block>, s: nat, t: nat)
    requires Edge(blocks, s, t)
    ensures |PredecessorList(blocks, t)| == 1 <==> SoleEdge(blocks, s, t)
  {
    if |PredecessorList(blocks, t)| == 1 {
      forall w: nat | Edge(blocks, w, t) ensures w == s { UniquePredecessor(blocks, t, s, w); }
    }
    if forall w: nat :: Edge(blocks, w, t) ==> w == s {
      EntriesOfOne(blocks, s, t);
      assert |Entries(blocks, s, t)| == multiset(Succ(blocks, s))[t];
    }
  }

  /** A block is merged with its sole target exactly if it has the sole edge there. */
  lemma StealsSoleEdge(blocks: seq<Block>, s: nat)
    requires s < |blocks| && SoleTarget(blocks[s].terminator).Some? && SoleTarget(blocks[s].terminator).value < |blocks|
    ensures Steals(blocks, s) <==> SoleEdge(blocks, s, SoleTarget(blocks[s].terminator).value)
  {
    SoleTargetStep(Init([]), blocks[s].terminator);
    SoleEdgeListed(blocks, s, SoleTarget(blocks[s].terminator).value);
  }

  lemma MergedFoldable(blocks: seq<Block>, b: nat, s: nat)
    requires Foldable(blocks) && b < |blocks| && Steals(blocks, b) && SoleTarget(blocks[b].terminator).value != b
    requires s < |blocks|
    ensures FoldsAt(Simplified(blocks, b).0, s)
  {
    var x := SoleTarget(blocks[b].terminator).value;
    var after := Stolen(blocks, x, b);
    if SwitchesOnConstant(after[s].terminator) {
      var from := if s == b then x else s;
      assert FoldsAt(blocks, from);
      var y := SoleTarget(blocks[from].terminator).value;
      StealsSoleEdge(blocks, from);
      assert Succ(after, s) == Succ(blocks, from);
      forall w: nat | Edge(after, w, y) ensures w == s { StolenEdges(blocks, x, b, w, y); }
      StealsSoleEdge(after, s);
    }
  }

  lemma ThreadedFoldable(blocks: seq<Block>, b: nat, s: nat)
    requires Foldable(blocks) && b < |blocks| && blocks[b].terminator.Switch? && !Steals(blocks, b) && s < |blocks|
    ensures FoldsAt(Threaded(blocks, b), s)
  {
    var after := Threaded(blocks, b);
    assert FoldsAt(blocks, b) && FoldsAt(blocks, s);
    if SwitchesOnConstant(after[s].terminator) {
      var y := SoleTarget(blocks[s].terminator).value;
      StealsSoleEdge(blocks, s);
      assert s != b && Succ(after, s) == Succ(blocks, s);
      forall w: nat | Edge(after, w, y) ensures w == s {
        ThreadedEdges(blocks, b, w, y);
        if w == b {
          var z :| z in Succ(blocks, b) && Thread(blocks, z) == y;
          assert Edge(blocks, if z == y then b else z, y);
        }
      }
      StealsSoleEdge(after, s);
    }
  }

  lemma SimplifiedFoldable(blocks: seq<Block>, b: nat)
    requires b < |blocks| && Foldable(blocks)
    ensures Foldable(Simplified(blocks, b).0)
  {
    if Steals(blocks, b) {
      if SoleTarget(blocks[b].terminator).value != b {
        forall s: nat | s < |blocks| ensures FoldsAt(Simplified(blocks, b).0, s) { MergedFoldable(blocks, b, s); }
      }
    } else if blocks[b].terminator.Switch? {
      forall s: nat | s < |blocks| ensures FoldsAt(Simplified(blocks, b).0, s) { ThreadedFoldable(blocks, b, s); }
    }
  }

  lemma SweptFoldable(blocks: seq<Block>)
    requires Foldable(blocks)
    ensures Foldable(FullSweep(blocks).0)
  {
    var r: StepProperty := (after, m, i) => Foldable(after);
    forall before: seq<Block>, m: bool, i: nat | r(before, m, i) ensures r(Simplify()(before, i).0, m || Simplify()(before, i).1, i + 1) {
      if i < |before| { SimplifiedFoldable(before, i); }
    }
    SteppedKeeps(Simplify(), blocks, |blocks|, r);
  }

  lemma NoopsRemovedFoldable(blocks: seq<Block>)
    requires Foldable(blocks)
    ensures Foldable(NoopsRemoved(blocks, |blocks|))
  {
    var after := NoopsRemoved(blocks, |blocks|);
    forall s: nat | s < |blocks| ensures FoldsAt(after, s) {
      assert FoldsAt(blocks, s);
      if SwitchesOnConstant(after[s].terminator) {
        StealsSoleEdge(blocks, s);
        var y := SoleTarget(blocks[s].terminator).value;
        assert Succ(after, s) == Succ(blocks, s);
        forall w: nat | Edge(after, w, y) ensures w == s { NoopsRemovedEdges(blocks, w, y); }
        StealsSoleEdge(after, s);
      }
    }
  }

  /** Where the loop ends on such a body, it leaves no switch on a constant. */
  lemma FoldableFolds(blocks: seq<Block>)
    requires InRange(blocks) && Ends(blocks) && Foldable(blocks)
    ensures FoldsSwitches(blocks)
  {
    var start := NoopsRemoved(blocks, |blocks|);
    forall u: nat, v: nat ensures Edge(start, u, v) <==> Edge(blocks, u, v) { NoopsRemovedEdges(blocks, u, v); }
    SettlesExactly(start);
    var n: nat :| n <= |start| && !FullSweep(Sweeps(start, n)).1;
    var after := Sweeps(start, n);
    NoopsRemovedFoldable(blocks);
    var keeps := (x: seq<Block>) => Foldable(x);
    forall x | keeps(x) ensures keeps(SweepOnce()(x)) { SweptFoldable(x); }
    IterKeeps(SweepOnce(), keeps, start, n);
    forall s | 0 <= s < |after| ensures !SwitchesOnConstant(after[s].terminator) {
      SweptSettled(after, |after|, s);
      assert FoldsAt(after, s);
    }
    assert SweptTo(blocks, n, after);
  }

  /** What is built for an endless loop: before it, its condition, its body, and behind it. */
  function WhileTrue(before: seq<Stmt>, body: seq<Stmt>, behind: seq<Stmt>): seq<Block> {
    [Block(before, Goto(1)),
     Block([], Switch(Constant(ScalarConst(1)), SwitchTargets([SwitchTarget(0, 3)], 2))),
     Block(body, Goto(1)),
     Block(behind, Return)]
  }

  lemma WhileTrueFoldable(before: seq<Stmt>, body: seq<Stmt>, behind: seq<Stmt>)
    ensures Foldable(WhileTrue(before, body, behind))
  {
    var blocks := WhileTrue(before, body, behind);
    var ts := blocks[1].terminator.switchTargets;
    assert ts.BranchForValue(1) == 2 by { assert SwitchTargets(ts.targets[1..], 2).BranchForValue(1) == 2; }
    assert Succ(blocks, 1) == [3, 2];
    assert multiset([3, 2])[2] == 1;
    forall w: nat | Edge(blocks, w, 2) ensures w == 1 {
      assert Succ(blocks, 0) == [1] && Succ(blocks, 2) == [1] && Succ(blocks, 3) == [];
    }
    assert SoleEdge(blocks, 1, 2);
    StealsSoleEdge(blocks, 1);
    forall s: nat | s < |blocks| ensures FoldsAt(blocks, s) { }
  }

  lemma WhileTrueDescends(before: seq<Stmt>, body: seq<Stmt>, behind: seq<Stmt>)
    ensures Descends(Pruned(WhileTrue(before, body, behind)), [0, 1, 2, 3])
  {
    var blocks := WhileTrue(before, body, behind);
    var ts := blocks[1].terminator.switchTargets;
    assert ts.BranchForValue(1) == 2 by { assert SwitchTargets(ts.targets[1..], 2).BranchForValue(1) == 2; }
    var pruned := Pruned(blocks);
    assert Succ(pruned, 0) == [1] && Succ(pruned, 1) == [2] && Succ(pruned, 2) == [1] && Succ(pruned, 3) == [];
    assert Edge(pruned, 0, 1) && Edge(pruned, 1, 2);
    forall v: nat | v < |pruned| && Entered(pruned, v) ensures Supported(pruned, [0, 1, 2, 3], v) {
      var u: nat :| Edge(pruned, u, v);
      assert v == 1 || v == 2;
    }
  }

  lemma WhileTrueInRange(before: seq<Stmt>, body: seq<Stmt>, behind: seq<Stmt>)
    ensures InRange(WhileTrue(before, body, behind))
  {
    var blocks := WhileTrue(before, body, behind);
    forall u: nat, v: nat | Edge(blocks, u, v) ensures v < |blocks| {
      assert Succ(blocks, 0) == [1] && Succ(blocks, 1) == [3, 2] && Succ(blocks, 2) == [1] && Succ(blocks, 3) == [];
    }
  }

  /** The switch of an endless loop is folded. */
  lemma WhileTrueFolds(before: seq<Stmt>, body: seq<Stmt>, behind: seq<Stmt>)
    ensures FoldsSwitches(WhileTrue(before, body, behind))
  {
    var blocks := WhileTrue(before, body, behind);
    WhileTrueFoldable(before, body, behind);
    WhileTrueDescends(before, body, behind);
    DescendsNoRing(Pruned(blocks), [0, 1, 2, 3]);
    WhileTrueInRange(before, body, behind);
    EndsBetween(blocks);
    FoldableFolds(blocks);
  }

  // ---------------------------------------------------------------- where control comes from

  ghost predicate Supported(blocks: seq<Block>, depth: seq<nat>, v: nat)
    requires |depth| == |blocks| && v < |blocks|
  {
    exists u: nat :: Edge(blocks, u, v) && depth[u] < depth[v]
  }

  /** Every entered block is entered from a block nearer to where control comes from. */
  ghost predicate Descends(blocks: seq<Block>, depth: seq<nat>) {
    |depth| == |blocks| && forall v: nat | v < |blocks| && Entered(blocks, v) :: Supported(blocks, depth, v)
  }

  /** Then there is no ring: a ring has no member that all others are farther than. */
  lemma DescendsNoRing(blocks: seq<Block>, depth: seq<nat>)
    requires Descends(blocks, depth)
    ensures !HasRing(blocks)
  {
    if s: set<nat> :| Ring(blocks, s) {
      var t :| t in s;
      assert InRing(blocks, s, t);
      RingDescends(blocks, depth, s, t);
    }
  }

  lemma {:induction false} RingDescends(blocks: seq<Block>, depth: seq<nat>, s: set<nat>, t: nat)
    requires Descends(blocks, depth) && Ring(blocks, s) && t in s && t < |depth|
    ensures false
    decreases depth[t]
  {
    assert InRing(blocks, s, t);
    var w: nat :| w in s && JumpsTo(blocks, w, t);
    JumpEdge(blocks, w, t);
    assert Supported(blocks, depth, t);
    var u: nat :| Edge(blocks, u, t) && depth[u] < depth[t];
    RingEdge(blocks, s, t, u);
    RingDescends(blocks, depth, s, u);
  }
}
