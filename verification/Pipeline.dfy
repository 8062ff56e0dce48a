/** The passes one after another, on one body and on a whole program. */
module Pipeline {
  import opened Mir
  import opened MirSim
  import opened Visitor
  import opened Cfg
  import opened Program
  import opened Traces
  import opened Reachability
  import opened Renumbering
  import SimplifyCfg
  import Settling
  import Inline
  import InlineTraces
  import DeadStore
  import UnusedLocals

  // ---------------------------------------------------------------- one pass prepares for the next

  ghost predicate AllReachable(blocks: seq<Block>) {
    forall v: nat :: v < |blocks| ==> Reachable(blocks, v)
  }

  ghost function Distances(blocks: seq<Block>): (r: seq<nat>)
    ensures |r| == |blocks| && forall v :: 0 <= v < |r| ==> r[v] == Distance(blocks, v)
  {
    seq(|blocks|, v requires 0 <= v < |blocks| => Distance(blocks, v))
  }

  /** Where every block is reachable, distances from ENTRY descend: every block but ENTRY is entered from a nearer one. */
  lemma ReachableDescends(blocks: seq<Block>)
    requires AllReachable(blocks) && NoEntryEdge(blocks)
    ensures Settling.Descends(blocks, Distances(blocks))
  {
    var depth := Distances(blocks);
    forall v: nat | v < |blocks| && SimplifyCfg.Entered(blocks, v) ensures Settling.Supported(blocks, depth, v) {
      var w: nat :| Edge(blocks, w, v);
      assert v != ENTRY;
      DistanceIs(blocks, v);
      var m := Distance(blocks, v);
      assert m > 0;
      var u: nat :| ReachedIn(blocks, ENTRY, m - 1, u) && Edge(blocks, u, v);
      assert Reachable(blocks, u);
      DistanceIs(blocks, u);
      assert depth[u] <= m - 1;
    }
  }

  function StmtTest(n: nat): Stmt -> bool {
    s => PlacesBelow(StmtMentions(s), n)
  }

  function TerminatorTest(n: nat): Terminator -> bool {
    t => PlacesBelow(TerminatorReads(t), n)
  }

  lemma RetargetedReads(t: Terminator, f: nat -> nat)
    ensures TerminatorReads(t.MapSuccessors(f)) == TerminatorReads(t)
    ensures SwitchesOnConstant(t.MapSuccessors(f)) == SwitchesOnConstant(t)
  {
  }

  lemma BelowIsAllOf(blocks: seq<Block>, n: nat)
    ensures BodyBelow(blocks, n) <==> AllOf(blocks, StmtTest(n), TerminatorTest(n))
    ensures Retargetable(TerminatorTest(n))
  {
    var sp, tp := StmtTest(n), TerminatorTest(n);
    forall b | 0 <= b < |blocks| ensures BlockBelow(blocks[b], n) <==> BlockOf(blocks[b], sp, tp) {
      assert forall i :: 0 <= i < |blocks[b].stmts| ==> (sp(blocks[b].stmts[i]) <==> PlacesBelow(StmtMentions(blocks[b].stmts[i]), n));
    }
    forall t: Terminator, f: nat -> nat | tp(t) ensures tp(t.MapSuccessors(f)) { RetargetedReads(t, f); }
  }

  function AnyTerminator(): Terminator -> bool {
    t => true
  }

  lemma EachIsAllOf(test: Stmt -> bool, blocks: seq<Block>)
    ensures Inline.EachStmt(blocks, test) <==> AllOf(blocks, test, AnyTerminator())
    ensures Retargetable(AnyTerminator())
  {
    var tp := AnyTerminator();
    if AllOf(blocks, test, tp) {
      forall b, i | 0 <= b < |blocks| && 0 <= i < |blocks[b].stmts| ensures test(blocks[b].stmts[i]) {
        assert BlockOf(blocks[b], test, tp);
      }
    }
  }

  /** What is left of unreachable-block removal: every block comes, retargeted, from one of before. */
  lemma CompactedKeeps(blocks: seq<Block>, seen: set<nat>, n: nat)
    requires blocks != [] && InRange(blocks) && NoEntryEdge(blocks) && IsReachableSet(blocks, seen)
    requires BodyBelow(blocks, n)
    ensures var after := Compacted(blocks, seen, |blocks|);
            NoEntryEdge(after) && BodyBelow(after, n) && (NoConstantSwitch(blocks) ==> NoConstantSwitch(after))
  {
    var after := Compacted(blocks, seen, |blocks|);
    forall u: nat ensures !Edge(after, u, ENTRY) {
      if Edge(after, u, ENTRY) { CompactedNoEntry(blocks, seen, u); }
    }
    forall i | 0 <= i < |after|
      ensures BlockBelow(after[i], n) && (NoConstantSwitch(blocks) ==> !SwitchesOnConstant(after[i].terminator))
    {
      var v := OldId(seen, |blocks|, i);
      CompactedAt(blocks, seen, |blocks|, v);
      RetargetedReads(blocks[v].terminator, Renumber(seen));
      assert BlockBelow(blocks[v], n);
    }
  }

  lemma CompactedNoEntry(blocks: seq<Block>, seen: set<nat>, u: nat)
    requires blocks != [] && InRange(blocks) && NoEntryEdge(blocks) && IsReachableSet(blocks, seen)
    requires u < NewId(seen, |blocks|)
    ensures ENTRY !in Succ(Compacted(blocks, seen, |blocks|), u)
  {
    var after := Compacted(blocks, seen, |blocks|);
    var v := OldId(seen, |blocks|, u);
    CompactedAt(blocks, seen, |blocks|, v);
    var h := Renumber(seen);
    MapSuccessorsMember(blocks[v].terminator, h, ENTRY);
    if ENTRY in Succ(after, u) {
      var x: nat :| x in Succ(blocks, v) && h(x) == ENTRY;
      assert Edge(blocks, v, x) && !Edge(blocks, v, ENTRY);
      ReachableStep(blocks, v, x);
      assert ReachedIn(blocks, ENTRY, 0, ENTRY);
      assert Reachable(blocks, ENTRY);
      NewIdGrows(seen, ENTRY, x);
    }
  }

  /** Bodies whose blocks branch alike. */
  ghost predicate SameTerminators(a: seq<Block>, b: seq<Block>) {
    |a| == |b| && forall i: nat :: i < |a| ==> SameBranches(a[i].terminator, b[i].terminator)
  }

  predicate SameBranches(t: Terminator, u: Terminator) {
    t.Successors() == u.Successors() && SwitchesOnConstant(t) == SwitchesOnConstant(u)
  }

  lemma {:induction false} SameTerminatorsReached(a: seq<Block>, b: seq<Block>, n: nat, v: nat)
    requires SameTerminators(a, b) && ReachedIn(a, ENTRY, n, v)
    ensures ReachedIn(b, ENTRY, n, v)
  {
    if n > 0 {
      var u: nat :| ReachedIn(a, ENTRY, n - 1, u) && Edge(a, u, v);
      SameTerminatorsReached(a, b, n - 1, u);
      assert SameBranches(a[u].terminator, b[u].terminator);
      assert Edge(b, u, v);
    }
  }

  lemma SameTerminatorsKeep(a: seq<Block>, b: seq<Block>)
    requires SameTerminators(a, b) && InRange(a) && NoEntryEdge(a) && AllReachable(a)
    ensures InRange(b) && NoEntryEdge(b) && AllReachable(b) && (NoConstantSwitch(a) ==> NoConstantSwitch(b))
  {
    forall u: nat, v: nat ensures Edge(a, u, v) <==> Edge(b, u, v) {
      if u < |a| { assert SameBranches(a[u].terminator, b[u].terminator); }
    }
    forall i | 0 <= i < |b| ensures NoConstantSwitch(a) ==> !SwitchesOnConstant(b[i].terminator) {
      assert SameBranches(a[i].terminator, b[i].terminator);
    }
    forall v: nat | v < |b| ensures Reachable(b, v) {
      assert Reachable(a, v);
      var n: nat :| ReachedIn(a, ENTRY, n, v);
      SameTerminatorsReached(a, b, n, v);
    }
  }

  lemma RenamedTerminators(kept: set<nat>, blocks: seq<Block>)
    ensures SameTerminators(blocks, UnusedLocals.Renamed(kept, blocks))
  {
    var after := UnusedLocals.Renamed(kept, blocks);
    forall i: nat | i < |blocks| ensures SameBranches(blocks[i].terminator, after[i].terminator) {
      assert after[i].terminator == MapTerminator(UnusedLocals.Rename(kept), blocks[i].terminator);
    }
  }

  lemma EliminatedBelow(live: set<nat>, blocks: seq<Block>, n: nat)
    requires BodyBelow(blocks, n)
    ensures BodyBelow(DeadStore.Eliminated(live, blocks), n)
  {
    var after := DeadStore.Eliminated(live, blocks);
    forall b | 0 <= b < |after| ensures BlockBelow(after[b], n) { assert BlockBelow(blocks[b], n); }
  }

  lemma InStepRefines(live: set<nat>, a: seq<Block>, b: seq<Block>, p: Prims, o: Oracle, arity: nat)
    requires DeadStore.InStep(live, a, b)
    ensures Refines(p, o, arity, a, b)
  {
    forall args: seq<Value> | |args| == arity ensures RefinesOn(p, o, a, b, args) {
      forall n: nat ensures Comes(p, o, b, Run(p, o, a, Init(args), n), Init(args), n) {
        InStepAt(live, a, b, p, o, args, n);
      }
      assert Follows(p, o, a, b, args);
      FollowsRefines(p, o, a, b, args);
    }
  }

  lemma InStepAt(live: set<nat>, a: seq<Block>, b: seq<Block>, p: Prims, o: Oracle, args: seq<Value>, n: nat)
    requires DeadStore.InStep(live, a, b)
    ensures var (c, d) := (Run(p, o, a, Init(args), n), Run(p, o, b, Init(args), n));
            ResultLeq(AsResult(c), AsResult(d)) && c.trace <= d.trace && (c.Running? ==> d.Running?)
  {
    ResultRefl(AsResult(Run(p, o, a, Init(args), n)));
    if ObsAt(p, o, a, args, n) != ObsAt(p, o, b, args, n) {
      assert DeadStore.StuckBefore(p, o, live, a, b, args, n);
      var m: nat :| m < n && DeadStore.DropsAt(p, o, live, a, b, args, m, n);
    }
  }

  // ---------------------------------------------------------------- the passes on one body

  /** Whatever a returns, panics with or prints, b does too, in any program that knows the bodies that are inlined. */
  ghost predicate RefinesKnowing(bodies: map<nat, Inline.FnBody>, arity: nat, a: seq<Block>, b: seq<Block>) {
    && (forall p: Prims, o: Oracle :: Inline.Knows(p, o, bodies) ==> Refines(p, o, arity, a, b))
    && (forall p: Prims, o: Oracle, q: CallPrints :: Inline.Knows(p, o, bodies) && InlineTraces.KnowsPrints(p, o, q, bodies) ==>
          CarriesOver(p, o, q, arity, a, b))
  }

  lemma KnowingTrans(bodies: map<nat, Inline.FnBody>, arity: nat, a: seq<Block>, b: seq<Block>, c: seq<Block>)
    requires RefinesKnowing(bodies, arity, a, b) && RefinesKnowing(bodies, arity, b, c)
    ensures RefinesKnowing(bodies, arity, a, c)
  {
    forall p: Prims, o: Oracle | Inline.Knows(p, o, bodies) ensures Refines(p, o, arity, a, c) {
      RefinesTrans(p, o, arity, a, b, c);
    }
    forall p: Prims, o: Oracle, q: CallPrints | Inline.Knows(p, o, bodies) && InlineTraces.KnowsPrints(p, o, q, bodies)
      ensures CarriesOver(p, o, q, arity, a, c)
    {
      CarriesOverTrans(p, o, q, arity, a, b, c);
    }
  }

  lemma AlwaysKnowing(bodies: map<nat, Inline.FnBody>, arity: nat, a: seq<Block>, b: seq<Block>)
    requires forall p: Prims :: RefinesAlways(p, arity, a, b)
    ensures RefinesKnowing(bodies, arity, a, b)
  {
    forall p: Prims, o: Oracle ensures Refines(p, o, arity, a, b) { assert RefinesAlways(p, arity, a, b); }
    forall p: Prims, o: Oracle, q: CallPrints ensures CarriesOver(p, o, q, arity, a, b) {
      AlwaysCarriesOver(p, o, q, arity, a, b);
    }
  }

  lemma SameKnowing(bodies: map<nat, Inline.FnBody>, arity: nat, a: seq<Block>, b: seq<Block>)
    requires SameBehaviour(a, b) || SameUpto(arity, a, b)
    ensures RefinesKnowing(bodies, arity, a, b)
  {
    assert SameUpto(arity, a, b);
    forall p: Prims ensures RefinesAlways(p, arity, a, b) {
      forall o: Oracle ensures Refines(p, o, arity, a, b) { SameRefines(a, b, p, o, arity); }
    }
    AlwaysKnowing(bodies, arity, a, b);
  }

  lemma InStepKnowing(bodies: map<nat, Inline.FnBody>, arity: nat, live: set<nat>, a: seq<Block>, b: seq<Block>)
    requires DeadStore.InStep(live, a, b)
    ensures RefinesKnowing(bodies, arity, a, b)
  {
    forall p: Prims ensures RefinesAlways(p, arity, a, b) {
      forall o: Oracle ensures Refines(p, o, arity, a, b) { InStepRefines(live, a, b, p, o, arity); }
    }
    AlwaysKnowing(bodies, arity, a, b);
  }

  lemma InlineKnowing(bodies: map<nat, Inline.FnBody>, arity: nat, a: Inline.FnBody, b: Inline.FnBody, ok: bool)
    requires Inline.InlinedTo(bodies, a, b, ok) && Inline.BodiesWell(bodies) && arity <= |a.locals|
    requires Inline.WellFormed(a) && NoEntryEdge(a.blocks) && Inline.CallsFit(bodies, a.blocks)
    ensures RefinesKnowing(bodies, arity, a.blocks, b.blocks)
  {
    Inline.InlinedToWell(bodies, a, b, ok);
    forall p: Prims, o: Oracle, q: CallPrints | Inline.Knows(p, o, bodies) && InlineTraces.KnowsPrints(p, o, q, bodies)
      ensures CarriesOver(p, o, q, arity, a.blocks, b.blocks)
    {
      InlineTraces.InlinedToCarriesOver(p, o, q, bodies, a, b, ok, arity);
    }
  }

  /** What every pass keeps. */
  ghost predicate Ready(blocks: seq<Block>, localCount: nat) {
    blocks != [] && InRange(blocks) && NoEntryEdge(blocks) && BodyBelow(blocks, localCount)
  }

  ghost predicate ParamsFirst(locals: seq<LocalInfo>, arity: nat) {
    arity <= |locals| && forall i :: 0 <= i < arity ==> locals[i].kind.ParamKind?
  }

  function SwitchTest(): Terminator -> bool {
    t => !SwitchesOnConstant(t)
  }

  function AnyStmt(): Stmt -> bool {
    s => true
  }

  lemma SwitchesIsAllOf(blocks: seq<Block>)
    ensures NoConstantSwitch(blocks) <==> AllOf(blocks, AnyStmt(), SwitchTest())
    ensures Retargetable(SwitchTest())
  {
    var sp, tp := AnyStmt(), SwitchTest();
    forall b | 0 <= b < |blocks| ensures BlockOf(blocks[b], sp, tp) <==> !SwitchesOnConstant(blocks[b].terminator) {
    }
    forall t: Terminator, f: nat -> nat | tp(t) ensures tp(t.MapSuccessors(f)) { RetargetedReads(t, f); }
  }

  lemma CallsKept(bodies: map<nat, Inline.FnBody>, a: seq<Block>, b: seq<Block>)
    requires SimplifyCfg.KeepsTests(a, b)
    ensures Inline.CallsFit(bodies, a) ==> Inline.CallsFit(bodies, b)
    ensures Inline.CallsKnown(bodies, a) ==> Inline.CallsKnown(bodies, b)
  {
    EachIsAllOf(Inline.FitsTest(bodies), a);
    EachIsAllOf(Inline.FitsTest(bodies), b);
    EachIsAllOf(Inline.KnownTest(bodies), a);
    EachIsAllOf(Inline.KnownTest(bodies), b);
  }

  /** Where the loop folds all switches on constants, the pass leaves none. */
  lemma FoldedSwitches(a: seq<Block>, b: seq<Block>)
    requires Settling.FoldsSwitches(a) && SimplifyCfg.SimplifiedTo(a, b)
    ensures NoConstantSwitch(b)
  {
    var n: nat, after: seq<Block> :| SimplifyCfg.SweptTo(a, n, after) && b == SimplifyCfg.NoopsRemoved(after, |after|);
    var m: nat, folded: seq<Block> :| SimplifyCfg.SweptTo(a, m, folded) && NoConstantSwitch(folded);
    SimplifyCfg.SweptToUnique(a, n, after, m, folded);
    forall i | 0 <= i < |b| ensures !SwitchesOnConstant(b[i].terminator) { assert b[i].terminator == after[i].terminator; }
  }

  // ---------------------------------------------------------------- what each pass keeps

  lemma SimplifyKeeps(bodies: map<nat, Inline.FnBody>, arity: nat, a: seq<Block>, b: seq<Block>, n: nat)
    requires Ready(a, n) && SimplifyCfg.SimplifiedTo(a, b)
    ensures Ready(b, n) && SimplifyCfg.Ends(b) && RefinesKnowing(bodies, arity, a, b)
    ensures Inline.CallsFit(bodies, a) ==> Inline.CallsFit(bodies, b)
    ensures Inline.CallsKnown(bodies, a) ==> Inline.CallsKnown(bodies, b)
    ensures NoConstantSwitch(a) || Settling.FoldsSwitches(a) ==> NoConstantSwitch(b)
  {
    SimplifyCfg.SimplifiedToKept(a, b);
    BelowIsAllOf(a, n);
    BelowIsAllOf(b, n);
    CallsKept(bodies, a, b);
    SwitchesIsAllOf(a);
    SwitchesIsAllOf(b);
    if Settling.FoldsSwitches(a) { FoldedSwitches(a, b); }
    SameKnowing(bodies, arity, a, b);
  }

  lemma InlineKeeps(bodies: map<nat, Inline.FnBody>, arity: nat, a: Inline.FnBody, b: Inline.FnBody, ok: bool)
    requires Ready(a.blocks, |a.locals|) && BodiesFit(bodies, a.blocks) && ParamsFirst(a.locals, arity)
    requires Inline.InlinedTo(bodies, a, b, ok)
    ensures Ready(b.blocks, |b.locals|) && ParamsFirst(b.locals, arity) && RefinesKnowing(bodies, arity, a.blocks, b.blocks)
    ensures UnusedLocals.SameParams(a.locals, b.locals, arity)
    ensures Inline.NoConstantSwitches(bodies, a.blocks) ==> NoConstantSwitch(b.blocks)
    ensures Inline.AllKnown(bodies, a.blocks) ==> ok
  {
    Inline.InlinedToWell(bodies, a, b, ok);
    InlineKnowing(bodies, arity, a, b, ok);
    forall i | 0 <= i < arity ensures b.locals[i].kind.ParamKind? { assert b.locals[..|a.locals|][i] == b.locals[i]; }
  }

  ghost predicate PrunedTo(a: seq<Block>, b: seq<Block>) {
    exists seen :: IsReachableSet(a, seen) && b == Compacted(a, seen, |a|)
  }

  lemma PruneKeeps(bodies: map<nat, Inline.FnBody>, arity: nat, a: seq<Block>, b: seq<Block>, n: nat)
    requires Ready(a, n) && PrunedTo(a, b)
    ensures Ready(b, n) && AllReachable(b) && RefinesKnowing(bodies, arity, a, b)
    ensures NoConstantSwitch(a) ==> NoConstantSwitch(b)
  {
    var seen :| IsReachableSet(a, seen) && b == Compacted(a, seen, |a|);
    CompactedWellFormed(a, seen);
    CompactedKeeps(a, seen, n);
    CompactedSame(a, seen);
    CompactedNotEmpty(a, seen);
    SameKnowing(bodies, arity, a, b);
  }

  ghost function LiveLocals(locals: seq<LocalInfo>, blocks: seq<Block>): set<nat> {
    DeadStore.BlocksRead(blocks, |blocks|) + DeadStore.Params(locals)
  }

  ghost function StoresDropped(locals: seq<LocalInfo>, blocks: seq<Block>): (r: seq<Block>)
    ensures |r| == |blocks|
  {
    DeadStore.Eliminated(LiveLocals(locals, blocks), blocks)
  }

  lemma DropStoresKeeps(bodies: map<nat, Inline.FnBody>, arity: nat, locals: seq<LocalInfo>, a: seq<Block>)
    requires Ready(a, |locals|) && AllReachable(a)
    ensures var b := StoresDropped(locals, a);
            && Ready(b, |locals|) && AllReachable(b) && RefinesKnowing(bodies, arity, a, b)
            && (NoConstantSwitch(a) ==> NoConstantSwitch(b))
  {
    var live, b := LiveLocals(locals, a), StoresDropped(locals, a);
    DeadStore.EliminatedInStep(live, a);
    EliminatedBelow(live, a, |locals|);
    forall i: nat | i < |a| ensures SameBranches(a[i].terminator, b[i].terminator) { assert a[i].terminator == b[i].terminator; }
    SameTerminatorsKeep(a, b);
    InStepKnowing(bodies, arity, live, a, b);
  }

  ghost function KeptLocals(locals: seq<LocalInfo>, blocks: seq<Block>): set<nat> {
    BlocksMention(blocks, |blocks|) + DeadStore.Params(locals)
  }

  ghost function LocalsDropped(locals: seq<LocalInfo>, blocks: seq<Block>): (r: seq<Block>)
    ensures |r| == |blocks|
  {
    UnusedLocals.Renamed(KeptLocals(locals, blocks), blocks)
  }

  lemma DropLocalsKeeps(bodies: map<nat, Inline.FnBody>, arity: nat, locals: seq<LocalInfo>, a: seq<Block>)
    requires Ready(a, |locals|) && AllReachable(a) && ParamsFirst(locals, arity)
    ensures var b := LocalsDropped(locals, a);
            && InRange(b) && NoEntryEdge(b) && AllReachable(b) && RefinesKnowing(bodies, arity, a, b)
            && (NoConstantSwitch(a) ==> NoConstantSwitch(b))
  {
    var kept := KeptLocals(locals, a);
    forall i: nat | i < arity ensures i in kept { assert locals[i].kind.ParamKind?; }
    UnusedLocals.RenamedSame(kept, a, arity);
    RenamedTerminators(kept, a);
    SameTerminatorsKeep(a, LocalsDropped(locals, a));
    SameKnowing(bodies, arity, a, LocalsDropped(locals, a));
  }

  /** The other bodies are well formed, and all calls pass at most as many arguments as there are locals. */
  ghost predicate BodiesFit(bodies: map<nat, Inline.FnBody>, blocks: seq<Block>) {
    && Inline.CallsFit(bodies, blocks)
    && Inline.BodiesWell(bodies)
  }

  // ---------------------------------------------------------------- the passes up to the last loop

  /** What removing unreachable blocks, dead stores and unused locals makes of a. */
  ghost predicate CleanedTo(a: Inline.FnBody, b: seq<Block>) {
    exists c: seq<Block> :: PrunedTo(a.blocks, c) && b == LocalsDropped(a.locals, StoresDropped(a.locals, c))
  }

  /** What the passes up to the removal of unused locals make of a, if they get that far. */
  ghost predicate PreparedTo(bodies: map<nat, Inline.FnBody>, a: Inline.FnBody, b: seq<Block>) {
    exists b1: seq<Block>, b2: seq<Block>, c: Inline.FnBody ::
      && SimplifyCfg.SimplifiedTo(a.blocks, b1) && SimplifyCfg.SimplifiedTo(b1, b2)
      && Inline.InlinedTo(bodies, Inline.FnBody(a.locals, b2), c, true) && CleanedTo(c, b)
  }

  lemma PreparedBy(bodies: map<nat, Inline.FnBody>, a: Inline.FnBody, b1: seq<Block>, b2: seq<Block>, c: Inline.FnBody, b: seq<Block>)
    requires SimplifyCfg.SimplifiedTo(a.blocks, b1) && SimplifyCfg.SimplifiedTo(b1, b2)
    requires Inline.InlinedTo(bodies, Inline.FnBody(a.locals, b2), c, true) && CleanedTo(c, b)
    ensures PreparedTo(bodies, a, b)
  {
  }

  lemma CleanKeeps(bodies: map<nat, Inline.FnBody>, arity: nat, a: Inline.FnBody, b: seq<Block>)
    requires Ready(a.blocks, |a.locals|) && ParamsFirst(a.locals, arity) && CleanedTo(a, b)
    ensures InRange(b) && NoEntryEdge(b) && AllReachable(b) && RefinesKnowing(bodies, arity, a.blocks, b)
    ensures NoConstantSwitch(a.blocks) ==> NoConstantSwitch(b)
  {
    var c: seq<Block> :| PrunedTo(a.blocks, c) && b == LocalsDropped(a.locals, StoresDropped(a.locals, c));
    var d := StoresDropped(a.locals, c);
    PruneKeeps(bodies, arity, a.blocks, c, |a.locals|);
    DropStoresKeeps(bodies, arity, a.locals, c);
    DropLocalsKeeps(bodies, arity, a.locals, d);
    KnowingTrans(bodies, arity, a.blocks, c, d);
    KnowingTrans(bodies, arity, a.blocks, d, b);
  }

  /** The first loop ends and leaves no switch on a constant, and the other bodies have none. */
  ghost predicate SwitchesFolded(bodies: map<nat, Inline.FnBody>, blocks: seq<Block>) {
    Settling.FoldsSwitches(blocks) && forall id :: id in bodies ==> NoConstantSwitch(bodies[id].blocks)
  }

  lemma PreparedKeeps(bodies: map<nat, Inline.FnBody>, arity: nat, a: Inline.FnBody, b: seq<Block>)
    requires Ready(a.blocks, |a.locals|) && ParamsFirst(a.locals, arity) && BodiesFit(bodies, a.blocks) && PreparedTo(bodies, a, b)
    ensures InRange(b) && NoEntryEdge(b) && AllReachable(b) && RefinesKnowing(bodies, arity, a.blocks, b)
    ensures SwitchesFolded(bodies, a.blocks) ==> NoConstantSwitch(b)
  {
    var b1: seq<Block>, b2: seq<Block>, c: Inline.FnBody :|
      && SimplifyCfg.SimplifiedTo(a.blocks, b1) && SimplifyCfg.SimplifiedTo(b1, b2)
      && Inline.InlinedTo(bodies, Inline.FnBody(a.locals, b2), c, true) && CleanedTo(c, b);
    SimplifyKeeps(bodies, arity, a.blocks, b1, |a.locals|);
    SimplifyKeeps(bodies, arity, b1, b2, |a.locals|);
    InlineKeeps(bodies, arity, Inline.FnBody(a.locals, b2), c, true);
    CleanKeeps(bodies, arity, c, b);
    KnowingTrans(bodies, arity, a.blocks, b1, b2);
    KnowingTrans(bodies, arity, a.blocks, b2, c.blocks);
    KnowingTrans(bodies, arity, a.blocks, c.blocks, b);
  }

  /** The passes up to the removal of unused locals, on every body on which the first loop ends.
      The result is false when inlining aborts, and true if the bodies of all called functions are there. */
  method Prepare(body: Body, bodies: map<nat, Inline.FnBody>, ghost arity: nat) returns (ok: bool)
    requires Ready(body.blocks, |body.locals|) && SimplifyCfg.Ends(body.blocks) && ParamsFirst(body.locals, arity)
    requires BodiesFit(bodies, body.blocks)
    modifies body
    ensures ok ==> PreparedTo(bodies, old(Inline.FnBody(body.locals, body.blocks)), body.blocks)
    ensures ok ==> RefinesKnowing(bodies, arity, old(body.blocks), body.blocks)
    ensures ok ==> Ready(body.blocks, |body.locals|) && AllReachable(body.blocks)
    ensures ok ==> UnusedLocals.SameParams(old(body.locals), body.locals, arity)
    ensures Inline.AllKnown(bodies, old(body.blocks)) ==> ok
  {
    ghost var start, b0, locals := Inline.FnBody(body.locals, body.blocks), body.blocks, body.locals;
    SimplifyCfg.RunPass(body);
    ghost var b1 := body.blocks;
    SimplifyKeeps(bodies, arity, b0, b1, |locals|);
    SimplifyCfg.RunPass(body);
    ghost var b2 := body.blocks;
    SimplifyKeeps(bodies, arity, b1, b2, |locals|);
    ok := Inline.RunPass(body, bodies);
    ghost var c := Inline.FnBody(body.locals, body.blocks);
    InlineKeeps(bodies, arity, Inline.FnBody(locals, b2), c, ok);
    if ok {
      Clean(body, bodies, arity);
      PreparedBy(bodies, start, b1, b2, c, body.blocks);
      PreparedKeeps(bodies, arity, start, body.blocks);
    }
  }

  method Clean(body: Body, ghost bodies: map<nat, Inline.FnBody>, ghost arity: nat)
    requires Ready(body.blocks, |body.locals|) && ParamsFirst(body.locals, arity)
    modifies body
    ensures CleanedTo(old(Inline.FnBody(body.locals, body.blocks)), body.blocks)
    ensures Ready(body.blocks, |body.locals|) && UnusedLocals.SameParams(old(body.locals), body.locals, arity)
  {
    ghost var a, locals := body.blocks, body.locals;
    RemoveUnreachable(body);
    ghost var c := body.blocks;
    PruneKeeps(bodies, arity, a, c, |locals|);
    DeadStore.RunPass(body);
    ghost var d := body.blocks;
    DropStoresKeeps(bodies, arity, locals, c);
    UnusedLocals.RunPass(body, arity);
    DropLocalsKeeps(bodies, arity, locals, d);
    assert PrunedTo(a, c);
    forall b | 0 <= b < |body.blocks| ensures BlockBelow(body.blocks[b], |body.locals|) {
      assert BlockBelow(body.blocks[b], NewId(KeptLocals(locals, d), |locals|));
    }
  }

  /** The last two passes, on every body on which the last loop ends. */
  method Finish(body: Body, ghost bodies: map<nat, Inline.FnBody>, ghost arity: nat)
    requires Ready(body.blocks, |body.locals|) && SimplifyCfg.Ends(body.blocks)
    modifies body
    ensures RefinesKnowing(bodies, arity, old(body.blocks), body.blocks)
    ensures Ready(body.blocks, |body.locals|) && AllReachable(body.blocks) && body.locals == old(body.locals)
  {
    ghost var b0, n := body.blocks, |body.locals|;
    SimplifyCfg.RunPass(body);
    ghost var b1 := body.blocks;
    SimplifyKeeps(bodies, arity, b0, b1, n);
    RemoveUnreachable(body);
    assert PrunedTo(b1, body.blocks);
    PruneKeeps(bodies, arity, b1, body.blocks, n);
    KnowingTrans(bodies, arity, b0, b1, body.blocks);
  }

  /** Where everything is reachable and no switch is on a constant, the loop ends. */
  lemma ReachableEnds(blocks: seq<Block>)
    requires InRange(blocks) && AllReachable(blocks) && NoEntryEdge(blocks) && NoConstantSwitch(blocks)
    ensures SimplifyCfg.Ends(blocks)
  {
    ReachableDescends(blocks);
    Settling.DescendsNoRing(blocks, Distances(blocks));
    Settling.EndsWithoutRing(blocks);
  }

  /** Both loops end: the first on the body, the last on what the passes between make of it. */
  ghost predicate BothEnd(bodies: map<nat, Inline.FnBody>, a: Inline.FnBody) {
    SimplifyCfg.Ends(a.blocks) && forall b: seq<Block> :: PreparedTo(bodies, a, b) ==> SimplifyCfg.Ends(b)
  }

  /** They do where the first folds all switches on constants and the bodies that are inlined have none. */
  lemma FoldedBothEnd(bodies: map<nat, Inline.FnBody>, a: Inline.FnBody, arity: nat)
    requires Ready(a.blocks, |a.locals|) && ParamsFirst(a.locals, arity) && BodiesFit(bodies, a.blocks)
    requires SwitchesFolded(bodies, a.blocks)
    ensures BothEnd(bodies, a)
  {
    Settling.FoldsEnds(a.blocks);
    forall b: seq<Block> | PreparedTo(bodies, a, b) ensures SimplifyCfg.Ends(b) {
      PreparedKeeps(bodies, arity, a, b);
      ReachableEnds(b);
    }
  }

  lemma SweepsKeep(blocks: seq<Block>, n: nat)
    requires NoConstantSwitch(blocks)
    ensures NoConstantSwitch(SimplifyCfg.Sweeps(blocks, n))
  {
    var keeps := (x: seq<Block>) => NoConstantSwitch(x);
    forall x | keeps(x) ensures keeps(SimplifyCfg.SweepOnce()(x)) {
      var next := SimplifyCfg.FullSweep(x).0;
      SwitchesIsAllOf(x);
      SwitchesIsAllOf(next);
      SimplifyCfg.SweptKeeps(x, |x|, AnyStmt(), SwitchTest());
    }
    IterKeeps(SimplifyCfg.SweepOnce(), keeps, blocks, n);
  }

  /** And switches are folded in every body without constant switches and without a ring. */
  lemma WithoutRingFolds(blocks: seq<Block>)
    requires InRange(blocks) && NoConstantSwitch(blocks) && !Settling.HasRing(blocks)
    ensures Settling.FoldsSwitches(blocks)
  {
    var start := SimplifyCfg.NoopsRemoved(blocks, |blocks|);
    Settling.EndsWithoutRing(blocks);
    forall u: nat, v: nat ensures Edge(start, u, v) <==> Edge(blocks, u, v) { SimplifyCfg.NoopsRemovedEdges(blocks, u, v); }
    SimplifyCfg.SettlesExactly(start);
    var n: nat :| n <= |start| && !SimplifyCfg.FullSweep(SimplifyCfg.Sweeps(start, n)).1;
    SweepsKeep(start, n);
    assert SimplifyCfg.SweptTo(blocks, n, SimplifyCfg.Sweeps(start, n));
  }

  /** All passes in order, on every body on which the loops end, as the source returns on no other.
      The result is false when inlining aborts, and true if the bodies of all called functions are there.
      Where it is true the body that comes out refines the one that went in, and its blocks are all reachable. */
  method Optimise(body: Body, bodies: map<nat, Inline.FnBody>, ghost arity: nat) returns (ok: bool)
    requires Ready(body.blocks, |body.locals|) && ParamsFirst(body.locals, arity) && BodiesFit(bodies, body.blocks)
    requires BothEnd(bodies, Inline.FnBody(body.locals, body.blocks))
    modifies body
    ensures ok ==> RefinesKnowing(bodies, arity, old(body.blocks), body.blocks)
    ensures ok ==> Ready(body.blocks, |body.locals|) && AllReachable(body.blocks)
    ensures ok ==> UnusedLocals.SameParams(old(body.locals), body.locals, arity)
    ensures Inline.AllKnown(bodies, old(body.blocks)) ==> ok
  {
    ghost var b0 := body.blocks;
    ok := Prepare(body, bodies, arity);
    if ok {
      ghost var b1 := body.blocks;
      Finish(body, bodies, arity);
      KnowingTrans(bodies, arity, b0, b1, body.blocks);
    }
  }

  // ---------------------------------------------------------------- the passes in a program

  function Instance(id: nat): FnRef {
    FnRef(id, [])
  }

  /** The bodies are those of the program's functions, all but g. */
  ghost predicate BodiesOf(prog: Prog, g: FnRef, bodies: map<nat, Inline.FnBody>) {
    forall id :: id in bodies ==>
      Instance(id) in prog && Instance(id) != g && prog[Instance(id)].blocks == bodies[id].blocks
  }

  lemma ProgramKnows(p: Prims, prog: Prog, g: FnRef, bodies: map<nat, Inline.FnBody>)
    requires BodiesOf(prog, g, bodies)
    ensures Inline.Knows(p, Results(p, prog), bodies)
  {
    var o := Results(p, prog);
    forall id | id in bodies ensures Inline.Faithful(p, o, id, bodies[id].blocks) {
      forall vs: seq<Value> | o(Instance(id), vs) != NoResult
        ensures exists n: nat :: AsResult(Run(p, o, bodies[id].blocks, Init(vs), n)) == o(Instance(id), vs)
      {
        var r := Result(p, prog, Instance(id), vs);
        var k: nat :| Called(p, prog, k, Instance(id), vs) == r;
        ResultFixpoint(p, prog, Instance(id), vs, r);
      }
    }
  }

  lemma ProgramKnowsPrints(p: Prims, prog: Prog, g: FnRef, bodies: map<nat, Inline.FnBody>)
    requires BodiesOf(prog, g, bodies)
    ensures InlineTraces.KnowsPrints(p, Results(p, prog), AllPrints(p, prog), bodies)
  {
    var o, q := Results(p, prog), AllPrints(p, prog);
    forall id | id in bodies ensures InlineTraces.FaithfulPrints(p, o, q, id, bodies[id].blocks) {
      forall vs: seq<Value>, u: seq<Event> | q(Instance(id), vs, u) ensures PrintsIn(p, o, q, bodies[id].blocks, vs, u) {
        if u == [] {
          assert HasPrinted(o, q, bodies[id].blocks, Run(p, o, bodies[id].blocks, Init(vs), 0), u);
        } else {
          PrintedBody(p, prog, Instance(id), vs, u);
        }
      }
    }
  }

  /** Every result that a function has in prog it has in prog', and it prints at least as much there. */
  ghost predicate ProgramLeq(p: Prims, prog: Prog, prog': Prog) {
    && (forall fn: FnRef, args: seq<Value> :: ResultLeq(Result(p, prog, fn, args), Result(p, prog', fn, args)))
    && (forall fn: FnRef, args: seq<Value>, t: seq<Event> :: ProgramPrints(p, prog, fn, args, t) ==> ProgramPrints(p, prog', fn, args, t))
  }

  /** Putting an optimised body into a program keeps every result that any of its functions has, and
      all that any of them prints, whether it ever returns or not. */
  lemma OptimisedProgram(p: Prims, prog: Prog, g: FnRef, bodies: map<nat, Inline.FnBody>, b: seq<Block>)
    requires g in prog && BodiesOf(prog, g, bodies)
    requires RefinesKnowing(bodies, prog[g].arity, prog[g].blocks, b)
    ensures ProgramLeq(p, prog, prog[g := prog[g].(blocks := b)])
  {
    var prog' := prog[g := prog[g].(blocks := b)];
    assert BodiesOf(prog', g, bodies);
    ProgramKnows(p, prog', g, bodies);
    ProgramKnowsPrints(p, prog', g, bodies);
    assert GoodReplacement(p, prog, g, b);
    forall fn: FnRef, args: seq<Value> ensures ResultLeq(Result(p, prog, fn, args), Result(p, prog', fn, args)) {
      ReplaceBody(p, prog, g, b, fn, args);
    }
    forall fn: FnRef, args: seq<Value>, t: seq<Event> | ProgramPrints(p, prog, fn, args, t) ensures ProgramPrints(p, prog', fn, args, t) {
      ReplaceBodyPrints(p, prog, g, b, fn, args, t);
    }
  }

  /** prog' has the body of one function replaced by what optimising it may give. */
  ghost predicate OneOptimised(prog: Prog, prog': Prog) {
    exists g: FnRef, bodies: map<nat, Inline.FnBody>, b: seq<Block> ::
      && g in prog && BodiesOf(prog, g, bodies)
      && RefinesKnowing(bodies, prog[g].arity, prog[g].blocks, b)
      && prog' == prog[g := prog[g].(blocks := b)]
  }

  lemma ProgramLeqTrans(p: Prims, a: Prog, b: Prog, c: Prog)
    requires ProgramLeq(p, a, b) && ProgramLeq(p, b, c)
    ensures ProgramLeq(p, a, c)
  {
    forall fn: FnRef, args: seq<Value> ensures ResultLeq(Result(p, a, fn, args), Result(p, c, fn, args)) {
      ResultTrans(Result(p, a, fn, args), Result(p, b, fn, args), Result(p, c, fn, args));
    }
  }

  /** Optimising one function after another, each with the bodies of the others as they then are,
      keeps every result and all that is printed. */
  lemma {:induction false} OptimisedProgramByProgram(p: Prims, progs: seq<Prog>)
    requires progs != [] && forall i :: 0 < i < |progs| ==> OneOptimised(progs[i - 1], progs[i])
    ensures ProgramLeq(p, progs[0], progs[|progs| - 1])
    decreases |progs|
  {
    var k := |progs| - 1;
    if k == 0 {
      forall fn: FnRef, args: seq<Value> ensures ResultLeq(Result(p, progs[0], fn, args), Result(p, progs[0], fn, args)) {
        ResultRefl(Result(p, progs[0], fn, args));
      }
    } else {
      OptimisedProgramByProgram(p, progs[..k]);
      assert OneOptimised(progs[k - 1], progs[k]);
      var g: FnRef, bodies: map<nat, Inline.FnBody>, b: seq<Block> :|
        && g in progs[k - 1] && BodiesOf(progs[k - 1], g, bodies)
        && RefinesKnowing(bodies, progs[k - 1][g].arity, progs[k - 1][g].blocks, b)
        && progs[k] == progs[k - 1][g := progs[k - 1][g].(blocks := b)];
      OptimisedProgram(p, progs[k - 1], g, bodies, b);
      ProgramLeqTrans(p, progs[0], progs[k - 1], progs[k]);
    }
  }
}
