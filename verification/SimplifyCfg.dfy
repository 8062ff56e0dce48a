/** Block merging, jump threading and removal of no-ops. */
module SimplifyCfg {
  import opened Prelude
  import opened Mir
  import opened MirSim
  import opened Cfg

  // ---------------------------------------------------------------- specification

  function WithoutNoops(ss: seq<Stmt>): seq<Stmt> {
    if ss == [] then []
    else if ss[|ss| - 1].Noop? then WithoutNoops(ss[..|ss| - 1])
    else WithoutNoops(ss[..|ss| - 1]) + [ss[|ss| - 1]]
  }

  function BlockWithoutNoops(b: Block): Block {
    b.(stmts := WithoutNoops(b.stmts))
  }

  /** The no-ops of the first k blocks are gone. */
  function NoopsRemoved(blocks: seq<Block>, k: nat): (r: seq<Block>)
    requires k <= |blocks|
    ensures |r| == |blocks|
  {
    seq(|blocks|, i requires 0 <= i < |blocks| => if i < k then BlockWithoutNoops(blocks[i]) else blocks[i])
  }

  /** Block b takes over the statements and the terminator of target, which is left empty. */
  function Stolen(blocks: seq<Block>, target: nat, b: nat): (r: seq<Block>)
    requires target < |blocks| && b < |blocks|
    ensures |r| == |blocks|
  {
    if target == b then blocks else
      blocks[target := Block([], Unreachable)]
            [b := Block(blocks[b].stmts + blocks[target].stmts, blocks[target].terminator)]
  }

  /** A successor of a switch that only forwards control, and is entered along that edge only. */
  predicate Forwards(blocks: seq<Block>, succ: nat)
    requires succ < |blocks|
  {
    && |PredecessorList(blocks, succ)| <= 1
    && (forall i :: 0 <= i < |blocks[succ].stmts| ==> blocks[succ].stmts[i].Noop?)
    && blocks[succ].terminator.Goto?
  }

  /** Where a switch's edge to succ ends up. */
  function Thread(blocks: seq<Block>, succ: nat): nat {
    if succ < |blocks| && Forwards(blocks, succ) then blocks[succ].terminator.target else succ
  }

  function Threaded(blocks: seq<Block>, b: nat): (r: seq<Block>)
    requires b < |blocks|
    ensures |r| == |blocks|
  {
    blocks[b := blocks[b].(terminator := blocks[b].terminator.MapSuccessors(x => Thread(blocks, x)))]
  }

  /** The block that control certainly goes to from b, when it is known. */
  function SoleTarget(t: Terminator): Option<nat> {
    match t
    case Goto(x) => Some(x)
    case Switch(Constant(ScalarConst(n)), ts) => Some(ts.BranchForValue(n))
    case _ => None
  }

  predicate Steals(blocks: seq<Block>, b: nat)
    requires b < |blocks|
  {
    var t := SoleTarget(blocks[b].terminator);
    t.Some? && t.value < |blocks| && |PredecessorList(blocks, t.value)| == 1
  }

  predicate Threads(blocks: seq<Block>, b: nat)
    requires b < |blocks|
  {
    blocks[b].terminator.Switch? && exists x :: x in Succ(blocks, b) && x < |blocks| && Forwards(blocks, x)
  }

  /** What the pass does with block b, and whether it counts that as a modification. */
  function Simplified(blocks: seq<Block>, b: nat): (r: (seq<Block>, bool))
    requires b < |blocks|
    ensures |r.0| == |blocks|
  {
    if Steals(blocks, b) then (Stolen(blocks, SoleTarget(blocks[b].terminator).value, b), true)
    else if blocks[b].terminator.Switch? then (Threaded(blocks, b), Threads(blocks, b))
    else (blocks, false)
  }

  /** What is done with one block of a body, and whether that is a modification. */
  type BlockStep = (seq<Block>, nat) -> (seq<Block>, bool)

  function Simplify(): BlockStep {
    (blocks: seq<Block>, b: nat) => if b < |blocks| then Simplified(blocks, b) else (blocks, false)
  }

  /** The step done with each of the first k blocks in turn. */
  function Stepped(f: BlockStep, blocks: seq<Block>, k: nat): (seq<Block>, bool)
    decreases k
  {
    if k == 0 then (blocks, false) else
      var (before, changed) := Stepped(f, blocks, k - 1);
      var (after, now) := f(before, k - 1);
      (after, changed || now)
  }

  /** A property of the body, the flag and the number of steps done. */
  type StepProperty = (seq<Block>, bool, nat) -> bool

  ghost predicate KeptBy(f: BlockStep, r: StepProperty) {
    forall blocks: seq<Block>, m: bool, k: nat :: r(blocks, m, k) ==> r(f(blocks, k).0, m || f(blocks, k).1, k + 1)
  }

  lemma {:induction false} SteppedKeeps(f: BlockStep, blocks: seq<Block>, k: nat, r: StepProperty)
    requires r(blocks, false, 0) && KeptBy(f, r)
    ensures r(Stepped(f, blocks, k).0, Stepped(f, blocks, k).1, k)
    decreases k
  {
    if k > 0 {
      var (before, m) := Stepped(f, blocks, k - 1);
      SteppedKeeps(f, blocks, k - 1, r);
      assert r(f(before, k - 1).0, m || f(before, k - 1).1, (k - 1) + 1);
    }
  }

  /** If steps that are no modification leave the body alone and none was reported, none modifies it. */
  lemma {:induction false} SteppedIdle(f: BlockStep, blocks: seq<Block>, k: nat, b: nat)
    requires forall i: nat :: i < k ==> f(blocks, i).1 || f(blocks, i).0 == blocks
    requires !Stepped(f, blocks, k).1 && b <= k
    ensures Stepped(f, blocks, k).0 == blocks && (b < k ==> !f(blocks, b).1)
    decreases k
  {
    if k > 0 { SteppedIdle(f, blocks, k - 1, if b < k then b else k - 1); }
  }

  lemma SteppedLength(blocks: seq<Block>, k: nat)
    ensures |Stepped(Simplify(), blocks, k).0| == |blocks|
  {
    var r: StepProperty := (after, m, i) => |after| == |blocks|;
    SteppedKeeps(Simplify(), blocks, k, r);
  }

  /** One sweep over the blocks up to k. */
  function Swept(blocks: seq<Block>, k: nat): (r: (seq<Block>, bool))
    requires k <= |blocks|
    ensures |r.0| == |blocks|
  {
    SteppedLength(blocks, k);
    Stepped(Simplify(), blocks, k)
  }

  // ---------------------------------------------------------------- no-op removal

  ghost predicate NoopRel(blocks: seq<Block>, c: Config, d: Config) {
    match c
    case Halted(_, _) => d == c
    case Running(b, pc, s, t) =>
      if b < |blocks| then pc <= |blocks[b].stmts| && d == Running(b, |WithoutNoops(blocks[b].stmts[..pc])|, s, t)
      else d == c
  }

  function NoopRank(blocks: seq<Block>, c: Config): nat {
    if c.Running? && c.block < |blocks| && c.pc < |blocks[c.block].stmts| && blocks[c.block].stmts[c.pc].Noop?
    then |blocks[c.block].stmts| - c.pc else 0
  }

  lemma {:induction false} WithoutNoopsAppend(ss: seq<Stmt>, ts: seq<Stmt>)
    ensures WithoutNoops(ss + ts) == WithoutNoops(ss) + WithoutNoops(ts)
    decreases |ts|
  {
    if ts == [] {
      assert ss + ts == ss;
    } else {
      var n := |ts| - 1;
      assert (ss + ts)[..|ss + ts| - 1] == ss + ts[..n];
      WithoutNoopsAppend(ss, ts[..n]);
    }
  }

  /** The statement at pc stands, after removal, behind the statements kept before it. */
  lemma WithoutNoopsAt(ss: seq<Stmt>, pc: nat)
    requires pc < |ss|
    ensures |WithoutNoops(ss[..pc + 1])| == |WithoutNoops(ss[..pc])| + (if ss[pc].Noop? then 0 else 1)
    ensures |WithoutNoops(ss[..pc])| <= |WithoutNoops(ss)|
    ensures !ss[pc].Noop? ==> |WithoutNoops(ss[..pc])| < |WithoutNoops(ss)|
                              && WithoutNoops(ss)[|WithoutNoops(ss[..pc])|] == ss[pc]
  {
    assert ss[..pc + 1][..pc] == ss[..pc];
    WithoutNoopsAppend(ss[..pc + 1], ss[pc + 1..]);
    assert ss[..pc + 1] + ss[pc + 1..] == ss;
  }

  lemma NoopsRemovedSame(blocks: seq<Block>)
    ensures SameBehaviour(blocks, NoopsRemoved(blocks, |blocks|))
  {
    var after := NoopsRemoved(blocks, |blocks|);
    var rel: (Config, Config) -> bool := (c, d) => NoopRel(blocks, c, d);
    var rank := c => NoopRank(blocks, c);
    forall p: Prims, o: Oracle, args: seq<Value>
      ensures Covers(p, o, blocks, after, args) && Covers(p, o, after, blocks, args)
    {
      var f, g := x => Step(p, o, blocks, x), x => Step(p, o, after, x);
      forall c, d | rel(c, d) ensures SimStep(f, g, rel, rank, c, d) {
        if c.Running? && c.block < |blocks| {
          var ss := blocks[c.block].stmts;
          if c.pc < |ss| {
            WithoutNoopsAt(ss, c.pc);
            StepStmtMoved(p, o, c, ss[c.pc], d.block, d.pc);
          } else {
            assert ss[..c.pc] == ss;
            StepTerminatorMoved(c, blocks[c.block].terminator, d.block, d.pc);
            StepAlongEdge(c, blocks[c.block].terminator);
          }
        }
      }
      SimCovers(p, o, blocks, after, rel, rank, args);
    }
  }

  // ---------------------------------------------------------------- stealing

  ghost predicate StealRel(blocks: seq<Block>, target: nat, b: nat, c: Config, d: Config)
    requires target < |blocks| && b < |blocks|
  {
    match c
    case Halted(_, _) => d == c
    case Running(x, pc, s, t) =>
      && (x < |blocks| ==> pc <= |blocks[x].stmts|)
      && d == if x == target then Running(b, |blocks[b].stmts| + pc, s, t) else c
  }

  function StealRank(blocks: seq<Block>, b: nat, c: Config): nat
    requires b < |blocks|
  {
    if c.Running? && c.block == b && c.pc >= |blocks[b].stmts| then 1 else 0
  }

  lemma SoleTargetStep(c: Config, t: Terminator)
    requires c.Running? && SoleTarget(t).Some?
    ensures StepTerminator(c, t) == Jump(c, SoleTarget(t).value)
    ensures SoleTarget(t).value in t.Successors()
  {
    match t
    case Goto(x) =>
    case Switch(Constant(ScalarConst(n)), ts) => BranchIsSuccessor(ts, t.operand, n);
  }

  lemma StealStep(p: Prims, o: Oracle, blocks: seq<Block>, b: nat, c: Config, d: Config)
    requires b < |blocks| && Steals(blocks, b)
    requires SoleTarget(blocks[b].terminator).value != b
    requires StealRel(blocks, SoleTarget(blocks[b].terminator).value, b, c, d)
    ensures var target := SoleTarget(blocks[b].terminator).value;
            var (c', d') := (Step(p, o, blocks, c), Step(p, o, Stolen(blocks, target, b), d));
            if StealRank(blocks, b, c) > 0 then StealRel(blocks, target, b, c', d) && StealRank(blocks, b, c') == 0
            else StealRel(blocks, target, b, c', d')
  {
    var target := SoleTarget(blocks[b].terminator).value;
    var after := Stolen(blocks, target, b);
    if c.Running? && c.block < |blocks| {
      var x := c.block;
      var t := blocks[x].terminator;
      SoleTargetStep(c, blocks[b].terminator);
      assert Edge(blocks, b, target);
      if x != b && StepTerminator(c, t).Running? && c.pc >= |blocks[x].stmts| {
        StepAlongEdge(c, t);
        var y := StepTerminator(c, t).block;
        if y == target {
          assert Edge(blocks, x, target);
          UniquePredecessor(blocks, target, b, x);
        }
      }
      StepTerminatorMoved(c, t, d.block, d.pc);
      if c.pc < |blocks[x].stmts| { StepStmtMoved(p, o, c, blocks[x].stmts[c.pc], d.block, d.pc); }
    }
  }

  /** Merging a block into its only predecessor is not observable. */
  lemma StolenSame(blocks: seq<Block>, b: nat)
    requires b < |blocks| && Steals(blocks, b)
    requires SoleTarget(blocks[b].terminator).value != ENTRY
    ensures SameBehaviour(blocks, Stolen(blocks, SoleTarget(blocks[b].terminator).value, b))
  {
    var target := SoleTarget(blocks[b].terminator).value;
    var after := Stolen(blocks, target, b);
    if target == b {
      SameRefl(blocks);
      return;
    }
    var rel: (Config, Config) -> bool := (c, d) => StealRel(blocks, target, b, c, d);
    var rank := c => StealRank(blocks, b, c);
    forall p: Prims, o: Oracle, args: seq<Value>
      ensures Covers(p, o, blocks, after, args) && Covers(p, o, after, blocks, args)
    {
      var f, g := x => Step(p, o, blocks, x), x => Step(p, o, after, x);
      forall c, d | rel(c, d) ensures SimStep(f, g, rel, rank, c, d) {
        StealStep(p, o, blocks, b, c, d);
      }
      SimCovers(p, o, blocks, after, rel, rank, args);
    }
  }

  // ---------------------------------------------------------------- threading

  ghost predicate ThreadRel(blocks: seq<Block>, b: nat, c: Config, d: Config)
    requires b < |blocks|
  {
    match c
    case Halted(_, _) => d == c
    case Running(x, pc, s, t) =>
      if x in Succ(blocks, b) && x < |blocks| && Forwards(blocks, x)
      then d == Running(blocks[x].terminator.target, 0, s, t)
      else d == c
  }

  function ThreadRank(blocks: seq<Block>, b: nat, c: Config): nat
    requires b < |blocks|
  {
    if c.Running? && c.block in Succ(blocks, b) && c.block < |blocks| && Forwards(blocks, c.block)
    then (if c.pc <= |blocks[c.block].stmts| then |blocks[c.block].stmts| - c.pc else 0) + 1 else 0
  }

  lemma ThreadStep(p: Prims, o: Oracle, blocks: seq<Block>, b: nat, c: Config, d: Config)
    requires b < |blocks| && blocks[b].terminator.Switch?
    requires ThreadRel(blocks, b, c, d)
    ensures var (c', d') := (Step(p, o, blocks, c), Step(p, o, Threaded(blocks, b), d));
            if ThreadRank(blocks, b, c) > 0
            then ThreadRel(blocks, b, c', d) && ThreadRank(blocks, b, c') < ThreadRank(blocks, b, c)
            else ThreadRel(blocks, b, c', d')
  {
    if c.Running? && c.block < |blocks| {
      var x := c.block;
      var t := blocks[x].terminator;
      if ThreadRank(blocks, b, c) > 0 {
        if c.pc >= |blocks[x].stmts| && t.target in Succ(blocks, b) && t.target < |blocks| && Forwards(blocks, t.target) {
          assert Edge(blocks, x, t.target) && Edge(blocks, b, t.target);
          UniquePredecessor(blocks, t.target, b, x);
        }
      } else if c.pc < |blocks[x].stmts| {
        StepStmtMoved(p, o, c, blocks[x].stmts[c.pc], x, c.pc);
      } else {
        StepAlongEdge(c, t);
        StepMapSuccessors(c, t, y => Thread(blocks, y));
        var c' := StepTerminator(c, t);
        if x != b && c'.Running? && c'.block in Succ(blocks, b) && c'.block < |blocks| && Forwards(blocks, c'.block) {
          assert Edge(blocks, x, c'.block) && Edge(blocks, b, c'.block);
          UniquePredecessor(blocks, c'.block, b, x);
        }
      }
    }
  }

  lemma {:induction false} NoopsRun(p: Prims, o: Oracle, blocks: seq<Block>, x: nat, pc: nat, s: Store, t: seq<Event>, n: nat)
    requires x < |blocks| && pc + n <= |blocks[x].stmts|
    requires forall i :: 0 <= i < |blocks[x].stmts| ==> blocks[x].stmts[i].Noop?
    ensures Run(p, o, blocks, Running(x, pc, s, t), n) == Running(x, pc + n, s, t)
    decreases n
  {
    if n > 0 { NoopsRun(p, o, blocks, x, pc + 1, s, t, n - 1); }
  }

  /** How many steps a run spends in ENTRY when ENTRY only forwards control to another block. */
  function EntrySteps(blocks: seq<Block>, b: nat): nat
    requires b < |blocks|
  {
    if ENTRY in Succ(blocks, b) && Forwards(blocks, ENTRY) then |blocks[ENTRY].stmts| + 1 else 0
  }

  /** While it is in a forwarding ENTRY, a run is not affected by the threading of a switch. */
  lemma EntryAlike(p: Prims, o: Oracle, blocks: seq<Block>, b: nat, args: seq<Value>, k: nat)
    requires b < |blocks| && blocks[b].terminator.Switch? && k <= EntrySteps(blocks, b)
    ensures Run(p, o, blocks, Init(args), k) == Run(p, o, Threaded(blocks, b), Init(args), k)
    ensures k > |blocks[ENTRY].stmts| ==>
              Run(p, o, blocks, Init(args), k) == Running(blocks[ENTRY].terminator.target, 0, InitStore(args), [])
  {
    if k > 0 {
      var after := Threaded(blocks, b);
      assert after[ENTRY] == blocks[ENTRY];
      var n := if k <= |blocks[ENTRY].stmts| then k else |blocks[ENTRY].stmts|;
      NoopsRun(p, o, blocks, ENTRY, 0, InitStore(args), [], n);
      NoopsRun(p, o, after, ENTRY, 0, InitStore(args), [], n);
      if n < k {
        var c := Running(ENTRY, n, InitStore(args), []);
        RunAdd(p, o, blocks, Init(args), n, 1);
        RunAdd(p, o, after, Init(args), n, 1);
        assert Run(p, o, blocks, c, 1) == Step(p, o, blocks, c);
        assert Run(p, o, after, c, 1) == Step(p, o, after, c);
      }
    }
  }

  lemma ThreadedStart(p: Prims, o: Oracle, blocks: seq<Block>, b: nat, args: seq<Value>)
    requires b < |blocks| && blocks[b].terminator.Switch?
    ensures var c := Run(p, o, blocks, Init(args), EntrySteps(blocks, b)); ThreadRel(blocks, b, c, c)
  {
    EntryAlike(p, o, blocks, b, args, EntrySteps(blocks, b));
    if EntrySteps(blocks, b) > 0 {
      var target := blocks[ENTRY].terminator.target;
      if target in Succ(blocks, b) && target < |blocks| && Forwards(blocks, target) {
        assert Edge(blocks, ENTRY, target) && Edge(blocks, b, target);
        UniquePredecessor(blocks, target, b, ENTRY);
      }
    }
  }

  /** Sending a switch straight to where its forwarding successors go is not observable. */
  lemma ThreadedSame(blocks: seq<Block>, b: nat)
    requires b < |blocks| && blocks[b].terminator.Switch?
    ensures SameBehaviour(blocks, Threaded(blocks, b))
  {
    var after := Threaded(blocks, b);
    var rel: (Config, Config) -> bool := (c, d) => ThreadRel(blocks, b, c, d);
    var rank := c => ThreadRank(blocks, b, c);
    forall p: Prims, o: Oracle, args: seq<Value>
      ensures Covers(p, o, blocks, after, args) && Covers(p, o, after, blocks, args)
    {
      var f, g := x => Step(p, o, blocks, x), x => Step(p, o, after, x);
      forall c, d | rel(c, d) ensures SimStep(f, g, rel, rank, c, d) {
        ThreadStep(p, o, blocks, b, c, d);
      }
      var m := EntrySteps(blocks, b);
      forall k: nat | k <= m ensures Run(p, o, blocks, Init(args), k) == Run(p, o, after, Init(args), k) {
        EntryAlike(p, o, blocks, b, args, k);
      }
      ThreadedStart(p, o, blocks, b, args);
      SimCoversFrom(p, o, blocks, after, rel, rank, args, m);
    }
  }

  // ---------------------------------------------------------------- invariants of the sweep

  ghost predicate Entered(blocks: seq<Block>, v: nat) {
    exists u: nat :: Edge(blocks, u, v)
  }

  /** The measure of the pass: the blocks with an incoming edge. */
  ghost function Live(blocks: seq<Block>): set<nat> {
    set v: nat | v < |blocks| && Entered(blocks, v)
  }

  lemma StolenEdges(blocks: seq<Block>, target: nat, b: nat, u: nat, v: nat)
    requires target < |blocks| && b < |blocks| && target != b
    ensures Edge(Stolen(blocks, target, b), u, v) <==> u != target && Edge(blocks, if u == b then target else u, v)
  {
  }

  lemma ThreadedEdges(blocks: seq<Block>, b: nat, u: nat, v: nat)
    requires b < |blocks| && blocks[b].terminator.Switch?
    ensures Edge(Threaded(blocks, b), u, v)
            <==> if u == b then exists x :: x in Succ(blocks, b) && Thread(blocks, x) == v else Edge(blocks, u, v)
  {
    MapSuccessorsMember(blocks[b].terminator, x => Thread(blocks, x), v);
  }

  /** Every edge of the new body joins blocks that an edge of the old one, or two of them, joined. */
  lemma SimplifiedEdge(blocks: seq<Block>, b: nat, u: nat, v: nat)
    requires b < |blocks| && Edge(Simplified(blocks, b).0, u, v)
    ensures Entered(blocks, v)
  {
    if Steals(blocks, b) {
      var target := SoleTarget(blocks[b].terminator).value;
      if target != b { StolenEdges(blocks, target, b, u, v); }
      assert Edge(blocks, if u == b then target else u, v);
    } else if blocks[b].terminator.Switch? {
      ThreadedEdges(blocks, b, u, v);
      if u == b {
        var x :| x in Succ(blocks, b) && Thread(blocks, x) == v;
        assert Edge(blocks, if v == x then b else x, v);
      } else {
        assert Edge(blocks, u, v);
      }
    } else {
      assert Edge(blocks, u, v);
    }
  }

  lemma SimplifiedInRange(blocks: seq<Block>, b: nat)
    requires b < |blocks| && InRange(blocks)
    ensures InRange(Simplified(blocks, b).0)
  {
    forall u: nat, v: nat | Edge(Simplified(blocks, b).0, u, v) ensures v < |blocks| {
      SimplifiedEdge(blocks, b, u, v);
    }
  }

  /** Every edge still leads to a block, and none to ENTRY. */
  lemma SimplifiedWellFormed(blocks: seq<Block>, b: nat)
    requires b < |blocks| && InRange(blocks) && NoEntryEdge(blocks)
    ensures InRange(Simplified(blocks, b).0) && NoEntryEdge(Simplified(blocks, b).0)
  {
    SimplifiedInRange(blocks, b);
    forall u: nat ensures !Edge(Simplified(blocks, b).0, u, ENTRY) {
      if Edge(Simplified(blocks, b).0, u, ENTRY) { SimplifiedEdge(blocks, b, u, ENTRY); }
    }
  }

  /** Block b takes over ENTRY, and control still enters at ENTRY. */
  predicate StealsEntry(blocks: seq<Block>, b: nat)
    requires b < |blocks|
  {
    b != ENTRY && Steals(blocks, b) && SoleTarget(blocks[b].terminator).value == ENTRY
  }

  /** Every run gets stuck without having printed anything. */
  ghost predicate SilentlyStuck(blocks: seq<Block>) {
    forall p: Prims, o: Oracle, args: seq<Value> :: StuckSilently(p, o, blocks, args)
  }

  ghost predicate StuckSilently(p: Prims, o: Oracle, blocks: seq<Block>, args: seq<Value>) {
    exists n: nat :: Run(p, o, blocks, Init(args), n) == Halted(Stuck, [])
  }

  /** What the pass does with one block is not observable, unless it merges ENTRY into another block. */
  lemma SimplifiedSame(blocks: seq<Block>, b: nat)
    requires b < |blocks| && !StealsEntry(blocks, b)
    ensures SameBehaviour(blocks, Simplified(blocks, b).0)
  {
    if Steals(blocks, b) {
      if SoleTarget(blocks[b].terminator).value == ENTRY { SameRefl(blocks); } else { StolenSame(blocks, b); }
    } else if blocks[b].terminator.Switch? {
      ThreadedSame(blocks, b);
    } else {
      SameRefl(blocks);
    }
  }

  lemma UnenteredNotStolen(blocks: seq<Block>, b: nat)
    requires b < |blocks| && NoEntryEdge(blocks)
    ensures !StealsEntry(blocks, b)
  {
    if Steals(blocks, b) {
      SoleTargetStep(Init([]), blocks[b].terminator);
      assert !Edge(blocks, b, ENTRY);
    }
  }

  /** Block t is its own sole target and its own only predecessor: merging it with itself changes nothing. */
  predicate SelfTrapped(blocks: seq<Block>, t: nat) {
    t < |blocks| && Steals(blocks, t) && SoleTarget(blocks[t].terminator) == Some(t)
  }

  lemma StealShrinks(blocks: seq<Block>, b: nat)
    requires b < |blocks| && Steals(blocks, b) && !SelfTrapped(blocks, b)
    ensures Live(Stolen(blocks, SoleTarget(blocks[b].terminator).value, b)) < Live(blocks)
  {
    var target := SoleTarget(blocks[b].terminator).value;
    var after := Stolen(blocks, target, b);
    SoleTargetStep(Init([]), blocks[b].terminator);
    assert Edge(blocks, b, target);
    assert target in Live(blocks);
    forall u: nat ensures !Edge(after, u, target) {
      StolenEdges(blocks, target, b, u, target);
      if Edge(after, u, target) {
        UniquePredecessor(blocks, target, b, if u == b then target else u);
      }
    }
    forall v: nat | v < |blocks| && Entered(after, v) ensures Entered(blocks, v) {
      var u: nat :| Edge(after, u, v);
      SimplifiedEdge(blocks, b, u, v);
    }
  }

  lemma ThreadShrinks(blocks: seq<Block>, b: nat)
    requires b < |blocks| && blocks[b].terminator.Switch? && Threads(blocks, b) && !Steals(blocks, b)
    ensures Live(Threaded(blocks, b)) < Live(blocks)
  {
    var after := Threaded(blocks, b);
    forall v: nat | v < |blocks| && Entered(after, v) ensures Entered(blocks, v) {
      var u: nat :| Edge(after, u, v);
      SimplifiedEdge(blocks, b, u, v);
    }
    var x :| x in Succ(blocks, b) && x < |blocks| && Forwards(blocks, x);
    assert Edge(blocks, b, x) && x in Live(blocks);
    ForwardedNotEntered(blocks, b, x);
  }

  /** A threaded successor is left without incoming edges. */
  lemma ForwardedNotEntered(blocks: seq<Block>, b: nat, x: nat)
    requires b < |blocks| && blocks[b].terminator.Switch?
    requires x in Succ(blocks, b) && x < |blocks| && Forwards(blocks, x)
    ensures !Entered(Threaded(blocks, b), x)
  {
    if u: nat :| Edge(Threaded(blocks, b), u, x) {
      assert Edge(blocks, b, x);
      ThreadedEdges(blocks, b, u, x);
      if u == b {
        var y :| y in Succ(blocks, b) && Thread(blocks, y) == x;
        assert Edge(blocks, y, x);
        UniquePredecessor(blocks, x, b, y);
      } else {
        UniquePredecessor(blocks, x, b, u);
      }
    }
  }

  lemma UnmodifiedSame(blocks: seq<Block>, b: nat)
    requires b < |blocks| && !Simplified(blocks, b).1
    ensures Simplified(blocks, b).0 == blocks
  {
    if blocks[b].terminator.Switch? {
      MapSuccessorsId(blocks[b].terminator, x => Thread(blocks, x));
    }
  }

  /** What a body has become: the same if no modification was reported, and otherwise
      one with fewer blocks that have an incoming edge. */
  ghost predicate Shrunk(blocks: seq<Block>, after: seq<Block>, modified: bool) {
    if modified then Live(after) < Live(blocks) else after == blocks
  }

  /** Every modification leaves fewer blocks with an incoming edge, except that of a self-trapped block. */
  lemma SimplifiedShrinks(blocks: seq<Block>, b: nat)
    requires b < |blocks|
    ensures if SelfTrapped(blocks, b) then Simplified(blocks, b) == (blocks, true)
            else Shrunk(blocks, Simplified(blocks, b).0, Simplified(blocks, b).1)
  {
    if !Simplified(blocks, b).1 {
      UnmodifiedSame(blocks, b);
    } else if Steals(blocks, b) {
      if !SelfTrapped(blocks, b) { StealShrinks(blocks, b); }
    } else {
      ThreadShrinks(blocks, b);
    }
  }

  lemma MapSuccessorsId(t: Terminator, f: nat -> nat)
    requires forall x :: x in t.Successors() ==> f(x) == x
    ensures t.MapSuccessors(f) == t
  {
    if t.Switch? {
      var ts := t.switchTargets;
      assert t.Successors()[|ts.targets|] == ts.otherwise;
      var us := t.MapSuccessors(f).switchTargets.targets;
      forall i | 0 <= i < |ts.targets| ensures us[i] == ts.targets[i] {
        assert t.Successors()[i] == ts.targets[i].target;
      }
      assert us == ts.targets;
    }
  }

  lemma SweptSame(blocks: seq<Block>, k: nat)
    requires k <= |blocks| && InRange(blocks) && NoEntryEdge(blocks)
    ensures var after := Swept(blocks, k).0;
            InRange(after) && NoEntryEdge(after) && SameBehaviour(blocks, after)
  {
    var r: StepProperty := (after, m, i) => InRange(after) && NoEntryEdge(after) && SameBehaviour(blocks, after);
    SameRefl(blocks);
    forall before: seq<Block>, m: bool, i: nat | r(before, m, i) ensures r(Simplify()(before, i).0, m || Simplify()(before, i).1, i + 1) {
      if i < |before| {
        SimplifiedWellFormed(before, i);
        UnenteredNotStolen(before, i);
        SimplifiedSame(before, i);
        SameTrans(blocks, before, Simplified(before, i).0);
      }
    }
    SteppedKeeps(Simplify(), blocks, k, r);
  }

  lemma SweptNext(blocks: seq<Block>, k: nat)
    requires 0 < k <= |blocks|
    ensures Swept(blocks, k).0 == Simplified(Swept(blocks, k - 1).0, k - 1).0
    ensures Swept(blocks, k).1 == (Swept(blocks, k - 1).1 || Simplified(Swept(blocks, k - 1).0, k - 1).1)
  {
  }

  ghost predicate AnyTrapped(blocks: seq<Block>) {
    exists t: nat :: SelfTrapped(blocks, t)
  }

  lemma ShrunkTwice(a: seq<Block>, b: seq<Block>, m: bool, c: seq<Block>, n: bool)
    requires Shrunk(a, b, m) && Shrunk(b, c, n)
    ensures Shrunk(a, c, m || n)
  {
  }

  ghost predicate TrappedOrShrunk(blocks: seq<Block>, after: seq<Block>, modified: bool) {
    InRange(after) && (AnyTrapped(after) || Shrunk(blocks, after, modified))
  }

  lemma StepShrinks(blocks: seq<Block>, before: seq<Block>, m: bool, b: nat)
    requires b < |before| && TrappedOrShrunk(blocks, before, m)
    ensures TrappedOrShrunk(blocks, Simplified(before, b).0, m || Simplified(before, b).1)
  {
    SimplifiedInRange(before, b);
    if t: nat :| SelfTrapped(before, t) {
      SimplifiedTrapped(before, b, t);
    } else {
      SimplifiedShrinks(before, b);
      ShrunkTwice(blocks, before, m, Simplified(before, b).0, Simplified(before, b).1);
    }
  }

  /** A sweep leaves a self-trapped block, or it shrinks the set of entered blocks if it reports a modification. */
  lemma SweptShrinks(blocks: seq<Block>, k: nat)
    requires k <= |blocks| && InRange(blocks)
    ensures TrappedOrShrunk(blocks, Swept(blocks, k).0, Swept(blocks, k).1)
  {
    var r: StepProperty := (after, m, i) => TrappedOrShrunk(blocks, after, m);
    forall before: seq<Block>, m: bool, i: nat | r(before, m, i) ensures r(Simplify()(before, i).0, m || Simplify()(before, i).1, i + 1) {
      if i < |before| { StepShrinks(blocks, before, m, i); }
    }
    SteppedKeeps(Simplify(), blocks, k, r);
  }

  /** A sweep without modification has changed nothing and found nothing to do in any block. */
  lemma SweptSettled(blocks: seq<Block>, k: nat, b: nat)
    requires b < k <= |blocks| && !Swept(blocks, k).1
    ensures Swept(blocks, k).0 == blocks && !Steals(blocks, b) && !Threads(blocks, b)
  {
    var f := Simplify();
    forall i: nat | i < k ensures f(blocks, i).1 || f(blocks, i).0 == blocks {
      if !Simplified(blocks, i).1 { UnmodifiedSame(blocks, i); }
    }
    SteppedIdle(f, blocks, k, b);
    assert !Simplified(blocks, b).1;
  }

  // ---------------------------------------------------------------- when the loop settles

  lemma {:induction false} PredecessorsUptoSame(blocks: seq<Block>, after: seq<Block>, k: nat, t: nat)
    requires k <= |blocks| == |after|
    requires forall u: nat :: u < k ==> multiset(Succ(after, u))[t] == multiset(Succ(blocks, u))[t]
    ensures PredecessorsUpto(after, k, t) == PredecessorsUpto(blocks, k, t)
    decreases k
  {
    if k > 0 {
      PredecessorsUptoSame(blocks, after, k - 1, t);
      var x, y := multiset(Succ(after, k - 1))[t], multiset(Succ(blocks, k - 1))[t];
      assert x == y;
      assert PredecessorsUpto(after, k, t) == PredecessorsUpto(after, k - 1, t) + Repeat(k - 1, x);
      assert PredecessorsUpto(blocks, k, t) == PredecessorsUpto(blocks, k - 1, t) + Repeat(k - 1, y);
    }
  }

  /** No block but t itself gets an edge to a self-trapped t. */
  lemma TrappedEdges(blocks: seq<Block>, b: nat, t: nat, u: nat)
    requires b < |blocks| && SelfTrapped(blocks, t) && b != t
    ensures Edge(Simplified(blocks, b).0, u, t) ==> u == t
    ensures Simplified(blocks, b).0[t] == blocks[t]
  {
    var after := Simplified(blocks, b).0;
    SoleTargetStep(Init([]), blocks[t].terminator);
    assert Edge(blocks, t, t);
    if Steals(blocks, b) {
      var target := SoleTarget(blocks[b].terminator).value;
      SoleTargetStep(Init([]), blocks[b].terminator);
      assert Edge(blocks, b, target);
      if target == t { UniquePredecessor(blocks, t, t, b); }
      if target != b { StolenEdges(blocks, target, b, u, t); }
      if Edge(after, u, t) {
        UniquePredecessor(blocks, t, t, if u == b && target != b then target else u);
      }
    } else if blocks[b].terminator.Switch? {
      ThreadedEdges(blocks, b, u, t);
      if Edge(after, u, t) && u == b {
        var x :| x in Succ(blocks, b) && Thread(blocks, x) == t;
        assert Edge(blocks, if x == t then b else x, t);
        UniquePredecessor(blocks, t, t, if x == t then b else x);
      } else if Edge(after, u, t) {
        UniquePredecessor(blocks, t, t, u);
      }
    } else if Edge(after, u, t) {
      UniquePredecessor(blocks, t, t, u);
    }
  }

  lemma SimplifiedTrapped(blocks: seq<Block>, b: nat, t: nat)
    requires b < |blocks| && SelfTrapped(blocks, t)
    ensures SelfTrapped(Simplified(blocks, b).0, t) && (b == t ==> Simplified(blocks, b).1)
  {
    if b != t {
      var after := Simplified(blocks, b).0;
      TrappedEdges(blocks, b, t, t);
      SoleTargetStep(Init([]), blocks[t].terminator);
      assert Edge(blocks, t, t);
      forall u: nat | u < |blocks| ensures multiset(Succ(after, u))[t] == multiset(Succ(blocks, u))[t] {
        TrappedEdges(blocks, b, t, u);
        if u != t {
          if Edge(blocks, u, t) { UniquePredecessor(blocks, t, t, u); }
          assert t !in Succ(after, u) && t !in Succ(blocks, u);
          assert t !in multiset(Succ(after, u)) && t !in multiset(Succ(blocks, u));
        }
      }
      PredecessorsUptoSame(blocks, after, |blocks|, t);
    }
  }

  lemma SweptTrapped(blocks: seq<Block>, k: nat, t: nat)
    requires k <= |blocks| && SelfTrapped(blocks, t)
    ensures SelfTrapped(Swept(blocks, k).0, t) && (t < k ==> Swept(blocks, k).1)
  {
    var r: StepProperty := (after, m, i) => SelfTrapped(after, t) && (t < i ==> m);
    forall before: seq<Block>, m: bool, i: nat | r(before, m, i) ensures r(Simplify()(before, i).0, m || Simplify()(before, i).1, i + 1) {
      if i < |before| { SimplifiedTrapped(before, i, t); }
    }
    SteppedKeeps(Simplify(), blocks, k, r);
  }

  function FullSweep(blocks: seq<Block>): (r: (seq<Block>, bool))
    ensures |r.0| == |blocks|
  {
    Swept(blocks, |blocks|)
  }

  function SweepOnce(): seq<Block> -> seq<Block> {
    blocks => FullSweep(blocks).0
  }

  /** The body after n sweeps of the loop. */
  function Sweeps(blocks: seq<Block>, n: nat): seq<Block> {
    Iter(SweepOnce(), blocks, n)
  }

  lemma SweepsAdd(blocks: seq<Block>, j: nat, k: nat)
    ensures Sweeps(Sweeps(blocks, j), k) == Sweeps(blocks, j + k)
  {
    IterAdd(SweepOnce(), blocks, j, k);
  }

  /** Any number of sweeps keeps every run's trace and outcome, whether or not the loop ever ends. */
  lemma SweepsSame(blocks: seq<Block>, n: nat)
    requires InRange(blocks) && NoEntryEdge(blocks)
    ensures var after := Sweeps(blocks, n);
            InRange(after) && NoEntryEdge(after) && SameBehaviour(blocks, after)
  {
    var keeps := (x: seq<Block>) => InRange(x) && NoEntryEdge(x) && SameBehaviour(blocks, x);
    SameRefl(blocks);
    forall x | keeps(x) ensures keeps(SweepOnce()(x)) {
      SweptSame(x, |x|);
      SameTrans(blocks, x, FullSweep(x).0);
    }
    IterKeeps(SweepOnce(), keeps, blocks, n);
  }

  lemma FullSweepTrapped(blocks: seq<Block>, t: nat)
    requires SelfTrapped(blocks, t)
    ensures SelfTrapped(FullSweep(blocks).0, t) && FullSweep(blocks).1
  {
    SweptTrapped(blocks, |blocks|, t);
  }

  lemma {:induction false} SweepsTrapped(blocks: seq<Block>, t: nat, n: nat)
    requires SelfTrapped(blocks, t)
    ensures SelfTrapped(Sweeps(blocks, n), t)
    decreases n
  {
    if n > 0 {
      FullSweepTrapped(blocks, t);
      SweepsTrapped(FullSweep(blocks).0, t, n - 1);
    }
  }

  /** Once a block is its own only predecessor, every later sweep reports a modification. */
  lemma TrappedForever(blocks: seq<Block>, t: nat, n: nat)
    requires SelfTrapped(blocks, t)
    ensures FullSweep(Sweeps(blocks, n)).1
  {
    SweepsTrapped(blocks, t, n);
    FullSweepTrapped(Sweeps(blocks, n), t);
  }

  lemma IdleSame(blocks: seq<Block>)
    requires !FullSweep(blocks).1
    ensures FullSweep(blocks).0 == blocks
  {
    if blocks != [] { SweptSettled(blocks, |blocks|, 0); }
  }

  /** Up to the k-th, no sweep leaves a self-trapped block. */
  ghost predicate UntrappedUpto(blocks: seq<Block>, k: nat) {
    forall j: nat, t: nat :: j <= k ==> !SelfTrapped(Sweeps(blocks, j), t)
  }

  /** No sweep leaves a self-trapped block, up to one sweep for each block. */
  ghost predicate Settles(blocks: seq<Block>) {
    UntrappedUpto(blocks, |blocks|)
  }

  lemma UntrappedNext(blocks: seq<Block>, k: nat)
    requires k > 0 && UntrappedUpto(blocks, k)
    ensures UntrappedUpto(FullSweep(blocks).0, k - 1) && !AnyTrapped(FullSweep(blocks).0)
  {
    var next := FullSweep(blocks).0;
    assert Sweeps(blocks, 1) == Sweeps(next, 0) == next;
    forall j: nat, t: nat | j <= k - 1 ensures !SelfTrapped(Sweeps(next, j), t) { SweepsAdd(blocks, 1, j); }
  }

  lemma ProperSubset(a: set<nat>, b: set<nat>)
    requires a < b
    ensures |a| < |b|
  {
    assert b == a + (b - a);
  }

  lemma {:induction false} IdsCount(n: nat)
    ensures |Ids(n)| == n
  {
    if n > 0 { IdsCount(n - 1); }
  }

  ghost predicate NothingToDo(blocks: seq<Block>) {
    forall b :: 0 <= b < |blocks| ==> !Steals(blocks, b) && !Threads(blocks, b)
  }

  /** Control certainly goes from the terminator to x: by a jump, or as the first entry for the constant that a switch
      is on, or as its default if it has no entry for that. */
  ghost predicate CertainlyTo(t: Terminator, x: nat) {
    || t == Goto(x)
    || (exists n, ts, i: nat :: t == Switch(Constant(ScalarConst(n)), ts) && ts.IsFirst(n, i)
          && x == if i < |ts.targets| then ts.targets[i].target else ts.otherwise)
  }

  lemma SoleTargetExactly(t: Terminator, x: nat)
    ensures SoleTarget(t) == Some(x) <==> CertainlyTo(t, x)
  {
    match t
    case Switch(Constant(ScalarConst(n)), ts) =>
      var y := ts.BranchForValue(n);
      var i: nat :| ts.IsFirst(n, i) && y == if i < |ts.targets| then ts.targets[i].target else ts.otherwise;
      if CertainlyTo(t, x) {
        var j: nat :| ts.IsFirst(n, j) && x == if j < |ts.targets| then ts.targets[j].target else ts.otherwise;
        assert i == j;
      }
    case _ =>
  }

  /** A block is merged with another exactly if control certainly goes there and no other way leads there. */
  lemma StealsExactly(blocks: seq<Block>, b: nat)
    requires b < |blocks|
    ensures Steals(blocks, b) <==> exists x: nat :: x < |blocks| && CertainlyTo(blocks[b].terminator, x) && OneWay(blocks, x)
  {
    var t := blocks[b].terminator;
    if SoleTarget(t).Some? {
      var x := SoleTarget(t).value;
      SoleTargetExactly(t, x);
      OneWayExactly(blocks, x);
      SoleTargetStep(Init([]), t);
      PredecessorListMember(blocks, x, b);
      forall y: nat | CertainlyTo(t, y) ensures y == x { SoleTargetExactly(t, y); }
    } else {
      forall y: nat ensures !CertainlyTo(t, y) { SoleTargetExactly(t, y); }
    }
  }

  /** The block has nothing but no-ops before a jump, and one way at most leads to it. */
  ghost predicate OnlyPassed(blocks: seq<Block>, x: nat) {
    && x < |blocks| && OneWay(blocks, x) && blocks[x].terminator.Goto?
    && forall s :: s in blocks[x].stmts ==> s == Noop
  }

  lemma ForwardsExactly(blocks: seq<Block>, x: nat)
    requires x < |blocks|
    ensures Forwards(blocks, x) <==> OnlyPassed(blocks, x)
  {
    OneWayExactly(blocks, x);
    var ss := blocks[x].stmts;
    assert forall i :: 0 <= i < |ss| ==> ss[i] in ss;
  }

  /** A switch is threaded exactly if it leads to a block that control only passes through. */
  lemma ThreadsExactly(blocks: seq<Block>, b: nat)
    requires b < |blocks|
    ensures Threads(blocks, b) <==> blocks[b].terminator.Switch? && exists i, x :: LeadsTo(blocks, b, i, x) && OnlyPassed(blocks, x)
  {
    if Threads(blocks, b) {
      var x :| x in Succ(blocks, b) && x < |blocks| && Forwards(blocks, x);
      var i :| 0 <= i < |Succ(blocks, b)| && Succ(blocks, b)[i] == x;
      SuccessorsExactly(blocks, b, i, x);
      ForwardsExactly(blocks, x);
    }
    if i, x :| LeadsTo(blocks, b, i, x) && OnlyPassed(blocks, x) {
      SuccessorsExactly(blocks, b, i, x);
      ForwardsExactly(blocks, x);
    }
  }

  /** No block is the only way to where it certainly leads, and no switch leads to a block that is only passed through. */
  ghost predicate NothingLeft(blocks: seq<Block>) {
    && (forall b: nat, x: nat :: b < |blocks| && x < |blocks| && CertainlyTo(blocks[b].terminator, x) ==> !OneWay(blocks, x))
    && (forall b: nat, i, x :: LeadsTo(blocks, b, i, x) && blocks[b].terminator.Switch? ==> !OnlyPassed(blocks, x))
  }

  lemma NothingExactly(blocks: seq<Block>)
    ensures NothingToDo(blocks) <==> NothingLeft(blocks)
  {
    if NothingLeft(blocks) {
      forall b: nat | b < |blocks| ensures !Steals(blocks, b) && !Threads(blocks, b) {
        StealsExactly(blocks, b);
        ThreadsExactly(blocks, b);
      }
    }
    if NothingToDo(blocks) {
      forall b: nat, x: nat | b < |blocks| && x < |blocks| && CertainlyTo(blocks[b].terminator, x) ensures !OneWay(blocks, x) {
        StealsExactly(blocks, b);
      }
      forall b: nat, i, x | LeadsTo(blocks, b, i, x) && blocks[b].terminator.Switch? ensures !OnlyPassed(blocks, x) {
        ThreadsExactly(blocks, b);
      }
    }
  }

  lemma NothingIdle(blocks: seq<Block>)
    requires NothingToDo(blocks)
    ensures !FullSweep(blocks).1
  {
    var r: StepProperty := (after, m, i) => after == blocks && !m;
    forall before: seq<Block>, m: bool, i: nat | r(before, m, i) ensures r(Simplify()(before, i).0, m || Simplify()(before, i).1, i + 1) {
      if i < |before| { UnmodifiedSame(before, i); }
    }
    SteppedKeeps(Simplify(), blocks, |blocks|, r);
  }

  lemma SuccessorLive(blocks: seq<Block>, b: nat, x: nat)
    requires InRange(blocks) && b < |blocks| && x in Succ(blocks, b)
    ensures x in Live(blocks)
  {
    assert Edge(blocks, b, x);
  }

  lemma UnenteredAt(blocks: seq<Block>, b: nat)
    requires InRange(blocks) && Live(blocks) == {} && b < |blocks|
    ensures !Steals(blocks, b) && !Threads(blocks, b)
  {
    if Steals(blocks, b) {
      SoleTargetStep(Init([]), blocks[b].terminator);
      SuccessorLive(blocks, b, SoleTarget(blocks[b].terminator).value);
    } else if Threads(blocks, b) {
      var x :| x in Succ(blocks, b) && x < |blocks| && Forwards(blocks, x);
      SuccessorLive(blocks, b, x);
    }
  }

  lemma UnenteredIdle(blocks: seq<Block>)
    requires InRange(blocks) && Live(blocks) == {}
    ensures !FullSweep(blocks).1
  {
    forall b: nat | b < |blocks| ensures !Steals(blocks, b) && !Threads(blocks, b) { UnenteredAt(blocks, b); }
    NothingIdle(blocks);
  }

  /** Each sweep that reports a modification leaves fewer blocks with an incoming edge. */
  lemma {:induction false} SettlesIn(blocks: seq<Block>, k: nat) returns (n: nat)
    requires InRange(blocks) && UntrappedUpto(blocks, k) && |Live(blocks)| <= k
    ensures n <= k && !FullSweep(Sweeps(blocks, n)).1
    decreases k
  {
    n := 0;
    if FullSweep(blocks).1 {
      var next := FullSweep(blocks).0;
      SweptShrinks(blocks, |blocks|);
      if k == 0 {
        UnenteredIdle(blocks);
      } else {
        UntrappedNext(blocks, k);
        ProperSubset(Live(next), Live(blocks));
        var m := SettlesIn(next, k - 1);
        n := m + 1;
      }
    }
  }

  lemma IdleUntrapped(blocks: seq<Block>, n: nat, k: nat, t: nat)
    requires !FullSweep(Sweeps(blocks, n)).1
    ensures !SelfTrapped(Sweeps(blocks, k), t)
  {
    var f, busy, bad := SweepOnce(), (x: seq<Block>) => FullSweep(x).1, (x: seq<Block>) => SelfTrapped(x, t);
    forall x | bad(x) ensures bad(f(x)) && busy(x) { FullSweepTrapped(x, t); }
    forall x | !busy(x) ensures f(x) == x { IdleSame(x); }
    IterIdle(f, busy, bad, blocks, n, k);
  }

  /** The loop ends exactly if no sweep leaves a block that is its own sole target and its own only predecessor.
      It is enough to look at as many sweeps as there are blocks, within which it then ends. */
  lemma SettlesExactly(blocks: seq<Block>)
    requires InRange(blocks)
    ensures (exists n: nat :: !FullSweep(Sweeps(blocks, n)).1) <==> Settles(blocks)
    ensures Settles(blocks) ==> exists n: nat :: n <= |blocks| && !FullSweep(Sweeps(blocks, n)).1
  {
    if n: nat :| !FullSweep(Sweeps(blocks, n)).1 {
      forall k: nat, t: nat ensures !SelfTrapped(Sweeps(blocks, k), t) { IdleUntrapped(blocks, n, k, t); }
    }
    if Settles(blocks) {
      LiveCount(blocks);
      var n := SettlesIn(blocks, |blocks|);
    }
  }

  lemma LiveCount(blocks: seq<Block>)
    ensures |Live(blocks)| <= |blocks|
  {
    IdsCount(|blocks|);
    assert Live(blocks) <= Ids(|blocks|);
    if Live(blocks) != Ids(|blocks|) { ProperSubset(Live(blocks), Ids(|blocks|)); }
  }

  /** Then no sweep at all leaves one. */
  lemma SettlesNext(blocks: seq<Block>)
    requires InRange(blocks) && Settles(blocks)
    ensures Settles(FullSweep(blocks).0) && !AnyTrapped(FullSweep(blocks).0)
  {
    var next := FullSweep(blocks).0;
    SettlesExactly(blocks);
    var n: nat :| !FullSweep(Sweeps(blocks, n)).1;
    assert Sweeps(blocks, 1) == Sweeps(next, 0) == next;
    forall k: nat, t: nat ensures !SelfTrapped(Sweeps(next, k), t) {
      SweepsAdd(blocks, 1, k);
      IdleUntrapped(blocks, n, 1 + k, t);
    }
  }

  /** Wherever the loop could stop, it stops with the same body. */
  lemma IdleUnique(blocks: seq<Block>, m: nat, n: nat)
    requires m <= n && !FullSweep(Sweeps(blocks, m)).1
    ensures Sweeps(blocks, n) == Sweeps(blocks, m)
  {
    SweepsAdd(blocks, m, n - m);
    IdleSame(Sweeps(blocks, m));
    IterFixed(SweepOnce(), Sweeps(blocks, m), n - m);
  }

  /** A body with nothing to merge or thread is settled. */
  lemma IdleSettles(blocks: seq<Block>)
    requires NothingToDo(blocks)
    ensures Settles(blocks)
  {
    NothingIdle(blocks);
    assert Sweeps(blocks, 0) == blocks;
    forall k: nat, t: nat ensures !SelfTrapped(Sweeps(blocks, k), t) { IdleUntrapped(blocks, 0, k, t); }
  }

  const CONSTANT_SWITCH := [
    Block([], Switch(Constant(ScalarConst(1)), SwitchTargets([SwitchTarget(1, 1)], 2))),
    Block([], Return),
    Block([], Goto(2))]

  const FOLDED := [Block([], Return), Block([], Unreachable), Block([], Goto(2))]

  lemma ConstantSwitchFolds()
    ensures Simplified(CONSTANT_SWITCH, 0).0 == FOLDED
  {
    var blocks := CONSTANT_SWITCH;
    var t := blocks[0].terminator;
    assert Succ(blocks, 0) == [1, 2] && Succ(blocks, 1) == [] && Succ(blocks, 2) == [2];
    assert multiset([1, 2])[1] == 1 && multiset([2])[1] == 0;
    assert PredecessorsUpto(blocks, 1, 1) == [0];
    assert PredecessorsUpto(blocks, 2, 1) == [0];
    assert t.switchTargets.BranchForValue(1) == 1;
    assert SoleTarget(t) == Some(1);
    assert blocks[0].stmts + blocks[1].stmts == [];
    assert Stolen(blocks, 1, 0) == FOLDED;
  }

  lemma FoldedTrapped()
    ensures SelfTrapped(FOLDED, 2)
  {
    assert Succ(FOLDED, 0) == [] && Succ(FOLDED, 1) == [] && Succ(FOLDED, 2) == [2];
    assert multiset([2])[2] == 1;
    assert PredecessorsUpto(FOLDED, 1, 2) == [];
    assert PredecessorsUpto(FOLDED, 2, 2) == [];
  }

  lemma ConstantSwitchTrapped()
    ensures SelfTrapped(FullSweep(CONSTANT_SWITCH).0, 2) && FullSweep(CONSTANT_SWITCH).1
  {
    ConstantSwitchFolds();
    FoldedTrapped();
    SweptNext(CONSTANT_SWITCH, 1);
    SimplifiedTrapped(FOLDED, 1, 2);
    SweptNext(CONSTANT_SWITCH, 2);
    SimplifiedTrapped(Simplified(FOLDED, 1).0, 2, 2);
    SweptNext(CONSTANT_SWITCH, 3);
  }

  /** The loop does not settle on this body, every block of which is reachable: folding the constant
      switch takes from block 2 its other predecessor. */
  lemma ConstantSwitchNeverSettles(n: nat)
    ensures FullSweep(Sweeps(CONSTANT_SWITCH, n)).1
  {
    ConstantSwitchTrapped();
    if n > 0 { TrappedForever(FullSweep(CONSTANT_SWITCH).0, 2, n - 1); }
  }

  // ---------------------------------------------------------------- when an edge enters ENTRY

  /** Merging ENTRY into another block leaves every run stuck at once. */
  lemma EntryStolen(p: Prims, o: Oracle, blocks: seq<Block>, b: nat, args: seq<Value>)
    requires b < |blocks| && Steals(blocks, b) && b != ENTRY
    requires SoleTarget(blocks[b].terminator).value == ENTRY
    ensures Run(p, o, Stolen(blocks, ENTRY, b), Init(args), 1) == Halted(Stuck, [])
  {
    assert Run(p, o, Stolen(blocks, ENTRY, b), Init(args), 1) == Step(p, o, Stolen(blocks, ENTRY, b), Init(args));
  }

  /** Once ENTRY is merged away, a run shows nothing, and from its first step that it is stuck. */
  lemma EntryStolenShows(p: Prims, o: Oracle, blocks: seq<Block>, b: nat, args: seq<Value>, n: nat)
    requires b < |blocks| && StealsEntry(blocks, b)
    ensures ObsAt(p, o, Stolen(blocks, ENTRY, b), args, n) == if n == 0 then Going([]) else Finished(Stuck, [])
  {
    if n > 0 {
      var after := Stolen(blocks, ENTRY, b);
      EntryStolen(p, o, blocks, b, args);
      RunAdd(p, o, after, Init(args), 1, n - 1);
      RunHalted(p, o, after, Halted(Stuck, []), n - 1);
    }
  }

  /** A run that gets stuck silently shows nothing before. */
  lemma StuckShows(p: Prims, o: Oracle, blocks: seq<Block>, args: seq<Value>, n: nat)
    requires StuckSilently(p, o, blocks, args)
    ensures ObsAt(p, o, blocks, args, n) in {Going([]), Finished(Stuck, [])}
  {
    var m: nat :| Run(p, o, blocks, Init(args), m) == Halted(Stuck, []);
    var c := Run(p, o, blocks, Init(args), n);
    if m <= n {
      RunAdd(p, o, blocks, Init(args), m, n - m);
      RunHalted(p, o, blocks, Halted(Stuck, []), n - m);
    } else {
      RunAdd(p, o, blocks, Init(args), n, m - n);
      TraceGrows(p, o, blocks, c, m - n);
      if c.Halted? { RunHalted(p, o, blocks, c, m - n); }
    }
  }

  /** What the pass does with a block keeps behaviour exactly if it does not merge ENTRY into another
      block, or if nothing was to be kept: every run got stuck without having printed anything. */
  lemma SimplifiedSameExactly(blocks: seq<Block>, b: nat)
    requires b < |blocks|
    ensures SameBehaviour(blocks, Simplified(blocks, b).0) <==> !StealsEntry(blocks, b) || SilentlyStuck(blocks)
  {
    if StealsEntry(blocks, b) {
      var after := Stolen(blocks, ENTRY, b);
      if SameBehaviour(blocks, after) {
        forall p: Prims, o: Oracle, args: seq<Value> ensures StuckSilently(p, o, blocks, args) {
          EntryStolenShows(p, o, blocks, b, args, 1);
          assert Covers(p, o, after, blocks, args);
          assert Shows(p, o, blocks, args, ObsAt(p, o, after, args, 1));
        }
      }
      if SilentlyStuck(blocks) {
        forall p: Prims, o: Oracle, args: seq<Value>
          ensures Covers(p, o, blocks, after, args) && Covers(p, o, after, blocks, args)
        {
          SilentCovers(p, o, blocks, b, args);
        }
      }
    } else {
      SimplifiedSame(blocks, b);
    }
  }

  lemma SilentCovers(p: Prims, o: Oracle, blocks: seq<Block>, b: nat, args: seq<Value>)
    requires b < |blocks| && StealsEntry(blocks, b) && SilentlyStuck(blocks)
    ensures var after := Stolen(blocks, ENTRY, b);
            Covers(p, o, blocks, after, args) && Covers(p, o, after, blocks, args)
  {
    var after := Stolen(blocks, ENTRY, b);
    assert StuckSilently(p, o, blocks, args);
    var m: nat :| Run(p, o, blocks, Init(args), m) == Halted(Stuck, []);
    EntryStolenShows(p, o, blocks, b, args, 0);
    EntryStolenShows(p, o, blocks, b, args, 1);
    assert ObsAt(p, o, blocks, args, 0) == Going([]) && ObsAt(p, o, blocks, args, m) == Finished(Stuck, []);
    forall n: nat ensures Shows(p, o, after, args, ObsAt(p, o, blocks, args, n)) { StuckShows(p, o, blocks, args, n); }
    forall n: nat ensures Shows(p, o, blocks, args, ObsAt(p, o, after, args, n)) { EntryStolenShows(p, o, blocks, b, args, n); }
  }

  const ENTRY_LOOP := [
    Block([], Switch(Load(Place(Local(0), [])), SwitchTargets([SwitchTarget(1, 1)], 2))),
    Block([Print(Constant(ScalarConst(7)), false)], Goto(ENTRY)),
    Block([], Return)]

  lemma EntryLoopFirst()
    ensures Simplified(ENTRY_LOOP, 0).0 == ENTRY_LOOP
  {
    var t := ENTRY_LOOP[0].terminator;
    assert t.Successors() == [1, 2];
    assert ENTRY_LOOP[1].stmts[0].Print?;
    MapSuccessorsId(t, x => Thread(ENTRY_LOOP, x));
  }

  lemma EntryLoopPredecessors()
    ensures PredecessorList(ENTRY_LOOP, ENTRY) == [1]
  {
    assert Succ(ENTRY_LOOP, 0) == [1, 2] && Succ(ENTRY_LOOP, 1) == [0] && Succ(ENTRY_LOOP, 2) == [];
    assert multiset([1, 2])[0] == 0 && multiset([0])[0] == 1;
    assert PredecessorsUpto(ENTRY_LOOP, 1, 0) == [];
    assert PredecessorsUpto(ENTRY_LOOP, 2, 0) == [1];
  }

  lemma EntryLoopSwept()
    ensures Swept(ENTRY_LOOP, 2).0 == Stolen(ENTRY_LOOP, ENTRY, 1)
    ensures Steals(ENTRY_LOOP, 1) && SoleTarget(ENTRY_LOOP[1].terminator) == Some(ENTRY)
  {
    EntryLoopFirst();
    EntryLoopPredecessors();
    SweptNext(ENTRY_LOOP, 1);
    SweptNext(ENTRY_LOOP, 2);
  }

  /** So the absence of edges into ENTRY cannot be dropped: on this loop through ENTRY
      the original returns and the body after two blocks of a sweep does not. */
  lemma EntryLoopBroken(p: Prims, o: Oracle)
    ensures ObsAt(p, o, ENTRY_LOOP, [Scalar(0)], 2) == Finished(Returned(Undef), [])
    ensures !Shows(p, o, Swept(ENTRY_LOOP, 2).0, [Scalar(0)], Finished(Returned(Undef), []))
  {
    EntryLoopSwept();
    var args := [Scalar(0)];
    var c := Init(args);
    assert Get(c.store, Local(0)) == Scalar(0);
    var ts := ENTRY_LOOP[0].terminator.switchTargets;
    assert ts.BranchForValue(0) == 2 by { assert SwitchTargets(ts.targets[1..], 2).BranchForValue(0) == 2; }
    var d := Step(p, o, ENTRY_LOOP, c);
    assert d == Running(2, 0, c.store, []);
    assert Step(p, o, ENTRY_LOOP, d) == Halted(Returned(Undef), []);
    RunAdd(p, o, ENTRY_LOOP, c, 1, 1);
    var after := Swept(ENTRY_LOOP, 2).0;
    EntryStolen(p, o, ENTRY_LOOP, 1, args);
    forall n: nat ensures ObsAt(p, o, after, args, n) != Finished(Returned(Undef), []) {
      if n > 0 {
        RunAdd(p, o, after, c, 1, n - 1);
        RunHalted(p, o, after, Halted(Stuck, []), n - 1);
      }
    }
  }

  // ---------------------------------------------------------------- the pass

  method RemoveNoops(body: Body)
    modifies body
    ensures body.blocks == NoopsRemoved(old(body.blocks), |old(body.blocks)|) && body.locals == old(body.locals)
  {
    for i := 0 to |body.blocks|
      invariant body.blocks == NoopsRemoved(old(body.blocks), i) && body.locals == old(body.locals)
    {
      body.blocks := body.blocks[i := BlockWithoutNoops(body.blocks[i])];
    }
  }

  method Steal(body: Body, target: nat, block: nat)
    requires target < |body.blocks| && block < |body.blocks|
    modifies body
    ensures body.blocks == Stolen(old(body.blocks), target, block) && body.locals == old(body.locals)
  {
    ghost var start := body.blocks;
    var newStmts := body.blocks[target].stmts;
    body.blocks := body.blocks[target := body.blocks[target].(stmts := [])];
    body.blocks := body.blocks[block := body.blocks[block].(stmts := body.blocks[block].stmts + newStmts)];
    var newTerminator := body.blocks[target].terminator;
    body.blocks := body.blocks[target := body.blocks[target].(terminator := Unreachable)];
    body.blocks := body.blocks[block := body.blocks[block].(terminator := newTerminator)];
    assert body.blocks == Stolen(start, target, block) by {
      if target == block { assert [] + newStmts == newStmts; }
    }
  }

  method SimplifyBlock(body: Body, block: nat) returns (modified: bool)
    requires block < |body.blocks| && InRange(body.blocks)
    modifies body
    ensures (body.blocks, modified) == Simplified(old(body.blocks), block) && body.locals == old(body.locals)
  {
    var sole := SoleTarget(body.blocks[block].terminator);
    if sole.Some? {
      SoleTargetStep(Init([]), body.blocks[block].terminator);
      assert Edge(body.blocks, block, sole.value);
      if |PredecessorList(body.blocks, sole.value)| == 1 {
        Steal(body, sole.value, block);
        return true;
      }
    }
    if !body.blocks[block].terminator.Switch? { return false; }
    modified := ThreadSwitch(body, block);
  }

  method ThreadSwitch(body: Body, block: nat) returns (modified: bool)
    requires block < |body.blocks| && InRange(body.blocks) && body.blocks[block].terminator.Switch?
    modifies body
    ensures body.blocks == Threaded(old(body.blocks), block) && modified == Threads(old(body.blocks), block)
    ensures body.locals == old(body.locals)
  {
    ghost var start := body.blocks;
    var succs := Succ(body.blocks, block);
    var targets: map<nat, nat> := map[];
    for i := 0 to |succs|
      invariant body.blocks == start && body.locals == old(body.locals)
      invariant forall x :: x in targets <==> x in succs[..i] && x < |start| && Forwards(start, x)
      invariant forall x :: x in targets ==> targets[x] == start[x].terminator.target
    {
      assert Edge(start, block, succs[i]);
      if Forwards(body.blocks, succs[i]) {
        targets := targets[succs[i] := body.blocks[succs[i]].terminator.target];
      }
    }
    modified := targets != map[];
    assert modified == Threads(start, block) by {
      if x :| x in succs && x < |start| && Forwards(start, x) { assert x in targets; }
    }
    var f := x => if x in targets then targets[x] else x;
    MapSuccessorsSame(start[block].terminator, f, x => Thread(start, x));
    body.blocks := body.blocks[block := body.blocks[block].(terminator := body.blocks[block].terminator.MapSuccessors(f))];
  }

  method Sweep(body: Body) returns (modified: bool)
    requires InRange(body.blocks) && NoEntryEdge(body.blocks)
    modifies body
    ensures (body.blocks, modified) == Swept(old(body.blocks), |old(body.blocks)|) && body.locals == old(body.locals)
  {
    ghost var start := body.blocks;
    modified := false;
    for block := 0 to |body.blocks|
      invariant |body.blocks| == |start| && body.locals == old(body.locals)
      invariant InRange(body.blocks) && NoEntryEdge(body.blocks)
      invariant body.blocks == Swept(start, block).0 && modified == Swept(start, block).1
    {
      ghost var before := body.blocks;
      var now := SimplifyBlock(body, block);
      modified := modified || now;
      SimplifiedWellFormed(before, block);
      SweptNext(start, block + 1);
    }
  }

  lemma NoopsRemovedEdges(blocks: seq<Block>, u: nat, v: nat)
    ensures Edge(NoopsRemoved(blocks, |blocks|), u, v) <==> Edge(blocks, u, v)
  {
  }

  lemma NoopsRemovedWellFormed(blocks: seq<Block>)
    requires InRange(blocks) && NoEntryEdge(blocks)
    ensures var after := NoopsRemoved(blocks, |blocks|); InRange(after) && NoEntryEdge(after)
  {
    var after := NoopsRemoved(blocks, |blocks|);
    forall u: nat, v: nat ensures Edge(after, u, v) <==> Edge(blocks, u, v) { NoopsRemovedEdges(blocks, u, v); }
  }

  lemma {:induction false} WithoutNoopsClean(ss: seq<Stmt>)
    ensures forall i :: 0 <= i < |WithoutNoops(ss)| ==> !WithoutNoops(ss)[i].Noop?
  {
    if ss != [] { WithoutNoopsClean(ss[..|ss| - 1]); }
  }

  lemma NoopsRemovedForwards(blocks: seq<Block>, x: nat)
    requires x < |blocks| && Forwards(NoopsRemoved(blocks, |blocks|), x)
    ensures Forwards(blocks, x)
  {
    var ss := blocks[x].stmts;
    PredecessorsUptoSame(blocks, NoopsRemoved(blocks, |blocks|), |blocks|, x);
    WithoutNoopsClean(ss);
    forall i | 0 <= i < |ss| ensures ss[i].Noop? {
      if !ss[i].Noop? { WithoutNoopsAt(ss, i); }
    }
  }

  lemma NoopsRemovedThreads(blocks: seq<Block>, b: nat)
    requires b < |blocks| && Threads(NoopsRemoved(blocks, |blocks|), b)
    ensures Threads(blocks, b)
  {
    var after := NoopsRemoved(blocks, |blocks|);
    var x :| x in Succ(after, b) && x < |after| && Forwards(after, x);
    NoopsRemovedForwards(blocks, x);
  }

  lemma NoopsRemovedSteals(blocks: seq<Block>, b: nat)
    requires b < |blocks| && Steals(NoopsRemoved(blocks, |blocks|), b)
    ensures Steals(blocks, b)
  {
    var after := NoopsRemoved(blocks, |blocks|);
    PredecessorsUptoSame(blocks, after, |blocks|, SoleTarget(after[b].terminator).value);
  }

  lemma NoopsRemovedSettled(blocks: seq<Block>, b: nat)
    requires b < |blocks| && !Steals(blocks, b) && !Threads(blocks, b)
    ensures var after := NoopsRemoved(blocks, |blocks|); !Steals(after, b) && !Threads(after, b)
  {
    if Steals(NoopsRemoved(blocks, |blocks|), b) { NoopsRemovedSteals(blocks, b); }
    if Threads(NoopsRemoved(blocks, |blocks|), b) { NoopsRemovedThreads(blocks, b); }
  }

  lemma {:induction false} WithoutNoopsFrom(ss: seq<Stmt>, sp: Stmt -> bool)
    requires forall i :: 0 <= i < |ss| ==> sp(ss[i])
    ensures forall i :: 0 <= i < |WithoutNoops(ss)| ==> sp(WithoutNoops(ss)[i])
  {
    if ss != [] { WithoutNoopsFrom(ss[..|ss| - 1], sp); }
  }

  lemma NoopsRemovedKeeps(blocks: seq<Block>, sp: Stmt -> bool, tp: Terminator -> bool)
    requires AllOf(blocks, sp, tp)
    ensures AllOf(NoopsRemoved(blocks, |blocks|), sp, tp)
  {
    var after := NoopsRemoved(blocks, |blocks|);
    forall b | 0 <= b < |after| ensures BlockOf(after[b], sp, tp) {
      assert BlockOf(blocks[b], sp, tp);
      WithoutNoopsFrom(blocks[b].stmts, sp);
    }
  }

  lemma SimplifiedKeeps(blocks: seq<Block>, b: nat, sp: Stmt -> bool, tp: Terminator -> bool)
    requires b < |blocks| && AllOf(blocks, sp, tp) && Retargetable(tp)
    ensures AllOf(Simplified(blocks, b).0, sp, tp)
  {
    var after := Simplified(blocks, b).0;
    assert BlockOf(blocks[b], sp, tp);
    forall i | 0 <= i < |after| ensures BlockOf(after[i], sp, tp) {
      assert BlockOf(blocks[i], sp, tp);
      if Steals(blocks, b) { assert BlockOf(blocks[SoleTarget(blocks[b].terminator).value], sp, tp); }
    }
  }

  lemma SweptKeeps(blocks: seq<Block>, k: nat, sp: Stmt -> bool, tp: Terminator -> bool)
    requires k <= |blocks| && AllOf(blocks, sp, tp) && Retargetable(tp)
    ensures AllOf(Swept(blocks, k).0, sp, tp)
  {
    var r: StepProperty := (after, m, i) => AllOf(after, sp, tp);
    forall before: seq<Block>, m: bool, i: nat | r(before, m, i) ensures r(Simplify()(before, i).0, m || Simplify()(before, i).1, i + 1) {
      if i < |before| { SimplifiedKeeps(before, i, sp, tp); }
    }
    SteppedKeeps(Simplify(), blocks, k, r);
  }

  /** The loop of the pass ends on the body: it starts with the no-ops removed. */
  ghost predicate Ends(blocks: seq<Block>) {
    Settles(NoopsRemoved(blocks, |blocks|))
  }

  /** What the loop of the pass leaves after n sweeps, if it then ends. */
  ghost predicate SweptTo(blocks: seq<Block>, n: nat, after: seq<Block>) {
    && n <= |blocks| && after == Sweeps(NoopsRemoved(blocks, |blocks|), n) && !FullSweep(after).1
  }

  lemma SweptToUnique(blocks: seq<Block>, m: nat, a: seq<Block>, n: nat, b: seq<Block>)
    requires SweptTo(blocks, m, a) && SweptTo(blocks, n, b)
    ensures a == b
  {
    var start := NoopsRemoved(blocks, |blocks|);
    if m <= n { IdleUnique(start, m, n); } else { IdleUnique(start, n, m); }
  }

  /** What the pass leaves, if its loop ends. */
  ghost predicate SimplifiedTo(blocks: seq<Block>, after: seq<Block>) {
    exists n: nat, swept: seq<Block> :: SweptTo(blocks, n, swept) && after == NoopsRemoved(swept, |swept|)
  }

  ghost predicate KeepsTests(a: seq<Block>, b: seq<Block>) {
    forall sp, tp :: Retargetable(tp) && AllOf(a, sp, tp) ==> AllOf(b, sp, tp)
  }

  /** What every part of the pass keeps. */
  ghost predicate Kept(a: seq<Block>, b: seq<Block>) {
    InRange(b) && NoEntryEdge(b) && |b| == |a| && SameBehaviour(a, b) && KeepsTests(a, b)
  }

  lemma KeptTrans(a: seq<Block>, b: seq<Block>, c: seq<Block>)
    requires Kept(a, b) && Kept(b, c)
    ensures Kept(a, c)
  {
    SameTrans(a, b, c);
  }

  lemma NoopsRemovedKept(blocks: seq<Block>)
    requires InRange(blocks) && NoEntryEdge(blocks)
    ensures Kept(blocks, NoopsRemoved(blocks, |blocks|))
  {
    NoopsRemovedSame(blocks);
    NoopsRemovedWellFormed(blocks);
    forall sp, tp | AllOf(blocks, sp, tp) ensures AllOf(NoopsRemoved(blocks, |blocks|), sp, tp) { NoopsRemovedKeeps(blocks, sp, tp); }
  }

  lemma SweptKept(blocks: seq<Block>)
    requires InRange(blocks) && NoEntryEdge(blocks)
    ensures Kept(blocks, FullSweep(blocks).0)
  {
    SweptSame(blocks, |blocks|);
    forall sp, tp | Retargetable(tp) && AllOf(blocks, sp, tp) ensures AllOf(FullSweep(blocks).0, sp, tp) {
      SweptKeeps(blocks, |blocks|, sp, tp);
    }
  }

  lemma SweepsKept(start: seq<Block>, blocks: seq<Block>, n: nat)
    requires Kept(start, blocks)
    ensures Kept(start, Sweeps(blocks, n))
  {
    var keeps := (x: seq<Block>) => Kept(start, x);
    forall x | keeps(x) ensures keeps(SweepOnce()(x)) {
      SweptKept(x);
      KeptTrans(start, x, FullSweep(x).0);
    }
    IterKeeps(SweepOnce(), keeps, blocks, n);
  }

  lemma SweepsNext(blocks: seq<Block>, n: nat)
    ensures Sweeps(blocks, n + 1) == FullSweep(Sweeps(blocks, n)).0
  {
    SweepsAdd(blocks, n, 1);
    assert Sweeps(Sweeps(blocks, n), 1) == Sweeps(FullSweep(Sweeps(blocks, n)).0, 0);
  }

  ghost predicate NoNoops(blocks: seq<Block>) {
    forall b, i :: 0 <= b < |blocks| && 0 <= i < |blocks[b].stmts| ==> !blocks[b].stmts[i].Noop?
  }

  /** What is left once the loop has ended. */
  lemma IdleDone(blocks: seq<Block>)
    requires !FullSweep(blocks).1
    ensures var after := NoopsRemoved(blocks, |blocks|); NothingToDo(after) && NoNoops(after)
  {
    forall b | 0 <= b < |blocks| ensures var after := NoopsRemoved(blocks, |blocks|); !Steals(after, b) && !Threads(after, b) {
      SweptSettled(blocks, |blocks|, b);
      NoopsRemovedSettled(blocks, b);
    }
    forall b, i | 0 <= b < |blocks| && 0 <= i < |NoopsRemoved(blocks, |blocks|)[b].stmts|
      ensures !NoopsRemoved(blocks, |blocks|)[b].stmts[i].Noop?
    {
      WithoutNoopsClean(blocks[b].stmts);
    }
  }

  /** What the pass leaves behaves the same, nothing is left to merge or thread, no no-op is left,
      and the loop ends on it. */
  lemma SimplifiedToKept(blocks: seq<Block>, after: seq<Block>)
    requires InRange(blocks) && NoEntryEdge(blocks) && SimplifiedTo(blocks, after)
    ensures Kept(blocks, after) && NothingToDo(after) && NoNoops(after) && Ends(after)
  {
    var n: nat, swept: seq<Block> :| SweptTo(blocks, n, swept) && after == NoopsRemoved(swept, |swept|);
    NoopsRemovedKept(blocks);
    SweepsKept(blocks, NoopsRemoved(blocks, |blocks|), n);
    NoopsRemovedKept(swept);
    KeptTrans(blocks, swept, after);
    IdleDone(swept);
    SettledEnds(after);
  }

  /** Where the loop ends the pass does, nothing of it is observable, nothing is left to merge or thread,
      and no no-op is left. */
  method RunPass(body: Body)
    requires InRange(body.blocks) && NoEntryEdge(body.blocks) && Ends(body.blocks)
    modifies body
    ensures SimplifiedTo(old(body.blocks), body.blocks) && body.locals == old(body.locals)
    ensures Kept(old(body.blocks), body.blocks) && Ends(body.blocks)
    ensures NothingToDo(body.blocks) && NothingLeft(body.blocks) && NoNoops(body.blocks)
  {
    ghost var start := body.blocks;
    RemoveNoops(body);
    NoopsRemovedKept(start);
    ghost var clean, n: nat := body.blocks, 0;
    var modified := true;
    while modified
      invariant InRange(body.blocks) && NoEntryEdge(body.blocks) && Settles(body.blocks) && body.locals == old(body.locals)
      invariant body.blocks == Sweeps(clean, n) && (!modified ==> !FullSweep(body.blocks).1)
      decreases Live(body.blocks), modified
    {
      ghost var before := body.blocks;
      modified := Sweep(body);
      SweptShrinks(before, |before|);
      SettlesNext(before);
      SweptKept(before);
      SweepsNext(clean, n);
      n := n + 1;
      if !modified { IdleSame(before); }
    }
    SweptWithin(start, n);
    RemoveNoops(body);
    SimplifiedToKept(start, body.blocks);
    NothingExactly(body.blocks);
  }

  lemma SweptWithin(blocks: seq<Block>, n: nat)
    requires InRange(NoopsRemoved(blocks, |blocks|)) && Ends(blocks)
    requires !FullSweep(Sweeps(NoopsRemoved(blocks, |blocks|), n)).1
    ensures exists m: nat :: SweptTo(blocks, m, Sweeps(NoopsRemoved(blocks, |blocks|), n))
  {
    var start := NoopsRemoved(blocks, |blocks|);
    SettlesExactly(start);
    var m: nat :| m <= |start| && !FullSweep(Sweeps(start, m)).1;
    if m <= n { IdleUnique(start, m, n); } else { IdleUnique(start, n, m); }
    assert SweptTo(blocks, m, Sweeps(start, n));
  }

  lemma SettledEnds(blocks: seq<Block>)
    requires NothingToDo(blocks)
    ensures Ends(blocks)
  {
    var after := NoopsRemoved(blocks, |blocks|);
    forall b | 0 <= b < |after| ensures !Steals(after, b) && !Threads(after, b) { NoopsRemovedSettled(blocks, b); }
    IdleSettles(after);
  }
}
