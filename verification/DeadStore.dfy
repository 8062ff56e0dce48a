/** Dead-store elimination. */
module DeadStore {
  import opened Prelude
  import opened Mir
  import opened MirSim
  import opened Visitor

  predicate CanRemoveIfUnused(r: Rvalue) {
    !r.Call?
  }

  function StmtsRead(ss: seq<Stmt>): set<nat> {
    if ss == [] then {} else StmtsRead(ss[..|ss| - 1]) + Bases(StmtReads(ss[|ss| - 1]))
  }

  /** The locals some statement or terminator of the first k blocks reads. */
  function BlocksRead(blocks: seq<Block>, k: nat): set<nat>
    requires k <= |blocks|
  {
    if k == 0 then {}
    else BlocksRead(blocks, k - 1) + StmtsRead(blocks[k - 1].stmts) + Bases(TerminatorReads(blocks[k - 1].terminator))
  }

  predicate Dead(live: set<nat>, s: Stmt) {
    s.Assign? && s.place.base.Local? && s.place.projections == [] && CanRemoveIfUnused(s.rvalue)
    && s.place.base.index !in live
  }

  function StmtEliminated(live: set<nat>, s: Stmt): Stmt {
    if Dead(live, s) then Noop else s
  }

  function Eliminated(live: set<nat>, blocks: seq<Block>): (r: seq<Block>)
    ensures |r| == |blocks|
  {
    seq(|blocks|, i requires 0 <= i < |blocks| => BlockEliminated(live, blocks[i]))
  }

  function BlockEliminated(live: set<nat>, b: Block): Block {
    b.(stmts := seq(|b.stmts|, i requires 0 <= i < |b.stmts| => StmtEliminated(live, b.stmts[i])))
  }

  // ---------------------------------------------------------------- what is read is in the set

  lemma {:induction false} StmtRead(ss: seq<Stmt>, i: nat)
    requires i < |ss|
    ensures Bases(StmtReads(ss[i])) <= StmtsRead(ss)
  {
    if i < |ss| - 1 { StmtRead(ss[..|ss| - 1], i); }
  }

  lemma {:induction false} BlockRead(blocks: seq<Block>, k: nat, b: nat)
    requires b < k <= |blocks|
    ensures StmtsRead(blocks[b].stmts) + Bases(TerminatorReads(blocks[b].terminator)) <= BlocksRead(blocks, k)
  {
    if b < k - 1 { BlockRead(blocks, k - 1, b); }
  }

  lemma {:induction false} StmtsReadAre(ss: seq<Stmt>, l: nat)
    ensures l in StmtsRead(ss) <==> StmtsReadLocal(ss, l)
  {
    if ss != [] {
      StmtsReadAre(ss[..|ss| - 1], l);
      StmtBasesAre(ss[|ss| - 1], l);
      StmtsLast(ss, l);
    }
  }

  lemma {:induction false} BlocksReadAre(blocks: seq<Block>, k: nat, l: nat)
    requires k <= |blocks|
    ensures l in BlocksRead(blocks, k) <==> LocalRead(blocks[..k], l)
  {
    if k > 0 {
      BlocksReadAre(blocks, k - 1, l);
      StmtsReadAre(blocks[k - 1].stmts, l);
      TerminatorBasesAre(blocks[k - 1].terminator, l);
      LocalLast(blocks, k, l);
    }
  }

  /** An assignment that is no call, to a whole local which is no parameter and no place of which is read. */
  ghost predicate Useless(locals: seq<LocalInfo>, blocks: seq<Block>, s: Stmt) {
    s.Assign? && !s.rvalue.Call?
    && exists x: nat :: s.place == Place(Local(x), []) && !LocalRead(blocks, x) && !(x < |locals| && locals[x].kind.ParamKind?)
  }

  /** The dead statements are the useless assignments. */
  lemma DeadExactly(locals: seq<LocalInfo>, blocks: seq<Block>, s: Stmt)
    ensures Dead(BlocksRead(blocks, |blocks|) + Params(locals), s) <==> Useless(locals, blocks, s)
  {
    assert blocks[..|blocks|] == blocks;
    if s.Assign? && s.place.base.Local? { BlocksReadAre(blocks, |blocks|, s.place.base.index); }
  }

  // ---------------------------------------------------------------- the two runs

  /** The stores agree on the return place and on the live locals. */
  ghost predicate AgreeOn(live: set<nat>, s: Store, t: Store) {
    forall b: PlaceBase :: (b.Local? ==> b.index in live) ==> Get(s, b) == Get(t, b)
  }

  ghost predicate DeadRel(live: set<nat>, c: Config, d: Config) {
    match c
    case Running(b, pc, s, t) => d.Running? && d == Running(b, pc, d.store, t) && AgreeOn(live, s, d.store)
    case Halted(_, _) => d == c
  }

  lemma ReadsAgree(live: set<nat>, s: Store, t: Store, ps: seq<Place>)
    requires AgreeOn(live, s, t) && Bases(ps) <= live
    ensures Agree(s, t, pl => pl, ps)
  {
    forall i | 0 <= i < |ps| ensures ReadPlace(s, ps[i]) == ReadPlace(t, ps[i]) {
      var b := ps[i].base;
      if b.Local? { assert b.index in Bases(ps); }
      assert Get(s, b) == Get(t, b);
    }
  }

  lemma WriteAgrees(live: set<nat>, s: Store, t: Store, pl: Place, v: Value)
    requires AgreeOn(live, s, t)
    ensures AgreeOn(live, WritePlace(s, pl, v), WritePlace(t, pl, v))
    ensures pl.base.Local? && pl.base.index !in live ==> AgreeOn(live, WritePlace(s, pl, v), t)
  {
    forall b: PlaceBase | b.Local? ==> b.index in live
      ensures Get(WritePlace(s, pl, v), b) == Get(WritePlace(t, pl, v), b)
      ensures pl.base.Local? && pl.base.index !in live ==> Get(WritePlace(s, pl, v), b) == Get(t, b)
    {
      assert Get(s, b) == Get(t, b);
    }
  }

  /** A statement that is dropped, and that the original gets stuck at. */
  ghost predicate DropStuck(p: Prims, o: Oracle, live: set<nat>, blocks: seq<Block>, c: Config) {
    && c.Running? && c.block < |blocks| && c.pc < |blocks[c.block].stmts|
    && Dead(live, blocks[c.block].stmts[c.pc]) && Step(p, o, blocks, c) == Halted(Stuck, c.trace)
  }

  lemma StmtStep(p: Prims, o: Oracle, live: set<nat>, s: Stmt, c: Config, d: Config)
    requires c.Running? && DeadRel(live, c, d) && Bases(StmtReads(s)) <= live
    ensures DeadRel(live, StepStmt(p, o, c, s), StepStmt(p, o, d, StmtEliminated(live, s)))
         || (Dead(live, s) && StepStmt(p, o, c, s) == Halted(Stuck, c.trace))
  {
    ReadsAgree(live, c.store, d.store, StmtReads(s));
    match s
    case Noop =>
    case Print(op, _) => EvalAgree(c.store, d.store, pl => pl, op);
    case Assign(pl, r) =>
      EvalRvalueAgree(p, c.store, d.store, pl => pl, r);
      MapRvalueId(r);
      if r.Call? {
        var f, vs := Eval(c.store, r.callee), EvalAll(c.store, r.args);
        if f.Some? && f.value.Fn? && vs.Some? {
          var x := o(f.value.fn, vs.value);
          if x.Returns? { WriteAgrees(live, c.store, d.store, pl, x.value); }
        }
      } else {
        var v := EvalRvalue(p, c.store, r);
        if v.Some? { WriteAgrees(live, c.store, d.store, pl, v.value); }
      }
  }

  lemma TerminatorStep(live: set<nat>, t: Terminator, c: Config, d: Config)
    requires c.Running? && DeadRel(live, c, d) && Bases(TerminatorReads(t)) <= live
    ensures DeadRel(live, StepTerminator(c, t), StepTerminator(d, t))
  {
    ReadsAgree(live, c.store, d.store, TerminatorReads(t));
    match t
    case Switch(op, _) => EvalAgree(c.store, d.store, pl => pl, op);
    case Assert(op, _, _) => EvalAgree(c.store, d.store, pl => pl, op);
    case Return => assert Get(c.store, ReturnPlace) == Get(d.store, ReturnPlace);
    case _ =>
  }

  lemma DeadStep(p: Prims, o: Oracle, live: set<nat>, blocks: seq<Block>, c: Config, d: Config)
    requires BlocksRead(blocks, |blocks|) <= live && DeadRel(live, c, d)
    ensures DeadRel(live, Step(p, o, blocks, c), Step(p, o, Eliminated(live, blocks), d)) || DropStuck(p, o, live, blocks, c)
  {
    if c.Running? && c.block < |blocks| {
      var b := blocks[c.block];
      BlockRead(blocks, |blocks|, c.block);
      if c.pc < |b.stmts| {
        StmtRead(b.stmts, c.pc);
        StmtStep(p, o, live, b.stmts[c.pc], c, d);
      } else {
        TerminatorStep(live, b.terminator, c, d);
      }
    }
  }

  /** The runs from c and d are related up to step n, or up to one at which the original gets stuck
      at a dropped statement. */
  ghost predicate RelatedUpto(p: Prims, o: Oracle, live: set<nat>, blocks: seq<Block>, c: Config, d: Config, m: nat) {
    forall k: nat :: k <= m ==> DeadRel(live, Run(p, o, blocks, c, k), Run(p, o, Eliminated(live, blocks), d, k))
  }

  lemma DeadRun(p: Prims, o: Oracle, live: set<nat>, blocks: seq<Block>, c: Config, d: Config, n: nat)
    returns (m: nat)
    requires BlocksRead(blocks, |blocks|) <= live && DeadRel(live, c, d)
    ensures m <= n && RelatedUpto(p, o, live, blocks, c, d, m)
    ensures m < n ==> DropStuck(p, o, live, blocks, Run(p, o, blocks, c, m))
  {
    var after := Eliminated(live, blocks);
    var f, g := x => Step(p, o, blocks, x), x => Step(p, o, after, x);
    var rel: (Config, Config) -> bool := (x, y) => DeadRel(live, x, y);
    var except: Config -> bool := x => DropStuck(p, o, live, blocks, x);
    forall x, y | rel(x, y) ensures rel(f(x), g(y)) || except(x) { DeadStep(p, o, live, blocks, x, y); }
    m := IterRelated(f, g, rel, except, c, d, n);
    forall k: nat | k <= m ensures DeadRel(live, Run(p, o, blocks, c, k), Run(p, o, after, d, k)) {
      RunIter(p, o, blocks, c, k);
      RunIter(p, o, after, d, k);
      assert rel(Iter(f, c, k), Iter(g, d, k));
    }
    RunIter(p, o, blocks, c, m);
  }

  /** Up to some step before n both bodies show the same; then the original gets stuck
      at a dropped statement, while the other goes on from what has been printed. */
  ghost predicate StuckBefore(p: Prims, o: Oracle, live: set<nat>, a: seq<Block>, b: seq<Block>, args: seq<Value>, n: nat) {
    exists m: nat :: m < n && DropsAt(p, o, live, a, b, args, m, n)
  }

  ghost predicate DropsAt(p: Prims, o: Oracle, live: set<nat>, a: seq<Block>, b: seq<Block>, args: seq<Value>, m: nat, n: nat) {
    var c := Run(p, o, a, Init(args), m);
    && DropStuck(p, o, live, a, c)
    && (forall k: nat :: k <= m ==> ObsAt(p, o, a, args, k) == ObsAt(p, o, b, args, k))
    && ObsAt(p, o, a, args, n) == Finished(Stuck, c.trace) && c.trace <= Run(p, o, b, Init(args), n).trace
  }

  /** Step by step the two bodies show the same, unless the original got stuck evaluating what a dropped
      statement assigns. */
  ghost predicate InStep(live: set<nat>, a: seq<Block>, b: seq<Block>) {
    forall p: Prims, o: Oracle, args: seq<Value>, n: nat ::
      ObsAt(p, o, a, args, n) == ObsAt(p, o, b, args, n) || StuckBefore(p, o, live, a, b, args, n)
  }

  /** Dropping assignments to locals that nothing reads cannot be observed. */
  lemma EliminatedInStep(live: set<nat>, blocks: seq<Block>)
    requires BlocksRead(blocks, |blocks|) <= live
    ensures InStep(live, blocks, Eliminated(live, blocks))
  {
    var after := Eliminated(live, blocks);
    forall p: Prims, o: Oracle, args: seq<Value>, n: nat
      ensures ObsAt(p, o, blocks, args, n) == ObsAt(p, o, after, args, n) || StuckBefore(p, o, live, blocks, after, args, n)
    {
      var m := DeadRun(p, o, live, blocks, Init(args), Init(args), n);
      if m < n { DroppedShows(p, o, live, blocks, args, m, n); }
    }
  }

  lemma StuckStays(p: Prims, o: Oracle, blocks: seq<Block>, args: seq<Value>, m: nat, n: nat, c: Config)
    requires m < n && c == Run(p, o, blocks, Init(args), m) && Step(p, o, blocks, c) == Halted(Stuck, c.trace)
    ensures ObsAt(p, o, blocks, args, n) == Finished(Stuck, c.trace)
  {
    RunAdd(p, o, blocks, Init(args), m, n - m);
    RunHalted(p, o, blocks, Halted(Stuck, c.trace), n - m - 1);
  }

  lemma TraceLater(p: Prims, o: Oracle, blocks: seq<Block>, args: seq<Value>, m: nat, n: nat)
    requires m <= n
    ensures Run(p, o, blocks, Init(args), m).trace <= Run(p, o, blocks, Init(args), n).trace
  {
    RunAdd(p, o, blocks, Init(args), m, n - m);
    TraceGrows(p, o, blocks, Run(p, o, blocks, Init(args), m), n - m);
  }

  lemma DroppedShows(p: Prims, o: Oracle, live: set<nat>, blocks: seq<Block>, args: seq<Value>, m: nat, n: nat)
    requires m < n && RelatedUpto(p, o, live, blocks, Init(args), Init(args), m)
    requires DropStuck(p, o, live, blocks, Run(p, o, blocks, Init(args), m))
    ensures DropsAt(p, o, live, blocks, Eliminated(live, blocks), args, m, n)
  {
    var after := Eliminated(live, blocks);
    var c := Run(p, o, blocks, Init(args), m);
    StuckStays(p, o, blocks, args, m, n, c);
    TraceLater(p, o, after, args, m, n);
    forall k: nat | k <= m ensures ObsAt(p, o, blocks, args, k) == ObsAt(p, o, after, args, k) {
      assert DeadRel(live, Run(p, o, blocks, Init(args), k), Run(p, o, after, Init(args), k));
    }
    assert DeadRel(live, c, Run(p, o, after, Init(args), m));
  }

  // ---------------------------------------------------------------- the pass

  method FindLive(body: Body) returns (live: set<nat>)
    ensures BlocksRead(body.blocks, |body.blocks|) <= live
    ensures forall l :: l in live <==>
      l in BlocksRead(body.blocks, |body.blocks|) || (0 <= l < |body.locals| && body.locals[l].kind.ParamKind?)
  {
    live := set l: nat | l < |body.locals| && body.locals[l].kind.ParamKind?;
    ghost var params := live;
    for b := 0 to |body.blocks|
      invariant live == params + BlocksRead(body.blocks, b)
    {
      live := AddReads(live, body.blocks[b]);
    }
  }

  lemma StmtsReadNext(ss: seq<Stmt>, i: nat)
    requires i < |ss|
    ensures StmtsRead(ss[..i + 1]) == StmtsRead(ss[..i]) + Bases(StmtReads(ss[i]))
  {
    assert ss[..i + 1][..i] == ss[..i];
  }

  method AddReads(live: set<nat>, b: Block) returns (r: set<nat>)
    ensures r == live + (StmtsRead(b.stmts) + Bases(TerminatorReads(b.terminator)))
  {
    r := live;
    for i := 0 to |b.stmts|
      invariant r == live + StmtsRead(b.stmts[..i])
    {
      StmtsReadNext(b.stmts, i);
      r := r + Bases(StmtReads(b.stmts[i]));
    }
    assert b.stmts[..|b.stmts|] == b.stmts;
    r := r + Bases(TerminatorReads(b.terminator));
  }

  /** The pass overwrites dead assignments with no-ops, in place. */
  method RunPass(body: Body)
    modifies body
    ensures InStep(BlocksRead(old(body.blocks), |old(body.blocks)|) + Params(old(body.locals)), old(body.blocks), body.blocks)
    ensures body.locals == old(body.locals) && |body.blocks| == |old(body.blocks)|
    ensures body.blocks
         == Eliminated(BlocksRead(old(body.blocks), |old(body.blocks)|) + Params(old(body.locals)), old(body.blocks))
    ensures forall b :: 0 <= b < |body.blocks| ==> body.blocks[b].terminator == old(body.blocks)[b].terminator
    // the useless assignments are no-ops now, and nothing else has changed
    ensures forall b :: 0 <= b < |body.blocks| ==>
      SwappedForNoops(old(body.locals), old(body.blocks), old(body.blocks)[b].stmts, body.blocks[b].stmts)
  {
    ghost var start := body.blocks;
    var live := FindLive(body);
    for b := 0 to |body.blocks|
      invariant body.locals == old(body.locals) && |body.blocks| == |start|
      invariant forall i :: 0 <= i < |start| ==>
        body.blocks[i] == if i < b then BlockEliminated(live, start[i]) else start[i]
    {
      var block := EliminateIn(body.blocks[b], live);
      body.blocks := body.blocks[b := block];
    }
    assert body.blocks == Eliminated(live, start);
    EliminatedInStep(live, start);
    assert live == BlocksRead(start, |start|) + Params(body.locals);
    forall b | 0 <= b < |start| ensures SwappedForNoops(body.locals, start, start[b].stmts, body.blocks[b].stmts) {
      EliminatedSwaps(body.locals, start, b);
    }
  }

  method EliminateIn(block: Block, live: set<nat>) returns (r: Block)
    ensures r == BlockEliminated(live, block)
  {
    var ss := block.stmts;
    for i := 0 to |ss|
      invariant |ss| == |block.stmts|
      invariant forall j :: 0 <= j < |ss| ==> ss[j] == if j < i then StmtEliminated(live, block.stmts[j]) else block.stmts[j]
    {
      if Dead(live, ss[i]) { ss := ss[i := Noop]; }
    }
    r := block.(stmts := ss);
  }

  lemma EliminatedSwaps(locals: seq<LocalInfo>, blocks: seq<Block>, b: nat)
    requires b < |blocks|
    ensures var after := Eliminated(BlocksRead(blocks, |blocks|) + Params(locals), blocks);
            SwappedForNoops(locals, blocks, blocks[b].stmts, after[b].stmts)
  {
    var ss := blocks[b].stmts;
    forall i | 0 <= i < |ss|
      ensures Dead(BlocksRead(blocks, |blocks|) + Params(locals), ss[i]) <==> Useless(locals, blocks, ss[i])
    {
      DeadExactly(locals, blocks, ss[i]);
    }
  }

  /** Of the statements exactly the useless ones have become no-ops. */
  ghost predicate SwappedForNoops(locals: seq<LocalInfo>, blocks: seq<Block>, before: seq<Stmt>, after: seq<Stmt>) {
    && |after| == |before|
    && forall i :: 0 <= i < |after| ==> after[i] == if Useless(locals, blocks, before[i]) then Noop else before[i]
  }

  function Params(locals: seq<LocalInfo>): set<nat> {
    set l: nat | l < |locals| && locals[l].kind.ParamKind?
  }
}
