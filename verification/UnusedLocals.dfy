/** Removal of the locals that nothing mentions. */
module UnusedLocals {
  import opened Prelude
  import opened Mir
  import opened MirSim
  import opened Visitor
  import opened Renumbering
  import DeadStore

  // ---------------------------------------------------------------- renaming

  function RenameBase(kept: set<nat>, b: PlaceBase): PlaceBase {
    if b.Local? then Local(NewId(kept, b.index)) else b
  }

  function Rename(kept: set<nat>): Place -> Place {
    (pl: Place) => pl.(base := RenameBase(kept, pl.base))
  }

  function RenamedBlock(kept: set<nat>, b: Block): Block {
    Block(MapStmts(Rename(kept), b.stmts), MapTerminator(Rename(kept), b.terminator))
  }

  function Renamed(kept: set<nat>, blocks: seq<Block>): (r: seq<Block>)
    ensures |r| == |blocks|
  {
    seq(|blocks|, i requires 0 <= i < |blocks| => RenamedBlock(kept, blocks[i]))
  }

  /** The stores agree on the return place and, after renaming, on the kept locals. */
  ghost predicate AgreeRenamed(kept: set<nat>, s: Store, t: Store) {
    forall b: PlaceBase :: (b.Local? ==> b.index in kept) ==> Get(s, b) == Get(t, RenameBase(kept, b))
  }

  ghost predicate RenameRel(kept: set<nat>, c: Config, d: Config) {
    match c
    case Running(b, pc, s, t) => d.Running? && d == Running(b, pc, d.store, t) && AgreeRenamed(kept, s, d.store)
    case Halted(_, _) => d == c
  }

  lemma ReadsRenamed(kept: set<nat>, s: Store, t: Store, ps: seq<Place>)
    requires AgreeRenamed(kept, s, t) && Bases(ps) <= kept
    ensures Agree(s, t, Rename(kept), ps)
  {
    forall i | 0 <= i < |ps| ensures ReadPlace(s, ps[i]) == ReadPlace(t, Rename(kept)(ps[i])) {
      var b := ps[i].base;
      if b.Local? { assert b.index in Bases(ps); }
      assert Get(s, b) == Get(t, RenameBase(kept, b));
    }
  }

  lemma WriteRenamed(kept: set<nat>, s: Store, t: Store, pl: Place, v: Value)
    requires AgreeRenamed(kept, s, t) && (pl.base.Local? ==> pl.base.index in kept)
    ensures AgreeRenamed(kept, WritePlace(s, pl, v), WritePlace(t, Rename(kept)(pl), v))
  {
    forall b: PlaceBase | b.Local? ==> b.index in kept
      ensures Get(WritePlace(s, pl, v), b) == Get(WritePlace(t, Rename(kept)(pl), v), RenameBase(kept, b))
    {
      assert Get(s, b) == Get(t, RenameBase(kept, b));
      if b.Local? && pl.base.Local? && RenameBase(kept, b) == RenameBase(kept, pl.base) {
        NewIdInjective(kept, b.index, pl.base.index);
      }
    }
  }

  lemma StmtRenamed(p: Prims, o: Oracle, kept: set<nat>, s: Stmt, c: Config, d: Config)
    requires c.Running? && RenameRel(kept, c, d) && Bases(StmtMentions(s)) <= kept
    ensures RenameRel(kept, StepStmt(p, o, c, s), StepStmt(p, o, d, MapStmt(Rename(kept), s)))
  {
    match s
    case Noop =>
    case Print(op, _) =>
      ReadsRenamed(kept, c.store, d.store, StmtReads(s));
      EvalAgree(c.store, d.store, Rename(kept), op);
    case Assign(pl, r) =>
      BasesSplit([pl], RvalueReads(r));
      if pl.base.Local? {
        assert [pl][0] == pl;
        assert pl.base.index in Bases([pl]);
      }
      ReadsRenamed(kept, c.store, d.store, RvalueReads(r));
      EvalRvalueAgree(p, c.store, d.store, Rename(kept), r);
      if r.Call? { CallRenamed(o, kept, pl, r, c, d); } else { PureRenamed(p, o, kept, pl, r, c, d); }
  }

  lemma CallRenamed(o: Oracle, kept: set<nat>, pl: Place, r: Rvalue, c: Config, d: Config)
    requires c.Running? && RenameRel(kept, c, d) && (pl.base.Local? ==> pl.base.index in kept) && r.Call?
    requires var r' := MapRvalue(Rename(kept), r);
             Eval(d.store, r'.callee) == Eval(c.store, r.callee) && EvalAll(d.store, r'.args) == EvalAll(c.store, r.args)
    ensures forall p :: RenameRel(kept, StepStmt(p, o, c, Assign(pl, r)), StepStmt(p, o, d, MapStmt(Rename(kept), Assign(pl, r))))
  {
    var fn, vs := Eval(c.store, r.callee), EvalAll(c.store, r.args);
    if fn.Some? && fn.value.Fn? && vs.Some? {
      var x := o(fn.value.fn, vs.value);
      if x.Returns? { WriteRenamed(kept, c.store, d.store, pl, x.value); }
    }
  }

  lemma PureRenamed(p: Prims, o: Oracle, kept: set<nat>, pl: Place, r: Rvalue, c: Config, d: Config)
    requires c.Running? && RenameRel(kept, c, d) && (pl.base.Local? ==> pl.base.index in kept) && !r.Call?
    requires EvalRvalue(p, d.store, MapRvalue(Rename(kept), r)) == EvalRvalue(p, c.store, r)
    ensures RenameRel(kept, StepStmt(p, o, c, Assign(pl, r)), StepStmt(p, o, d, MapStmt(Rename(kept), Assign(pl, r))))
  {
    var v := EvalRvalue(p, c.store, r);
    if v.Some? { WriteRenamed(kept, c.store, d.store, pl, v.value); }
  }

  lemma TerminatorRenamed(kept: set<nat>, t: Terminator, c: Config, d: Config)
    requires c.Running? && RenameRel(kept, c, d) && Bases(TerminatorReads(t)) <= kept
    ensures RenameRel(kept, StepTerminator(c, t), StepTerminator(d, MapTerminator(Rename(kept), t)))
  {
    ReadsRenamed(kept, c.store, d.store, TerminatorReads(t));
    match t
    case Switch(op, _) => EvalAgree(c.store, d.store, Rename(kept), op);
    case Assert(op, _, _) => EvalAgree(c.store, d.store, Rename(kept), op);
    case Return => assert Get(c.store, ReturnPlace) == Get(d.store, RenameBase(kept, ReturnPlace));
    case _ =>
  }

  /** Every local that a block mentions is kept. */
  ghost predicate MentionsWithin(kept: set<nat>, blocks: seq<Block>) {
    forall b :: 0 <= b < |blocks| ==> BlockMentions(blocks[b]) <= kept
  }

  lemma RenameStep(p: Prims, o: Oracle, kept: set<nat>, blocks: seq<Block>, c: Config, d: Config)
    requires MentionsWithin(kept, blocks) && RenameRel(kept, c, d)
    ensures RenameRel(kept, Step(p, o, blocks, c), Step(p, o, Renamed(kept, blocks), d))
  {
    if c.Running? && c.block < |blocks| {
      var b := blocks[c.block];
      assert BlockMentions(b) <= kept;
      if c.pc < |b.stmts| {
        StmtMentioned(b.stmts, c.pc);
        StmtRenamed(p, o, kept, b.stmts[c.pc], c, d);
      } else {
        TerminatorRenamed(kept, b.terminator, c, d);
      }
    }
  }

  lemma ArgsRenamed(kept: set<nat>, args: seq<Value>)
    requires forall i: nat :: i < |args| ==> i in kept
    ensures AgreeRenamed(kept, InitStore(args), InitStore(args))
  {
    var s := InitStore(args);
    forall b: PlaceBase | b.Local? ==> b.index in kept ensures Get(s, b) == Get(s, RenameBase(kept, b)) {
      if b.Local? {
        if b.index < |args| { NewIdPrefix(kept, b.index); }
        else { NewIdPrefix(kept, |args|); NewIdMonotone(kept, |args|, b.index); }
      }
    }
  }

  lemma RenamedCovers(kept: set<nat>, blocks: seq<Block>, p: Prims, o: Oracle, args: seq<Value>)
    requires MentionsWithin(kept, blocks) && forall i: nat :: i < |args| ==> i in kept
    ensures var after := Renamed(kept, blocks); Covers(p, o, blocks, after, args) && Covers(p, o, after, blocks, args)
  {
    var after := Renamed(kept, blocks);
    var rel: (Config, Config) -> bool := (c, d) => RenameRel(kept, c, d);
    var rank: Config -> nat := c => 0;
    var f, g := x => Step(p, o, blocks, x), x => Step(p, o, after, x);
    forall c, d | rel(c, d) ensures SimStep(f, g, rel, rank, c, d) {
      RenameStep(p, o, kept, blocks, c, d);
    }
    ArgsRenamed(kept, args);
    SimCovers(p, o, blocks, after, rel, rank, args);
  }

  /** Renumbering the kept locals is not observable. */
  lemma RenamedSame(kept: set<nat>, blocks: seq<Block>, arity: nat)
    requires BlocksMention(blocks, |blocks|) <= kept && forall i: nat :: i < arity ==> i in kept
    ensures SameUpto(arity, blocks, Renamed(kept, blocks))
  {
    var after := Renamed(kept, blocks);
    forall b | 0 <= b < |blocks| ensures BlockMentions(blocks[b]) <= kept { BlockMentioned(blocks, |blocks|, b); }
    assert MentionsWithin(kept, blocks);
    forall p: Prims, o: Oracle, args: seq<Value> | |args| <= arity
      ensures Covers(p, o, blocks, after, args) && Covers(p, o, after, blocks, args)
    {
      RenamedCovers(kept, blocks, p, o, args);
    }
  }

  // ---------------------------------------------------------------- what is mentioned afterwards

  lemma PlacesMapped(kept: set<nat>, ps: seq<Place>, n: nat)
    requires Bases(ps) <= kept && Below(kept, n)
    ensures Below(Bases(MapPlaces(Rename(kept), ps)), NewId(kept, n))
  {
    forall i | 0 <= i < |ps| && ps[i].base.Local? ensures NewId(kept, ps[i].base.index) < NewId(kept, n) {
      assert ps[i].base.index in Bases(ps);
      NewIdGrows(kept, ps[i].base.index, n);
    }
  }

  lemma BlockMapped(kept: set<nat>, b: Block, n: nat)
    requires BlockMentions(b) <= kept && Below(kept, n)
    ensures Below(BlockMentions(RenamedBlock(kept, b)), NewId(kept, n))
  {
    var f := Rename(kept);
    forall i | 0 <= i < |b.stmts| ensures Below(Bases(StmtMentions(MapStmts(f, b.stmts)[i])), NewId(kept, n)) {
      StmtMentioned(b.stmts, i);
      StmtMentionsMap(f, b.stmts[i]);
      PlacesMapped(kept, StmtMentions(b.stmts[i]), n);
    }
    StmtsBelow(MapStmts(f, b.stmts), NewId(kept, n));
    TerminatorReadsMap(f, b.terminator);
    PlacesMapped(kept, TerminatorReads(b.terminator), n);
  }

  /** After the renaming only locals that are left are mentioned. */
  lemma RenamedMentions(kept: set<nat>, blocks: seq<Block>, n: nat)
    requires BlocksMention(blocks, |blocks|) <= kept && Below(kept, n)
    ensures Below(BlocksMention(Renamed(kept, blocks), |blocks|), NewId(kept, n))
  {
    forall b | 0 <= b < |blocks| ensures Below(BlockMentions(Renamed(kept, blocks)[b]), NewId(kept, n)) {
      BlockMentioned(blocks, |blocks|, b);
      BlockMapped(kept, blocks[b], n);
    }
    BlocksBelow(Renamed(kept, blocks), |blocks|, NewId(kept, n));
  }

  // ---------------------------------------------------------------- the pass

  /** The first locals, and no others, are the parameters. */
  ghost predicate ParamsAre(locals: seq<LocalInfo>, arity: nat) {
    arity <= |locals| && forall l :: 0 <= l < |locals| ==> (locals[l].kind.ParamKind? <==> l < arity)
  }

  ghost predicate SameParams(before: seq<LocalInfo>, after: seq<LocalInfo>, arity: nat) {
    ParamsAre(before, arity) ==> ParamsAre(after, arity)
  }

  /** Among the kept locals at their new numbers, and at most one that is not kept, the parameters are the old ones. */
  lemma ParamsStay(before: seq<LocalInfo>, kept: set<nat>, after: seq<LocalInfo>, arity: nat)
    requires ParamsAre(before, arity) && DeadStore.Params(before) <= kept
    requires NewId(kept, |before|) <= |after|
    requires forall l: nat :: l < |before| && l in kept ==> NewId(kept, l) < |after| && after[NewId(kept, l)] == before[l]
    requires forall j :: NewId(kept, |before|) <= j < |after| ==> Dropped(before, kept, after[j])
    ensures ParamsAre(after, arity)
  {
    forall i: nat | i < arity ensures i in kept { assert before[i].kind.ParamKind?; }
    NewIdPrefix(kept, arity);
    NewIdMonotone(kept, arity, |before|);
    forall j: nat | j < |after| ensures after[j].kind.ParamKind? <==> j < arity {
      if j < NewId(kept, |before|) {
        var l := OldId(kept, |before|, j);
        if l < arity {
          NewIdPrefix(kept, l);
        } else {
          NewIdMonotone(kept, arity, l);
        }
      } else {
        assert Dropped(before, kept, after[j]);
      }
    }
  }

  ghost predicate FoundUpto(params: set<nat>, blocks: seq<Block>, b: nat, found: set<nat>) {
    b <= |blocks| && found == params + BlocksMention(blocks, b)
  }

  lemma FoundNext(params: set<nat>, blocks: seq<Block>, b: nat, found: set<nat>)
    requires FoundUpto(params, blocks, b, found) && b < |blocks|
    ensures FoundUpto(params, blocks, b + 1, found + BlockMentions(blocks[b]))
  {
    UnionThree(params, BlocksMention(blocks, b), BlockMentions(blocks[b]));
  }

  method FindMentioned(body: Body) returns (kept: set<nat>)
    ensures kept == BlocksMention(body.blocks, |body.blocks|) + DeadStore.Params(body.locals)
  {
    var blocks := body.blocks;
    kept := DeadStore.Params(body.locals);
    ghost var params := kept;
    for b := 0 to |blocks|
      invariant FoundUpto(params, blocks, b, kept)
    {
      FoundNext(params, blocks, b, kept);
      kept := AddMentions(kept, blocks[b]);
    }
    assert params + BlocksMention(blocks, |blocks|) == BlocksMention(blocks, |blocks|) + params;
  }

  lemma UnionThree(a: set<nat>, b: set<nat>, c: set<nat>)
    ensures (a + b) + c == a + (b + c)
  {
  }

  lemma StmtsMentionNext(ss: seq<Stmt>, i: nat)
    requires i < |ss|
    ensures StmtsMention(ss[..i + 1]) == StmtsMention(ss[..i]) + Bases(StmtMentions(ss[i]))
  {
    assert ss[..i + 1][..i] == ss[..i];
  }

  method AddMentions(kept: set<nat>, b: Block) returns (r: set<nat>)
    ensures r == kept + BlockMentions(b)
  {
    r := kept;
    for i := 0 to |b.stmts|
      invariant r == kept + StmtsMention(b.stmts[..i])
    {
      StmtsMentionNext(b.stmts, i);
      r := r + Bases(StmtMentions(b.stmts[i]));
    }
    assert b.stmts[..|b.stmts|] == b.stmts;
    r := r + Bases(TerminatorReads(b.terminator));
  }

  /** It is what is known about some local that is not kept. */
  ghost predicate Dropped(locals: seq<LocalInfo>, kept: set<nat>, info: LocalInfo) {
    exists l: nat :: l < |locals| && l !in kept && locals[l] == info
  }

  /** Of the first k locals the kept ones are at their new numbers, and behind them, up to k, are dropped ones. */
  ghost predicate SwappedUpto(start: seq<LocalInfo>, kept: set<nat>, k: nat, now: seq<LocalInfo>) {
    && |now| == |start| && k <= |start| && NewId(kept, k) <= k
    && (forall l :: k <= l < |start| ==> now[l] == start[l])
    && (forall l: nat :: l < k && l in kept ==> NewId(kept, l) < NewId(kept, k) && now[NewId(kept, l)] == start[l])
    && (forall j :: NewId(kept, k) <= j < k ==> Dropped(start, kept, now[j]))
  }

  lemma SwapNot(start: seq<LocalInfo>, kept: set<nat>, k: nat, now: seq<LocalInfo>)
    requires SwappedUpto(start, kept, k, now) && k < |start| && k !in kept
    ensures SwappedUpto(start, kept, k + 1, now)
  {
    assert Dropped(start, kept, now[k]);
  }

  lemma SwapKept(start: seq<LocalInfo>, kept: set<nat>, k: nat, now: seq<LocalInfo>, after: seq<LocalInfo>)
    requires SwappedUpto(start, kept, k, now) && k < |start| && k in kept
    requires var n := NewId(kept, k); after == now[k := now[n]][n := now[k]]
    ensures SwappedUpto(start, kept, k + 1, after)
  {
    var n := NewId(kept, k);
    forall j | n + 1 <= j < k + 1 ensures Dropped(start, kept, after[j]) {
      assert Dropped(start, kept, now[if j == k then n else j]);
    }
    forall l: nat | l < k + 1 && l in kept ensures NewId(kept, l) < n + 1 && after[NewId(kept, l)] == start[l] {
      if l < k { assert NewId(kept, l) < n; }
    }
  }

  /** Swaps each kept local down to its new index. */
  method SwapDown(body: Body, kept: set<nat>) returns (localMap: seq<Option<nat>>, nextLocal: nat)
    modifies body
    ensures body.blocks == old(body.blocks) && |body.locals| == |old(body.locals)| == |localMap|
    ensures nextLocal == NewId(kept, |localMap|) <= |localMap|
    ensures forall l :: 0 <= l < |localMap| ==> localMap[l] == if l in kept then Some(NewId(kept, l)) else None
    ensures forall l: nat :: l < |localMap| && l in kept ==>
              NewId(kept, l) < nextLocal && body.locals[NewId(kept, l)] == old(body.locals)[l]
    ensures forall j :: nextLocal <= j < |localMap| ==> Dropped(old(body.locals), kept, body.locals[j])
  {
    ghost var start := body.locals;
    localMap := [];
    nextLocal := 0;
    for local := 0 to |body.locals|
      invariant body.blocks == old(body.blocks) && |localMap| == local && nextLocal == NewId(kept, local)
      invariant forall l :: 0 <= l < local ==> localMap[l] == if l in kept then Some(NewId(kept, l)) else None
      invariant SwappedUpto(start, kept, local, body.locals)
    {
      ghost var before := body.locals;
      if local in kept {
        if local != nextLocal {
          var first, second := body.locals[local], body.locals[nextLocal];
          body.locals := body.locals[local := second][nextLocal := first];
        }
        SwapKept(start, kept, local, before, body.locals);
        localMap := localMap + [Some(nextLocal)];
        nextLocal := nextLocal + 1;
      } else {
        SwapNot(start, kept, local, before);
        localMap := localMap + [None];
      }
    }
  }

  method ReplaceLocals(body: Body, localMap: seq<Option<nat>>, ghost kept: set<nat>)
    requires BlocksMention(body.blocks, |body.blocks|) <= kept
    requires forall l: nat :: l in kept ==> l < |localMap|
    requires forall l :: 0 <= l < |localMap| ==> localMap[l] == if l in kept then Some(NewId(kept, l)) else None
    modifies body
    ensures body.blocks == Renamed(kept, old(body.blocks)) && body.locals == old(body.locals)
  {
    ghost var start := body.blocks;
    var f := (pl: Place) =>
      if pl.base.Local? && pl.base.index < |localMap| && localMap[pl.base.index].Some?
      then pl.(base := Local(localMap[pl.base.index].value)) else pl;
    for b := 0 to |body.blocks|
      invariant body.locals == old(body.locals) && |body.blocks| == |start|
      invariant forall i :: 0 <= i < |start| ==>
        body.blocks[i] == if i < b then RenamedBlock(kept, start[i]) else start[i]
    {
      BlockMentioned(start, |start|, b);
      var block := ReplaceInBlock(body.blocks[b], f, kept);
      body.blocks := body.blocks[b := block];
    }
    assert body.blocks == Renamed(kept, start);
  }

  method ReplaceInBlock(block: Block, f: Place -> Place, ghost kept: set<nat>) returns (r: Block)
    requires BlockMentions(block) <= kept
    requires forall pl: Place :: (pl.base.Local? ==> pl.base.index in kept) ==> f(pl) == Rename(kept)(pl)
    ensures r == RenamedBlock(kept, block)
  {
    var ss := block.stmts;
    for i := 0 to |ss|
      invariant |ss| == |block.stmts|
      invariant forall j :: 0 <= j < |ss| ==> ss[j] == if j < i then MapStmt(Rename(kept), block.stmts[j]) else block.stmts[j]
    {
      StmtMentioned(block.stmts, i);
      SameOnKept(f, Rename(kept), StmtMentions(ss[i]), kept);
      MapStmtSame(f, Rename(kept), ss[i]);
      ss := ss[i := MapStmt(f, ss[i])];
    }
    assert ss == MapStmts(Rename(kept), block.stmts);
    SameOnKept(f, Rename(kept), TerminatorReads(block.terminator), kept);
    MapTerminatorSame(f, Rename(kept), block.terminator);
    r := Block(ss, MapTerminator(f, block.terminator));
  }

  lemma SameOnKept(f: Place -> Place, g: Place -> Place, ps: seq<Place>, kept: set<nat>)
    requires Bases(ps) <= kept
    requires forall pl: Place :: (pl.base.Local? ==> pl.base.index in kept) ==> f(pl) == g(pl)
    ensures SameOn(f, g, ps)
  {
    forall i | 0 <= i < |ps| ensures f(ps[i]) == g(ps[i]) {
      if ps[i].base.Local? { assert ps[i].base.index in Bases(ps); }
    }
  }

  lemma RenamedWell(locals: seq<LocalInfo>, blocks: seq<Block>, kept: set<nat>, arity: nat)
    requires BodyBelow(blocks, |locals|) && kept == BlocksMention(blocks, |blocks|) + DeadStore.Params(locals)
    requires arity <= |locals| && forall i :: 0 <= i < arity ==> locals[i].kind.ParamKind?
    ensures Below(kept, |locals|) && SameUpto(arity, blocks, Renamed(kept, blocks))
    ensures BodyBelow(Renamed(kept, blocks), NewId(kept, |locals|))
    ensures forall i: nat :: i < arity ==> NewId(kept, i) == i
    ensures forall l: nat :: l in kept ==> NewId(kept, l) < NewId(kept, |locals|)
  {
    BodyBelowMentions(blocks, |locals|);
    forall i: nat | i < arity ensures NewId(kept, i) == i { NewIdPrefix(kept, i); }
    forall l: nat | l in kept ensures NewId(kept, l) < NewId(kept, |locals|) { NewIdGrows(kept, l, |locals|); }
    RenamedSame(kept, blocks, arity);
    RenamedMentions(kept, blocks, |locals|);
    BodyBelowMentions(Renamed(kept, blocks), NewId(kept, |locals|));
  }

  /** The pass, for a body whose first arity locals are its parameters: nothing observable changes;
      each kept local's info is at its new index, parameters first; and every local that is mentioned
      exists. One local more than the kept ones is left, when there is one. */
  method RunPass(body: Body, ghost arity: nat)
    requires BodyBelow(body.blocks, |body.locals|)
    requires arity <= |body.locals| && forall i :: 0 <= i < arity ==> body.locals[i].kind.ParamKind?
    modifies body
    ensures SameUpto(arity, old(body.blocks), body.blocks)
    ensures var kept := BlocksMention(old(body.blocks), |old(body.blocks)|) + DeadStore.Params(old(body.locals));
            var count := NewId(kept, |old(body.locals)|);
            && |body.locals| == (if count < |old(body.locals)| then count + 1 else count)
            && (forall l: nat :: l in kept ==>
                 l < |old(body.locals)| && NewId(kept, l) < count && body.locals[NewId(kept, l)] == old(body.locals)[l])
            && body.blocks == Renamed(kept, old(body.blocks)) && BodyBelow(body.blocks, count)
            && forall i: nat :: i < arity ==> NewId(kept, i) == i
    ensures SameParams(old(body.locals), body.locals, arity)
  {
    ghost var locals := body.locals;
    var kept := FindMentioned(body);
    RenamedWell(locals, body.blocks, kept, arity);
    var localMap, nextLocal := SwapDown(body, kept);
    ReplaceLocals(body, localMap, kept);
    var len := nextLocal + 1;
    if len < |body.locals| { body.locals := body.locals[..len]; }
    if ParamsAre(locals, arity) { ParamsStay(locals, kept, body.locals, arity); }
  }
}
