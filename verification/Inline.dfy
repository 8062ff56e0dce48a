/** Inlining of calls to known, non-generic functions. */
module Inline {
  import opened Types
  import opened Prelude
  import opened Mir
  import opened MirSim
  import opened Visitor
  import opened Cfg
  import opened Program

  // ---------------------------------------------------------------- specification

  /** A call of function id stored to place, at statement stmt of a block. */
  datatype Site = Site(block: nat, stmt: nat, place: Place, id: nat, args: seq<Operand>)

  predicate IsSite(blocks: seq<Block>, site: Site) {
    && site.block < |blocks|
    && site.stmt < |blocks[site.block].stmts|
    && blocks[site.block].stmts[site.stmt]
       == Assign(site.place, Call(Constant(FnConst(FnRef(site.id, []))), site.args))
  }

  predicate Inlinable(s: Stmt) {
    s.Assign? && s.rvalue.Call? && s.rvalue.callee.Constant? && s.rvalue.callee.value.FnConst?
    && s.rvalue.callee.value.fn.generics == []
  }

  /** Where a callee's place lives in the caller: its locals behind the caller's,
      its return place in the place the call is stored to. */
  function ReplacePlace(place: Place, localCount: nat): Place -> Place {
    (pl: Place) =>
      if pl.base.Local? then pl.(base := Local(pl.base.index + localCount))
      else Place(place.base, place.projections + pl.projections)
  }

  function ReplaceTerminator(f: Place -> Place, blockCount: nat, returnBlock: nat, t: Terminator): Terminator {
    if t.Return? then Goto(returnBlock) else MapTerminator(f, t).MapSuccessors(b => b + blockCount)
  }

  function ReplaceBlock(f: Place -> Place, blockCount: nat, returnBlock: nat, b: Block): Block {
    Block(MapStmts(f, b.stmts), ReplaceTerminator(f, blockCount, returnBlock, b.terminator))
  }

  function ReplaceBlocks(f: Place -> Place, blockCount: nat, returnBlock: nat, bs: seq<Block>): (r: seq<Block>)
    ensures |r| == |bs|
  {
    seq(|bs|, i requires 0 <= i < |bs| => ReplaceBlock(f, blockCount, returnBlock, bs[i]))
  }

  function ArgStores(args: seq<Operand>, localCount: nat): (r: seq<Stmt>)
    ensures |r| == |args|
  {
    seq(|args|, i requires 0 <= i < |args| => Assign(Place(Local(localCount + i), []), Use(args[i])))
  }

  /** The body with the call at site replaced by the callee's blocks. */
  function Inlined(blocks: seq<Block>, site: Site, callee: seq<Block>, localCount: nat): (r: seq<Block>)
    requires IsSite(blocks, site)
    ensures |r| == |blocks| + |callee| + 1
  {
    var b := blocks[site.block];
    var n := |blocks|;
    var returnBlock := n + |callee|;
    blocks[site.block := Block(b.stmts[..site.stmt] + ArgStores(site.args, localCount), Goto(n))]
    + ReplaceBlocks(ReplacePlace(site.place, localCount), n, returnBlock, callee)
    + [Block([Noop] + b.stmts[site.stmt + 1..], b.terminator)]
  }

  /** The oracle knows what the body of function id computes. */
  ghost predicate Faithful(p: Prims, o: Oracle, id: nat, callee: seq<Block>) {
    forall vs: seq<Value> :: o(FnRef(id, []), vs) != NoResult ==>
      exists n: nat :: AsResult(Run(p, o, callee, Init(vs), n)) == o(FnRef(id, []), vs)
  }

  // ---------------------------------------------------------------- outside the inlined code

  ghost predicate OwnLocals(s: Store, localCount: nat) {
    forall i: nat :: i >= localCount ==> Get(s, Local(i)) == Undef
  }

  /** Where a point of the caller is found in the inlined body: what is behind the call
      is in the block that the callee returns to. */
  function Moved(site: Site, returnBlock: nat, block: nat, pc: nat): (nat, nat) {
    if block == site.block && pc > site.stmt then (returnBlock, pc - site.stmt) else (block, pc)
  }

  ghost predicate CallerRel(site: Site, returnBlock: nat, localCount: nat, c: Config, d: Config) {
    && c.Running? && d.Running?
    && OwnLocals(c.store, localCount) && StoreLeq(c.store, d.store)
    && (d.block, d.pc) == Moved(site, returnBlock, c.block, c.pc) && d.trace == c.trace
  }

  lemma OwnLocalsWrite(s: Store, pl: Place, v: Value, localCount: nat)
    requires OwnLocals(s, localCount) && BaseBelow(pl.base, localCount)
    ensures OwnLocals(WritePlace(s, pl, v), localCount)
  {
    forall i: nat | i >= localCount ensures Get(WritePlace(s, pl, v), Local(i)) == Undef {
      assert Get(s, Local(i)) == Undef;
    }
  }

  /** A statement of the caller keeps to the caller's locals. */
  lemma OwnLocalsStep(p: Prims, o: Oracle, c: Config, s: Stmt, localCount: nat)
    requires c.Running? && OwnLocals(c.store, localCount) && PlacesBelow(StmtMentions(s), localCount)
    ensures var c' := StepStmt(p, o, c, s); c'.Running? ==> OwnLocals(c'.store, localCount)
  {
    if s.Assign? {
      assert StmtMentions(s)[0] == s.place;
      forall v ensures OwnLocals(WritePlace(c.store, s.place, v), localCount) {
        OwnLocalsWrite(c.store, s.place, v, localCount);
      }
    }
  }

  lemma OracleRefl(o: Oracle)
    ensures OracleLeq(o, o)
  {
    forall f, vs ensures ResultLeq(o(f, vs), o(f, vs)) { ResultRefl(o(f, vs)); }
  }

  /** Away from the call, the code of the caller is found where Moved says. */
  lemma InlinedPoint(blocks: seq<Block>, site: Site, callee: seq<Block>, localCount: nat, c: Config)
    requires IsSite(blocks, site) && c.Running? && c.block < |blocks|
    requires !(c.block == site.block && c.pc == site.stmt)
    ensures SamePoint(blocks, Inlined(blocks, site, callee, localCount), c.block, c.pc,
                      Moved(site, |blocks| + |callee|, c.block, c.pc))
  {
  }

  /** A step outside a call site keeps the relation. */
  lemma CallerRelNext(site: Site, returnBlock: nat, localCount: nat, c: Config, d: Config, c': Config, d': Config)
    requires CallerRel(site, returnBlock, localCount, c, d) && c'.Running? && d'.Running?
    requires !(c.block == site.block && c.pc == site.stmt)
    requires OwnLocals(c'.store, localCount) && ConfigLeq(c', d'.(block := c'.block, pc := c'.pc))
    requires (c'.block == c.block && c'.pc == c.pc + 1 && d'.block == d.block && d'.pc == d.pc + 1)
             || (c'.pc == 0 && d'.block == c'.block && d'.pc == 0)
    ensures CallerRel(site, returnBlock, localCount, c', d')
  {
  }

  lemma CallerStmt(p: Prims, o: Oracle, site: Site, returnBlock: nat, localCount: nat, c: Config, d: Config, s: Stmt)
    requires CallerRel(site, returnBlock, localCount, c, d) && PlacesBelow(StmtMentions(s), localCount)
    requires !(c.block == site.block && c.pc == site.stmt)
    ensures var (c', d') := (StepStmt(p, o, c, s), StepStmt(p, o, d, s));
            if c'.Running? then CallerRel(site, returnBlock, localCount, c', d') else ResultLeq(AsResult(c'), AsResult(d'))
  {
    var e := c.(store := d.store);
    StoreSees(c.store, d.store);
    OwnLocalsStep(p, o, c, s, localCount);
    OracleRefl(o);
    StepStmtLeq(p, o, o, c, e, s);
    StepStmtMoved(p, o, c, s, c.block, c.pc);
    StepStmtMoved(p, o, e, s, d.block, d.pc);
    assert d == e.(block := d.block, pc := d.pc);
    var c', d' := StepStmt(p, o, c, s), StepStmt(p, o, d, s);
    if c'.Running? { CallerRelNext(site, returnBlock, localCount, c, d, c', d'); }
  }

  lemma CallerTerminator(site: Site, returnBlock: nat, localCount: nat, c: Config, d: Config, t: Terminator)
    requires CallerRel(site, returnBlock, localCount, c, d)
    requires !(c.block == site.block && c.pc == site.stmt)
    ensures var (c', d') := (StepTerminator(c, t), StepTerminator(d, t));
            if c'.Running? then CallerRel(site, returnBlock, localCount, c', d') else ResultLeq(AsResult(c'), AsResult(d'))
  {
    var e := c.(store := d.store);
    StoreSees(c.store, d.store);
    StepTerminatorLeq(c, e, t);
    StepTerminatorMoved(e, t, d.block, d.pc);
    assert d == e.(block := d.block, pc := d.pc);
    StepAlongEdge(c, t);
    var c', d' := StepTerminator(c, t), StepTerminator(d, t);
    if c'.Running? { CallerRelNext(site, returnBlock, localCount, c, d, c', d'); }
  }

  /** A point of the caller and the point of another body where the same is to be done. */
  ghost predicate SamePoint(blocks: seq<Block>, after: seq<Block>, block: nat, pc: nat, d: (nat, nat)) {
    && block < |blocks| && d.0 < |after|
    && var b := blocks[block];
       && (pc < |b.stmts| ==> d.1 < |after[d.0].stmts| && after[d.0].stmts[d.1] == b.stmts[pc])
       && (pc >= |b.stmts| ==> d.1 >= |after[d.0].stmts| && after[d.0].terminator == b.terminator)
  }

  lemma CallerStepAt(p: Prims, o: Oracle, blocks: seq<Block>, after: seq<Block>, site: Site, returnBlock: nat, localCount: nat,
                     c: Config, d: Config)
    requires BodyBelow(blocks, localCount) && CallerRel(site, returnBlock, localCount, c, d)
    requires !(c.block == site.block && c.pc == site.stmt)
    requires SamePoint(blocks, after, c.block, c.pc, (d.block, d.pc))
    ensures var (c', d') := (Step(p, o, blocks, c), Step(p, o, after, d));
            if c'.Running? then CallerRel(site, returnBlock, localCount, c', d') else ResultLeq(AsResult(c'), AsResult(d'))
  {
    var b := blocks[c.block];
    if c.pc < |b.stmts| {
      assert BlockBelow(b, localCount);
      CallerStmt(p, o, site, returnBlock, localCount, c, d, b.stmts[c.pc]);
    } else {
      CallerTerminator(site, returnBlock, localCount, c, d, b.terminator);
    }
  }

  /** Away from the call the two bodies go in step. */
  lemma CallerStep(p: Prims, o: Oracle, blocks: seq<Block>, site: Site, callee: seq<Block>, localCount: nat, c: Config, d: Config)
    requires IsSite(blocks, site) && BodyBelow(blocks, localCount)
    requires CallerRel(site, |blocks| + |callee|, localCount, c, d)
    requires !(c.block == site.block && c.pc == site.stmt)
    ensures var (c', d') := (Step(p, o, blocks, c), Step(p, o, Inlined(blocks, site, callee, localCount), d));
            if c'.Running? then CallerRel(site, |blocks| + |callee|, localCount, c', d')
            else ResultLeq(AsResult(c'), AsResult(d'))
  {
    if c.block < |blocks| {
      InlinedPoint(blocks, site, callee, localCount, c);
      CallerStepAt(p, o, blocks, Inlined(blocks, site, callee, localCount), site, |blocks| + |callee|, localCount, c, d);
    }
  }

  // ---------------------------------------------------------------- inside the inlined code

  /** The place of the call holds at least the callee's return value v,
      and the rest of its base is as base was when the call began. */
  ghost predicate ReturnInto(base: Value, ps: seq<Projection>, v: Value, now: Value) {
    && Leq(v, ReadPath(now, ps))
    && ((now == base && v == Undef) || now == WritePath(base, ps, ReadPath(now, ps)))
  }

  /** es is the callee's store, t the store of the inlined body, s that at the call. */
  ghost predicate CalleeStore(site: Site, localCount: nat, s: Store, es: Store, t: Store) {
    && (forall i: nat :: Leq(Get(es, Local(i)), Get(t, Local(i + localCount))))
    && (forall b: PlaceBase :: b != site.place.base && (b.Local? ==> b.index < localCount) ==> Get(t, b) == Get(s, b))
    && ReturnInto(Get(s, site.place.base), site.place.projections, Get(es, ReturnPlace), Get(t, site.place.base))
  }

  lemma CalleeSees(site: Site, localCount: nat, s: Store, es: Store, t: Store)
    requires CalleeStore(site, localCount, s, es, t)
    ensures Sees(es, t, ReplacePlace(site.place, localCount))
  {
    var f := ReplacePlace(site.place, localCount);
    forall pl: Place ensures Leq(ReadPlace(es, pl), ReadPlace(t, f(pl))) {
      match pl.base
      case Local(i) =>
        assert Leq(Get(es, Local(i)), Get(t, Local(i + localCount)));
        ReadLeq(Get(es, Local(i)), Get(t, Local(i + localCount)), pl.projections);
      case ReturnPlace =>
        var now := Get(t, site.place.base);
        ReadConcat(now, site.place.projections, pl.projections);
        ReadLeq(Get(es, ReturnPlace), ReadPath(now, site.place.projections), pl.projections);
    }
  }

  lemma ReturnIntoWrite(base: Value, ps: seq<Projection>, v: Value, now: Value, qs: seq<Projection>, x: Value)
    requires ReturnInto(base, ps, v, now)
    ensures ReturnInto(base, ps, WritePath(v, qs, x), WritePath(now, ps + qs, x))
  {
    var u := ReadPath(now, ps);
    var u' := WritePath(u, qs, x);
    WriteConcat(now, ps, qs, x);
    ReadWrite(now, ps, u');
    LeqRefl(x);
    WriteLeq(v, u, qs, x, x);
    if now == WritePath(base, ps, u) { WriteWrite(base, ps, u, u'); }
  }

  lemma WritePlaceGet(t: Store, pl: Place, x: Value, b: PlaceBase)
    ensures Get(WritePlace(t, pl, x), b) == if b == pl.base then WritePath(Get(t, b), pl.projections, x) else Get(t, b)
  {
  }

  lemma CalleeWriteLocal(site: Site, localCount: nat, s: Store, es: Store, t: Store, pl: Place, x: Value)
    requires CalleeStore(site, localCount, s, es, t) && pl.base.Local?
    requires site.place.base.Local? ==> site.place.base.index < localCount
    ensures CalleeStore(site, localCount, s, WritePlace(es, pl, x), WritePlace(t, pl.(base := Local(pl.base.index + localCount)), x))
  {
    var k := pl.base.index;
    var pl' := pl.(base := Local(k + localCount));
    var es', t' := WritePlace(es, pl, x), WritePlace(t, pl', x);
    forall i: nat ensures Leq(Get(es', Local(i)), Get(t', Local(i + localCount))) {
      assert Leq(Get(es, Local(i)), Get(t, Local(i + localCount)));
      WritePlaceGet(es, pl, x, Local(i));
      WritePlaceGet(t, pl', x, Local(i + localCount));
      if i == k {
        LeqRefl(x);
        WriteLeq(Get(es, Local(k)), Get(t, Local(k + localCount)), pl.projections, x, x);
      }
    }
    forall b: PlaceBase | b != site.place.base && (b.Local? ==> b.index < localCount) ensures Get(t', b) == Get(s, b) {
      WritePlaceGet(t, pl', x, b);
      assert Get(t, b) == Get(s, b);
    }
    WritePlaceGet(es, pl, x, ReturnPlace);
    WritePlaceGet(t, pl', x, site.place.base);
  }

  lemma CalleeWriteReturn(site: Site, localCount: nat, s: Store, es: Store, t: Store, qs: seq<Projection>, x: Value)
    requires CalleeStore(site, localCount, s, es, t)
    requires site.place.base.Local? ==> site.place.base.index < localCount
    ensures CalleeStore(site, localCount, s, WritePlace(es, Place(ReturnPlace, qs), x),
                        WritePlace(t, Place(site.place.base, site.place.projections + qs), x))
  {
    var base := site.place.base;
    var es', t' := WritePlace(es, Place(ReturnPlace, qs), x), WritePlace(t, Place(base, site.place.projections + qs), x);
    ReturnIntoWrite(Get(s, base), site.place.projections, Get(es, ReturnPlace), Get(t, base), qs, x);
    forall i: nat ensures Leq(Get(es', Local(i)), Get(t', Local(i + localCount))) {
      assert Leq(Get(es, Local(i)), Get(t, Local(i + localCount)));
    }
    forall b: PlaceBase | b != base && (b.Local? ==> b.index < localCount) ensures Get(t', b) == Get(s, b) {
      assert Get(t, b) == Get(s, b);
    }
  }

  lemma CalleeWrite(site: Site, localCount: nat, s: Store, es: Store, t: Store, pl: Place, x: Value)
    requires CalleeStore(site, localCount, s, es, t) && BaseBelow(site.place.base, localCount)
    ensures CalleeStore(site, localCount, s, WritePlace(es, pl, x), WritePlace(t, ReplacePlace(site.place, localCount)(pl), x))
  {
    var pl' := ReplacePlace(site.place, localCount)(pl);
    if pl.base.Local? {
      assert pl' == pl.(base := Local(pl.base.index + localCount));
      CalleeWriteLocal(site, localCount, s, es, t, pl, x);
    } else {
      assert pl == Place(ReturnPlace, pl.projections);
      assert pl' == Place(site.place.base, site.place.projections + pl.projections);
      CalleeWriteReturn(site, localCount, s, es, t, pl.projections, x);
    }
  }

  ghost predicate CalleeRel(site: Site, blockCount: nat, localCount: nat, s: Store, t: seq<Event>, e: Config, d: Config) {
    && e.Running? && d.Running?
    && d == Running(e.block + blockCount, e.pc, d.store, t + e.trace)
    && CalleeStore(site, localCount, s, e.store, d.store)
  }

  /** e' and d' are what a statement makes of related configurations, unless the callee got stuck. */
  ghost predicate CalleeNext(site: Site, blockCount: nat, localCount: nat, s: Store, t: seq<Event>, e': Config, d': Config) {
    if e'.Running? then CalleeRel(site, blockCount, localCount, s, t, e', d')
    else e'.outcome == Stuck || d' == Halted(e'.outcome, t + e'.trace)
  }

  /** The callee's assignment of v and its image. */
  lemma CalleeAssigned(site: Site, blockCount: nat, localCount: nat, s: Store, t: seq<Event>, e: Config, d: Config,
                       pl: Place, v: Value, es: seq<Event>)
    requires CalleeRel(site, blockCount, localCount, s, t, e, d) && BaseBelow(site.place.base, localCount)
    ensures CalleeRel(site, blockCount, localCount, s, t,
                      Running(e.block, e.pc + 1, WritePlace(e.store, pl, v), e.trace + es),
                      Running(d.block, d.pc + 1, WritePlace(d.store, ReplacePlace(site.place, localCount)(pl), v), d.trace + es))
  {
    CalleeWrite(site, localCount, s, e.store, d.store, pl, v);
    assert (t + e.trace) + es == t + (e.trace + es);
  }

  lemma CalleeCall(p: Prims, o: Oracle, site: Site, blockCount: nat, localCount: nat,
                   s: Store, t: seq<Event>, e: Config, d: Config, pl: Place, r: Rvalue, r': Rvalue)
    requires CalleeRel(site, blockCount, localCount, s, t, e, d) && BaseBelow(site.place.base, localCount)
    requires r.Call? && r'.Call?
    requires Eval(e.store, r.callee).Some? ==> Eval(d.store, r'.callee) == Eval(e.store, r.callee)
    requires EvalAll(e.store, r.args).Some? ==> EvalAll(d.store, r'.args) == EvalAll(e.store, r.args)
    ensures CalleeNext(site, blockCount, localCount, s, t, StepStmt(p, o, e, Assign(pl, r)),
                       StepStmt(p, o, d, Assign(ReplacePlace(site.place, localCount)(pl), r')))
  {
    var fn, vs := Eval(e.store, r.callee), EvalAll(e.store, r.args);
    if fn.Some? && fn.value.Fn? && vs.Some? {
      match o(fn.value.fn, vs.value)
      case Returns(v, es) => CalleeAssigned(site, blockCount, localCount, s, t, e, d, pl, v, es);
      case Panics(es) => assert (t + e.trace) + es == t + (e.trace + es);
      case NoResult =>
    }
  }

  lemma CalleePure(p: Prims, o: Oracle, site: Site, blockCount: nat, localCount: nat,
                   s: Store, t: seq<Event>, e: Config, d: Config, pl: Place, r: Rvalue, r': Rvalue)
    requires CalleeRel(site, blockCount, localCount, s, t, e, d) && BaseBelow(site.place.base, localCount)
    requires !r.Call? && !r'.Call?
    requires EvalRvalue(p, e.store, r).Some? ==> EvalRvalue(p, d.store, r') == EvalRvalue(p, e.store, r)
    ensures CalleeNext(site, blockCount, localCount, s, t, StepStmt(p, o, e, Assign(pl, r)),
                       StepStmt(p, o, d, Assign(ReplacePlace(site.place, localCount)(pl), r')))
  {
    var v := EvalRvalue(p, e.store, r);
    if v.Some? {
      CalleeAssigned(site, blockCount, localCount, s, t, e, d, pl, v.value, []);
      assert e.trace + [] == e.trace && d.trace + [] == d.trace;
    }
  }

  lemma CalleePrint(p: Prims, o: Oracle, site: Site, blockCount: nat, localCount: nat,
                    s: Store, t: seq<Event>, e: Config, d: Config, op: Operand, op': Operand, err: bool)
    requires CalleeRel(site, blockCount, localCount, s, t, e, d)
    requires Eval(e.store, op).Some? ==> Eval(d.store, op') == Eval(e.store, op)
    ensures CalleeNext(site, blockCount, localCount, s, t, StepStmt(p, o, e, Print(op, err)), StepStmt(p, o, d, Print(op', err)))
  {
    if Eval(e.store, op).Some? {
      var ev := [Printed(Eval(e.store, op).value, err)];
      assert (t + e.trace) + ev == t + (e.trace + ev);
    }
  }

  lemma CalleeStmt(p: Prims, o: Oracle, site: Site, blockCount: nat, localCount: nat,
                   s: Store, t: seq<Event>, e: Config, d: Config, stmt: Stmt)
    requires CalleeRel(site, blockCount, localCount, s, t, e, d) && BaseBelow(site.place.base, localCount)
    ensures CalleeNext(site, blockCount, localCount, s, t,
                       StepStmt(p, o, e, stmt), StepStmt(p, o, d, MapStmt(ReplacePlace(site.place, localCount), stmt)))
  {
    var f := ReplacePlace(site.place, localCount);
    match stmt
    case Noop =>
    case Print(op, err) =>
      CalleeSees(site, localCount, s, e.store, d.store);
      EvalSees(e.store, d.store, f, op);
      CalleePrint(p, o, site, blockCount, localCount, s, t, e, d, op, MapOperand(f, op), err);
    case Assign(pl, r) =>
      var r' := MapRvalue(f, r);
      assert Sees(e.store, d.store, f) by { CalleeSees(site, localCount, s, e.store, d.store); }
      if r.Call? {
        EvalSees(e.store, d.store, f, r.callee);
        EvalAllSees(e.store, d.store, f, r.args);
        CalleeCall(p, o, site, blockCount, localCount, s, t, e, d, pl, r, r');
      } else {
        EvalRvalueSees(p, e.store, d.store, f, r);
        CalleePure(p, o, site, blockCount, localCount, s, t, e, d, pl, r, r');
      }
  }

  lemma CalleeTerminator(site: Site, blockCount: nat, returnBlock: nat, localCount: nat,
                         s: Store, t: seq<Event>, e: Config, d: Config, term: Terminator)
    requires CalleeRel(site, blockCount, localCount, s, t, e, d)
    ensures var f := ReplacePlace(site.place, localCount);
            var (e', d') := (StepTerminator(e, term), StepTerminator(d, ReplaceTerminator(f, blockCount, returnBlock, term)));
            if e'.Running? then CalleeRel(site, blockCount, localCount, s, t, e', d')
            else match e'.outcome
                 case Returned(v) => v == Get(e.store, ReturnPlace) && e'.trace == e.trace && d' == Jump(d, returnBlock)
                 case Stuck => true
                 case _ => d' == Halted(e'.outcome, t + e'.trace)
  {
    var f := ReplacePlace(site.place, localCount);
    CalleeSees(site, localCount, s, e.store, d.store);
    if !term.Return? {
      StepMapSuccessors(d, MapTerminator(f, term), b => b + blockCount);
      match term
      case Switch(op, _) => EvalSees(e.store, d.store, f, op);
      case Assert(op, _, _) => EvalSees(e.store, d.store, f, op);
      case _ =>
    }
  }

  /** What the callee's run comes to inside the inlined body. */
  ghost predicate CalleeDone(site: Site, returnBlock: nat, localCount: nat, s: Store, t: seq<Event>, r: CallResult, d: Config) {
    match r
    case Returns(v, es) =>
      && d.Running? && d == Running(returnBlock, 0, d.store, t + es)
      && exists es' :: CalleeStore(site, localCount, s, es', d.store) && Get(es', ReturnPlace) == v
    case Panics(es) => d == Halted(Panicked, t + es)
    case NoResult => true
  }

  lemma InlinedCalleeBlock(blocks: seq<Block>, site: Site, callee: seq<Block>, localCount: nat, b: nat)
    requires IsSite(blocks, site) && b < |callee|
    ensures Inlined(blocks, site, callee, localCount)[b + |blocks|]
         == ReplaceBlock(ReplacePlace(site.place, localCount), |blocks|, |blocks| + |callee|, callee[b])
  {
  }

  /** One step of the callee and the same step in a body where its block stands rewritten. */
  lemma CalleeStepAt(p: Prims, o: Oracle, site: Site, blockCount: nat, returnBlock: nat, localCount: nat,
                     callee: seq<Block>, after: seq<Block>, s: Store, t: seq<Event>, e: Config, d: Config)
    requires BaseBelow(site.place.base, localCount)
    requires CalleeRel(site, blockCount, localCount, s, t, e, d) && e.block < |callee|
    requires e.block + blockCount < |after|
    requires after[e.block + blockCount]
          == ReplaceBlock(ReplacePlace(site.place, localCount), blockCount, returnBlock, callee[e.block])
    ensures var (e', d') := (Step(p, o, callee, e), Step(p, o, after, d));
            if e'.Running? then CalleeRel(site, blockCount, localCount, s, t, e', d')
            else CalleeDone(site, returnBlock, localCount, s, t, AsResult(e'), d')
  {
    var b := callee[e.block];
    if e.pc < |b.stmts| {
      CalleeStmt(p, o, site, blockCount, localCount, s, t, e, d, b.stmts[e.pc]);
    } else {
      CalleeTerminator(site, blockCount, returnBlock, localCount, s, t, e, d, b.terminator);
    }
  }

  lemma CalleeStep(p: Prims, o: Oracle, blocks: seq<Block>, site: Site, callee: seq<Block>, localCount: nat,
                   s: Store, t: seq<Event>, e: Config, d: Config)
    requires IsSite(blocks, site) && BaseBelow(site.place.base, localCount)
    requires CalleeRel(site, |blocks|, localCount, s, t, e, d)
    ensures var (e', d') := (Step(p, o, callee, e), Step(p, o, Inlined(blocks, site, callee, localCount), d));
            if e'.Running? then CalleeRel(site, |blocks|, localCount, s, t, e', d')
            else CalleeDone(site, |blocks| + |callee|, localCount, s, t, AsResult(e'), d')
  {
    if e.block < |callee| {
      InlinedCalleeBlock(blocks, site, callee, localCount, e.block);
      CalleeStepAt(p, o, site, |blocks|, |blocks| + |callee|, localCount, callee,
                   Inlined(blocks, site, callee, localCount), s, t, e, d);
    }
  }

  /** The inlined blocks do what the callee does, up to the jump back. */
  lemma CalleeRun(p: Prims, o: Oracle, blocks: seq<Block>, site: Site, callee: seq<Block>, localCount: nat,
                  s: Store, t: seq<Event>, e: Config, d: Config, n: nat) returns (m: nat)
    requires IsSite(blocks, site) && BaseBelow(site.place.base, localCount)
    requires CalleeRel(site, |blocks|, localCount, s, t, e, d)
    requires AsResult(Run(p, o, callee, e, n)) != NoResult
    ensures CalleeDone(site, |blocks| + |callee|, localCount, s, t, AsResult(Run(p, o, callee, e, n)),
                       Run(p, o, Inlined(blocks, site, callee, localCount), d, m))
  {
    var after := Inlined(blocks, site, callee, localCount);
    var f, g := x => Step(p, o, callee, x), x => Step(p, o, after, x);
    var rel: (Config, Config) -> bool := (x, y) => CalleeRel(site, |blocks|, localCount, s, t, x, y);
    var done: (Config, Config) -> bool :=
      (x, y) => CalleeDone(site, |blocks| + |callee|, localCount, s, t, AsResult(x), y);
    forall x, y | rel(x, y) ensures LockstepAt(f, g, rel, done, x, y) {
      CalleeStep(p, o, blocks, site, callee, localCount, s, t, x, y);
    }
    RunIter(p, o, callee, e, n);
    m := LockstepRun(f, g, rel, done, e, d, n);
    RunIter(p, o, after, d, m);
  }

  // ---------------------------------------------------------------- entering and leaving it

  /** The store after the first k argument stores. */
  ghost predicate ArgsStored(s: Store, vs: seq<Value>, k: nat, localCount: nat, t: Store)
    requires k <= |vs|
  {
    && (forall b: PlaceBase :: BaseBelow(b, localCount) ==> Get(t, b) == Get(s, b))
    && (forall i :: 0 <= i < k ==> Get(t, Local(localCount + i)) == vs[i])
  }

  lemma {:induction false} EvalAllAt(s: Store, os: seq<Operand>, i: nat)
    requires EvalAll(s, os).Some? && i < |os|
    ensures |EvalAll(s, os).value| == |os| && Eval(s, os[i]) == Some(EvalAll(s, os).value[i])
  {
    if i > 0 { EvalAllAt(s, os[1..], i - 1); } else if |os| > 1 { EvalAllAt(s, os[1..], 0); }
  }

  lemma {:induction false} EvalAllLength(s: Store, os: seq<Operand>)
    requires EvalAll(s, os).Some?
    ensures |EvalAll(s, os).value| == |os|
  {
    if os != [] { EvalAllLength(s, os[1..]); }
  }

  lemma ArgsSee(s: Store, s': Store, vs: seq<Value>, k: nat, localCount: nat, t: Store)
    requires OwnLocals(s, localCount) && StoreLeq(s, s') && k <= |vs| && ArgsStored(s', vs, k, localCount, t)
    ensures StoreLeq(s, t)
  {
    forall b ensures Leq(Get(s, b), Get(t, b)) {
      assert Leq(Get(s, b), Get(s', b));
      if BaseBelow(b, localCount) { assert Get(t, b) == Get(s', b); } else { assert Get(s, Local(b.index)) == Undef; }
    }
  }

  lemma StoreOneArg(p: Prims, o: Oracle, blocks: seq<Block>, site: Site, callee: seq<Block>, localCount: nat,
                    s: Store, s': Store, vs: seq<Value>, d: Config, k: nat)
    requires IsSite(blocks, site) && OwnLocals(s, localCount) && StoreLeq(s, s')
    requires EvalAll(s, site.args) == Some(vs) && k < |vs|
    requires d.Running? && d.block == site.block && d.pc == site.stmt + k && ArgsStored(s', vs, k, localCount, d.store)
    ensures var d' := Step(p, o, Inlined(blocks, site, callee, localCount), d);
            d' == Running(d.block, d.pc + 1, WritePlace(d.store, Place(Local(localCount + k), []), vs[k]), d.trace)
            && ArgsStored(s', vs, k + 1, localCount, d'.store)
  {
    EvalAllLength(s, site.args);
    EvalAllAt(s, site.args, k);
    var after := Inlined(blocks, site, callee, localCount);
    assert after[d.block].stmts[d.pc] == Assign(Place(Local(localCount + k), []), Use(site.args[k]));
    ArgsSee(s, s', vs, k, localCount, d.store);
    StoreSees(s, d.store);
    EvalSees(s, d.store, pl => pl, site.args[k]);
    var t := WritePlace(d.store, Place(Local(localCount + k), []), vs[k]);
    forall b: PlaceBase | BaseBelow(b, localCount) ensures Get(t, b) == Get(s', b) { assert Get(d.store, b) == Get(s', b); }
    forall i | 0 <= i < k + 1 ensures Get(t, Local(localCount + i)) == vs[i] {
      if i < k { assert Get(d.store, Local(localCount + i)) == vs[i]; }
    }
  }

  lemma {:induction false} StoreArgs(p: Prims, o: Oracle, blocks: seq<Block>, site: Site, callee: seq<Block>, localCount: nat,
                  s: Store, s': Store, vs: seq<Value>, d: Config, k: nat) returns (m: nat)
    requires IsSite(blocks, site) && OwnLocals(s, localCount) && StoreLeq(s, s')
    requires EvalAll(s, site.args) == Some(vs) && k <= |vs|
    requires d.Running? && d.block == site.block && d.pc == site.stmt + k && ArgsStored(s', vs, k, localCount, d.store)
    ensures var d' := Run(p, o, Inlined(blocks, site, callee, localCount), d, m);
            && m > 0 && d'.Running? && d' == Running(|blocks|, 0, d'.store, d.trace)
            && ArgsStored(s', vs, |vs|, localCount, d'.store)
    decreases |vs| - k
  {
    var after := Inlined(blocks, site, callee, localCount);
    EvalAllLength(s, site.args);
    if k < |vs| {
      StoreOneArg(p, o, blocks, site, callee, localCount, s, s', vs, d, k);
      var d' := Step(p, o, after, d);
      m := StoreArgs(p, o, blocks, site, callee, localCount, s, s', vs, d', k + 1);
      RunAdd(p, o, after, d, 1, m);
      m := m + 1;
    } else {
      m := 1;
      assert Run(p, o, after, d, 1) == Step(p, o, after, d);
    }
  }

  /** At the start of the callee its store is related to that of the inlined body. */
  lemma CalleeStart(site: Site, blockCount: nat, localCount: nat, s': Store, vs: seq<Value>, d: Config)
    requires BaseBelow(site.place.base, localCount)
    requires d.Running? && d.block == blockCount && d.pc == 0 && ArgsStored(s', vs, |vs|, localCount, d.store)
    ensures CalleeRel(site, blockCount, localCount, s', d.trace, Init(vs), d)
  {
    var es := InitStore(vs);
    forall i: nat ensures Leq(Get(es, Local(i)), Get(d.store, Local(i + localCount))) {
      if i < |vs| {
        assert Get(d.store, Local(localCount + i)) == vs[i];
        LeqRefl(vs[i]);
      }
    }
    assert Get(d.store, site.place.base) == Get(s', site.place.base);
    assert d.trace + [] == d.trace;
  }

  /** When the callee has returned, storing its value is what the inlined writes have come to. */
  lemma CalleeLeft(site: Site, localCount: nat, s: Store, s': Store, es: Store, t: Store)
    requires BaseBelow(site.place.base, localCount) && OwnLocals(s, localCount) && StoreLeq(s, s')
    requires CalleeStore(site, localCount, s', es, t)
    ensures StoreLeq(WritePlace(s, site.place, Get(es, ReturnPlace)), t)
    ensures OwnLocals(WritePlace(s, site.place, Get(es, ReturnPlace)), localCount)
  {
    var v, ps, pb := Get(es, ReturnPlace), site.place.projections, site.place.base;
    OwnLocalsWrite(s, site.place, v, localCount);
    var now := Get(t, pb);
    assert Leq(Get(s, pb), Get(s', pb));
    if now == Get(s', pb) && v == Undef {
      EraseLeq(Get(s, pb), Get(s', pb), ps);
    } else {
      WriteLeq(Get(s, pb), Get(s', pb), ps, v, ReadPath(now, ps));
    }
    var s1 := WritePlace(s, site.place, v);
    forall b ensures Leq(Get(s1, b), Get(t, b)) {
      if b != pb {
        assert Leq(Get(s, b), Get(s', b));
        if BaseBelow(b, localCount) { assert Get(t, b) == Get(s', b); } else { assert Get(s, Local(b.index)) == Undef; }
      }
    }
  }

  /** From the call on the inlined body comes to the callee's entry. */
  lemma EnterCallee(p: Prims, o: Oracle, blocks: seq<Block>, site: Site, callee: seq<Block>, localCount: nat,
                    c: Config, d: Config, vs: seq<Value>) returns (k: nat)
    requires IsSite(blocks, site) && BaseBelow(site.place.base, localCount)
    requires CallerRel(site, |blocks| + |callee|, localCount, c, d)
    requires c.block == site.block && c.pc == site.stmt && EvalAll(c.store, site.args) == Some(vs)
    ensures k > 0
    ensures CalleeRel(site, |blocks|, localCount, d.store, c.trace, Init(vs),
                      Run(p, o, Inlined(blocks, site, callee, localCount), d, k))
  {
    k := StoreArgs(p, o, blocks, site, callee, localCount, c.store, d.store, vs, d, 0);
    CalleeStart(site, |blocks|, localCount, d.store, vs, Run(p, o, Inlined(blocks, site, callee, localCount), d, k));
  }

  /** From the call statement to the jump back, or to the panic. */
  lemma CallBody(p: Prims, o: Oracle, blocks: seq<Block>, site: Site, callee: seq<Block>, localCount: nat,
                 c: Config, d: Config, vs: seq<Value>) returns (m: nat)
    requires IsSite(blocks, site) && BaseBelow(site.place.base, localCount) && Faithful(p, o, site.id, callee)
    requires CallerRel(site, |blocks| + |callee|, localCount, c, d)
    requires c.block == site.block && c.pc == site.stmt
    requires EvalAll(c.store, site.args) == Some(vs) && o(FnRef(site.id, []), vs) != NoResult
    ensures m > 0
    ensures CalleeDone(site, |blocks| + |callee|, localCount, d.store, d.trace, o(FnRef(site.id, []), vs),
                       Run(p, o, Inlined(blocks, site, callee, localCount), d, m))
  {
    var after := Inlined(blocks, site, callee, localCount);
    var n: nat :| AsResult(Run(p, o, callee, Init(vs), n)) == o(FnRef(site.id, []), vs);
    var m1 := EnterCallee(p, o, blocks, site, callee, localCount, c, d, vs);
    var m2 := CalleeRun(p, o, blocks, site, callee, localCount, d.store, d.trace, Init(vs), Run(p, o, after, d, m1), n);
    RunAdd(p, o, after, d, m1, m2);
    m := m1 + m2;
  }

  lemma CallBack(p: Prims, o: Oracle, blocks: seq<Block>, site: Site, callee: seq<Block>, localCount: nat,
                 c: Config, d: Config, v: Value, es: seq<Event>, d2: Config)
    requires IsSite(blocks, site) && BaseBelow(site.place.base, localCount)
    requires CallerRel(site, |blocks| + |callee|, localCount, c, d)
    requires c.block == site.block && c.pc == site.stmt
    requires CalleeDone(site, |blocks| + |callee|, localCount, d.store, d.trace, Returns(v, es), d2)
    ensures CallerRel(site, |blocks| + |callee|, localCount,
                      Running(c.block, c.pc + 1, WritePlace(c.store, site.place, v), c.trace + es),
                      Step(p, o, Inlined(blocks, site, callee, localCount), d2))
  {
    var after := Inlined(blocks, site, callee, localCount);
    var cs :| CalleeStore(site, localCount, d.store, cs, d2.store) && Get(cs, ReturnPlace) == v;
    CalleeLeft(site, localCount, c.store, d.store, cs, d2.store);
    assert after[d2.block].stmts[0] == Noop;
    assert Step(p, o, after, d2) == d2.(pc := 1);
  }

  lemma CallStepped(p: Prims, o: Oracle, blocks: seq<Block>, site: Site, c: Config)
    requires IsSite(blocks, site) && c.Running? && c.block == site.block && c.pc == site.stmt
    requires var c' := Step(p, o, blocks, c); c'.Running? || AsResult(c') != NoResult
    ensures var vs := EvalAll(c.store, site.args);
            vs.Some? && Step(p, o, blocks, c) == match o(FnRef(site.id, []), vs.value)
              case Returns(v, es) => Running(c.block, c.pc + 1, WritePlace(c.store, site.place, v), c.trace + es)
              case Panics(es) => Halted(Panicked, c.trace + es)
              case NoResult => Halted(Blocked, c.trace)
  {
  }

  /** The whole call: from the call statement to behind it, or to the panic. */
  lemma CallSite(p: Prims, o: Oracle, blocks: seq<Block>, site: Site, callee: seq<Block>, localCount: nat,
                 c: Config, d: Config) returns (m: nat)
    requires IsSite(blocks, site) && BaseBelow(site.place.base, localCount) && Faithful(p, o, site.id, callee)
    requires CallerRel(site, |blocks| + |callee|, localCount, c, d)
    requires c.block == site.block && c.pc == site.stmt
    requires var c' := Step(p, o, blocks, c); c'.Running? || AsResult(c') != NoResult
    ensures m > 0
    ensures var (c', d') := (Step(p, o, blocks, c), Run(p, o, Inlined(blocks, site, callee, localCount), d, m));
            if c'.Running? then CallerRel(site, |blocks| + |callee|, localCount, c', d')
            else ResultLeq(AsResult(c'), AsResult(d'))
  {
    var after := Inlined(blocks, site, callee, localCount);
    CallStepped(p, o, blocks, site, c);
    var vs := EvalAll(c.store, site.args).value;
    var r := o(FnRef(site.id, []), vs);
    m := CallBody(p, o, blocks, site, callee, localCount, c, d, vs);
    var d2 := Run(p, o, after, d, m);
    if r.Returns? {
      CallBack(p, o, blocks, site, callee, localCount, c, d, r.value, r.events, d2);
      RunNext(p, o, after, d, m);
      m := m + 1;
    }
  }

  lemma RunNext(p: Prims, o: Oracle, blocks: seq<Block>, c: Config, m: nat)
    ensures Run(p, o, blocks, c, m + 1) == Step(p, o, blocks, Run(p, o, blocks, c, m))
  {
    RunAdd(p, o, blocks, c, m, 1);
    RunOne(p, o, blocks, Run(p, o, blocks, c, m));
  }

  lemma RunOne(p: Prims, o: Oracle, blocks: seq<Block>, c: Config)
    ensures Run(p, o, blocks, c, 1) == Step(p, o, blocks, c)
  {
    assert Run(p, o, blocks, c, 1) == Run(p, o, blocks, Step(p, o, blocks, c), 0);
  }

  // ---------------------------------------------------------------- inlining one call preserves meaning

  /** A step of the caller is matched by some steps of the inlined body. */
  lemma InlinedStep(p: Prims, o: Oracle, blocks: seq<Block>, site: Site, callee: seq<Block>, localCount: nat,
                    c: Config, d: Config) returns (m: nat)
    requires IsSite(blocks, site) && BodyBelow(blocks, localCount) && BaseBelow(site.place.base, localCount)
    requires Faithful(p, o, site.id, callee)
    requires CallerRel(site, |blocks| + |callee|, localCount, c, d)
    requires var c' := Step(p, o, blocks, c); c'.Running? || AsResult(c') != NoResult
    ensures m > 0
    ensures var (c', d') := (Step(p, o, blocks, c), Run(p, o, Inlined(blocks, site, callee, localCount), d, m));
            if c'.Running? then CallerRel(site, |blocks| + |callee|, localCount, c', d')
            else ResultLeq(AsResult(c'), AsResult(d'))
  {
    if c.block == site.block && c.pc == site.stmt {
      m := CallSite(p, o, blocks, site, callee, localCount, c, d);
    } else {
      CallerStep(p, o, blocks, site, callee, localCount, c, d);
      RunOne(p, o, Inlined(blocks, site, callee, localCount), d);
      m := 1;
    }
  }

  /** Related configurations, or results of which the second is at least the first. */
  ghost predicate Related(rel: (Config, Config) -> bool, c: Config, d: Config) {
    if c.Running? then rel(c, d) else ResultLeq(AsResult(c), AsResult(d))
  }

  /** Unless it gets nowhere, the step from c is matched by one or more steps from d. */
  ghost predicate Matched(p: Prims, o: Oracle, a: seq<Block>, b: seq<Block>, rel: (Config, Config) -> bool, c: Config, d: Config) {
    var c' := Step(p, o, a, c);
    c'.Running? || AsResult(c') != NoResult ==> exists m: nat :: m > 0 && Related(rel, c', Run(p, o, b, d, m))
  }

  /** Steps of the first body are matched, and related configurations are running and have printed the same. */
  ghost predicate Matching(p: Prims, o: Oracle, a: seq<Block>, b: seq<Block>, rel: (Config, Config) -> bool) {
    forall x, y :: rel(x, y) ==> x.Running? && y.Running? && x.trace == y.trace && Matched(p, o, a, b, rel, x, y)
  }

  lemma {:induction false} MatchedRun(p: Prims, o: Oracle, a: seq<Block>, b: seq<Block>, rel: (Config, Config) -> bool,
                                      c: Config, d: Config, n: nat)
    requires Matching(p, o, a, b, rel) && rel(c, d)
    ensures Comes(p, o, b, Run(p, o, a, c, n), d, n)
    decreases n
  {
    var c' := Step(p, o, a, c);
    if n == 0 || (c'.Halted? && AsResult(c') == NoResult) {
      assert Run(p, o, b, d, 0) == d;
      if n > 0 { RunHalted(p, o, a, c', n - 1); }
    } else {
      assert Matched(p, o, a, b, rel, c, d);
      var m: nat :| m > 0 && Related(rel, c', Run(p, o, b, d, m));
      var d' := Run(p, o, b, d, m);
      if c'.Running? {
        MatchedRun(p, o, a, b, rel, c', d', n - 1);
        var x := Run(p, o, a, c', n - 1);
        var k: nat :| var e := Run(p, o, b, d', k);
          ResultLeq(AsResult(x), AsResult(e)) && x.trace <= e.trace && (x.Running? ==> e.Running? && k >= n - 1);
        RunAdd(p, o, b, d, m, k);
        assert Run(p, o, b, d, m + k) == Run(p, o, b, d', k);
      } else {
        RunHalted(p, o, a, c', n - 1);
        assert c'.trace == d'.trace;
      }
    }
  }

  ghost function CallerRelation(site: Site, returnBlock: nat, localCount: nat): (Config, Config) -> bool {
    (x, y) => CallerRel(site, returnBlock, localCount, x, y)
  }

  /** Every step of the caller is matched. */
  lemma InlinedMatching(p: Prims, o: Oracle, blocks: seq<Block>, site: Site, callee: seq<Block>, localCount: nat)
    requires IsSite(blocks, site) && BodyBelow(blocks, localCount) && BaseBelow(site.place.base, localCount)
    requires Faithful(p, o, site.id, callee)
    ensures Matching(p, o, blocks, Inlined(blocks, site, callee, localCount),
                     CallerRelation(site, |blocks| + |callee|, localCount))
  {
    var after := Inlined(blocks, site, callee, localCount);
    var rel := CallerRelation(site, |blocks| + |callee|, localCount);
    forall x, y | rel(x, y) ensures Matched(p, o, blocks, after, rel, x, y) {
      var x' := Step(p, o, blocks, x);
      if x'.Running? || AsResult(x') != NoResult {
        var k := InlinedStep(p, o, blocks, site, callee, localCount, x, y);
        assert Related(rel, x', Run(p, o, after, y, k));
      }
    }
  }

  lemma InlinedRun(p: Prims, o: Oracle, blocks: seq<Block>, site: Site, callee: seq<Block>, localCount: nat,
                   c: Config, d: Config, n: nat)
    requires IsSite(blocks, site) && BodyBelow(blocks, localCount) && BaseBelow(site.place.base, localCount)
    requires Faithful(p, o, site.id, callee)
    requires CallerRel(site, |blocks| + |callee|, localCount, c, d)
    ensures Comes(p, o, Inlined(blocks, site, callee, localCount), Run(p, o, blocks, c, n), d, n)
  {
    InlinedMatching(p, o, blocks, site, callee, localCount);
    MatchedRun(p, o, blocks, Inlined(blocks, site, callee, localCount), CallerRelation(site, |blocks| + |callee|, localCount), c, d, n);
  }

  /** Every run of the caller that returns or panics does so with the same prints, and returning
      at least as much, after the call has been replaced by the callee's body; what any run has printed
      at any time is printed, and a run that goes on for ever still does. */
  lemma InlinedRefines(p: Prims, o: Oracle, blocks: seq<Block>, site: Site, callee: seq<Block>, localCount: nat, arity: nat)
    requires IsSite(blocks, site) && BodyBelow(blocks, localCount) && arity <= localCount
    requires Faithful(p, o, site.id, callee)
    ensures Refines(p, o, arity, blocks, Inlined(blocks, site, callee, localCount))
  {
    var after := Inlined(blocks, site, callee, localCount);
    assert BlockBelow(blocks[site.block], localCount);
    assert StmtMentions(blocks[site.block].stmts[site.stmt])[0] == site.place;
    forall args: seq<Value> | |args| == arity ensures RefinesOn(p, o, blocks, after, args) {
      var c := Init(args);
      StoreRefl(c.store);
      forall n: nat ensures Comes(p, o, after, Run(p, o, blocks, c, n), c, n) {
        InlinedRun(p, o, blocks, site, callee, localCount, c, c, n);
      }
      assert Follows(p, o, blocks, after, args);
      FollowsRefines(p, o, blocks, after, args);
    }
  }

  // ---------------------------------------------------------------- the inlined body is well formed

  lemma ReplacePlacesBelow(place: Place, localCount: nat, n: nat, ps: seq<Place>)
    requires BaseBelow(place.base, localCount) && PlacesBelow(ps, n)
    ensures PlacesBelow(MapPlaces(ReplacePlace(place, localCount), ps), localCount + n)
  {
    forall i | 0 <= i < |ps| ensures BaseBelow(ReplacePlace(place, localCount)(ps[i]).base, localCount + n) {
      assert BaseBelow(ps[i].base, n);
    }
  }

  lemma ReplaceBlockBelow(site: Site, blockCount: nat, returnBlock: nat, localCount: nat, n: nat, b: Block)
    requires BaseBelow(site.place.base, localCount) && BlockBelow(b, n)
    ensures BlockBelow(ReplaceBlock(ReplacePlace(site.place, localCount), blockCount, returnBlock, b), localCount + n)
  {
    var f := ReplacePlace(site.place, localCount);
    var b' := ReplaceBlock(f, blockCount, returnBlock, b);
    forall i | 0 <= i < |b.stmts| ensures PlacesBelow(StmtMentions(b'.stmts[i]), localCount + n) {
      StmtMentionsMap(f, b.stmts[i]);
      ReplacePlacesBelow(site.place, localCount, n, StmtMentions(b.stmts[i]));
    }
    TerminatorReadsMap(f, b.terminator);
    ReplacePlacesBelow(site.place, localCount, n, TerminatorReads(b.terminator));
  }

  lemma {:induction false} OperandsBelow(os: seq<Operand>, n: nat, i: nat)
    requires PlacesBelow(OperandsRead(os), n) && i < |os|
    ensures PlacesBelow(OperandReads(os[i]), n)
  {
    var ps, qs := OperandReads(os[0]), OperandsRead(os[1..]);
    forall j | 0 <= j < |ps| ensures BaseBelow(ps[j].base, n) { assert (ps + qs)[j] == ps[j]; }
    forall j | 0 <= j < |qs| ensures BaseBelow(qs[j].base, n) { assert (ps + qs)[|ps| + j] == qs[j]; }
    if i > 0 { OperandsBelow(os[1..], n, i - 1); }
  }

  lemma ArgStoresBelow(blocks: seq<Block>, site: Site, localCount: nat, n: nat, i: nat)
    requires IsSite(blocks, site) && BodyBelow(blocks, localCount) && |site.args| <= n && i < |site.args|
    ensures PlacesBelow(StmtMentions(ArgStores(site.args, localCount)[i]), localCount + n)
  {
    assert BlockBelow(blocks[site.block], localCount);
    var s := blocks[site.block].stmts[site.stmt];
    assert PlacesBelow(StmtMentions(s), localCount);
    assert StmtMentions(s) == [site.place] + OperandsRead(site.args);
    forall j | 0 <= j < |OperandsRead(site.args)| ensures BaseBelow(OperandsRead(site.args)[j].base, localCount) {
      assert StmtMentions(s)[j + 1] == OperandsRead(site.args)[j];
    }
    OperandsBelow(site.args, localCount, i);
    var ps := StmtMentions(ArgStores(site.args, localCount)[i]);
    assert ps == [Place(Local(localCount + i), [])] + OperandReads(site.args[i]);
    forall j | 0 <= j < |ps| ensures BaseBelow(ps[j].base, localCount + n) {
      if j > 0 { assert ps[j] == OperandReads(site.args[i])[j - 1]; }
    }
  }

  lemma BelowMore(ps: seq<Place>, m: nat, n: nat)
    requires PlacesBelow(ps, m) && m <= n
    ensures PlacesBelow(ps, n)
  {
    forall i | 0 <= i < |ps| ensures BaseBelow(ps[i].base, n) { assert BaseBelow(ps[i].base, m); }
  }

  lemma BlockBelowMore(b: Block, m: nat, n: nat)
    requires BlockBelow(b, m) && m <= n
    ensures BlockBelow(b, n)
  {
    forall i | 0 <= i < |b.stmts| ensures PlacesBelow(StmtMentions(b.stmts[i]), n) {
      BelowMore(StmtMentions(b.stmts[i]), m, n);
    }
    BelowMore(TerminatorReads(b.terminator), m, n);
  }

  /** The two halves of the split block. */
  lemma SplitBelow(blocks: seq<Block>, site: Site, localCount: nat, n: nat)
    requires IsSite(blocks, site) && BodyBelow(blocks, localCount) && |site.args| <= n
    ensures var b := blocks[site.block];
            && BlockBelow(Block(b.stmts[..site.stmt] + ArgStores(site.args, localCount), Goto(|blocks|)), localCount + n)
            && BlockBelow(Block([Noop] + b.stmts[site.stmt + 1..], b.terminator), localCount + n)
  {
    var b := blocks[site.block];
    assert BlockBelow(b, localCount);
    BlockBelowMore(b, localCount, localCount + n);
    var first := b.stmts[..site.stmt] + ArgStores(site.args, localCount);
    forall i | 0 <= i < |first| ensures PlacesBelow(StmtMentions(first[i]), localCount + n) {
      if i < site.stmt {
        assert first[i] == b.stmts[i];
      } else {
        ArgStoresBelow(blocks, site, localCount, n, i - site.stmt);
      }
    }
    var second := [Noop] + b.stmts[site.stmt + 1..];
    forall i | 0 <= i < |second| ensures PlacesBelow(StmtMentions(second[i]), localCount + n) {
      if i > 0 { assert second[i] == b.stmts[site.stmt + i]; }
    }
  }

  lemma InlinedBlocks(blocks: seq<Block>, site: Site, callee: seq<Block>, localCount: nat, k: nat)
    requires IsSite(blocks, site) && k < |blocks| + |callee| + 1
    ensures var b := blocks[site.block];
            var x := Inlined(blocks, site, callee, localCount)[k];
            if k == site.block then x == Block(b.stmts[..site.stmt] + ArgStores(site.args, localCount), Goto(|blocks|))
            else if k < |blocks| then x == blocks[k]
            else if k < |blocks| + |callee| then
              x == ReplaceBlock(ReplacePlace(site.place, localCount), |blocks|, |blocks| + |callee|, callee[k - |blocks|])
            else x == Block([Noop] + b.stmts[site.stmt + 1..], b.terminator)
  {
  }

  /** The inlined body mentions the caller's locals and, behind them, the callee's. */
  lemma InlinedBelow(blocks: seq<Block>, site: Site, callee: seq<Block>, localCount: nat, n: nat)
    requires IsSite(blocks, site) && BodyBelow(blocks, localCount) && BodyBelow(callee, n) && |site.args| <= n
    ensures BodyBelow(Inlined(blocks, site, callee, localCount), localCount + n)
  {
    assert BlockBelow(blocks[site.block], localCount);
    assert StmtMentions(blocks[site.block].stmts[site.stmt])[0] == site.place;
    SplitBelow(blocks, site, localCount, n);
    forall k: nat | k < |blocks| + |callee| + 1
      ensures BlockBelow(Inlined(blocks, site, callee, localCount)[k], localCount + n)
    {
      InlinedBlocks(blocks, site, callee, localCount, k);
      if k < |blocks| {
        if k != site.block { BlockBelowMore(blocks[k], localCount, localCount + n); }
      } else if k < |blocks| + |callee| {
        ReplaceBlockBelow(site, |blocks|, |blocks| + |callee|, localCount, n, callee[k - |blocks|]);
      }
    }
  }

  /** Every edge of the inlined body leads to a block, and none to ENTRY. */
  lemma InlinedEdges(blocks: seq<Block>, site: Site, callee: seq<Block>, localCount: nat)
    requires IsSite(blocks, site) && InRange(blocks) && NoEntryEdge(blocks) && InRange(callee)
    ensures InRange(Inlined(blocks, site, callee, localCount)) && NoEntryEdge(Inlined(blocks, site, callee, localCount))
  {
    var after := Inlined(blocks, site, callee, localCount);
    forall u: nat, v: nat | Edge(after, u, v) ensures v < |after| && v != ENTRY {
      if |blocks| <= u < |blocks| + |callee| {
        InlinedCalleeBlock(blocks, site, callee, localCount, u - |blocks|);
        var t := callee[u - |blocks|].terminator;
        if !t.Return? {
          var g: nat -> nat := b => b + |blocks|;
          MapSuccessorsMember(MapTerminator(ReplacePlace(site.place, localCount), t), g, v);
          var x: nat :| x in MapTerminator(ReplacePlace(site.place, localCount), t).Successors() && g(x) == v;
          assert Edge(callee, u - |blocks|, x);
        }
      } else if u != site.block {
        var w := if u < |blocks| then u else site.block;
        assert Edge(blocks, w, v) && !Edge(blocks, w, ENTRY);
      }
    }
  }

  // ---------------------------------------------------------------- the pass

  datatype FnBody = FnBody(locals: seq<LocalInfo>, blocks: seq<Block>)

  /** The oracle knows the bodies that calls are inlined from. */
  ghost predicate Knows(p: Prims, o: Oracle, bodies: map<nat, FnBody>) {
    forall id :: id in bodies ==> Faithful(p, o, id, bodies[id].blocks)
  }

  ghost predicate WellFormed(b: FnBody) {
    InRange(b.blocks) && BodyBelow(b.blocks, |b.locals|)
  }

  /** Every statement passes the test. */
  ghost predicate EachStmt(blocks: seq<Block>, test: Stmt -> bool) {
    forall b, i :: 0 <= b < |blocks| && 0 <= i < |blocks[b].stmts| ==> test(blocks[b].stmts[i])
  }

  /** A call passes at most as many arguments as its callee has locals. */
  function FitsTest(bodies: map<nat, FnBody>): Stmt -> bool {
    s => Inlinable(s) && s.rvalue.callee.value.fn.id in bodies ==>
           |s.rvalue.args| <= |bodies[s.rvalue.callee.value.fn.id].locals|
  }

  /** A call to be inlined is of a function whose body is there. */
  function KnownTest(bodies: map<nat, FnBody>): Stmt -> bool {
    s => Inlinable(s) ==> s.rvalue.callee.value.fn.id in bodies
  }

  ghost predicate CallsFit(bodies: map<nat, FnBody>, blocks: seq<Block>) {
    EachStmt(blocks, FitsTest(bodies))
  }

  ghost predicate CallsKnown(bodies: map<nat, FnBody>, blocks: seq<Block>) {
    EachStmt(blocks, KnownTest(bodies))
  }

  /** The first call site in block order. */
  ghost predicate IsFirstSite(blocks: seq<Block>, s: Site) {
    && IsSite(blocks, s)
    && (forall b, i :: 0 <= b < s.block && 0 <= i < |blocks[b].stmts| ==> !Inlinable(blocks[b].stmts[i]))
    && (forall i :: 0 <= i < s.stmt ==> !Inlinable(blocks[s.block].stmts[i]))
  }

  ghost predicate NoSite(blocks: seq<Block>) {
    forall b, i :: 0 <= b < |blocks| && 0 <= i < |blocks[b].stmts| ==> !Inlinable(blocks[b].stmts[i])
  }

  /** The site comes no later in block order. */
  predicate NoLater(s: Site, t: Site) {
    s.block < t.block || (s.block == t.block && s.stmt <= t.stmt)
  }

  lemma SiteAt(blocks: seq<Block>, b: nat, i: nat) returns (s: Site)
    requires b < |blocks| && i < |blocks[b].stmts| && Inlinable(blocks[b].stmts[i])
    ensures s.block == b && s.stmt == i && IsSite(blocks, s) && s.id == blocks[b].stmts[i].rvalue.callee.value.fn.id
    ensures s.args == blocks[b].stmts[i].rvalue.args
  {
    var r := blocks[b].stmts[i].rvalue;
    s := Site(b, i, blocks[b].stmts[i].place, r.callee.value.fn.id, r.args);
  }

  /** Every call of a non-generic function that is known by its name is a site, and the first of them is inlined. */
  lemma SitesExactly(blocks: seq<Block>, s: Site)
    ensures NoSite(blocks) <==> forall t: Site :: !IsSite(blocks, t)
    ensures IsFirstSite(blocks, s) <==> IsSite(blocks, s) && forall t: Site :: IsSite(blocks, t) ==> NoLater(s, t)
  {
    forall t: Site | IsSite(blocks, t) ensures Inlinable(blocks[t.block].stmts[t.stmt]) { }
    forall b: nat, i: nat | b < |blocks| && i < |blocks[b].stmts| && Inlinable(blocks[b].stmts[i])
      ensures exists t: Site :: IsSite(blocks, t) && t.block == b && t.stmt == i
    {
      var t := SiteAt(blocks, b, i);
    }
  }

  /** What is asked of calls is asked of the sites. */
  lemma CallsExactly(bodies: map<nat, FnBody>, blocks: seq<Block>)
    ensures CallsKnown(bodies, blocks) <==> forall s: Site :: IsSite(blocks, s) ==> s.id in bodies
    ensures CallsFit(bodies, blocks) <==>
              forall s: Site :: IsSite(blocks, s) && s.id in bodies ==> |s.args| <= |bodies[s.id].locals|
  {
    forall s: Site | IsSite(blocks, s)
      ensures CallsKnown(bodies, blocks) ==> s.id in bodies
      ensures CallsFit(bodies, blocks) && s.id in bodies ==> |s.args| <= |bodies[s.id].locals|
    {
      if CallsKnown(bodies, blocks) { KnownSite(bodies, blocks, s); }
      if CallsFit(bodies, blocks) && s.id in bodies { SiteFits(bodies, blocks, s); }
    }
    forall b, i | 0 <= b < |blocks| && 0 <= i < |blocks[b].stmts|
      ensures (forall s: Site :: IsSite(blocks, s) ==> s.id in bodies) ==> KnownTest(bodies)(blocks[b].stmts[i])
      ensures (forall s: Site :: IsSite(blocks, s) && s.id in bodies ==> |s.args| <= |bodies[s.id].locals|) ==>
                FitsTest(bodies)(blocks[b].stmts[i])
    {
      if Inlinable(blocks[b].stmts[i]) { var s := SiteAt(blocks, b, i); }
    }
  }

  /** The first call site in block order, if any. */
  method FindSite(blocks: seq<Block>) returns (site: Option<Site>)
    ensures match site
            case Some(s) => IsFirstSite(blocks, s)
            case None => NoSite(blocks)
  {
    for b := 0 to |blocks|
      invariant forall c, i :: 0 <= c < b && 0 <= i < |blocks[c].stmts| ==> !Inlinable(blocks[c].stmts[i])
    {
      var ss := blocks[b].stmts;
      for i := 0 to |ss|
        invariant forall j :: 0 <= j < i ==> !Inlinable(ss[j])
      {
        if Inlinable(ss[i]) {
          var r := ss[i].rvalue;
          return Some(Site(b, i, ss[i].place, r.callee.value.fn.id, r.args));
        }
      }
    }
    return None;
  }

  /** The local of a caller that stands for one of a callee: of its type, and a temporary if that is a parameter
      or a variable. */
  predicate IsTempFor(of: LocalInfo, l: LocalInfo) {
    && l.ty == of.ty
    && l.kind == match of.kind case Temp => Temp case Env => Env case Var(_) => Temp case ParamKind => Temp
  }

  /** After the locals of a caller stand those for the callee's. */
  ghost predicate LocalsAppended(before: seq<LocalInfo>, callee: seq<LocalInfo>, after: seq<LocalInfo>) {
    && |after| == |before| + |callee| && after[..|before|] == before
    && forall i :: 0 <= i < |callee| ==> IsTempFor(callee[i], after[|before| + i])
  }

  /** The parameters are the same locals as before, and no variable has come after the others. */
  ghost predicate ParamsKept(before: seq<LocalInfo>, after: seq<LocalInfo>) {
    && (forall l :: 0 <= l < |after| ==> (after[l].kind.ParamKind? <==> l < |before| && before[l].kind.ParamKind?))
    && (forall l :: |before| <= l < |after| ==> !after[l].kind.Var?)
  }

  function AsTemp(l: LocalInfo): LocalInfo {
    if l.kind.ParamKind? || l.kind.Var? then l.(kind := Temp) else l
  }

  function AsTemps(ls: seq<LocalInfo>): (r: seq<LocalInfo>)
    ensures |r| == |ls|
    ensures forall i :: 0 <= i < |ls| ==> IsTempFor(ls[i], r[i])
  {
    seq(|ls|, i requires 0 <= i < |ls| => AsTemp(ls[i]))
  }

  lemma AppendedInlined(start: seq<Block>, site: Site, callee: seq<Block>, localCount: nat, stmts: seq<Stmt>, newBlock: Block,
                        appended: seq<Block>, after: seq<Block>)
    requires IsSite(start, site)
    requires stmts == start[site.block].stmts[..site.stmt] + ArgStores(site.args, localCount)
    requires newBlock == Block([Noop] + start[site.block].stmts[site.stmt + 1..], start[site.block].terminator)
    requires appended == start[site.block := Block(stmts, Goto(|start|))] + callee + [newBlock]
    requires after == appended[..|start|]
      + ReplaceBlocks(ReplacePlace(site.place, localCount), |start|, |start| + |callee|, callee)[..|callee|]
      + appended[|start| + |callee|..]
    ensures after == Inlined(start, site, callee, localCount)
  {
    assert appended[..|start|] == start[site.block := Block(stmts, Goto(|start|))];
    assert appended[|start| + |callee|..] == [newBlock];
  }

  /** Splits the block at the call, appends the callee's locals and blocks, and rewrites the latter in place. */
  method InlineSite(body: Body, site: Site, callee: FnBody)
    requires IsSite(body.blocks, site)
    modifies body
    ensures body.blocks == Inlined(old(body.blocks), site, callee.blocks, |old(body.locals)|)
    ensures LocalsAppended(old(body.locals), callee.locals, body.locals)
  {
    ghost var start := body.blocks;
    var currentBlockCount := |body.blocks|;
    var currentLocalCount := |body.locals|;
    body.locals := body.locals + AsTemps(callee.locals);
    body.blocks := body.blocks + callee.blocks;
    var block := body.blocks[site.block];
    var stmts := block.stmts[site.stmt := Noop];
    var newBlock := Block(stmts[site.stmt..], block.terminator);
    stmts := stmts[..site.stmt];
    for i := 0 to |site.args|
      invariant stmts == start[site.block].stmts[..site.stmt] + ArgStores(site.args, currentLocalCount)[..i]
    {
      stmts := stmts + [Assign(Place(Local(currentLocalCount + i), []), Use(site.args[i]))];
    }
    body.blocks := body.blocks[site.block := Block(stmts, Goto(currentBlockCount))];
    var returnedBlock := |body.blocks|;
    body.blocks := body.blocks + [newBlock];
    var f := ReplacePlace(site.place, currentLocalCount);
    ghost var appended := body.blocks;
    for i := 0 to |callee.blocks|
      invariant |body.blocks| == |appended| && body.locals == old(body.locals) + AsTemps(callee.locals)
      invariant body.blocks == appended[..currentBlockCount]
        + ReplaceBlocks(f, currentBlockCount, returnedBlock, callee.blocks)[..i] + appended[currentBlockCount + i..]
    {
      var k := currentBlockCount + i;
      body.blocks := body.blocks[k := ReplaceBlock(f, currentBlockCount, returnedBlock, body.blocks[k])];
    }
    assert newBlock.stmts == [Noop] + start[site.block].stmts[site.stmt + 1..];
    assert appended == start[site.block := Block(stmts, Goto(currentBlockCount))] + callee.blocks + [newBlock];
    assert ArgStores(site.args, currentLocalCount)[..|site.args|] == ArgStores(site.args, currentLocalCount);
    AppendedInlined(start, site, callee.blocks, currentLocalCount, stmts, newBlock, appended, body.blocks);
  }

  /** In each body but the last the first call site is inlined to give the next. */
  ghost predicate Inlinings(bodies: map<nat, FnBody>, chain: seq<FnBody>) {
    forall i {:trigger InlinedAt(bodies, chain, i)} :: 0 <= i < |chain| - 1 ==> InlinedAt(bodies, chain, i)
  }

  ghost predicate InlinedAt(bodies: map<nat, FnBody>, chain: seq<FnBody>, i: nat)
    requires i < |chain| - 1
  {
    InlinesOnce(bodies, chain[i], chain[i + 1])
  }

  ghost predicate InlinesOnce(bodies: map<nat, FnBody>, a: FnBody, b: FnBody) {
    exists site: Site :: InlinesFirst(bodies, a, site, b)
  }

  ghost predicate InlinedThrough(bodies: map<nat, FnBody>, chain: seq<FnBody>, a: FnBody, b: FnBody) {
    chain != [] && Inlinings(bodies, chain) && chain[0] == a && chain[|chain| - 1] == b
  }

  ghost predicate InlinesFirst(bodies: map<nat, FnBody>, a: FnBody, site: Site, b: FnBody) {
    && IsFirstSite(a.blocks, site) && site.id in bodies
    && b.blocks == Inlined(a.blocks, site, bodies[site.id].blocks, |a.locals|)
    && LocalsAppended(a.locals, bodies[site.id].locals, b.locals)
  }

  /** What the pass may leave after n inlinings: nothing to inline is left or the budget is used up,
      or the next call is of a function whose body is not there, on which the source aborts. */
  ghost predicate InliningStops(bodies: map<nat, FnBody>, n: nat, blocks: seq<Block>, ok: bool) {
    && n <= 10
    && if ok then n == 10 || NoSite(blocks)
       else n < 10 && UnknownSite(bodies, blocks)
  }

  const BUDGET := 10

  /** What inlining keeps. */
  ghost predicate InlinedWell(bodies: map<nat, FnBody>, start: FnBody, now: FnBody) {
    && WellFormed(now) && NoEntryEdge(now.blocks) && CallsFit(bodies, now.blocks)
    && |start.blocks| <= |now.blocks| && |start.locals| <= |now.locals| && now.locals[..|start.locals|] == start.locals
    && ParamsKept(start.locals, now.locals)
    && RefinesFor(bodies, start, now.blocks)
    && (AllKnown(bodies, start.blocks) ==> AllKnown(bodies, now.blocks))
    && (NoConstantSwitches(bodies, start.blocks) ==> NoConstantSwitches(bodies, now.blocks))
  }

  /** The blocks refine the body wherever the oracle knows the other bodies. */
  ghost predicate RefinesFor(bodies: map<nat, FnBody>, start: FnBody, blocks: seq<Block>) {
    forall p, o, arity: nat :: Knows(p, o, bodies) && arity <= |start.locals| ==> Refines(p, o, arity, start.blocks, blocks)
  }

  ghost predicate BodiesWell(bodies: map<nat, FnBody>) {
    forall id :: id in bodies ==> WellFormed(bodies[id]) && CallsFit(bodies, bodies[id].blocks)
  }

  lemma AppendedKeeps(start: seq<LocalInfo>, now: seq<LocalInfo>, callee: seq<LocalInfo>, next: seq<LocalInfo>)
    requires |start| <= |now| && now[..|start|] == start && ParamsKept(start, now) && LocalsAppended(now, callee, next)
    ensures next[..|start|] == start && ParamsKept(start, next)
  {
    assert next[..|start|] == next[..|now|][..|start|];
    forall l | 0 <= l < |next|
      ensures next[l].kind.ParamKind? <==> l < |start| && start[l].kind.ParamKind?
      ensures |start| <= l ==> !next[l].kind.Var?
    {
      if l < |now| { assert next[..|now|][l] == next[l]; } else { assert IsTempFor(callee[l - |now|], next[|now| + (l - |now|)]); }
    }
  }

  lemma InlinedOnceWell(bodies: map<nat, FnBody>, start: FnBody, now: FnBody, site: Site, next: FnBody)
    requires InlinedWell(bodies, start, now) && InlinesFirst(bodies, now, site, next) && BodiesWell(bodies)
    ensures InlinedWell(bodies, start, next)
  {
    var callee, localCount := bodies[site.id], |now.locals|;
    assert WellFormed(callee);
    SiteFits(bodies, now.blocks, site);
    InlinedBelow(now.blocks, site, callee.blocks, localCount, |callee.locals|);
    InlinedEdges(now.blocks, site, callee.blocks, localCount);
    InlinedCalls(bodies, now.blocks, site, localCount);
    AppendedKeeps(start.locals, now.locals, callee.locals, next.locals);
    if NoConstantSwitches(bodies, now.blocks) { InlinedSwitches(now.blocks, site, callee.blocks, localCount); }
    forall p, o, arity: nat | Knows(p, o, bodies) && arity <= |start.locals|
      ensures Refines(p, o, arity, start.blocks, next.blocks)
    {
      InlinedRefines(p, o, now.blocks, site, callee.blocks, localCount, arity);
      RefinesTrans(p, o, arity, start.blocks, now.blocks, next.blocks);
    }
  }

  lemma NotInlinedWell(bodies: map<nat, FnBody>, start: FnBody)
    requires WellFormed(start) && NoEntryEdge(start.blocks) && CallsFit(bodies, start.blocks)
    ensures InlinedWell(bodies, start, start)
  {
    forall p, o, arity: nat ensures Refines(p, o, arity, start.blocks, start.blocks) { RefinesRefl(p, o, arity, start.blocks); }
  }

  lemma ChainSite(bodies: map<nat, FnBody>, chain: seq<FnBody>, k: nat) returns (site: Site)
    requires Inlinings(bodies, chain) && 0 < k < |chain|
    ensures InlinesFirst(bodies, chain[k - 1], site, chain[k])
  {
    assert InlinedAt(bodies, chain, k - 1);
    site :| InlinesFirst(bodies, chain[k - 1], site, chain[k]);
  }

  lemma {:induction false} ChainWell(bodies: map<nat, FnBody>, chain: seq<FnBody>, k: nat)
    requires Inlinings(bodies, chain) && k < |chain| && BodiesWell(bodies)
    requires WellFormed(chain[0]) && NoEntryEdge(chain[0].blocks) && CallsFit(bodies, chain[0].blocks)
    ensures InlinedWell(bodies, chain[0], chain[k])
    decreases k
  {
    if k == 0 {
      NotInlinedWell(bodies, chain[0]);
    } else {
      ChainWell(bodies, chain, k - 1);
      var site := ChainSite(bodies, chain, k);
      InlinedOnceWell(bodies, chain[0], chain[k - 1], site, chain[k]);
    }
  }

  lemma LongerChain(bodies: map<nat, FnBody>, chain: seq<FnBody>, a: FnBody, b: FnBody, next: FnBody)
    requires InlinedThrough(bodies, chain, a, b) && InlinesOnce(bodies, b, next)
    ensures InlinedThrough(bodies, chain + [next], a, next)
  {
    var longer := chain + [next];
    forall i | 0 <= i < |longer| - 1 ensures InlinedAt(bodies, longer, i) {
      if i < |chain| - 1 { assert InlinedAt(bodies, chain, i); }
    }
  }

  /** What the pass makes of a, and whether it ends without aborting. */
  ghost predicate InlinedTo(bodies: map<nat, FnBody>, a: FnBody, b: FnBody, ok: bool) {
    exists chain: seq<FnBody> :: InlinedThrough(bodies, chain, a, b) && InliningStops(bodies, |chain| - 1, b.blocks, ok)
  }

  lemma InlinedToWell(bodies: map<nat, FnBody>, a: FnBody, b: FnBody, ok: bool)
    requires InlinedTo(bodies, a, b, ok) && BodiesWell(bodies)
    requires WellFormed(a) && NoEntryEdge(a.blocks) && CallsFit(bodies, a.blocks)
    ensures InlinedWell(bodies, a, b) && (AllKnown(bodies, a.blocks) ==> ok)
  {
    var chain: seq<FnBody> :| InlinedThrough(bodies, chain, a, b) && InliningStops(bodies, |chain| - 1, b.blocks, ok);
    ChainWell(bodies, chain, |chain| - 1);
    WellKnown(bodies, a, b, |chain| - 1, ok);
  }

  lemma WellKnown(bodies: map<nat, FnBody>, a: FnBody, b: FnBody, n: nat, ok: bool)
    requires InlinedWell(bodies, a, b) && InliningStops(bodies, n, b.blocks, ok)
    ensures AllKnown(bodies, a.blocks) ==> ok
  {
    if !ok { AbortsUnknown(bodies, n, b.blocks); }
  }

  lemma AbortsUnknown(bodies: map<nat, FnBody>, n: nat, blocks: seq<Block>)
    requires InliningStops(bodies, n, blocks, false)
    ensures !AllKnown(bodies, blocks)
  {
    var site: Site :| IsFirstSite(blocks, site) && site.id !in bodies;
    if AllKnown(bodies, blocks) { KnownSite(bodies, blocks, site); }
  }

  /** The body before the k-th inlining, and its site. */
  lemma ChainStep(bodies: map<nat, FnBody>, chain: seq<FnBody>, k: nat) returns (site: Site)
    requires Inlinings(bodies, chain) && 0 < k < |chain| && BodiesWell(bodies)
    requires WellFormed(chain[0]) && NoEntryEdge(chain[0].blocks) && CallsFit(bodies, chain[0].blocks)
    ensures InlinesFirst(bodies, chain[k - 1], site, chain[k])
    ensures WellFormed(chain[k - 1]) && |chain[0].locals| <= |chain[k - 1].locals|
  {
    site := ChainSite(bodies, chain, k);
    ChainWell(bodies, chain, k - 1);
  }

  datatype Round = Inlines | NothingLeft | Aborts

  ghost predicate UnknownSite(bodies: map<nat, FnBody>, blocks: seq<Block>) {
    exists site: Site :: IsFirstSite(blocks, site) && site.id !in bodies
  }

  /** One round of the pass. */
  method InlineNext(body: Body, bodies: map<nat, FnBody>) returns (round: Round)
    modifies body
    ensures match round
            case Inlines => InlinesOnce(bodies, old(FnBody(body.locals, body.blocks)), FnBody(body.locals, body.blocks))
            case NothingLeft => NoSite(body.blocks) && body.blocks == old(body.blocks) && body.locals == old(body.locals)
            case Aborts => UnknownSite(bodies, body.blocks) && body.blocks == old(body.blocks) && body.locals == old(body.locals)
  {
    var found := FindSite(body.blocks);
    if found.None? { return NothingLeft; }
    var site := found.value;
    if site.id !in bodies { return Aborts; }
    ghost var before := FnBody(body.locals, body.blocks);
    InlineSite(body, site, bodies[site.id]);
    assert InlinesFirst(bodies, before, site, FnBody(body.locals, body.blocks));
    return Inlines;
  }

  /** Inlines calls, ten at most. The result is false when the source aborts, which it does
      on a call of the body's own function or of one without a body: neither is in bodies. */
  method RunPass(body: Body, bodies: map<nat, FnBody>) returns (ok: bool)
    requires InRange(body.blocks) && NoEntryEdge(body.blocks) && BodyBelow(body.blocks, |body.locals|)
    requires BodiesWell(bodies) && CallsFit(bodies, body.blocks)
    modifies body
    ensures InlinedTo(bodies, old(FnBody(body.locals, body.blocks)), FnBody(body.locals, body.blocks), ok)
    ensures InlinedWell(bodies, old(FnBody(body.locals, body.blocks)), FnBody(body.locals, body.blocks))
    ensures ParamsKept(old(body.locals), body.locals)
    ensures AllKnown(bodies, old(body.blocks)) ==> ok
  {
    ghost var start := FnBody(body.locals, body.blocks);
    ghost var chain := [start];
    var inlineBudget: nat := BUDGET;
    ok := true;
    while inlineBudget > 0
      invariant |chain| == BUDGET - inlineBudget + 1 && InlinedThrough(bodies, chain, start, FnBody(body.locals, body.blocks))
    {
      ghost var now := FnBody(body.locals, body.blocks);
      var round := InlineNext(body, bodies);
      if round != Inlines {
        ok := round == NothingLeft;
        break;
      }
      inlineBudget := inlineBudget - 1;
      LongerChain(bodies, chain, start, now, FnBody(body.locals, body.blocks));
      chain := chain + [FnBody(body.locals, body.blocks)];
    }
    ghost var now := FnBody(body.locals, body.blocks);
    assert InlinedTo(bodies, start, now, ok) by { assert InliningStops(bodies, |chain| - 1, now.blocks, ok); }
    InlinedToWell(bodies, start, now, ok);
  }

  /** No switch on a constant, in the body or in one of the others. */
  ghost predicate NoConstantSwitches(bodies: map<nat, FnBody>, blocks: seq<Block>) {
    NoConstantSwitch(blocks) && forall id :: id in bodies ==> NoConstantSwitch(bodies[id].blocks)
  }

  /** Every call to be inlined, in the body or in one of the others, is of a function whose body is there. */
  ghost predicate AllKnown(bodies: map<nat, FnBody>, blocks: seq<Block>) {
    CallsKnown(bodies, blocks) && forall id :: id in bodies ==> CallsKnown(bodies, bodies[id].blocks)
  }

  lemma KnownSite(bodies: map<nat, FnBody>, blocks: seq<Block>, site: Site)
    requires CallsKnown(bodies, blocks) && IsSite(blocks, site)
    ensures site.id in bodies
  {
    assert KnownTest(bodies)(blocks[site.block].stmts[site.stmt]);
  }

  lemma SiteFits(bodies: map<nat, FnBody>, blocks: seq<Block>, site: Site)
    requires CallsFit(bodies, blocks) && IsSite(blocks, site) && site.id in bodies
    ensures |site.args| <= |bodies[site.id].locals|
  {
    assert FitsTest(bodies)(blocks[site.block].stmts[site.stmt]);
  }

  lemma InlinedSwitches(blocks: seq<Block>, site: Site, callee: seq<Block>, localCount: nat)
    requires IsSite(blocks, site) && NoConstantSwitch(blocks) && NoConstantSwitch(callee)
    ensures NoConstantSwitch(Inlined(blocks, site, callee, localCount))
  {
    var after := Inlined(blocks, site, callee, localCount);
    forall b | 0 <= b < |after| ensures !SwitchesOnConstant(after[b].terminator) {
      if |blocks| <= b < |blocks| + |callee| {
        InlinedCalleeBlock(blocks, site, callee, localCount, b - |blocks|);
        assert !SwitchesOnConstant(callee[b - |blocks|].terminator);
      } else if b == |blocks| + |callee| {
        assert !SwitchesOnConstant(blocks[site.block].terminator);
      }
    }
  }

  lemma {:induction false} MapOperandsLength(f: Place -> Place, os: seq<Operand>)
    ensures |MapOperands(f, os)| == |os|
  {
    if os != [] { MapOperandsLength(f, os[1..]); }
  }

  /** The test looks at calls only, and not at the places they use. */
  ghost predicate AboutCalls(test: Stmt -> bool) {
    && (forall f: Place -> Place, s: Stmt :: test(s) ==> test(MapStmt(f, s)))
    && (forall s: Stmt :: !Inlinable(s) ==> test(s))
  }

  lemma CallTests(bodies: map<nat, FnBody>)
    ensures AboutCalls(FitsTest(bodies)) && AboutCalls(KnownTest(bodies))
  {
    forall f: Place -> Place, s: Stmt | FitsTest(bodies)(s) ensures FitsTest(bodies)(MapStmt(f, s)) {
      if s.Assign? && s.rvalue.Call? { MapOperandsLength(f, s.rvalue.args); }
    }
  }

  lemma InlinedCalls(bodies: map<nat, FnBody>, blocks: seq<Block>, site: Site, localCount: nat)
    requires IsSite(blocks, site) && site.id in bodies
    ensures var after := Inlined(blocks, site, bodies[site.id].blocks, localCount);
            && (CallsFit(bodies, blocks) && CallsFit(bodies, bodies[site.id].blocks) ==> CallsFit(bodies, after))
            && (CallsKnown(bodies, blocks) && CallsKnown(bodies, bodies[site.id].blocks) ==> CallsKnown(bodies, after))
  {
    var callee := bodies[site.id].blocks;
    CallTests(bodies);
    if CallsFit(bodies, blocks) && CallsFit(bodies, callee) { InlinedEach(FitsTest(bodies), blocks, site, callee, localCount); }
    if CallsKnown(bodies, blocks) && CallsKnown(bodies, callee) { InlinedEach(KnownTest(bodies), blocks, site, callee, localCount); }
  }

  lemma InlinedEach(test: Stmt -> bool, blocks: seq<Block>, site: Site, callee: seq<Block>, localCount: nat)
    requires IsSite(blocks, site) && AboutCalls(test) && EachStmt(blocks, test) && EachStmt(callee, test)
    ensures EachStmt(Inlined(blocks, site, callee, localCount), test)
  {
    var after := Inlined(blocks, site, callee, localCount);
    var sb := blocks[site.block];
    forall b, i | 0 <= b < |after| && 0 <= i < |after[b].stmts| ensures test(after[b].stmts[i]) {
      if |blocks| <= b < |blocks| + |callee| {
        InlinedCalleeBlock(blocks, site, callee, localCount, b - |blocks|);
        assert test(callee[b - |blocks|].stmts[i]);
        assert after[b].stmts[i] == MapStmt(ReplacePlace(site.place, localCount), callee[b - |blocks|].stmts[i]);
      } else if b < |blocks| && b != site.block {
        assert test(blocks[b].stmts[i]);
      } else if b == site.block {
        if i < site.stmt { assert test(sb.stmts[i]); }
      } else if i > 0 {
        assert after[b].stmts[i] == sb.stmts[site.stmt + i];
        assert test(sb.stmts[site.stmt + i]);
      }
    }
  }
}
