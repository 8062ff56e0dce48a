/** The collection of all function instances that a program needs. */
module Monomorph {
  import opened Prelude
  import opened Types
  import opened Mir

  /** Generic bodies by function id. */
  type Bodies = map<nat, seq<Block>>

  // ---------------------------------------------------------------- function constants

  function OperandFns(o: Operand): seq<FnRef> {
    match o
    case Constant(FnConst(fn)) => [fn]
    case _ => []
  }

  function OperandsFns(os: seq<Operand>): seq<FnRef> {
    if os == [] then [] else OperandFns(os[0]) + OperandsFns(os[1..])
  }

  function RvalueFns(r: Rvalue): seq<FnRef> {
    match r
    case UninitZeroed(_) => []
    case Aggregate(_, fields) => OperandsFns(fields)
    case Use(o) => OperandFns(o)
    case Call(callee, args) => OperandFns(callee) + OperandsFns(args)
    case Binary(_, l, r) => OperandFns(l) + OperandFns(r)
    case Cast(_, o) => OperandFns(o)
    case Discriminant(_) => []
  }

  function StmtFns(s: Stmt): seq<FnRef> {
    match s
    case Noop => []
    case Assign(_, r) => RvalueFns(r)
    case Print(o, _) => OperandFns(o)
  }

  function StmtsFns(ss: seq<Stmt>): seq<FnRef> {
    if ss == [] then [] else StmtsFns(ss[..|ss| - 1]) + StmtFns(ss[|ss| - 1])
  }

  function TerminatorFns(t: Terminator): seq<FnRef> {
    match t
    case Assert(o, _, _) => OperandFns(o)
    case Switch(o, _) => OperandFns(o)
    case _ => []
  }

  /** The function constants of a body, in visiting order. */
  function BodyFns(blocks: seq<Block>): seq<FnRef> {
    if blocks == [] then [] else BodyFns(blocks[..|blocks| - 1]) + BlockFns(blocks[|blocks| - 1])
  }

  function BlockFns(b: Block): seq<FnRef> {
    StmtsFns(b.stmts) + TerminatorFns(b.terminator)
  }

  // ---------------------------------------------------------------- the instances needed

  /** A function constant in the body of an instance with these arguments. */
  function Instantiate(fn: FnRef, args: seq<Ty>): (r: FnRef)
    ensures r.id == fn.id && |r.generics| == |fn.generics|
    ensures forall i :: 0 <= i < |r.generics| ==> r.generics[i] == Bind(fn.generics[i], args)
  {
    FnRef(fn.id, BindEach(fn.generics, args))
  }

  function InstantiateAll(fns: seq<FnRef>, args: seq<Ty>): (r: seq<FnRef>)
    ensures |r| == |fns| && forall i :: 0 <= i < |r| ==> r[i] == Instantiate(fns[i], args)
  {
    seq(|fns|, i requires 0 <= i < |fns| => Instantiate(fns[i], args))
  }

  /** The instances that the body of an instance mentions. */
  function Callees(bodies: Bodies, inst: FnRef): seq<FnRef> {
    if inst.id in bodies then InstantiateAll(BodyFns(bodies[inst.id]), inst.generics) else []
  }

  /** What each instance mentions. */
  type Mention = FnRef -> seq<FnRef>

  function MentionIn(bodies: Bodies): Mention {
    i => Callees(bodies, i)
  }

  ghost predicate Mentions(next: Mention, i: FnRef, j: FnRef) {
    j in next(i)
  }

  ghost predicate NeededIn(next: Mention, entry: FnRef, n: nat, inst: FnRef)
    decreases n
  {
    if n == 0 then inst == entry
    else exists user: FnRef :: NeededIn(next, entry, n - 1, user) && Mentions(next, user, inst)
  }

  ghost predicate Needed(next: Mention, entry: FnRef, inst: FnRef) {
    exists n: nat :: NeededIn(next, entry, n, inst)
  }

  ghost predicate ClosedSet(next: Mention, entry: FnRef, s: iset<FnRef>) {
    entry in s && forall i, j :: i in s && Mentions(next, i, j) ==> j in s
  }

  lemma NeededStep(next: Mention, entry: FnRef, i: FnRef, j: FnRef)
    requires Needed(next, entry, i) && Mentions(next, i, j)
    ensures Needed(next, entry, j)
  {
    var n: nat :| NeededIn(next, entry, n, i);
    assert NeededIn(next, entry, n + 1, j);
  }

  lemma NeededBy(next: Mention, entry: FnRef, n: nat, inst: FnRef) returns (user: FnRef)
    requires NeededIn(next, entry, n, inst) && n > 0
    ensures NeededIn(next, entry, n - 1, user) && Mentions(next, user, inst)
  {
    user :| NeededIn(next, entry, n - 1, user) && Mentions(next, user, inst);
  }

  lemma {:induction false} NeededInClosed(next: Mention, entry: FnRef, n: nat, inst: FnRef, s: iset<FnRef>)
    requires NeededIn(next, entry, n, inst) && ClosedSet(next, entry, s)
    ensures inst in s
    decreases n
  {
    if n > 0 {
      var user := NeededBy(next, entry, n, inst);
      NeededInClosed(next, entry, n - 1, user, s);
    }
  }

  /** The instances needed are the least set that contains the entry and all that its members mention. */
  lemma NeededIsLeast(next: Mention, entry: FnRef)
    ensures ClosedSet(next, entry, iset i | Needed(next, entry, i))
    ensures forall s: iset<FnRef> :: ClosedSet(next, entry, s) ==> (iset i | Needed(next, entry, i)) <= s
  {
    assert NeededIn(next, entry, 0, entry);
    forall i, j | Needed(next, entry, i) && Mentions(next, i, j) ensures Needed(next, entry, j) {
      NeededStep(next, entry, i, j);
    }
    forall s: iset<FnRef>, i | ClosedSet(next, entry, s) && Needed(next, entry, i) ensures i in s {
      var n: nat :| NeededIn(next, entry, n, i);
      NeededInClosed(next, entry, n, i, s);
    }
  }

  ghost predicate Distinct(s: seq<FnRef>) {
    forall i, j :: 0 <= i < j < |s| ==> s[i] != s[j]
  }

  /** Every function mentioned has a body. */
  ghost predicate HaveBodies(bodies: Bodies) {
    forall id, fn :: id in bodies && fn in BodyFns(bodies[id]) ==> fn.id in bodies
  }

  // ---------------------------------------------------------------- the collector

  /** Between two visits: the instances are the ones seen, all needed, and what they mention is seen or queued. */
  ghost predicate Collecting(next: Mention, entry: FnRef, seen: set<FnRef>, instances: seq<FnRef>, queue: seq<FnRef>) {
    && Distinct(instances)
    && (forall i :: i in seen <==> i in instances)
    && (forall i :: i in seen || i in queue ==> Needed(next, entry, i))
    && (entry in seen || entry in queue)
    && (forall i, j :: i in seen && Mentions(next, i, j) ==> j in seen || j in queue)
    && (if instances == [] then queue == [entry] else instances[0] == entry)
  }

  lemma CollectNew(next: Mention, entry: FnRef, seen: set<FnRef>, instances: seq<FnRef>, queue: seq<FnRef>)
    requires Collecting(next, entry, seen, instances, queue) && queue != [] && queue[0] !in seen
    ensures Collecting(next, entry, seen + {queue[0]}, instances + [queue[0]], queue[1..] + next(queue[0]))
  {
    var inst := queue[0];
    var queue' := queue[1..] + next(inst);
    assert inst in queue;
    forall i | i in queue && i != inst ensures i in queue[1..] { assert queue == [inst] + queue[1..]; }
    forall i | i in queue' ensures Needed(next, entry, i) {
      if i in next(inst) { NeededStep(next, entry, inst, i); } else { assert i in queue; }
    }
  }

  lemma CollectSeen(next: Mention, entry: FnRef, seen: set<FnRef>, instances: seq<FnRef>, queue: seq<FnRef>)
    requires Collecting(next, entry, seen, instances, queue) && queue != [] && queue[0] in seen
    ensures Collecting(next, entry, seen, instances, queue[1..])
  {
    forall i | i in queue && i != queue[0] ensures i in queue[1..] { assert queue == [queue[0]] + queue[1..]; }
  }

  lemma CollectedAll(next: Mention, entry: FnRef, seen: set<FnRef>, instances: seq<FnRef>)
    requires Collecting(next, entry, seen, instances, [])
    ensures forall i :: i in instances <==> Needed(next, entry, i)
  {
    forall i | Needed(next, entry, i) ensures i in instances {
      var n: nat :| NeededIn(next, entry, n, i);
      NeededInClosed(next, entry, n, i, iset x | x in seen);
    }
  }

  lemma {:induction false} NeededHasBody(bodies: Bodies, entry: FnRef, inst: FnRef)
    requires HaveBodies(bodies) && entry.id in bodies && Needed(MentionIn(bodies), entry, inst)
    ensures inst.id in bodies
  {
    var s := iset i: FnRef | i.id in bodies;
    forall i, j | i in s && Mentions(MentionIn(bodies), i, j) ensures j in s {
      var fns := BodyFns(bodies[i.id]);
      var k :| 0 <= k < |fns| && Instantiate(fns[k], i.generics) == j;
      assert fns[k] in fns;
    }
    var n: nat :| NeededIn(MentionIn(bodies), entry, n, inst);
    NeededInClosed(MentionIn(bodies), entry, n, inst, s);
  }

  class InstanceCollector {
    const bodies: Bodies
    var seenInstances: set<FnRef>
    var instances: seq<FnRef>

    constructor (bodies: Bodies)
      ensures this.bodies == bodies && seenInstances == {} && instances == []
    {
      this.bodies := bodies;
      seenInstances, instances := {}, [];
    }

    /** Returns each needed instance once, the entry first. The set of needed instances must be finite. */
    method Collect(entry: FnRef, ghost universe: set<FnRef>) returns (collected: seq<FnRef>)
      requires seenInstances == {} && instances == []
      requires HaveBodies(bodies) && entry.id in bodies
      requires forall i :: Needed(MentionIn(bodies), entry, i) ==> i in universe
      modifies this
      ensures Distinct(collected) && |collected| > 0 && collected[0] == entry
      ensures forall i :: i in collected <==> Needed(MentionIn(bodies), entry, i)
    {
      var unvisited := [entry];
      ghost var next := MentionIn(bodies);
      assert NeededIn(next, entry, 0, entry);
      while unvisited != []
        invariant Collecting(next, entry, seenInstances, instances, unvisited)
        decreases universe - seenInstances, |unvisited|
      {
        var inst := unvisited[0];
        if inst in seenInstances {
          CollectSeen(next, entry, seenInstances, instances, unvisited);
          unvisited := unvisited[1..];
          continue;
        }
        assert inst in unvisited;
        NeededHasBody(bodies, entry, inst);
        CollectNew(next, entry, seenInstances, instances, unvisited);
        seenInstances := seenInstances + {inst};
        instances := instances + [inst];
        unvisited := VisitBody(unvisited[1..], bodies[inst.id], inst.generics);
      }
      CollectedAll(next, entry, seenInstances, instances);
      return instances;
    }
  }

  /** What the first k statements push, and what the first k blocks do. */
  function StmtsPush(stmts: seq<Stmt>, k: nat, args: seq<Ty>): seq<FnRef>
    requires k <= |stmts|
  {
    if k == 0 then [] else StmtsPush(stmts, k - 1, args) + InstantiateAll(StmtFns(stmts[k - 1]), args)
  }

  function BlocksPush(blocks: seq<Block>, k: nat, args: seq<Ty>): seq<FnRef>
    requires k <= |blocks|
  {
    if k == 0 then [] else BlocksPush(blocks, k - 1, args) + BlockPush(blocks[k - 1], args)
  }

  function BlockPush(b: Block, args: seq<Ty>): seq<FnRef> {
    StmtsPush(b.stmts, |b.stmts|, args) + InstantiateAll(TerminatorFns(b.terminator), args)
  }

  lemma {:induction false} StmtsPushIs(stmts: seq<Stmt>, k: nat, args: seq<Ty>)
    requires k <= |stmts|
    ensures StmtsPush(stmts, k, args) == InstantiateAll(StmtsFns(stmts[..k]), args)
  {
    if k > 0 {
      StmtsPushIs(stmts, k - 1, args);
      assert stmts[..k][..k - 1] == stmts[..k - 1];
      InstantiateConcat(StmtsFns(stmts[..k - 1]), StmtFns(stmts[k - 1]), args);
    }
  }

  lemma BlockPushIs(b: Block, args: seq<Ty>)
    ensures BlockPush(b, args) == InstantiateAll(BlockFns(b), args)
  {
    StmtsPushIs(b.stmts, |b.stmts|, args);
    assert b.stmts[..|b.stmts|] == b.stmts;
    InstantiateConcat(StmtsFns(b.stmts), TerminatorFns(b.terminator), args);
  }

  lemma {:induction false} BlocksPushIs(blocks: seq<Block>, k: nat, args: seq<Ty>)
    requires k <= |blocks|
    ensures BlocksPush(blocks, k, args) == InstantiateAll(BodyFns(blocks[..k]), args)
  {
    if k > 0 {
      BlocksPushIs(blocks, k - 1, args);
      BlockPushIs(blocks[k - 1], args);
      assert blocks[..k][..k - 1] == blocks[..k - 1];
      InstantiateConcat(BodyFns(blocks[..k - 1]), BlockFns(blocks[k - 1]), args);
    }
  }

  /** Pushes the instance of each function constant of a body. */
  method VisitBody(unvisited: seq<FnRef>, blocks: seq<Block>, args: seq<Ty>) returns (queue: seq<FnRef>)
    ensures queue == unvisited + InstantiateAll(BodyFns(blocks), args)
  {
    queue := unvisited;
    for b := 0 to |blocks|
      invariant queue == unvisited + BlocksPush(blocks, b, args)
    {
      queue := VisitBlock(queue, blocks[b], args);
      Reassociate(unvisited, BlocksPush(blocks, b, args), BlockPush(blocks[b], args));
    }
    BlocksPushIs(blocks, |blocks|, args);
    assert blocks[..|blocks|] == blocks;
  }

  lemma Reassociate(a: seq<FnRef>, b: seq<FnRef>, c: seq<FnRef>)
    ensures (a + b) + c == a + (b + c)
  {
  }

  method VisitBlock(unvisited: seq<FnRef>, block: Block, args: seq<Ty>) returns (queue: seq<FnRef>)
    ensures queue == unvisited + BlockPush(block, args)
  {
    queue := VisitStmts(unvisited, block.stmts, args);
    queue := queue + InstantiateAll(TerminatorFns(block.terminator), args);
    Reassociate(unvisited, StmtsPush(block.stmts, |block.stmts|, args), InstantiateAll(TerminatorFns(block.terminator), args));
  }

  method VisitStmts(unvisited: seq<FnRef>, stmts: seq<Stmt>, args: seq<Ty>) returns (queue: seq<FnRef>)
    ensures queue == unvisited + StmtsPush(stmts, |stmts|, args)
  {
    queue := unvisited;
    for s := 0 to |stmts|
      invariant queue == unvisited + StmtsPush(stmts, s, args)
    {
      queue := queue + InstantiateAll(StmtFns(stmts[s]), args);
      Reassociate(unvisited, StmtsPush(stmts, s, args), InstantiateAll(StmtFns(stmts[s]), args));
    }
  }

  lemma InstantiateConcat(a: seq<FnRef>, b: seq<FnRef>, args: seq<Ty>)
    ensures InstantiateAll(a + b, args) == InstantiateAll(a, args) + InstantiateAll(b, args)
  {
  }

  // ---------------------------------------------------------------- ground instances

  ghost predicate Ground(inst: FnRef) {
    forall i :: 0 <= i < |inst.generics| ==> IsClosed(inst.generics[i])
  }

  /** Each function constant has all its arguments, and they mention only the body's own parameters. */
  ghost predicate ParametersInRange(bodies: Bodies, arities: map<nat, nat>) {
    && bodies.Keys <= arities.Keys
    && forall id, fn :: id in bodies && fn in BodyFns(bodies[id]) ==> FnInRange(arities, id, fn)
  }

  ghost predicate FnInRange(arities: map<nat, nat>, id: nat, fn: FnRef)
    requires id in arities
  {
    && fn.id in arities && |fn.generics| == arities[fn.id]
    && forall i :: 0 <= i < |fn.generics| ==> ClosedUnder(fn.generics[i], arities[id])
  }

  ghost predicate GroundAt(arities: map<nat, nat>, inst: FnRef) {
    Ground(inst) && inst.id in arities && |inst.generics| == arities[inst.id]
  }

  lemma MentionedGround(bodies: Bodies, arities: map<nat, nat>, i: FnRef, j: FnRef)
    requires ParametersInRange(bodies, arities) && Mentions(MentionIn(bodies), i, j) && GroundAt(arities, i)
    ensures GroundAt(arities, j)
  {
    var fns := BodyFns(bodies[i.id]);
    var k :| 0 <= k < |fns| && Instantiate(fns[k], i.generics) == j;
    assert fns[k] in fns && FnInRange(arities, i.id, fns[k]);
    forall x | 0 <= x < |j.generics| ensures IsClosed(j.generics[x]) { ClosedBind(fns[k].generics[x], i.generics); }
  }

  lemma {:induction false} NeededInGround(bodies: Bodies, arities: map<nat, nat>, entry: FnRef, n: nat, inst: FnRef)
    requires ParametersInRange(bodies, arities) && NeededIn(MentionIn(bodies), entry, n, inst) && GroundAt(arities, entry)
    ensures GroundAt(arities, inst)
    decreases n
  {
    if n > 0 {
      var user := NeededBy(MentionIn(bodies), entry, n, inst);
      NeededInGround(bodies, arities, entry, n - 1, user);
      MentionedGround(bodies, arities, user, inst);
    }
  }

  /** From a ground entry only ground instances are needed. */
  lemma NeededGround(bodies: Bodies, arities: map<nat, nat>, entry: FnRef, inst: FnRef)
    requires ParametersInRange(bodies, arities) && Needed(MentionIn(bodies), entry, inst) && GroundAt(arities, entry)
    ensures Ground(inst)
  {
    var n: nat :| NeededIn(MentionIn(bodies), entry, n, inst);
    NeededInGround(bodies, arities, entry, n, inst);
  }

  // ---------------------------------------------------------------- an infinite set of instances

  /** f<T> mentions f<Box<T>>. */
  const GROWING: Bodies := map[0 := [Block([Print(Constant(FnConst(FnRef(0, [Con(Box, [Param(0)])]))), false)], Return)]]

  function Boxed(n: nat): Ty {
    if n == 0 then Con(Bool, []) else Con(Box, [Boxed(n - 1)])
  }

  lemma {:induction false} BoxedSize(n: nat)
    ensures Size(Boxed(n)) == n + 1
  {
    if n > 0 {
      BoxedSize(n - 1);
      var args := [Boxed(n - 1)];
      assert args[1..] == [] && TotalSize(args) == Size(args[0]) + TotalSize(args[1..]);
    }
  }

  lemma GrowingCallees(n: nat)
    ensures Mentions(MentionIn(GROWING), FnRef(0, [Boxed(n)]), FnRef(0, [Boxed(n + 1)]))
  {
    var fn := FnRef(0, [Con(Box, [Param(0)])]);
    var b := GROWING[0][0];
    assert StmtsFns(b.stmts[..0]) == [];
    assert StmtsFns(b.stmts) == [fn];
    assert BodyFns(GROWING[0][..0]) == [];
    assert BodyFns(GROWING[0]) == [fn];
    var inst := Instantiate(fn, [Boxed(n)]);
    assert BindAll(Con(Box, [Param(0)]), [Boxed(n)]) == [Boxed(n)];
    assert inst.generics == [Boxed(n + 1)];
    assert Callees(GROWING, FnRef(0, [Boxed(n)]))[0] == inst;
  }

  lemma {:induction false} GrowingNeeded(n: nat)
    ensures Needed(MentionIn(GROWING), FnRef(0, [Boxed(0)]), FnRef(0, [Boxed(n)]))
  {
    if n == 0 {
      assert NeededIn(MentionIn(GROWING), FnRef(0, [Boxed(0)]), 0, FnRef(0, [Boxed(0)]));
    } else {
      GrowingNeeded(n - 1);
      GrowingCallees(n - 1);
      NeededStep(MentionIn(GROWING), FnRef(0, [Boxed(0)]), FnRef(0, [Boxed(n - 1)]), FnRef(0, [Boxed(n)]));
    }
  }

  lemma {:induction false} SizesBounded(s: set<FnRef>) returns (m: nat)
    ensures forall n: nat :: FnRef(0, [Boxed(n)]) in s ==> n < m
  {
    if s == {} {
      m := 0;
    } else {
      var x :| x in s;
      var k := SizesBounded(s - {x});
      m := k + if |x.generics| > 0 then Size(x.generics[0]) else 0;
      forall n: nat | FnRef(0, [Boxed(n)]) in s ensures n < m { BoxedSize(n); }
    }
  }

  /** A function that mentions itself at a larger type needs infinitely many instances. */
  lemma GrowingInfinite(s: set<FnRef>)
    ensures exists i :: Needed(MentionIn(GROWING), FnRef(0, [Boxed(0)]), i) && i !in s
  {
    var m := SizesBounded(s);
    GrowingNeeded(m);
  }
}
