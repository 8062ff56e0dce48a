/** Which functions a body can call: those it mentions and those it is handed. */
module FunctionFlow {
  import opened Prelude
  import opened Types
  import opened Mir
  import opened MirSim
  import opened Visitor
  import opened Program
  import opened Traces
  import opened Monomorph

  // ---------------------------------------------------------------- where a function constant occurs

  /** Some operand of the body is the function constant. */
  ghost predicate Occurs(blocks: seq<Block>, fn: FnRef) {
    exists b :: b in blocks && OperandOfBlock(b, Constant(FnConst(fn)))
  }

  lemma {:induction false} OperandsFnsOccur(os: seq<Operand>, fn: FnRef)
    ensures fn in OperandsFns(os) <==> Constant(FnConst(fn)) in os
  {
    if os != [] { OperandsFnsOccur(os[1..], fn); }
  }

  lemma StmtFnsOccur(s: Stmt, fn: FnRef)
    ensures fn in StmtFns(s) <==> OperandOfStmt(s, Constant(FnConst(fn)))
  {
    if s.Assign? {
      match s.rvalue
      case Aggregate(_, fields) => OperandsFnsOccur(fields, fn);
      case Call(_, args) => OperandsFnsOccur(args, fn);
      case _ =>
    }
  }

  lemma {:induction false} StmtsFnsOccur(ss: seq<Stmt>, fn: FnRef)
    ensures fn in StmtsFns(ss) <==> exists s :: s in ss && OperandOfStmt(s, Constant(FnConst(fn)))
  {
    if ss != [] {
      var rest, last := ss[..|ss| - 1], ss[|ss| - 1];
      StmtsFnsOccur(rest, fn);
      StmtFnsOccur(last, fn);
      assert forall s :: s in ss <==> s in rest || s == last by { assert ss == rest + [last]; }
    }
  }

  lemma BlockFnsOccur(b: Block, fn: FnRef)
    ensures fn in BlockFns(b) <==> OperandOfBlock(b, Constant(FnConst(fn)))
  {
    StmtsFnsOccur(b.stmts, fn);
  }

  lemma OccursLast(blocks: seq<Block>, fn: FnRef)
    requires blocks != []
    ensures Occurs(blocks, fn)
            <==> Occurs(blocks[..|blocks| - 1], fn) || OperandOfBlock(blocks[|blocks| - 1], Constant(FnConst(fn)))
  {
    var rest, last := blocks[..|blocks| - 1], blocks[|blocks| - 1];
    assert forall b :: b in blocks <==> b in rest || b == last by { assert blocks == rest + [last]; }
  }

  /** The functions collected from a body are those that occur in it, at any of its operands. */
  lemma {:induction false} BodyFnsOccur(blocks: seq<Block>, fn: FnRef)
    ensures fn in BodyFns(blocks) <==> Occurs(blocks, fn)
  {
    if blocks != [] {
      BodyFnsOccur(blocks[..|blocks| - 1], fn);
      BlockFnsOccur(blocks[|blocks| - 1], fn);
      OccursLast(blocks, fn);
    }
  }

  // ---------------------------------------------------------------- which functions values hold

  /** Every function in v is in s. */
  ghost predicate Holds(v: Value, s: iset<FnRef>) {
    match v
    case Undef => true
    case Scalar(_) => true
    case Fn(fn) => fn in s
    case Record(fs) => forall i :: 0 <= i < |fs| ==> Holds(fs[i], s)
    case Variant(_, _, payload) => Holds(payload, s)
  }

  ghost predicate AllHold(vs: seq<Value>, s: iset<FnRef>) {
    forall i :: 0 <= i < |vs| ==> Holds(vs[i], s)
  }

  ghost predicate StoreHolds(store: Store, s: iset<FnRef>) {
    forall b :: Holds(Get(store, b), s)
  }

  ghost predicate ResultHolds(r: CallResult, s: iset<FnRef>) {
    r.Returns? ==> Holds(r.value, s)
  }

  ghost predicate ConfigHolds(c: Config, s: iset<FnRef>) {
    match c
    case Running(_, _, store, _) => StoreHolds(store, s)
    case Halted(_, _) => ResultHolds(AsResult(c), s)
  }

  /** Arithmetic makes up no functions. */
  ghost predicate PrimsHold(p: Prims, s: iset<FnRef>) {
    && (forall op, v, w :: Holds(v, s) && Holds(w, s) ==> Holds(p.binary(op, v, w), s))
    && (forall c, v :: Holds(v, s) ==> Holds(p.cast(c, v), s))
    && (forall ty :: Holds(p.zeroed(ty), s))
  }

  /** What functions of s make of values that hold no others. */
  ghost predicate OracleHolds(o: Oracle, s: iset<FnRef>) {
    forall f, vs :: f in s && AllHold(vs, s) ==> ResultHolds(o(f, vs), s)
  }

  ghost predicate FnsWithin(blocks: seq<Block>, s: iset<FnRef>) {
    forall fn :: Occurs(blocks, fn) ==> fn in s
  }

  lemma ProjectHolds(v: Value, p: Projection, s: iset<FnRef>)
    requires Holds(v, s)
    ensures Holds(Project(v, p), s)
  {
  }

  lemma {:induction false} ReadHolds(v: Value, ps: seq<Projection>, s: iset<FnRef>)
    requires Holds(v, s)
    ensures Holds(ReadPath(v, ps), s)
    decreases |ps|
  {
    if ps != [] {
      ProjectHolds(v, ps[0], s);
      ReadHolds(Project(v, ps[0]), ps[1..], s);
    }
  }

  lemma ReplaceHolds(v: Value, p: Projection, w: Value, s: iset<FnRef>)
    requires Holds(v, s) && Holds(w, s)
    ensures Holds(Replace(v, p, w), s)
  {
    if p.Field? {
      var fs := FieldsOf(v, p.count);
      forall i | 0 <= i < |fs| ensures Holds(fs[i], s) { ProjectHolds(v, Field(i, p.count), s); }
    }
  }

  lemma {:induction false} WriteHolds(v: Value, ps: seq<Projection>, w: Value, s: iset<FnRef>)
    requires Holds(v, s) && Holds(w, s)
    ensures Holds(WritePath(v, ps, w), s)
    decreases |ps|
  {
    if ps != [] {
      ProjectHolds(v, ps[0], s);
      WriteHolds(Project(v, ps[0]), ps[1..], w, s);
      ReplaceHolds(v, ps[0], WritePath(Project(v, ps[0]), ps[1..], w), s);
    }
  }

  lemma WritePlaceHolds(store: Store, pl: Place, w: Value, s: iset<FnRef>)
    requires StoreHolds(store, s) && Holds(w, s)
    ensures StoreHolds(WritePlace(store, pl, w), s)
  {
    WriteHolds(Get(store, pl.base), pl.projections, w, s);
    forall b ensures Holds(Get(WritePlace(store, pl, w), b), s) {
      if b != pl.base { assert Get(WritePlace(store, pl, w), b) == Get(store, b); }
    }
  }

  // ---------------------------------------------------------------- one step

  /** The operand is no function outside s. */
  ghost predicate OperandHolds(o: Operand, s: iset<FnRef>) {
    forall fn :: o == Constant(FnConst(fn)) ==> fn in s
  }

  lemma EvalHolds(store: Store, o: Operand, s: iset<FnRef>)
    requires StoreHolds(store, s) && OperandHolds(o, s)
    ensures Eval(store, o).Some? ==> Holds(Eval(store, o).value, s)
  {
    match o
    case Load(p) => ReadHolds(Get(store, p.base), p.projections, s);
    case Constant(_) =>
  }

  lemma {:induction false} EvalAllHolds(store: Store, os: seq<Operand>, s: iset<FnRef>)
    requires StoreHolds(store, s) && forall i :: 0 <= i < |os| ==> OperandHolds(os[i], s)
    ensures EvalAll(store, os).Some? ==> AllHold(EvalAll(store, os).value, s)
  {
    if os != [] {
      EvalHolds(store, os[0], s);
      EvalAllHolds(store, os[1..], s);
    }
  }

  lemma StmtOperands(blocks: seq<Block>, b: nat, i: nat, o: Operand, s: iset<FnRef>)
    requires FnsWithin(blocks, s) && b < |blocks| && i < |blocks[b].stmts| && OperandOfStmt(blocks[b].stmts[i], o)
    ensures OperandHolds(o, s)
  {
    assert blocks[b].stmts[i] in blocks[b].stmts && OperandOfBlock(blocks[b], o) && blocks[b] in blocks;
    forall fn | o == Constant(FnConst(fn)) ensures fn in s { assert Occurs(blocks, fn); }
  }

  lemma CallHolds(store: Store, st: Stmt, s: iset<FnRef>)
    requires StoreHolds(store, s) && forall o :: OperandOfStmt(st, o) ==> OperandHolds(o, s)
    ensures match CallIn(store, st) case None => true case Some((f, vs)) => f in s && AllHold(vs, s)
  {
    if st.Assign? && st.rvalue.Call? {
      assert OperandOfStmt(st, st.rvalue.callee);
      EvalHolds(store, st.rvalue.callee, s);
      var args := st.rvalue.args;
      forall i | 0 <= i < |args| ensures OperandHolds(args[i], s) { assert OperandOfStmt(st, args[i]); }
      EvalAllHolds(store, args, s);
    }
  }

  lemma RvalueHolds(p: Prims, store: Store, r: Rvalue, s: iset<FnRef>)
    requires !r.Call? && PrimsHold(p, s) && StoreHolds(store, s) && forall o :: OperandOfRvalue(r, o) ==> OperandHolds(o, s)
    ensures EvalRvalue(p, store, r).Some? ==> Holds(EvalRvalue(p, store, r).value, s)
  {
    match r
    case Aggregate(_, fields) =>
      forall i | 0 <= i < |fields| ensures OperandHolds(fields[i], s) { assert OperandOfRvalue(r, fields[i]); }
      EvalAllHolds(store, fields, s);
    case Use(o) => assert OperandOfRvalue(r, o); EvalHolds(store, o, s);
    case Binary(_, l, r') =>
      assert OperandOfRvalue(r, l) && OperandOfRvalue(r, r');
      EvalHolds(store, l, s);
      EvalHolds(store, r', s);
    case Cast(_, o) => assert OperandOfRvalue(r, o); EvalHolds(store, o, s);
    case _ =>
  }

  lemma StmtHolds(p: Prims, o: Oracle, c: Config, st: Stmt, s: iset<FnRef>)
    requires c.Running? && PrimsHold(p, s) && OracleHolds(o, s) && StoreHolds(c.store, s)
    requires forall x :: OperandOfStmt(st, x) ==> OperandHolds(x, s)
    ensures ConfigHolds(StepStmt(p, o, c, st), s)
  {
    if st.Assign? {
      if st.rvalue.Call? {
        CallHolds(c.store, st, s);
        match CallIn(c.store, st)
        case None =>
        case Some((f, vs)) =>
          assert ResultHolds(o(f, vs), s);
          if o(f, vs).Returns? { WritePlaceHolds(c.store, st.place, o(f, vs).value, s); }
      } else {
        forall x | OperandOfRvalue(st.rvalue, x) ensures OperandHolds(x, s) { assert OperandOfStmt(st, x); }
        RvalueHolds(p, c.store, st.rvalue, s);
        var v := EvalRvalue(p, c.store, st.rvalue);
        if v.Some? { WritePlaceHolds(c.store, st.place, v.value, s); }
      }
    }
  }

  /** If the store and the body have no functions but those of s, a step calls one of them, if any, and leaves it so. */
  lemma StepHolds(p: Prims, o: Oracle, blocks: seq<Block>, c: Config, s: iset<FnRef>)
    requires PrimsHold(p, s) && OracleHolds(o, s) && FnsWithin(blocks, s) && ConfigHolds(c, s)
    ensures ConfigHolds(Step(p, o, blocks, c), s)
    ensures match CallAt(blocks, c) case None => true case Some((f, vs)) => f in s && AllHold(vs, s)
  {
    if c.Running? && c.block < |blocks| && c.pc < |blocks[c.block].stmts| {
      var st := blocks[c.block].stmts[c.pc];
      forall x | OperandOfStmt(st, x) ensures OperandHolds(x, s) { StmtOperands(blocks, c.block, c.pc, x, s); }
      CallHolds(c.store, st, s);
      StmtHolds(p, o, c, st, s);
    } else if c.Running? {
      assert Holds(Get(c.store, ReturnPlace), s);
    }
  }

  lemma {:induction false} RunHolds(p: Prims, o: Oracle, blocks: seq<Block>, c: Config, s: iset<FnRef>, n: nat)
    requires PrimsHold(p, s) && OracleHolds(o, s) && FnsWithin(blocks, s) && ConfigHolds(c, s)
    ensures ConfigHolds(Run(p, o, blocks, c, n), s)
    ensures match CallAt(blocks, Run(p, o, blocks, c, n)) case None => true case Some((f, vs)) => f in s && AllHold(vs, s)
    decreases n
  {
    StepHolds(p, o, blocks, c, s);
    if n > 0 { RunHolds(p, o, blocks, Step(p, o, blocks, c), s, n - 1); }
  }

  // ---------------------------------------------------------------- a program cut down to some functions

  function Restricted(prog: Prog, s: iset<FnRef>): Prog {
    map g | g in prog && g in s :: prog[g]
  }

  /** Calls of functions of s with values that hold no others have the same results. */
  ghost predicate AgreeOn(o: Oracle, q: Oracle, s: iset<FnRef>) {
    forall f, vs :: f in s && AllHold(vs, s) ==> o(f, vs) == q(f, vs)
  }

  lemma {:induction false} RunAgrees(p: Prims, o: Oracle, q: Oracle, blocks: seq<Block>, c: Config, s: iset<FnRef>, n: nat)
    requires PrimsHold(p, s) && OracleHolds(o, s) && FnsWithin(blocks, s) && ConfigHolds(c, s) && AgreeOn(o, q, s)
    ensures Run(p, o, blocks, c, n) == Run(p, q, blocks, c, n)
    decreases n
  {
    if n > 0 {
      StepHolds(p, o, blocks, c, s);
      assert Step(p, o, blocks, c) == Step(p, q, blocks, c);
      RunAgrees(p, o, q, blocks, Step(p, o, blocks, c), s, n - 1);
    }
  }

  ghost predicate ClosedProgram(prog: Prog, s: iset<FnRef>) {
    forall g :: g in prog && g in s ==> FnsWithin(prog[g].blocks, s)
  }

  lemma InitHolds(args: seq<Value>, s: iset<FnRef>)
    requires AllHold(args, s)
    ensures ConfigHolds(Init(args), s)
  {
  }

  lemma {:induction false} CalledAgrees(p: Prims, prog: Prog, s: iset<FnRef>, k: nat)
    requires PrimsHold(p, s) && ClosedProgram(prog, s)
    ensures OracleHolds(Upto(p, prog, k), s) && AgreeOn(Upto(p, prog, k), Upto(p, Restricted(prog, s), k), s)
    decreases k
  {
    if k > 0 {
      CalledAgrees(p, prog, s, k - 1);
      forall f: FnRef, vs: seq<Value> | f in s && AllHold(vs, s)
        ensures ResultHolds(Called(p, prog, k, f, vs), s) && Called(p, prog, k, f, vs) == Called(p, Restricted(prog, s), k, f, vs)
      {
        if f in prog && |vs| == prog[f].arity {
          var blocks, o := prog[f].blocks, Upto(p, prog, k - 1);
          InitHolds(vs, s);
          RunHolds(p, o, blocks, Init(vs), s, k);
          RunAgrees(p, o, Upto(p, Restricted(prog, s), k - 1), blocks, Init(vs), s, k);
        }
      }
    }
  }

  /** If the functions of s mention no others, they have the same results without the rest of the program. */
  lemma RestrictedResult(p: Prims, prog: Prog, s: iset<FnRef>, fn: FnRef, args: seq<Value>)
    requires PrimsHold(p, s) && ClosedProgram(prog, s) && fn in s && AllHold(args, s)
    ensures Result(p, prog, fn, args) == Result(p, Restricted(prog, s), fn, args)
  {
    var prog' := Restricted(prog, s);
    forall k: nat ensures Called(p, prog, k, fn, args) == Called(p, prog', k, fn, args) {
      CalledAgrees(p, prog, s, k);
      assert Upto(p, prog, k)(fn, args) == Upto(p, prog', k)(fn, args);
    }
    if k: nat :| Called(p, prog, k, fn, args) != NoResult {
      UptoResults(p, prog, k);
      UptoResults(p, prog', k);
      assert Upto(p, prog, k)(fn, args) == Upto(p, prog', k)(fn, args) != NoResult;
    }
  }

  // ---------------------------------------------------------------- the bodies of instances

  function OperandAt(o: Operand, args: seq<Ty>): Operand {
    match o
    case Constant(FnConst(fn)) => Constant(FnConst(Instantiate(fn, args)))
    case _ => o
  }

  function OperandsAt(os: seq<Operand>, args: seq<Ty>): seq<Operand> {
    seq(|os|, i requires 0 <= i < |os| => OperandAt(os[i], args))
  }

  function RvalueAt(r: Rvalue, args: seq<Ty>): Rvalue {
    match r
    case UninitZeroed(ty) => UninitZeroed(Bind(ty, args))
    case Aggregate(k, fields) => Aggregate(k, OperandsAt(fields, args))
    case Use(o) => Use(OperandAt(o, args))
    case Call(callee, os) => Call(OperandAt(callee, args), OperandsAt(os, args))
    case Binary(op, l, r) => Binary(op, OperandAt(l, args), OperandAt(r, args))
    case Cast(c, o) => Cast(c, OperandAt(o, args))
    case Discriminant(_) => r
  }

  function StmtAt(s: Stmt, args: seq<Ty>): Stmt {
    match s
    case Noop => Noop
    case Assign(pl, r) => Assign(pl, RvalueAt(r, args))
    case Print(o, err) => Print(OperandAt(o, args), err)
  }

  function TerminatorAt(t: Terminator, args: seq<Ty>): Terminator {
    match t
    case Assert(o, k, b) => Assert(OperandAt(o, args), k, b)
    case Switch(o, ts) => Switch(OperandAt(o, args), ts)
    case _ => t
  }

  function BlockAt(b: Block, args: seq<Ty>): Block {
    Block(seq(|b.stmts|, i requires 0 <= i < |b.stmts| => StmtAt(b.stmts[i], args)), TerminatorAt(b.terminator, args))
  }

  /** A generic body with its parameters replaced by the arguments of an instance. */
  function BodyAt(blocks: seq<Block>, args: seq<Ty>): (r: seq<Block>)
    ensures |r| == |blocks| && forall b :: 0 <= b < |r| ==> r[b] == BlockAt(blocks[b], args)
  {
    seq(|blocks|, b requires 0 <= b < |blocks| => BlockAt(blocks[b], args))
  }

  lemma OperandFrom(o: Operand, args: seq<Ty>, fn: FnRef)
    requires OperandAt(o, args) == Constant(FnConst(fn))
    ensures exists g :: o == Constant(FnConst(g)) && fn == Instantiate(g, args)
  {
  }

  lemma StmtFrom(s: Stmt, args: seq<Ty>, x: Operand)
    requires OperandOfStmt(StmtAt(s, args), x)
    ensures exists o :: OperandOfStmt(s, o) && x == OperandAt(o, args)
  {
    if s.Print? {
      assert OperandOfStmt(s, s.value);
    } else {
      RvalueFrom(s.rvalue, args, x);
      var o :| OperandOfRvalue(s.rvalue, o) && x == OperandAt(o, args);
      assert OperandOfStmt(s, o);
    }
  }

  lemma RvalueFrom(r: Rvalue, args: seq<Ty>, x: Operand)
    requires OperandOfRvalue(RvalueAt(r, args), x)
    ensures exists o :: OperandOfRvalue(r, o) && x == OperandAt(o, args)
  {
    match r
    case Aggregate(_, fields) => SomeOperandAt(fields, args, x);
    case Use(o) => assert OperandOfRvalue(r, o);
    case Call(callee, os) =>
      assert OperandOfRvalue(r, callee);
      if x in OperandsAt(os, args) { SomeOperandAt(os, args, x); }
    case Binary(_, l, r') => assert OperandOfRvalue(r, l) && OperandOfRvalue(r, r');
    case Cast(_, o) => assert OperandOfRvalue(r, o);
    case _ =>
  }

  lemma SomeOperandAt(os: seq<Operand>, args: seq<Ty>, x: Operand)
    requires x in OperandsAt(os, args)
    ensures exists o :: o in os && x == OperandAt(o, args)
  {
    var i :| 0 <= i < |os| && OperandsAt(os, args)[i] == x;
    assert os[i] in os;
  }

  lemma BlockFrom(b: Block, args: seq<Ty>, x: Operand)
    requires OperandOfBlock(BlockAt(b, args), x)
    ensures exists o :: OperandOfBlock(b, o) && x == OperandAt(o, args)
  {
    var b' := BlockAt(b, args);
    if s' :| s' in b'.stmts && OperandOfStmt(s', x) {
      var i :| 0 <= i < |b.stmts| && s' == StmtAt(b.stmts[i], args);
      StmtFrom(b.stmts[i], args, x);
      var o :| OperandOfStmt(b.stmts[i], o) && x == OperandAt(o, args);
      assert b.stmts[i] in b.stmts;
      assert OperandOfBlock(b, o);
    } else {
      assert OperandOfTerminator(TerminatorAt(b.terminator, args), x);
      var o := if b.terminator.Assert? then b.terminator.condition else b.terminator.operand;
      assert OperandOfBlock(b, o);
    }
  }

  lemma OccursFrom(blocks: seq<Block>, args: seq<Ty>, fn: FnRef)
    requires Occurs(BodyAt(blocks, args), fn)
    ensures exists g :: Occurs(blocks, g) && fn == Instantiate(g, args)
  {
    var blocks' := BodyAt(blocks, args);
    var b' :| b' in blocks' && OperandOfBlock(b', Constant(FnConst(fn)));
    var b :| 0 <= b < |blocks| && b' == blocks'[b];
    BlockFrom(blocks[b], args, Constant(FnConst(fn)));
    var o :| OperandOfBlock(blocks[b], o) && Constant(FnConst(fn)) == OperandAt(o, args);
    OperandFrom(o, args, fn);
    var g :| o == Constant(FnConst(g)) && fn == Instantiate(g, args);
    assert blocks[b] in blocks && Occurs(blocks, g);
  }

  /** Each function of the program is an instance of a generic body. */
  ghost predicate Instances(bodies: Bodies, prog: Prog) {
    forall g :: g in prog ==> g.id in bodies && prog[g].blocks == BodyAt(bodies[g.id], g.generics)
  }

  lemma MentionsOccurs(bodies: Bodies, i: FnRef, fn: FnRef)
    requires i.id in bodies && Occurs(bodies[i.id], fn)
    ensures Mentions(MentionIn(bodies), i, Instantiate(fn, i.generics))
  {
    BodyFnsOccur(bodies[i.id], fn);
    var fns := BodyFns(bodies[i.id]);
    var k :| 0 <= k < |fns| && fns[k] == fn;
    assert InstantiateAll(fns, i.generics)[k] == Instantiate(fn, i.generics);
  }

  /** The collected instances are enough: without all others the entry has the same result on all arguments. */
  lemma CollectedEnough(p: Prims, bodies: Bodies, prog: Prog, entry: FnRef, args: seq<Value>)
    requires Instances(bodies, prog)
    requires var s := iset i | Needed(MentionIn(bodies), entry, i); PrimsHold(p, s) && AllHold(args, s)
    ensures Result(p, prog, entry, args)
            == Result(p, Restricted(prog, iset i | Needed(MentionIn(bodies), entry, i)), entry, args)
  {
    var next := MentionIn(bodies);
    var s := iset i | Needed(next, entry, i);
    assert NeededIn(next, entry, 0, entry);
    forall g, fn | g in prog && g in s && Occurs(prog[g].blocks, fn) ensures fn in s {
      OccursFrom(bodies[g.id], g.generics, fn);
      var f :| Occurs(bodies[g.id], f) && fn == Instantiate(f, g.generics);
      MentionsOccurs(bodies, g, f);
      NeededStep(next, entry, g, fn);
    }
    forall g | g in prog && g in s ensures FnsWithin(prog[g].blocks, s) {
    }
    RestrictedResult(p, prog, s, entry, args);
  }
}
