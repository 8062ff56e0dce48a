/** The mid-level representation and its operational semantics. */
module Mir {
  import opened Prelude
  import opened Types

  // ---------------------------------------------------------------- syntax

  datatype ProjectionRaw =
    | Field(id: nat, count: nat)  // count: how many fields the projected record type has
    | CaseDowncast(caseId: nat)

  type Projection = p: ProjectionRaw | p.Field? ==> p.id < p.count witness CaseDowncast(0)

  datatype PlaceBase = Local(index: nat) | ReturnPlace

  datatype Place = Place(base: PlaceBase, projections: seq<Projection>)

  datatype ConstValue = ZeroSized | FnConst(fn: FnRef) | ScalarConst(value: int)

  datatype FnRef = FnRef(id: nat, generics: seq<Ty>)

  datatype Operand = Load(place: Place) | Constant(value: ConstValue)

  datatype AggregateKind = TupleAgg | RecordAgg(id: nat) | VariantAgg(id: nat, caseId: nat)

  datatype OverflowOp = Add | Subtract | Multiply

  datatype BinaryOp =
    | Overflow(op: OverflowOp) | Wrapping(op: OverflowOp)
    | Greater | Divide | Equals | Lesser
    | BitwiseAnd | BitwiseOr | ShiftLeft | ShiftRight

  datatype IntegerCast = SignExtend(size: IntegerSize) | ZeroExtend(size: IntegerSize) | Truncate(kind: IntegerKind)

  datatype Rvalue =
    | UninitZeroed(ty: Ty)
    | Aggregate(kind: AggregateKind, fields: seq<Operand>)
    | Use(operand: Operand)
    | Call(callee: Operand, args: seq<Operand>)
    | Binary(op: BinaryOp, left: Operand, right: Operand)
    | Cast(cast: IntegerCast, operand: Operand)
    | Discriminant(place: Place)

  datatype Stmt =
    | Noop
    | Assign(place: Place, rvalue: Rvalue)
    | Print(value: Operand, err: bool)

  datatype SwitchTarget = SwitchTarget(value: int, target: nat)

  datatype SwitchTargets = SwitchTargets(targets: seq<SwitchTarget>, otherwise: nat) {
    /** Entry i is the first for the value; or no entry is, and i is past the last. */
    predicate IsFirst(value: int, i: nat) {
      && i <= |targets|
      && (forall j :: 0 <= j < i ==> targets[j].value != value)
      && (i < |targets| ==> targets[i].value == value)
    }

    /** The target of the first entry for the value, or the default if none is. */
    function BranchForValue(value: int): (target: nat)
      ensures exists i: nat :: IsFirst(value, i) && target == if i < |targets| then targets[i].target else otherwise
      decreases |targets|
    {
      if targets == [] then
        assert IsFirst(value, 0);
        otherwise
      else if targets[0].value == value then
        assert IsFirst(value, 0);
        targets[0].target
      else
        var rest := SwitchTargets(targets[1..], otherwise);
        var target := rest.BranchForValue(value);
        ghost var i: nat :| rest.IsFirst(value, i) && target == if i < |rest.targets| then rest.targets[i].target else otherwise;
        assert IsFirst(value, i + 1);
        target
    }
  }

  datatype AssertKind = InBounds | OverflowCheck(op: OverflowOp) | DivideOverflow | DivideByZero {
    predicate Negate() { !InBounds? }
  }

  datatype Terminator =
    | Assert(condition: Operand, kind: AssertKind, target: nat)
    | Switch(operand: Operand, switchTargets: SwitchTargets)
    | Unreachable
    | Return
    | Goto(target: nat)
    | Panic
  {
    /** The blocks control may go to next, a switch's targets first and its default last. */
    function Successors(): seq<nat> {
      match this
      case Assert(_, _, t) => [t]
      case Goto(t) => [t]
      case Switch(_, ts) => seq(|ts.targets|, i requires 0 <= i < |ts.targets| => ts.targets[i].target) + [ts.otherwise]
      case _ => []
    }

    /** Rewrites every successor, as walking `successors_mut` does. */
    function MapSuccessors(f: nat -> nat): Terminator {
      match this
      case Assert(c, k, t) => Assert(c, k, f(t))
      case Goto(t) => Goto(f(t))
      case Switch(o, ts) =>
        Switch(o, SwitchTargets(seq(|ts.targets|, i requires 0 <= i < |ts.targets| =>
                  SwitchTarget(ts.targets[i].value, f(ts.targets[i].target))), f(ts.otherwise)))
      case _ => this
    }
  }

  datatype Block = Block(stmts: seq<Stmt>, terminator: Terminator)

  datatype LocalKind = Temp | Env | Var(varId: nat) | ParamKind

  datatype LocalInfo = LocalInfo(ty: Ty, kind: LocalKind)

  const ENTRY: nat := 0

  class Body {
    var locals: seq<LocalInfo>
    var blocks: seq<Block>

    constructor (locals: seq<LocalInfo>, blocks: seq<Block>)
      ensures this.locals == locals && this.blocks == blocks
    {
      this.locals := locals;
      this.blocks := blocks;
    }
  }

  // ---------------------------------------------------------------- reads and mentions

  /** The place an operand reads, if any. */
  function OperandReads(o: Operand): seq<Place> {
    match o case Load(p) => [p] case Constant(_) => []
  }

  function OperandsRead(os: seq<Operand>): seq<Place> {
    if os == [] then [] else OperandReads(os[0]) + OperandsRead(os[1..])
  }

  /** The places an rvalue reads, in visiting order. */
  function RvalueReads(r: Rvalue): seq<Place> {
    match r
    case UninitZeroed(_) => []
    case Aggregate(_, fields) => OperandsRead(fields)
    case Use(o) => OperandReads(o)
    case Call(callee, args) => OperandReads(callee) + OperandsRead(args)
    case Binary(_, l, r) => OperandReads(l) + OperandReads(r)
    case Cast(_, o) => OperandReads(o)
    case Discriminant(p) => [p]
  }

  function StmtReads(s: Stmt): seq<Place> {
    match s
    case Noop => []
    case Assign(_, r) => RvalueReads(r)
    case Print(o, _) => OperandReads(o)
  }

  function TerminatorReads(t: Terminator): seq<Place> {
    match t
    case Assert(o, _, _) => OperandReads(o)
    case Switch(o, _) => OperandReads(o)
    case _ => []
  }

  // ---------------------------------------------------------------- rewriting places

  function MapOperand(f: Place -> Place, o: Operand): Operand {
    match o case Load(p) => Load(f(p)) case Constant(_) => o
  }

  function MapOperands(f: Place -> Place, os: seq<Operand>): seq<Operand> {
    if os == [] then [] else [MapOperand(f, os[0])] + MapOperands(f, os[1..])
  }

  function MapRvalue(f: Place -> Place, r: Rvalue): Rvalue {
    match r
    case UninitZeroed(_) => r
    case Aggregate(k, fields) => Aggregate(k, MapOperands(f, fields))
    case Use(o) => Use(MapOperand(f, o))
    case Call(callee, args) => Call(MapOperand(f, callee), MapOperands(f, args))
    case Binary(op, l, r) => Binary(op, MapOperand(f, l), MapOperand(f, r))
    case Cast(c, o) => Cast(c, MapOperand(f, o))
    case Discriminant(p) => Discriminant(f(p))
  }

  function MapStmt(f: Place -> Place, s: Stmt): Stmt {
    match s
    case Noop => Noop
    case Assign(p, r) => Assign(f(p), MapRvalue(f, r))
    case Print(o, err) => Print(MapOperand(f, o), err)
  }

  function MapStmts(f: Place -> Place, ss: seq<Stmt>): (r: seq<Stmt>)
    ensures |r| == |ss|
  {
    seq(|ss|, i requires 0 <= i < |ss| => MapStmt(f, ss[i]))
  }

  /** Rewrites the places a terminator reads, leaving its successors alone. */
  function MapTerminator(f: Place -> Place, t: Terminator): Terminator {
    match t
    case Assert(o, k, b) => Assert(MapOperand(f, o), k, b)
    case Switch(o, ts) => Switch(MapOperand(f, o), ts)
    case _ => t
  }

  // ---------------------------------------------------------------- values

  /** Contents of a local. `Undef` is memory never written; a variant whose payload was written
      without its tag is untagged. */
  datatype Value =
    | Undef
    | Scalar(n: int)
    | Fn(fn: FnRef)
    | Record(fields: seq<Value>)
    | Variant(tagged: bool, caseId: nat, payload: Value)

  predicate Defined(v: Value) {
    match v
    case Undef => false
    case Scalar(_) => true
    case Fn(_) => true
    case Record(fs) => forall i :: 0 <= i < |fs| ==> Defined(fs[i])
    case Variant(tagged, _, p) => tagged && Defined(p)
  }

  /** v agrees with w wherever v is defined. */
  ghost predicate Leq(v: Value, w: Value) {
    match v
    case Undef => true
    case Scalar(_) => v == w
    case Fn(_) => v == w
    case Record(fs) => w.Record? && |fs| == |w.fields| && forall i :: 0 <= i < |fs| ==> Leq(fs[i], w.fields[i])
    case Variant(tagged, c, p) => w.Variant? && c == w.caseId && (tagged ==> w.tagged) && Leq(p, w.payload)
  }

  function FieldsOf(v: Value, count: nat): (fs: seq<Value>)
    ensures |fs| == count
  {
    if v.Record? && |v.fields| == count then v.fields else seq(count, _ => Undef)
  }

  /** A record none of whose fields was written is unwritten memory. */
  function MkRecord(fs: seq<Value>): Value {
    if |fs| > 0 && forall i :: 0 <= i < |fs| ==> fs[i] == Undef then Undef else Record(fs)
  }

  /** An untagged variant whose payload was not written is unwritten memory. */
  function MkVariant(tagged: bool, caseId: nat, payload: Value): Value {
    if !tagged && payload.Undef? then Undef else Variant(tagged, caseId, payload)
  }

  function Project(v: Value, p: Projection): Value {
    match p
    case Field(i, n) => FieldsOf(v, n)[i]
    case CaseDowncast(c) => if v.Variant? && v.caseId == c then v.payload else Undef
  }

  function Replace(v: Value, p: Projection, w: Value): Value {
    match p
    case Field(i, n) => MkRecord(FieldsOf(v, n)[i := w])
    case CaseDowncast(c) =>
      MkVariant(v.Variant? && v.caseId == c && v.tagged, c, w)
  }

  function ReadPath(v: Value, ps: seq<Projection>): Value
    decreases |ps|
  {
    if ps == [] then v else ReadPath(Project(v, ps[0]), ps[1..])
  }

  function WritePath(v: Value, ps: seq<Projection>, w: Value): Value
    decreases |ps|
  {
    if ps == [] then w else Replace(v, ps[0], WritePath(Project(v, ps[0]), ps[1..], w))
  }

  type Store = map<PlaceBase, Value>

  function Get(s: Store, b: PlaceBase): Value {
    if b in s then s[b] else Undef
  }

  function ReadPlace(s: Store, p: Place): Value {
    ReadPath(Get(s, p.base), p.projections)
  }

  function WritePlace(s: Store, p: Place, w: Value): Store {
    s[p.base := WritePath(Get(s, p.base), p.projections, w)]
  }

  /** s agrees with t wherever s is defined. */
  ghost predicate StoreLeq(s: Store, t: Store) {
    forall b :: Leq(Get(s, b), Get(t, b))
  }

  // ---------------------------------------------------------------- evaluation

  /** Arithmetic is a parameter of the semantics. */
  datatype Prims = Prims(
    binary: (BinaryOp, Value, Value) -> Value,
    cast: (IntegerCast, Value) -> Value,
    zeroed: Ty -> Value)

  datatype Event = Printed(value: Value, err: bool)

  /** What a call does, which depends on its function and arguments only: there is no heap. */
  datatype CallResult = Returns(value: Value, events: seq<Event>) | Panics(events: seq<Event>) | NoResult

  type Oracle = (FnRef, seq<Value>) -> CallResult

  function EvalConst(c: ConstValue): Value {
    match c
    case ZeroSized => Record([])
    case FnConst(fn) => Fn(fn)
    case ScalarConst(n) => Scalar(n)
  }

  /** Loading a value that is not fully initialised has no meaning. */
  function Eval(s: Store, o: Operand): Option<Value> {
    match o
    case Constant(c) => Some(EvalConst(c))
    case Load(p) => var v := ReadPlace(s, p); if Defined(v) then Some(v) else None
  }

  function EvalAll(s: Store, os: seq<Operand>): Option<seq<Value>> {
    if os == [] then Some([]) else
      match Eval(s, os[0])
      case None => None
      case Some(v) =>
        match EvalAll(s, os[1..])
        case None => None
        case Some(vs) => Some([v] + vs)
  }

  function Build(k: AggregateKind, vs: seq<Value>): Value {
    match k
    case VariantAgg(_, c) => Variant(true, c, Record(vs))
    case _ => Record(vs)
  }

  /** The value of an rvalue other than a call. */
  function EvalRvalue(p: Prims, s: Store, r: Rvalue): Option<Value>
    requires !r.Call?
  {
    match r
    case UninitZeroed(ty) => Some(p.zeroed(ty))
    case Aggregate(k, fields) =>
      (match EvalAll(s, fields) case None => None case Some(vs) => Some(Build(k, vs)))
    case Use(o) => Eval(s, o)
    case Binary(op, l, r) =>
      (match (Eval(s, l), Eval(s, r))
       case (Some(v), Some(w)) => Some(p.binary(op, v, w))
       case _ => None)
    case Cast(c, o) => (match Eval(s, o) case None => None case Some(v) => Some(p.cast(c, v)))
    case Discriminant(pl) =>
      var v := ReadPlace(s, pl);
      if v.Variant? && v.tagged then Some(Scalar(v.caseId)) else None
  }

  datatype Outcome = Returned(value: Value) | Panicked | Stuck | Blocked

  datatype Config =
    | Running(block: nat, pc: nat, store: Store, trace: seq<Event>)
    | Halted(outcome: Outcome, trace: seq<Event>)

  /** One statement, executed at c. */
  function StepStmt(p: Prims, o: Oracle, c: Config, s: Stmt): Config
    requires c.Running?
  {
    match s
    case Noop => c.(pc := c.pc + 1)
    case Print(op, err) =>
      (match Eval(c.store, op)
       case None => Halted(Stuck, c.trace)
       case Some(v) => Running(c.block, c.pc + 1, c.store, c.trace + [Printed(v, err)]))
    case Assign(pl, r) =>
      if r.Call? then
        match (Eval(c.store, r.callee), EvalAll(c.store, r.args))
        case (Some(Fn(fn)), Some(vs)) =>
          (match o(fn, vs)
           case Returns(v, es) => Running(c.block, c.pc + 1, WritePlace(c.store, pl, v), c.trace + es)
           case Panics(es) => Halted(Panicked, c.trace + es)
           case NoResult => Halted(Blocked, c.trace))
        case _ => Halted(Stuck, c.trace)
      else
        match EvalRvalue(p, c.store, r)
        case None => Halted(Stuck, c.trace)
        case Some(v) => Running(c.block, c.pc + 1, WritePlace(c.store, pl, v), c.trace)
  }

  function Jump(c: Config, target: nat): Config
    requires c.Running?
  {
    Running(target, 0, c.store, c.trace)
  }

  function StepTerminator(c: Config, t: Terminator): Config
    requires c.Running?
  {
    match t
    case Goto(b) => Jump(c, b)
    case Switch(op, ts) =>
      (match Eval(c.store, op)
       case Some(Scalar(n)) => Jump(c, ts.BranchForValue(n))
       case _ => Halted(Stuck, c.trace))
    case Assert(op, kind, b) =>
      (match Eval(c.store, op)
       case Some(Scalar(n)) => if (n != 0) != kind.Negate() then Jump(c, b) else Halted(Panicked, c.trace)
       case _ => Halted(Stuck, c.trace))
    case Return => Halted(Returned(Get(c.store, ReturnPlace)), c.trace)
    case Panic => Halted(Panicked, c.trace)
    case Unreachable => Halted(Stuck, c.trace)
  }

  function Step(p: Prims, o: Oracle, blocks: seq<Block>, c: Config): Config {
    if c.Halted? then c
    else if c.block >= |blocks| then Halted(Stuck, c.trace)
    else
      var b := blocks[c.block];
      if c.pc < |b.stmts| then StepStmt(p, o, c, b.stmts[c.pc])
      else StepTerminator(c, b.terminator)
  }

  function Run(p: Prims, o: Oracle, blocks: seq<Block>, c: Config, n: nat): Config
    decreases n
  {
    if n == 0 then c else Run(p, o, blocks, Step(p, o, blocks, c), n - 1)
  }

  /** The parameters are the first locals. */
  function InitStore(args: seq<Value>): Store {
    map i: nat | i < |args| :: Local(i) := args[i]
  }

  function Init(args: seq<Value>): Config {
    Running(ENTRY, 0, InitStore(args), [])
  }

  /** What can be observed of a run at some step. */
  datatype Observation = Going(trace: seq<Event>) | Finished(outcome: Outcome, trace: seq<Event>)

  function Observe(c: Config): Observation {
    match c
    case Running(_, _, _, t) => Going(t)
    case Halted(r, t) => Finished(r, t)
  }

  // ---------------------------------------------------------------- laws of places

  lemma {:induction false} ReadConcat(v: Value, ps: seq<Projection>, qs: seq<Projection>)
    ensures ReadPath(v, ps + qs) == ReadPath(ReadPath(v, ps), qs)
    decreases |ps|
  {
    if ps == [] {
      assert ps + qs == qs;
    } else {
      assert (ps + qs)[1..] == ps[1..] + qs;
      ReadConcat(Project(v, ps[0]), ps[1..], qs);
    }
  }

  lemma ProjectReplace(v: Value, p: Projection, w: Value)
    ensures Project(Replace(v, p, w), p) == w
  {
    if p.Field? {
      var fs := FieldsOf(v, p.count)[p.id := w];
      assert fs[p.id] == w;
    }
  }

  lemma ReplaceReplace(v: Value, p: Projection, u: Value, w: Value)
    ensures Replace(Replace(v, p, u), p, w) == Replace(v, p, w)
  {
    if p.Field? {
      var fs := FieldsOf(v, p.count);
      var gs := FieldsOf(Replace(v, p, u), p.count);
      assert gs == fs[p.id := u] by {
        var hs := fs[p.id := u];
        if Replace(v, p, u) == Undef {
          assert forall i :: 0 <= i < |hs| ==> hs[i] == Undef;
        }
      }
      assert gs[p.id := w] == fs[p.id := w];
    }
  }

  lemma {:induction false} ReadWrite(v: Value, ps: seq<Projection>, w: Value)
    ensures ReadPath(WritePath(v, ps, w), ps) == w
    decreases |ps|
  {
    if ps != [] {
      ProjectReplace(v, ps[0], WritePath(Project(v, ps[0]), ps[1..], w));
      ReadWrite(Project(v, ps[0]), ps[1..], w);
    }
  }

  lemma {:induction false} WriteWrite(v: Value, ps: seq<Projection>, u: Value, w: Value)
    ensures WritePath(WritePath(v, ps, u), ps, w) == WritePath(v, ps, w)
    decreases |ps|
  {
    if ps != [] {
      var inner := Project(v, ps[0]);
      ProjectReplace(v, ps[0], WritePath(inner, ps[1..], u));
      WriteWrite(inner, ps[1..], u, w);
      ReplaceReplace(v, ps[0], WritePath(inner, ps[1..], u), WritePath(inner, ps[1..], w));
    }
  }

  /** Writing below a place is writing the whole place with the part changed. */
  lemma {:induction false} WriteConcat(v: Value, ps: seq<Projection>, qs: seq<Projection>, w: Value)
    ensures WritePath(v, ps + qs, w) == WritePath(v, ps, WritePath(ReadPath(v, ps), qs, w))
    decreases |ps|
  {
    if ps == [] {
      assert ps + qs == qs;
    } else {
      assert (ps + qs)[1..] == ps[1..] + qs;
      WriteConcat(Project(v, ps[0]), ps[1..], qs, w);
    }
  }

  /** Both paths go into the same record, and there into different fields. */
  ghost predicate PartAt(ps: seq<Projection>, qs: seq<Projection>, k: nat) {
    && k < |ps| && k < |qs| && ps[..k] == qs[..k]
    && ps[k].Field? && qs[k].Field? && ps[k].count == qs[k].count && ps[k].id != qs[k].id
  }

  /** Writing a place leaves the places beside it as they are. */
  lemma {:induction false} WriteBeside(v: Value, ps: seq<Projection>, qs: seq<Projection>, k: nat, w: Value)
    requires PartAt(ps, qs, k)
    ensures ReadPath(WritePath(v, ps, w), qs) == ReadPath(v, qs)
    decreases k
  {
    var inner := WritePath(Project(v, ps[0]), ps[1..], w);
    if k == 0 {
      var fs := FieldsOf(v, ps[0].count);
      var gs := fs[ps[0].id := inner];
      assert gs[qs[0].id] == fs[qs[0].id];
      assert FieldsOf(MkRecord(gs), ps[0].count)[qs[0].id] == fs[qs[0].id];
    } else {
      assert ps[0] == ps[..k][0] == qs[..k][0] == qs[0];
      assert ps[1..][..k - 1] == ps[..k][1..] && qs[1..][..k - 1] == qs[..k][1..];
      ProjectReplace(v, ps[0], inner);
      WriteBeside(Project(v, ps[0]), ps[1..], qs[1..], k - 1, w);
    }
  }

  /** Writing into the payload of a variant's case leaves its tag. */
  lemma WriteUnderTag(c: nat, payload: Value, ps: seq<Projection>, w: Value)
    ensures var v := WritePath(Variant(true, c, payload), [CaseDowncast(c)] + ps, w);
            v == Variant(true, c, WritePath(payload, ps, w))
  {
    assert ([CaseDowncast(c)] + ps)[1..] == ps;
  }

  /** Each field of an aggregate is read back from it, and of a variant its case. */
  lemma {:induction false} AggregateReads(s: Store, os: seq<Operand>, k: AggregateKind, i: nat)
    requires EvalAll(s, os).Some? && i < |os|
    ensures var vs := EvalAll(s, os).value;
            && |vs| == |os| && Eval(s, os[i]) == Some(vs[i])
            && ReadPath(Build(k, vs), (if k.VariantAgg? then [CaseDowncast(k.caseId)] else []) + [Field(i, |os|)]) == vs[i]
            && (k.VariantAgg? ==> Build(k, vs).Variant? && Build(k, vs).tagged && Build(k, vs).caseId == k.caseId)
    decreases |os|
  {
    var vs := EvalAll(s, os).value;
    EvalAllAt(s, os, i);
    var field: Projection := Field(i, |os|);
    if k.VariantAgg? {
      var path := [CaseDowncast(k.caseId)] + [field];
      assert path[1..] == [field] && [field][1..] == [];
      assert ReadPath(Record(vs), [field]) == ReadPath(vs[i], []);
    } else {
      assert [] + [field] == [field] && [field][1..] == [];
      assert ReadPath(Record(vs), [field]) == ReadPath(vs[i], []);
    }
  }

  lemma {:induction false} EvalAllAt(s: Store, os: seq<Operand>, i: nat)
    requires EvalAll(s, os).Some? && i < |os|
    ensures |EvalAll(s, os).value| == |os| && Eval(s, os[i]) == Some(EvalAll(s, os).value[i])
    decreases |os|
  {
    if |os| > 1 { EvalAllAt(s, os[1..], if i > 0 then i - 1 else 0); }
  }

  /** Printing adds one event and goes on to the next statement. */
  lemma PrintAdds(p: Prims, o: Oracle, c: Config, op: Operand, err: bool)
    requires c.Running?
    ensures StepStmt(p, o, c, Stmt.Print(op, err))
            == match Eval(c.store, op)
               case Some(v) => Running(c.block, c.pc + 1, c.store, c.trace + [Event.Printed(v, err)])
               case None => Halted(Stuck, c.trace)
  {
  }

  /** Returning gives the return place, a panic is one, and reaching the unreachable has no meaning. */
  lemma EndsAre(c: Config)
    requires c.Running?
    ensures StepTerminator(c, Return) == Halted(Returned(Get(c.store, ReturnPlace)), c.trace)
    ensures StepTerminator(c, Panic) == Halted(Panicked, c.trace)
    ensures StepTerminator(c, Unreachable) == Halted(Stuck, c.trace)
  {
  }

  /** Of an operation the left operand comes first, and only a variant whose tag was written has a discriminant. */
  lemma OperationsAre(p: Prims, s: Store, op: BinaryOp, l: Operand, r: Operand, pl: Place, n: int)
    ensures Eval(s, l).Some? && Eval(s, r).Some? ==>
              EvalRvalue(p, s, Binary(op, l, r)) == Some(p.binary(op, Eval(s, l).value, Eval(s, r).value))
    ensures EvalRvalue(p, s, Discriminant(pl)) == Some(Scalar(n))
            <==> exists c: nat, payload :: n == c && ReadPlace(s, pl) == Variant(true, c, payload)
  {
    var v := ReadPlace(s, pl);
    if v.Variant? && v.tagged { assert v == Variant(true, v.caseId, v.payload); }
  }

  /** An assertion that an index is in bounds holds if its condition does, and one that nothing overflows or
      is divided by zero if its condition does not. */
  lemma AssertionHolds(c: Config, op: Operand, kind: AssertKind, b: nat, n: int)
    requires c.Running? && Eval(c.store, op) == Some(Scalar(n))
    ensures StepTerminator(c, Assert(op, kind, b))
            == if (kind == InBounds && n != 0) || (kind != InBounds && n == 0) then Running(b, 0, c.store, c.trace)
               else Halted(Panicked, c.trace)
  {
  }

  // ---------------------------------------------------------------- more defined stores

  lemma {:induction false} LeqRefl(v: Value)
    ensures Leq(v, v)
  {
    match v
    case Record(fs) => forall i | 0 <= i < |fs| ensures Leq(fs[i], fs[i]) { LeqRefl(fs[i]); }
    case Variant(_, _, p) => LeqRefl(p);
    case _ =>
  }

  lemma {:induction false} LeqTrans(u: Value, v: Value, w: Value)
    requires Leq(u, v) && Leq(v, w)
    ensures Leq(u, w)
  {
    match u
    case Record(fs) =>
      forall i | 0 <= i < |fs| ensures Leq(fs[i], w.fields[i]) { LeqTrans(fs[i], v.fields[i], w.fields[i]); }
    case Variant(_, _, p) => LeqTrans(p, v.payload, w.payload);
    case _ =>
  }

  /** A fully defined value has nothing above it. */
  lemma {:induction false} DefinedLeq(v: Value, w: Value)
    requires Defined(v) && Leq(v, w)
    ensures v == w
  {
    match v
    case Record(fs) =>
      forall i | 0 <= i < |fs| ensures fs[i] == w.fields[i] { DefinedLeq(fs[i], w.fields[i]); }
      assert fs == w.fields;
    case Variant(_, _, p) => DefinedLeq(p, w.payload);
    case _ =>
  }

  lemma ProjectLeq(v: Value, w: Value, p: Projection)
    requires Leq(v, w)
    ensures Leq(Project(v, p), Project(w, p))
  {
  }

  lemma ReplaceLeq(v: Value, w: Value, p: Projection, x: Value, y: Value)
    requires Leq(v, w) && Leq(x, y)
    ensures Leq(Replace(v, p, x), Replace(w, p, y))
  {
    if p.Field? {
      var fs, gs := FieldsOf(v, p.count)[p.id := x], FieldsOf(w, p.count)[p.id := y];
      forall i | 0 <= i < p.count ensures Leq(fs[i], gs[i]) {
      }
      if MkRecord(gs) == Undef {
        assert forall i :: 0 <= i < |fs| ==> Leq(fs[i], gs[i]) && fs[i] == Undef;
      }
    }
  }

  lemma {:induction false} ReadLeq(v: Value, w: Value, ps: seq<Projection>)
    requires Leq(v, w)
    ensures Leq(ReadPath(v, ps), ReadPath(w, ps))
    decreases |ps|
  {
    if ps != [] {
      ProjectLeq(v, w, ps[0]);
      ReadLeq(Project(v, ps[0]), Project(w, ps[0]), ps[1..]);
    }
  }

  lemma {:induction false} WriteLeq(v: Value, w: Value, ps: seq<Projection>, x: Value, y: Value)
    requires Leq(v, w) && Leq(x, y)
    ensures Leq(WritePath(v, ps, x), WritePath(w, ps, y))
    decreases |ps|
  {
    if ps != [] {
      ProjectLeq(v, w, ps[0]);
      WriteLeq(Project(v, ps[0]), Project(w, ps[0]), ps[1..], x, y);
      ReplaceLeq(v, w, ps[0], WritePath(Project(v, ps[0]), ps[1..], x), WritePath(Project(w, ps[0]), ps[1..], y));
    }
  }

  /** Forgetting what a place holds only loses information. */
  lemma {:induction false} EraseLeq(v: Value, w: Value, ps: seq<Projection>)
    requires Leq(v, w)
    ensures Leq(WritePath(v, ps, Undef), w)
    decreases |ps|
  {
    if ps != [] {
      var p := ps[0];
      ProjectLeq(v, w, p);
      EraseLeq(Project(v, p), Project(w, p), ps[1..]);
      var x := WritePath(Project(v, p), ps[1..], Undef);
      assert Leq(x, Project(w, p));
      if p.Field? && !(w.Record? && |w.fields| == p.count) {
        var fs := FieldsOf(v, p.count)[p.id := x];
        assert forall i :: 0 <= i < p.count ==> fs[i] == Undef;
      }
    }
  }

  lemma WritePlaceLeq(s: Store, t: Store, pl: Place, x: Value, y: Value)
    requires StoreLeq(s, t) && Leq(x, y)
    ensures StoreLeq(WritePlace(s, pl, x), WritePlace(t, pl, y))
  {
    WriteLeq(Get(s, pl.base), Get(t, pl.base), pl.projections, x, y);
    forall b ensures Leq(Get(WritePlace(s, pl, x), b), Get(WritePlace(t, pl, y), b)) {
      assert Leq(Get(s, b), Get(t, b));
    }
  }
}
