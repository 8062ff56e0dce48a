/** Programs of several bodies: replacing one body by a refinement of it refines the program. */
module Program {
  import opened Prelude
  import opened Mir
  import opened MirSim

  datatype FnDef = FnDef(arity: nat, blocks: seq<Block>)

  /** Every function instance with its body. */
  type Prog = map<FnRef, FnDef>

  function AsResult(c: Config): CallResult {
    match c
    case Halted(Returned(v), t) => Returns(v, t)
    case Halted(Panicked, t) => Panics(t)
    case _ => NoResult
  }

  /** The result of a call using at most k nested calls and k steps in each of them. */
  function Called(p: Prims, prog: Prog, k: nat, fn: FnRef, args: seq<Value>): CallResult
    decreases k
  {
    if k == 0 || fn !in prog || |args| != prog[fn].arity then NoResult
    else AsResult(Run(p, (f, vs) => Called(p, prog, k - 1, f, vs), prog[fn].blocks, Init(args), k))
  }

  function Upto(p: Prims, prog: Prog, k: nat): Oracle {
    (f, vs) => Called(p, prog, k, f, vs)
  }

  /** The result of a call, whatever number of steps it takes. */
  ghost function Result(p: Prims, prog: Prog, fn: FnRef, args: seq<Value>): CallResult {
    if exists k: nat :: Called(p, prog, k, fn, args) != NoResult then
      var k: nat :| Called(p, prog, k, fn, args) != NoResult;
      Called(p, prog, k, fn, args)
    else NoResult
  }

  ghost function Results(p: Prims, prog: Prog): Oracle {
    (f, vs) => Result(p, prog, f, vs)
  }

  // ---------------------------------------------------------------- more terminating callees

  ghost predicate Extends(o: Oracle, q: Oracle) {
    forall f, vs :: o(f, vs) != NoResult ==> q(f, vs) == o(f, vs)
  }

  predicate IsBlocked(c: Config) {
    c.Halted? && c.outcome == Blocked
  }

  lemma StepExtends(p: Prims, o: Oracle, q: Oracle, blocks: seq<Block>, c: Config)
    requires Extends(o, q)
    ensures Step(p, o, blocks, c) == Step(p, q, blocks, c) || IsBlocked(Step(p, o, blocks, c))
  {
  }

  lemma {:induction false} RunExtends(p: Prims, o: Oracle, q: Oracle, blocks: seq<Block>, c: Config, n: nat)
    requires Extends(o, q)
    ensures Run(p, o, blocks, c, n) == Run(p, q, blocks, c, n)
            || IsBlocked(Run(p, o, blocks, c, n))
    decreases n
  {
    if n > 0 {
      StepExtends(p, o, q, blocks, c);
      var d := Step(p, o, blocks, c);
      RunExtends(p, o, q, blocks, d, n - 1);
      if d != Step(p, q, blocks, c) { RunHalted(p, o, blocks, d, n - 1); }
    }
  }

  lemma RunLonger(p: Prims, o: Oracle, blocks: seq<Block>, c: Config, m: nat, n: nat)
    requires m <= n && Run(p, o, blocks, c, m).Halted?
    ensures Run(p, o, blocks, c, n) == Run(p, o, blocks, c, m)
  {
    RunAdd(p, o, blocks, c, m, n - m);
    RunHalted(p, o, blocks, Run(p, o, blocks, c, m), n - m);
  }

  lemma {:induction false} CalledMonotone(p: Prims, prog: Prog, j: nat, k: nat)
    requires j <= k
    ensures Extends(Upto(p, prog, j), Upto(p, prog, k))
    decreases j
  {
    if j > 0 {
      CalledMonotone(p, prog, j - 1, k - 1);
      forall f: FnRef, vs: seq<Value> | Called(p, prog, j, f, vs) != NoResult
        ensures Called(p, prog, k, f, vs) == Called(p, prog, j, f, vs)
      {
        var blocks := prog[f].blocks;
        var o, q := Upto(p, prog, j - 1), Upto(p, prog, k - 1);
        assert Called(p, prog, j, f, vs) == AsResult(Run(p, o, blocks, Init(vs), j));
        RunExtends(p, o, q, blocks, Init(vs), j);
        RunLonger(p, q, blocks, Init(vs), j, k);
        assert Called(p, prog, k, f, vs) == AsResult(Run(p, q, blocks, Init(vs), k));
      }
    }
  }

  lemma UptoResults(p: Prims, prog: Prog, k: nat)
    ensures Extends(Upto(p, prog, k), Results(p, prog))
  {
    forall f: FnRef, vs: seq<Value> | Called(p, prog, k, f, vs) != NoResult
      ensures Result(p, prog, f, vs) == Called(p, prog, k, f, vs)
    {
      var j: nat :| Result(p, prog, f, vs) == Called(p, prog, j, f, vs) && Called(p, prog, j, f, vs) != NoResult;
      if j <= k { CalledMonotone(p, prog, j, k); assert Upto(p, prog, j)(f, vs) != NoResult; }
      else { CalledMonotone(p, prog, k, j); assert Upto(p, prog, k)(f, vs) != NoResult; }
    }
  }

  /** A finite run needs only finitely many steps of its callees. */
  lemma {:induction false} RunFinite(p: Prims, prog: Prog, blocks: seq<Block>, c: Config, n: nat) returns (k: nat)
    requires AsResult(Run(p, Results(p, prog), blocks, c, n)) != NoResult
    ensures Run(p, Upto(p, prog, k), blocks, c, n) == Run(p, Results(p, prog), blocks, c, n)
    decreases n
  {
    k := 0;
    if n > 0 {
      var o := Results(p, prog);
      var d := Step(p, o, blocks, c);
      if d.Halted? { RunHalted(p, o, blocks, d, n - 1); }
      var j := StepFinite(p, prog, blocks, c);
      var i := RunFinite(p, prog, blocks, d, n - 1);
      k := if i <= j then j else i;
      CalledMonotone(p, prog, i, k);
      CalledMonotone(p, prog, j, k);
      StepExtends(p, Upto(p, prog, j), Upto(p, prog, k), blocks, c);
      RunExtends(p, Upto(p, prog, i), Upto(p, prog, k), blocks, d, n - 1);
    }
  }

  lemma StepFinite(p: Prims, prog: Prog, blocks: seq<Block>, c: Config) returns (k: nat)
    requires var d := Step(p, Results(p, prog), blocks, c); d.Halted? ==> d.outcome != Blocked
    ensures Step(p, Upto(p, prog, k), blocks, c) == Step(p, Results(p, prog), blocks, c)
  {
    k := 0;
    if c.Running? && c.block < |blocks| && c.pc < |blocks[c.block].stmts| {
      var s := blocks[c.block].stmts[c.pc];
      if s.Assign? && s.rvalue.Call? {
        var f, vs := Eval(c.store, s.rvalue.callee), EvalAll(c.store, s.rvalue.args);
        if f.Some? && f.value.Fn? && vs.Some? {
          assert Result(p, prog, f.value.fn, vs.value) != NoResult;
          k :| Called(p, prog, k, f.value.fn, vs.value) != NoResult
               && Result(p, prog, f.value.fn, vs.value) == Called(p, prog, k, f.value.fn, vs.value);
        }
      }
    }
  }

  lemma RunResult(p: Prims, prog: Prog, fn: FnRef, args: seq<Value>, n: nat)
    requires fn in prog && |args| == prog[fn].arity
    requires AsResult(Run(p, Results(p, prog), prog[fn].blocks, Init(args), n)) != NoResult
    ensures Result(p, prog, fn, args) == AsResult(Run(p, Results(p, prog), prog[fn].blocks, Init(args), n))
  {
    var blocks, c := prog[fn].blocks, Init(args);
    var j := RunFinite(p, prog, blocks, c, n);
    var k := (if j <= n then n else j) + 1;
    CalledMonotone(p, prog, j, k - 1);
    RunExtends(p, Upto(p, prog, j), Upto(p, prog, k - 1), blocks, c, n);
    RunLonger(p, Upto(p, prog, k - 1), blocks, c, n, k);
    assert Called(p, prog, k, fn, args) == AsResult(Run(p, Upto(p, prog, k - 1), blocks, c, k));
    UptoResults(p, prog, k);
    assert Upto(p, prog, k)(fn, args) != NoResult;
  }

  /** The results of a program are those of running its bodies with these very results as callees. */
  lemma ResultFixpoint(p: Prims, prog: Prog, fn: FnRef, args: seq<Value>, r: CallResult)
    requires r != NoResult && fn in prog && |args| == prog[fn].arity
    ensures Result(p, prog, fn, args) == r
            <==> exists n: nat :: AsResult(Run(p, Results(p, prog), prog[fn].blocks, Init(args), n)) == r
  {
    var o, blocks, c := Results(p, prog), prog[fn].blocks, Init(args);
    if Result(p, prog, fn, args) == r {
      var k: nat :| Called(p, prog, k, fn, args) == r;
      UptoResults(p, prog, k - 1);
      RunExtends(p, Upto(p, prog, k - 1), o, blocks, c, k);
      assert AsResult(Run(p, o, blocks, c, k)) == r;
    }
    if n: nat :| AsResult(Run(p, o, blocks, c, n)) == r {
      RunResult(p, prog, fn, args, n);
    }
  }

  // ---------------------------------------------------------------- more defined results

  ghost predicate ResultLeq(r: CallResult, s: CallResult) {
    match r
    case NoResult => true
    case Panics(_) => r == s
    case Returns(v, t) => s.Returns? && s.events == t && Leq(v, s.value)
  }

  ghost predicate OracleLeq(o: Oracle, q: Oracle) {
    forall f, vs :: ResultLeq(o(f, vs), q(f, vs))
  }

  ghost predicate ConfigLeq(c: Config, d: Config) {
    match c
    case Running(b, pc, s, t) => d.Running? && d.block == b && d.pc == pc && d.trace == t && StoreLeq(s, d.store)
    case Halted(_, _) => ResultLeq(AsResult(c), AsResult(d))
  }

  /** A run from a more defined store, with callees that return more, can only return more. */
  lemma StepLeq(p: Prims, o: Oracle, q: Oracle, blocks: seq<Block>, c: Config, d: Config)
    requires OracleLeq(o, q) && ConfigLeq(c, d)
    ensures ConfigLeq(Step(p, o, blocks, c), Step(p, q, blocks, d))
  {
    if c.Running? && c.block < |blocks| {
      var b := blocks[c.block];
      StoreSees(c.store, d.store);
      if c.pc < |b.stmts| {
        StepStmtLeq(p, o, q, c, d, b.stmts[c.pc]);
      } else {
        StepTerminatorLeq(c, d, b.terminator);
      }
    }
  }

  lemma StepTerminatorLeq(c: Config, d: Config, t: Terminator)
    requires c.Running? && ConfigLeq(c, d) && Sees(c.store, d.store, pl => pl)
    ensures ConfigLeq(StepTerminator(c, t), StepTerminator(d, t))
  {
    match t
    case Switch(op, _) => EvalSees(c.store, d.store, pl => pl, op);
    case Assert(op, _, _) => EvalSees(c.store, d.store, pl => pl, op);
    case Return => assert Leq(Get(c.store, ReturnPlace), Get(d.store, ReturnPlace));
    case _ =>
  }

  lemma StepStmtLeq(p: Prims, o: Oracle, q: Oracle, c: Config, d: Config, s: Stmt)
    requires OracleLeq(o, q) && c.Running? && ConfigLeq(c, d) && Sees(c.store, d.store, pl => pl)
    ensures ConfigLeq(StepStmt(p, o, c, s), StepStmt(p, q, d, s))
  {
    match s
    case Noop =>
    case Print(op, _) => EvalSees(c.store, d.store, pl => pl, op);
    case Assign(pl, r) =>
      MapRvalueId(r);
      if r.Call? {
        EvalSees(c.store, d.store, pl => pl, r.callee);
        EvalAllSees(c.store, d.store, pl => pl, r.args);
        MapOperandsId(r.args);
        var f, vs := Eval(c.store, r.callee), EvalAll(c.store, r.args);
        if f.Some? && f.value.Fn? && vs.Some? {
          var x, y := o(f.value.fn, vs.value), q(f.value.fn, vs.value);
          assert ResultLeq(x, y);
          if x.Returns? { WritePlaceLeq(c.store, d.store, pl, x.value, y.value); }
        }
      } else {
        EvalRvalueSees(p, c.store, d.store, pl => pl, r);
        var v := EvalRvalue(p, c.store, r);
        if v.Some? {
          LeqRefl(v.value);
          WritePlaceLeq(c.store, d.store, pl, v.value, v.value);
        }
      }
  }

  lemma {:induction false} RunLeq(p: Prims, o: Oracle, q: Oracle, blocks: seq<Block>, c: Config, d: Config, n: nat)
    requires OracleLeq(o, q) && ConfigLeq(c, d)
    ensures ConfigLeq(Run(p, o, blocks, c, n), Run(p, q, blocks, d, n))
    decreases n
  {
    if n > 0 {
      StepLeq(p, o, q, blocks, c, d);
      RunLeq(p, o, q, blocks, Step(p, o, blocks, c), Step(p, q, blocks, d), n - 1);
    }
  }

  lemma StoreRefl(s: Store)
    ensures StoreLeq(s, s)
  {
    forall b ensures Leq(Get(s, b), Get(s, b)) { LeqRefl(Get(s, b)); }
  }

  lemma ResultTrans(r: CallResult, s: CallResult, t: CallResult)
    requires ResultLeq(r, s) && ResultLeq(s, t)
    ensures ResultLeq(r, t)
  {
    if r.Returns? { LeqTrans(r.value, s.value, t.value); }
  }

  lemma ResultRefl(r: CallResult)
    ensures ResultLeq(r, r)
  {
    if r.Returns? { LeqRefl(r.value); }
  }

  // ---------------------------------------------------------------- replacing a body

  /** Whenever a returns or panics, b does the same with the same trace, returning at least as much;
      whatever a has printed at any time, b prints too; and where a runs for ever, so does b. */
  ghost predicate Refines(p: Prims, o: Oracle, arity: nat, a: seq<Block>, b: seq<Block>) {
    forall args: seq<Value> :: |args| == arity ==> RefinesOn(p, o, a, b, args)
  }

  ghost predicate RefinesOn(p: Prims, o: Oracle, a: seq<Block>, b: seq<Block>, args: seq<Value>) {
    && (forall n: nat :: Answers(p, o, b, args, AsResult(Run(p, o, a, Init(args), n))))
    && (forall n: nat :: Prints(p, o, b, args, Run(p, o, a, Init(args), n).trace))
    && (RunsOn(p, o, a, args) ==> RunsOn(p, o, b, args))
  }

  /** Some point of the run has at least the result r. */
  ghost predicate Answers(p: Prims, o: Oracle, blocks: seq<Block>, args: seq<Value>, r: CallResult) {
    exists n: nat :: ResultLeq(r, AsResult(Run(p, o, blocks, Init(args), n)))
  }

  /** At some point of the run all of t has been printed. */
  ghost predicate Prints(p: Prims, o: Oracle, blocks: seq<Block>, args: seq<Value>, t: seq<Event>) {
    exists n: nat :: t <= Run(p, o, blocks, Init(args), n).trace
  }

  ghost predicate RunsOn(p: Prims, o: Oracle, blocks: seq<Block>, args: seq<Value>) {
    forall n: nat :: Run(p, o, blocks, Init(args), n).Running?
  }

  lemma RefinesTrans(p: Prims, o: Oracle, arity: nat, a: seq<Block>, b: seq<Block>, c: seq<Block>)
    requires Refines(p, o, arity, a, b) && Refines(p, o, arity, b, c)
    ensures Refines(p, o, arity, a, c)
  {
    forall args: seq<Value> | |args| == arity ensures RefinesOn(p, o, a, c, args) {
      assert RefinesOn(p, o, a, b, args) && RefinesOn(p, o, b, c, args);
      forall n: nat
        ensures Answers(p, o, c, args, AsResult(Run(p, o, a, Init(args), n)))
        ensures Prints(p, o, c, args, Run(p, o, a, Init(args), n).trace)
      {
        AnswersTrans(p, o, b, c, args, AsResult(Run(p, o, a, Init(args), n)));
        PrintsTrans(p, o, b, c, args, Run(p, o, a, Init(args), n).trace);
      }
    }
  }

  lemma AnswersTrans(p: Prims, o: Oracle, b: seq<Block>, c: seq<Block>, args: seq<Value>, r: CallResult)
    requires Answers(p, o, b, args, r) && RefinesOn(p, o, b, c, args)
    ensures Answers(p, o, c, args, r)
  {
    var m: nat :| ResultLeq(r, AsResult(Run(p, o, b, Init(args), m)));
    assert Answers(p, o, c, args, AsResult(Run(p, o, b, Init(args), m)));
    var k: nat :| ResultLeq(AsResult(Run(p, o, b, Init(args), m)), AsResult(Run(p, o, c, Init(args), k)));
    ResultTrans(r, AsResult(Run(p, o, b, Init(args), m)), AsResult(Run(p, o, c, Init(args), k)));
  }

  lemma PrintsTrans(p: Prims, o: Oracle, b: seq<Block>, c: seq<Block>, args: seq<Value>, t: seq<Event>)
    requires Prints(p, o, b, args, t) && RefinesOn(p, o, b, c, args)
    ensures Prints(p, o, c, args, t)
  {
    var m: nat :| t <= Run(p, o, b, Init(args), m).trace;
    assert Prints(p, o, c, args, Run(p, o, b, Init(args), m).trace);
  }

  lemma RefinesRefl(p: Prims, o: Oracle, arity: nat, a: seq<Block>)
    ensures Refines(p, o, arity, a, a)
  {
    SameRefl(a);
    SameRefines(a, a, p, o, arity);
  }

  lemma SameRefines(a: seq<Block>, b: seq<Block>, p: Prims, o: Oracle, arity: nat)
    requires SameUpto(arity, a, b)
    ensures Refines(p, o, arity, a, b)
  {
    forall args: seq<Value> | |args| == arity ensures RefinesOn(p, o, a, b, args) {
      assert Covers(p, o, a, b, args) && Covers(p, o, b, a, args);
      CoversRefines(p, o, a, b, args);
    }
  }

  /** What a run that is at c has come to, a run that is at d comes to as well. */
  ghost predicate Comes(p: Prims, o: Oracle, b: seq<Block>, c: Config, d: Config, n: nat) {
    exists m: nat :: var d' := Run(p, o, b, d, m);
      ResultLeq(AsResult(c), AsResult(d')) && c.trace <= d'.trace && (c.Running? ==> d'.Running? && m >= n)
  }

  /** Whatever a run of a has come to at some time, a run of b comes to as well. */
  ghost predicate Follows(p: Prims, o: Oracle, a: seq<Block>, b: seq<Block>, args: seq<Value>) {
    forall n: nat :: Comes(p, o, b, Run(p, o, a, Init(args), n), Init(args), n)
  }

  lemma FollowsAt(p: Prims, o: Oracle, a: seq<Block>, b: seq<Block>, args: seq<Value>, n: nat)
    requires Follows(p, o, a, b, args)
    ensures Answers(p, o, b, args, AsResult(Run(p, o, a, Init(args), n)))
    ensures Prints(p, o, b, args, Run(p, o, a, Init(args), n).trace)
    ensures Run(p, o, a, Init(args), n).Running? ==> Run(p, o, b, Init(args), n).Running?
  {
    ComesShows(p, o, b, Run(p, o, a, Init(args), n), args, n);
  }

  lemma FollowsRefines(p: Prims, o: Oracle, a: seq<Block>, b: seq<Block>, args: seq<Value>)
    requires Follows(p, o, a, b, args)
    ensures RefinesOn(p, o, a, b, args)
  {
    forall n: nat ensures Answers(p, o, b, args, AsResult(Run(p, o, a, Init(args), n))) { FollowsAt(p, o, a, b, args, n); }
    forall n: nat ensures Prints(p, o, b, args, Run(p, o, a, Init(args), n).trace) { FollowsAt(p, o, a, b, args, n); }
    if RunsOn(p, o, a, args) {
      forall n: nat ensures Run(p, o, b, Init(args), n).Running? { FollowsAt(p, o, a, b, args, n); }
    }
  }

  lemma ComesShows(p: Prims, o: Oracle, b: seq<Block>, c: Config, args: seq<Value>, n: nat)
    requires Comes(p, o, b, c, Init(args), n)
    ensures Answers(p, o, b, args, AsResult(c)) && Prints(p, o, b, args, c.trace)
    ensures c.Running? ==> Run(p, o, b, Init(args), n).Running?
  {
    var d := Init(args);
    var m: nat :| var d' := Run(p, o, b, d, m);
      ResultLeq(AsResult(c), AsResult(d')) && c.trace <= d'.trace && (c.Running? ==> d'.Running? && m >= n);
    if c.Running? {
      RunAdd(p, o, b, d, n, m - n);
      if Run(p, o, b, d, n).Halted? { RunHalted(p, o, b, Run(p, o, b, d, n), m - n); }
    }
  }

  lemma CoversRefines(p: Prims, o: Oracle, a: seq<Block>, b: seq<Block>, args: seq<Value>)
    requires Covers(p, o, a, b, args) && Covers(p, o, b, a, args)
    ensures RefinesOn(p, o, a, b, args)
  {
    forall n: nat
      ensures Answers(p, o, b, args, AsResult(Run(p, o, a, Init(args), n)))
      ensures Prints(p, o, b, args, Run(p, o, a, Init(args), n).trace)
    {
      assert Shows(p, o, b, args, ObsAt(p, o, a, args, n));
      var m: nat :| ObsAt(p, o, b, args, m) == ObsAt(p, o, a, args, n);
      ResultRefl(AsResult(Run(p, o, a, Init(args), n)));
      assert AsResult(Run(p, o, a, Init(args), n)) == AsResult(Run(p, o, b, Init(args), m));
      assert Run(p, o, a, Init(args), n).trace == Run(p, o, b, Init(args), m).trace;
    }
    if m: nat :| Run(p, o, b, Init(args), m).Halted? {
      assert Shows(p, o, a, args, ObsAt(p, o, b, args, m));
      var n: nat :| ObsAt(p, o, a, args, n) == ObsAt(p, o, b, args, m);
      assert Run(p, o, a, Init(args), n).Halted?;
    }
  }

  /** Replacing the body of one function by a refinement of it keeps every result that any function
      of the program has, through any depth of calls and recursion. */
  lemma ReplaceBody(p: Prims, prog: Prog, g: FnRef, b: seq<Block>, fn: FnRef, args: seq<Value>)
    requires g in prog
    requires var prog' := prog[g := prog[g].(blocks := b)];
             Refines(p, Results(p, prog'), prog[g].arity, prog[g].blocks, b)
    ensures ResultLeq(Result(p, prog, fn, args), Result(p, prog[g := prog[g].(blocks := b)], fn, args))
  {
    var r := Result(p, prog, fn, args);
    if r != NoResult {
      var k: nat :| Called(p, prog, k, fn, args) == r;
      ReplaceBodyUpto(p, prog, g, b, k);
      assert Upto(p, prog, k)(fn, args) == r;
    }
  }

  lemma {:induction false} ReplaceBodyUpto(p: Prims, prog: Prog, g: FnRef, b: seq<Block>, k: nat)
    requires g in prog
    requires var prog' := prog[g := prog[g].(blocks := b)];
             Refines(p, Results(p, prog'), prog[g].arity, prog[g].blocks, b)
    ensures OracleLeq(Upto(p, prog, k), Results(p, prog[g := prog[g].(blocks := b)]))
    decreases k
  {
    if k > 0 {
      var prog' := prog[g := prog[g].(blocks := b)];
      var q := Results(p, prog');
      ReplaceBodyUpto(p, prog, g, b, k - 1);
      forall f: FnRef, vs: seq<Value> ensures ResultLeq(Called(p, prog, k, f, vs), Result(p, prog', f, vs)) {
        ReplaceBodyCall(p, prog, g, b, k, f, vs);
      }
    }
  }

  lemma ReplaceBodyCall(p: Prims, prog: Prog, g: FnRef, b: seq<Block>, k: nat, f: FnRef, vs: seq<Value>)
    requires g in prog && k > 0
    requires var prog' := prog[g := prog[g].(blocks := b)];
             && Refines(p, Results(p, prog'), prog[g].arity, prog[g].blocks, b)
             && OracleLeq(Upto(p, prog, k - 1), Results(p, prog'))
    ensures ResultLeq(Called(p, prog, k, f, vs), Result(p, prog[g := prog[g].(blocks := b)], f, vs))
  {
    var prog' := prog[g := prog[g].(blocks := b)];
    var q := Results(p, prog');
    var x := Called(p, prog, k, f, vs);
    if x != NoResult {
      var blocks, c := prog[f].blocks, Init(vs);
      assert x == AsResult(Run(p, Upto(p, prog, k - 1), blocks, c, k));
      StoreRefl(c.store);
      RunLeq(p, Upto(p, prog, k - 1), q, blocks, c, c, k);
      var y := AsResult(Run(p, q, blocks, c, k));
      assert ResultLeq(x, y);
      var n: nat := k;
      if f == g {
        assert RefinesOn(p, q, blocks, b, vs);
        assert Answers(p, q, b, vs, y);
        n :| ResultLeq(y, AsResult(Run(p, q, b, c, n)));
      } else {
        ResultRefl(y);
      }
      var z := AsResult(Run(p, q, prog'[f].blocks, c, n));
      ResultTrans(x, y, z);
      RunResult(p, prog', f, vs, n);
    }
  }
}
