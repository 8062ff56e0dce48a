/** How runs of two bodies are compared. */
module MirSim {
  import opened Prelude
  import opened Mir

  lemma {:induction false} RunAdd(p: Prims, o: Oracle, blocks: seq<Block>, c: Config, m: nat, n: nat)
    ensures Run(p, o, blocks, c, m + n) == Run(p, o, blocks, Run(p, o, blocks, c, m), n)
    decreases m
  {
    if m > 0 { RunAdd(p, o, blocks, Step(p, o, blocks, c), m - 1, n); }
  }

  lemma {:induction false} RunHalted(p: Prims, o: Oracle, blocks: seq<Block>, c: Config, n: nat)
    requires c.Halted?
    ensures Run(p, o, blocks, c, n) == c
    decreases n
  {
    if n > 0 { RunHalted(p, o, blocks, c, n - 1); }
  }

  function ObsAt(p: Prims, o: Oracle, blocks: seq<Block>, args: seq<Value>, n: nat): Observation {
    Observe(Run(p, o, blocks, Init(args), n))
  }

  /** Some point of the run shows obs. */
  ghost predicate Shows(p: Prims, o: Oracle, blocks: seq<Block>, args: seq<Value>, obs: Observation) {
    exists n: nat :: ObsAt(p, o, blocks, args, n) == obs
  }

  /** Everything observable of a run of a is observable of a run of b. */
  ghost predicate Covers(p: Prims, o: Oracle, a: seq<Block>, b: seq<Block>, args: seq<Value>) {
    forall n: nat :: Shows(p, o, b, args, ObsAt(p, o, a, args, n))
  }

  /** For all arithmetic, all behaviours of the callees and all arguments, the two bodies show the
      same: the same prints in the same order, the same outcome, and divergence exactly together. */
  ghost predicate SameBehaviour(a: seq<Block>, b: seq<Block>) {
    forall p: Prims, o: Oracle, args: seq<Value> :: Covers(p, o, a, b, args) && Covers(p, o, b, a, args)
  }

  /** The same for calls with at most arity arguments. */
  ghost predicate SameUpto(arity: nat, a: seq<Block>, b: seq<Block>) {
    forall p: Prims, o: Oracle, args: seq<Value> :: |args| <= arity ==>
      Covers(p, o, a, b, args) && Covers(p, o, b, a, args)
  }

  lemma SameRefl(a: seq<Block>)
    ensures SameBehaviour(a, a)
  {
    forall p: Prims, o: Oracle, args: seq<Value> ensures Covers(p, o, a, a, args) {
      forall n: nat ensures Shows(p, o, a, args, ObsAt(p, o, a, args, n)) {
      }
    }
  }

  lemma CoversTrans(p: Prims, o: Oracle, a: seq<Block>, b: seq<Block>, c: seq<Block>, args: seq<Value>)
    requires Covers(p, o, a, b, args) && Covers(p, o, b, c, args)
    ensures Covers(p, o, a, c, args)
  {
    forall n: nat ensures Shows(p, o, c, args, ObsAt(p, o, a, args, n)) {
      assert Shows(p, o, b, args, ObsAt(p, o, a, args, n));
      var k: nat :| ObsAt(p, o, b, args, k) == ObsAt(p, o, a, args, n);
      assert Shows(p, o, c, args, ObsAt(p, o, b, args, k));
    }
  }

  lemma SameTrans(a: seq<Block>, b: seq<Block>, c: seq<Block>)
    requires SameBehaviour(a, b) && SameBehaviour(b, c)
    ensures SameBehaviour(a, c)
  {
    forall p: Prims, o: Oracle, args: seq<Value>
      ensures Covers(p, o, a, c, args) && Covers(p, o, c, a, args)
    {
      CoversTrans(p, o, a, b, c, args);
      CoversTrans(p, o, c, b, a, args);
    }
  }

  // ---------------------------------------------------------------- simulation with stuttering

  function Iter<C>(f: C -> C, c: C, n: nat): C
    decreases n
  {
    if n == 0 then c else Iter(f, f(c), n - 1)
  }

  lemma {:induction false} IterAdd<C>(f: C -> C, c: C, m: nat, n: nat)
    ensures Iter(f, c, m + n) == Iter(f, Iter(f, c, m), n)
    decreases m
  {
    if m > 0 { IterAdd(f, f(c), m - 1, n); }
  }

  lemma {:induction false} IterKeeps<C(!new)>(f: C -> C, bad: C -> bool, c: C, n: nat)
    requires forall x :: bad(x) ==> bad(f(x))
    requires bad(c)
    ensures bad(Iter(f, c, n))
    decreases n
  {
    if n > 0 { IterKeeps(f, bad, f(c), n - 1); }
  }

  /** What stays bad, and is busy as long as it is, is never bad if it is idle at some time. */
  lemma IterIdle<C(!new)>(f: C -> C, busy: C -> bool, bad: C -> bool, c: C, n: nat, k: nat)
    requires forall x :: bad(x) ==> bad(f(x)) && busy(x)
    requires forall x :: !busy(x) ==> f(x) == x
    requires !busy(Iter(f, c, n))
    ensures !bad(Iter(f, c, k))
  {
    if k <= n {
      IterAdd(f, c, k, n - k);
      if bad(Iter(f, c, k)) { IterKeeps(f, bad, Iter(f, c, k), n - k); }
    } else {
      IterAdd(f, c, n, k - n);
      IterFixed(f, Iter(f, c, n), k - n);
    }
  }

  lemma {:induction false} IterFixed<C>(f: C -> C, c: C, n: nat)
    requires f(c) == c
    ensures Iter(f, c, n) == c
    decreases n
  {
    if n > 0 { IterFixed(f, c, n - 1); }
  }

  lemma {:induction false} RunIter(p: Prims, o: Oracle, blocks: seq<Block>, c: Config, n: nat)
    ensures Run(p, o, blocks, c, n) == Iter(x => Step(p, o, blocks, x), c, n)
    decreases n
  {
    if n > 0 { RunIter(p, o, blocks, Step(p, o, blocks, c), n - 1); }
  }

  /** A step of f is matched by a step of g, or by none while the rank goes down. */
  ghost predicate Sim<C(!new), D(!new)>(f: C -> C, g: D -> D, rel: (C, D) -> bool, rank: C -> nat) {
    forall c, d {:trigger SimStep(f, g, rel, rank, c, d)} :: rel(c, d) ==> SimStep(f, g, rel, rank, c, d)
  }

  ghost predicate SimStep<C, D>(f: C -> C, g: D -> D, rel: (C, D) -> bool, rank: C -> nat, c: C, d: D) {
    if rank(c) > 0 then rel(f(c), d) && rank(f(c)) < rank(c) else rel(f(c), g(d))
  }

  lemma {:induction false} Forward<C(!new), D(!new)>(f: C -> C, g: D -> D, rel: (C, D) -> bool, rank: C -> nat,
                                                     c: C, d: D, n: nat) returns (m: nat)
    requires Sim(f, g, rel, rank) && rel(c, d)
    ensures rel(Iter(f, c, n), Iter(g, d, m))
    decreases n
  {
    assert SimStep(f, g, rel, rank, c, d);
    if n == 0 {
      m := 0;
    } else if rank(c) > 0 {
      m := Forward(f, g, rel, rank, f(c), d, n - 1);
    } else {
      var k := Forward(f, g, rel, rank, f(c), g(d), n - 1);
      m := k + 1;
    }
  }

  lemma {:induction false} Backward<C(!new), D(!new)>(f: C -> C, g: D -> D, rel: (C, D) -> bool, rank: C -> nat,
                                                      c: C, d: D, m: nat) returns (n: nat)
    requires Sim(f, g, rel, rank) && rel(c, d)
    ensures rel(Iter(f, c, n), Iter(g, d, m))
    decreases m, rank(c)
  {
    assert SimStep(f, g, rel, rank, c, d);
    if m == 0 {
      n := 0;
    } else if rank(c) > 0 {
      var k := Backward(f, g, rel, rank, f(c), d, m);
      n := k + 1;
    } else {
      var k := Backward(f, g, rel, rank, f(c), g(d), m - 1);
      n := k + 1;
    }
  }

  /** A simulation that starts at the initial configurations and whose related configurations
      show the same makes all observations agree. */
  lemma SimCovers(p: Prims, o: Oracle, a: seq<Block>, b: seq<Block>,
                  rel: (Config, Config) -> bool, rank: Config -> nat, args: seq<Value>)
    requires Sim(x => Step(p, o, a, x), x => Step(p, o, b, x), rel, rank)
    requires rel(Init(args), Init(args))
    requires forall c, d :: rel(c, d) ==> Observe(c) == Observe(d)
    ensures Covers(p, o, a, b, args) && Covers(p, o, b, a, args)
  {
    var c := Init(args);
    var f, g := x => Step(p, o, a, x), x => Step(p, o, b, x);
    forall n: nat ensures Shows(p, o, b, args, ObsAt(p, o, a, args, n)) {
      var m := Forward(f, g, rel, rank, c, c, n);
      RunIter(p, o, a, c, n);
      RunIter(p, o, b, c, m);
      assert ObsAt(p, o, a, args, n) == ObsAt(p, o, b, args, m);
    }
    forall m: nat ensures Shows(p, o, a, args, ObsAt(p, o, b, args, m)) {
      var n := Backward(f, g, rel, rank, c, c, m);
      RunIter(p, o, a, c, n);
      RunIter(p, o, b, c, m);
      assert ObsAt(p, o, b, args, m) == ObsAt(p, o, a, args, n);
    }
  }

  /** Two runs are alike for m steps, and related from there by a simulation that keeps what is shown. */
  ghost predicate AlikeThenRelated(p: Prims, o: Oracle, a: seq<Block>, b: seq<Block>,
                                   rel: (Config, Config) -> bool, rank: Config -> nat, args: seq<Value>, m: nat) {
    && Sim(x => Step(p, o, a, x), x => Step(p, o, b, x), rel, rank)
    && (forall k: nat :: k <= m ==> Run(p, o, a, Init(args), k) == Run(p, o, b, Init(args), k))
    && rel(Run(p, o, a, Init(args), m), Run(p, o, a, Init(args), m))
    && (forall c, d :: rel(c, d) ==> Observe(c) == Observe(d))
  }

  lemma ForwardFrom(p: Prims, o: Oracle, a: seq<Block>, b: seq<Block>,
                    rel: (Config, Config) -> bool, rank: Config -> nat, args: seq<Value>, m: nat, n: nat)
    requires AlikeThenRelated(p, o, a, b, rel, rank, args, m)
    ensures Shows(p, o, b, args, ObsAt(p, o, a, args, n))
  {
    if n <= m {
      assert ObsAt(p, o, b, args, n) == ObsAt(p, o, a, args, n);
    } else {
      var c := Run(p, o, a, Init(args), m);
      var k := Forward(x => Step(p, o, a, x), x => Step(p, o, b, x), rel, rank, c, c, n - m);
      RunIter(p, o, a, c, n - m);
      RunIter(p, o, b, c, k);
      RunAdd(p, o, a, Init(args), m, n - m);
      RunAdd(p, o, b, Init(args), m, k);
      assert ObsAt(p, o, a, args, n) == ObsAt(p, o, b, args, m + k);
    }
  }

  lemma BackwardFrom(p: Prims, o: Oracle, a: seq<Block>, b: seq<Block>,
                     rel: (Config, Config) -> bool, rank: Config -> nat, args: seq<Value>, m: nat, n: nat)
    requires AlikeThenRelated(p, o, a, b, rel, rank, args, m)
    ensures Shows(p, o, a, args, ObsAt(p, o, b, args, n))
  {
    if n <= m {
      assert ObsAt(p, o, a, args, n) == ObsAt(p, o, b, args, n);
    } else {
      var c := Run(p, o, a, Init(args), m);
      var k := Backward(x => Step(p, o, a, x), x => Step(p, o, b, x), rel, rank, c, c, n - m);
      RunIter(p, o, a, c, k);
      RunIter(p, o, b, c, n - m);
      RunAdd(p, o, a, Init(args), m, k);
      RunAdd(p, o, b, Init(args), m, n - m);
      assert ObsAt(p, o, b, args, n) == ObsAt(p, o, a, args, m + k);
    }
  }

  /** Then all observations agree. */
  lemma SimCoversFrom(p: Prims, o: Oracle, a: seq<Block>, b: seq<Block>,
                      rel: (Config, Config) -> bool, rank: Config -> nat, args: seq<Value>, m: nat)
    requires AlikeThenRelated(p, o, a, b, rel, rank, args, m)
    ensures Covers(p, o, a, b, args) && Covers(p, o, b, a, args)
  {
    forall n: nat ensures Shows(p, o, b, args, ObsAt(p, o, a, args, n)) { ForwardFrom(p, o, a, b, rel, rank, args, m, n); }
    forall n: nat ensures Shows(p, o, a, args, ObsAt(p, o, b, args, n)) { BackwardFrom(p, o, a, b, rel, rank, args, m, n); }
  }

  /** Two iterations stay related, or up to where the first is at an exception. */
  lemma {:induction false} IterRelated<C(!new), D(!new)>(f: C -> C, g: D -> D, rel: (C, D) -> bool, except: C -> bool,
                                                         c: C, d: D, n: nat) returns (m: nat)
    requires forall x, y :: rel(x, y) ==> rel(f(x), g(y)) || except(x)
    requires rel(c, d)
    ensures m <= n && forall k: nat :: k <= m ==> rel(Iter(f, c, k), Iter(g, d, k))
    ensures m < n ==> except(Iter(f, c, m))
    decreases n
  {
    m := 0;
    if n > 0 && !except(c) {
      var k := IterRelated(f, g, rel, except, f(c), g(d), n - 1);
      m := k + 1;
      forall j: nat | j <= m ensures rel(Iter(f, c, j), Iter(g, d, j)) {
        if j > 0 { assert rel(Iter(f, f(c), j - 1), Iter(g, g(d), j - 1)); }
      }
    }
  }

  /** What a run has printed only grows. */
  lemma {:induction false} TraceGrows(p: Prims, o: Oracle, blocks: seq<Block>, c: Config, n: nat)
    ensures c.trace <= Run(p, o, blocks, c, n).trace
    decreases n
  {
    if n > 0 {
      StepTraceGrows(p, o, blocks, c);
      TraceGrows(p, o, blocks, Step(p, o, blocks, c), n - 1);
    }
  }

  lemma StepTraceGrows(p: Prims, o: Oracle, blocks: seq<Block>, c: Config)
    ensures c.trace <= Step(p, o, blocks, c).trace
  {
  }

  /** In step while f runs; done relates what f halts with to where g is then. */
  ghost predicate Lockstep(f: Config -> Config, g: Config -> Config,
                           rel: (Config, Config) -> bool, done: (Config, Config) -> bool)
  {
    forall c, d {:trigger LockstepAt(f, g, rel, done, c, d)} :: rel(c, d) ==> LockstepAt(f, g, rel, done, c, d)
  }

  ghost predicate LockstepAt(f: Config -> Config, g: Config -> Config,
                             rel: (Config, Config) -> bool, done: (Config, Config) -> bool, c: Config, d: Config)
  {
    if f(c).Running? then rel(f(c), g(d)) else done(f(c), g(d))
  }

  lemma {:induction false} LockstepRun(f: Config -> Config, g: Config -> Config,
                                       rel: (Config, Config) -> bool, done: (Config, Config) -> bool,
                                       c: Config, d: Config, n: nat) returns (m: nat)
    requires Lockstep(f, g, rel, done) && rel(c, d)
    requires forall x: Config :: x.Halted? ==> f(x) == x
    requires c.Running? && Iter(f, c, n).Halted?
    ensures done(Iter(f, c, n), Iter(g, d, m))
    decreases n
  {
    assert LockstepAt(f, g, rel, done, c, d);
    if f(c).Running? {
      var k := LockstepRun(f, g, rel, done, f(c), g(d), n - 1);
      m := k + 1;
    } else {
      IterFixed(f, f(c), n - 1);
      m := 1;
      assert Iter(g, d, 1) == Iter(g, g(d), 0);
    }
  }

  // ---------------------------------------------------------------- evaluation under a change of places

  /** Every place among ps reads the same in s as its image under f reads in t. */
  ghost predicate Agree(s: Store, t: Store, f: Place -> Place, ps: seq<Place>) {
    forall i :: 0 <= i < |ps| ==> ReadPlace(s, ps[i]) == ReadPlace(t, f(ps[i]))
  }

  lemma EvalAgree(s: Store, t: Store, f: Place -> Place, o: Operand)
    requires Agree(s, t, f, OperandReads(o))
    ensures Eval(t, MapOperand(f, o)) == Eval(s, o)
  {
    if o.Load? { assert OperandReads(o)[0] == o.place; }
  }

  lemma AgreeSplit(s: Store, t: Store, f: Place -> Place, ps: seq<Place>, qs: seq<Place>)
    requires Agree(s, t, f, ps + qs)
    ensures Agree(s, t, f, ps) && Agree(s, t, f, qs)
  {
    forall i | 0 <= i < |ps| ensures ReadPlace(s, ps[i]) == ReadPlace(t, f(ps[i])) { assert (ps + qs)[i] == ps[i]; }
    forall i | 0 <= i < |qs| ensures ReadPlace(s, qs[i]) == ReadPlace(t, f(qs[i])) { assert (ps + qs)[|ps| + i] == qs[i]; }
  }

  lemma {:induction false} EvalAllAgree(s: Store, t: Store, f: Place -> Place, os: seq<Operand>)
    requires Agree(s, t, f, OperandsRead(os))
    ensures EvalAll(t, MapOperands(f, os)) == EvalAll(s, os)
  {
    if os != [] {
      AgreeSplit(s, t, f, OperandReads(os[0]), OperandsRead(os[1..]));
      EvalAgree(s, t, f, os[0]);
      EvalAllAgree(s, t, f, os[1..]);
      assert MapOperands(f, os)[1..] == MapOperands(f, os[1..]);
    }
  }

  lemma EvalRvalueAgree(p: Prims, s: Store, t: Store, f: Place -> Place, r: Rvalue)
    requires Agree(s, t, f, RvalueReads(r))
    ensures r.Call? ==> Eval(t, MapRvalue(f, r).callee) == Eval(s, r.callee)
                        && EvalAll(t, MapRvalue(f, r).args) == EvalAll(s, r.args)
    ensures !r.Call? ==> EvalRvalue(p, t, MapRvalue(f, r)) == EvalRvalue(p, s, r)
  {
    match r
    case UninitZeroed(_) =>
    case Aggregate(_, fields) => EvalAllAgree(s, t, f, fields);
    case Use(o) => EvalAgree(s, t, f, o);
    case Call(callee, args) =>
      AgreeSplit(s, t, f, OperandReads(callee), OperandsRead(args));
      EvalAgree(s, t, f, callee);
      EvalAllAgree(s, t, f, args);
    case Binary(_, l, x) =>
      AgreeSplit(s, t, f, OperandReads(l), OperandReads(x));
      EvalAgree(s, t, f, l);
      EvalAgree(s, t, f, x);
    case Cast(_, o) => EvalAgree(s, t, f, o);
    case Discriminant(pl) => assert RvalueReads(r)[0] == pl;
  }

  // ---------------------------------------------------------------- evaluation in a more defined store

  /** Every place reads in t, after f, at least what it reads in s. */
  ghost predicate Sees(s: Store, t: Store, f: Place -> Place) {
    forall pl :: Leq(ReadPlace(s, pl), ReadPlace(t, f(pl)))
  }

  lemma EvalSees(s: Store, t: Store, f: Place -> Place, o: Operand)
    requires Sees(s, t, f)
    ensures Eval(s, o).Some? ==> Eval(t, MapOperand(f, o)) == Eval(s, o)
  {
    if o.Load? && Eval(s, o).Some? {
      DefinedLeq(ReadPlace(s, o.place), ReadPlace(t, f(o.place)));
    }
  }

  lemma {:induction false} EvalAllSees(s: Store, t: Store, f: Place -> Place, os: seq<Operand>)
    requires Sees(s, t, f)
    ensures EvalAll(s, os).Some? ==> EvalAll(t, MapOperands(f, os)) == EvalAll(s, os)
  {
    if os != [] {
      EvalSees(s, t, f, os[0]);
      EvalAllSees(s, t, f, os[1..]);
      assert MapOperands(f, os)[1..] == MapOperands(f, os[1..]);
    }
  }

  lemma EvalRvalueSees(p: Prims, s: Store, t: Store, f: Place -> Place, r: Rvalue)
    requires Sees(s, t, f) && !r.Call?
    ensures EvalRvalue(p, s, r).Some? ==> EvalRvalue(p, t, MapRvalue(f, r)) == EvalRvalue(p, s, r)
  {
    match r
    case UninitZeroed(_) =>
    case Aggregate(_, fields) => EvalAllSees(s, t, f, fields);
    case Use(o) => EvalSees(s, t, f, o);
    case Binary(_, l, x) => EvalSees(s, t, f, l); EvalSees(s, t, f, x);
    case Cast(_, o) => EvalSees(s, t, f, o);
    case Discriminant(pl) => assert Leq(ReadPlace(s, pl), ReadPlace(t, f(pl)));
  }

  lemma StoreSees(s: Store, t: Store)
    requires StoreLeq(s, t)
    ensures Sees(s, t, pl => pl)
  {
    forall pl: Place ensures Leq(ReadPlace(s, pl), ReadPlace(t, pl)) {
      assert Leq(Get(s, pl.base), Get(t, pl.base));
      ReadLeq(Get(s, pl.base), Get(t, pl.base), pl.projections);
    }
  }

  lemma {:induction false} MapOperandsId(os: seq<Operand>)
    ensures MapOperands(pl => pl, os) == os
  {
    if os != [] { MapOperandsId(os[1..]); }
  }

  lemma MapRvalueId(r: Rvalue)
    ensures MapRvalue(pl => pl, r) == r
  {
    match r
    case Aggregate(_, fields) => MapOperandsId(fields);
    case Call(_, args) => MapOperandsId(args);
    case _ =>
  }
}
