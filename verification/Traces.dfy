/** What a program prints, also where it never returns. */
module Traces {
  import opened Prelude
  import opened Mir
  import opened MirSim
  import opened Program

  // ---------------------------------------------------------------- what a body prints

  /** What a call may print that does not come back: it holds of a function, its arguments and a trace. */
  type CallPrints = (FnRef, seq<Value>, seq<Event>) -> bool

  /** The call that is made next at c, if any. */
  function CallAt(blocks: seq<Block>, c: Config): Option<(FnRef, seq<Value>)> {
    if c.Running? && c.block < |blocks| && c.pc < |blocks[c.block].stmts| then CallIn(c.store, blocks[c.block].stmts[c.pc])
    else None
  }

  function CallIn(store: Store, s: Stmt): Option<(FnRef, seq<Value>)> {
    if s.Assign? && s.rvalue.Call? then
      match (Eval(store, s.rvalue.callee), EvalAll(store, s.rvalue.args))
      case (Some(Fn(fn)), Some(vs)) => Some((fn, vs))
      case _ => None
    else None
  }

  /** At c a call is made that does not come back and may print u. */
  ghost predicate Hangs(o: Oracle, q: CallPrints, blocks: seq<Block>, c: Config, u: seq<Event>) {
    match CallAt(blocks, c)
    case None => false
    case Some((f, vs)) => o(f, vs) == NoResult && q(f, vs, u)
  }

  /** A run that is at c has printed t, or is about to in a call that does not come back. */
  ghost predicate HasPrinted(o: Oracle, q: CallPrints, blocks: seq<Block>, c: Config, t: seq<Event>) {
    t <= c.trace || exists u: seq<Event> :: Hangs(o, q, blocks, c, u) && t <= c.trace + u
  }

  /** At some point of the run all of t has been printed, by the body or by a call that does not come back. */
  ghost predicate PrintsIn(p: Prims, o: Oracle, q: CallPrints, blocks: seq<Block>, args: seq<Value>, t: seq<Event>) {
    exists n: nat :: HasPrinted(o, q, blocks, Run(p, o, blocks, Init(args), n), t)
  }

  /** Whatever a prints, b prints too, calls that do not come back included. */
  ghost predicate CarriesOver(p: Prims, o: Oracle, q: CallPrints, arity: nat, a: seq<Block>, b: seq<Block>) {
    forall args: seq<Value>, t: seq<Event> :: |args| == arity && PrintsIn(p, o, q, a, args, t) ==> PrintsIn(p, o, q, b, args, t)
  }

  // ---------------------------------------------------------------- a call that does not come back, cut off by a panic

  /** The oracle with a call that does not come back cut off after it has printed u. */
  function CutOff(o: Oracle, f: FnRef, vs: seq<Value>, u: seq<Event>): Oracle {
    (g, ws) => if g == f && ws == vs then Panics(u) else o(g, ws)
  }

  lemma CutStep(p: Prims, o: Oracle, blocks: seq<Block>, c: Config, f: FnRef, vs: seq<Value>, u: seq<Event>)
    ensures var q := CutOff(o, f, vs, u);
            if CallAt(blocks, c) == Some((f, vs)) then Step(p, q, blocks, c) == Halted(Panicked, c.trace + u)
            else Step(p, q, blocks, c) == Step(p, o, blocks, c)
  {
  }

  /** The run with the call cut off is the run itself, or stops where that makes the call. */
  lemma {:induction false} CutRun(p: Prims, o: Oracle, blocks: seq<Block>, c: Config, f: FnRef, vs: seq<Value>, u: seq<Event>,
                                  n: nat) returns (m: nat)
    ensures m <= n && (m < n ==> CallAt(blocks, Run(p, o, blocks, c, m)) == Some((f, vs)))
    ensures Run(p, CutOff(o, f, vs, u), blocks, c, n)
            == if m == n then Run(p, o, blocks, c, n) else Halted(Panicked, Run(p, o, blocks, c, m).trace + u)
    decreases n
  {
    m := 0;
    if n > 0 {
      CutStep(p, o, blocks, c, f, vs, u);
      if CallAt(blocks, c) == Some((f, vs)) {
        RunHalted(p, CutOff(o, f, vs, u), blocks, Halted(Panicked, c.trace + u), n - 1);
      } else {
        var k := CutRun(p, o, blocks, Step(p, o, blocks, c), f, vs, u, n - 1);
        m := k + 1;
      }
    }
  }

  lemma {:induction false} RunBefore(p: Prims, o: Oracle, blocks: seq<Block>, c: Config, m: nat, n: nat)
    requires m <= n && Run(p, o, blocks, c, n).Running?
    ensures Run(p, o, blocks, c, m).Running?
  {
    RunAdd(p, o, blocks, c, m, n - m);
    if Run(p, o, blocks, c, m).Halted? { RunHalted(p, o, blocks, Run(p, o, blocks, c, m), n - m); }
  }

  /** Up to a call that does not come back nothing is cut off. */
  lemma CutPrints(p: Prims, o: Oracle, blocks: seq<Block>, c: Config, f: FnRef, vs: seq<Value>, u: seq<Event>, n: nat)
    requires o(f, vs) == NoResult && CallAt(blocks, Run(p, o, blocks, c, n)) == Some((f, vs))
    ensures Run(p, CutOff(o, f, vs, u), blocks, c, n + 1).trace == Run(p, o, blocks, c, n).trace + u
  {
    var q := CutOff(o, f, vs, u);
    var m := CutRun(p, o, blocks, c, f, vs, u, n);
    if m < n {
      RunAdd(p, o, blocks, c, m, 1);
      RunOneStep(p, o, blocks, Run(p, o, blocks, c, m));
      RunBefore(p, o, blocks, c, m + 1, n);
    }
    RunAdd(p, q, blocks, c, n, 1);
    RunOneStep(p, q, blocks, Run(p, q, blocks, c, n));
    CutStep(p, o, blocks, Run(p, o, blocks, c, n), f, vs, u);
  }

  lemma RunOneStep(p: Prims, o: Oracle, blocks: seq<Block>, c: Config)
    ensures Run(p, o, blocks, c, 1) == Step(p, o, blocks, c)
  {
    assert Run(p, o, blocks, c, 1) == Run(p, o, blocks, Step(p, o, blocks, c), 0);
  }

  ghost predicate RefinesAlways(p: Prims, arity: nat, a: seq<Block>, b: seq<Block>) {
    forall o: Oracle :: Refines(p, o, arity, a, b)
  }

  /** What is refined whatever calls do prints as much, whatever calls that do not come back may print. */
  lemma AlwaysCarriesOver(p: Prims, o: Oracle, q: CallPrints, arity: nat, a: seq<Block>, b: seq<Block>)
    requires RefinesAlways(p, arity, a, b)
    ensures CarriesOver(p, o, q, arity, a, b)
  {
    forall args: seq<Value>, t: seq<Event> | |args| == arity && PrintsIn(p, o, q, a, args, t)
      ensures PrintsIn(p, o, q, b, args, t)
    {
      var n: nat :| HasPrinted(o, q, a, Run(p, o, a, Init(args), n), t);
      var c := Run(p, o, a, Init(args), n);
      if t <= c.trace {
        assert Refines(p, o, arity, a, b) && RefinesOn(p, o, a, b, args);
        assert Prints(p, o, b, args, c.trace);
        var m: nat :| c.trace <= Run(p, o, b, Init(args), m).trace;
        assert HasPrinted(o, q, b, Run(p, o, b, Init(args), m), t);
      } else {
        var u: seq<Event> :| Hangs(o, q, a, c, u) && t <= c.trace + u;
        HangCarriesOver(p, o, q, arity, a, b, args, n, u, t);
      }
    }
  }

  lemma HangCarriesOver(p: Prims, o: Oracle, q: CallPrints, arity: nat, a: seq<Block>, b: seq<Block>,
                        args: seq<Value>, n: nat, u: seq<Event>, t: seq<Event>)
    requires RefinesAlways(p, arity, a, b) && |args| == arity
    requires var c := Run(p, o, a, Init(args), n); Hangs(o, q, a, c, u) && t <= c.trace + u
    ensures PrintsIn(p, o, q, b, args, t)
  {
    var c := Run(p, o, a, Init(args), n);
    var (f, vs) := CallAt(a, c).value;
    var cut := CutOff(o, f, vs, u);
    CutPrints(p, o, a, Init(args), f, vs, u, n);
    assert Refines(p, cut, arity, a, b) && RefinesOn(p, cut, a, b, args);
    assert Prints(p, cut, b, args, Run(p, cut, a, Init(args), n + 1).trace);
    var m: nat :| c.trace + u <= Run(p, cut, b, Init(args), m).trace;
    var k := CutRun(p, o, b, Init(args), f, vs, u, m);
    var d := Run(p, o, b, Init(args), k);
    assert k < m ==> Hangs(o, q, b, d, u);
    assert HasPrinted(o, q, b, d, t);
  }

  lemma CarriesOverTrans(p: Prims, o: Oracle, q: CallPrints, arity: nat, a: seq<Block>, b: seq<Block>, c: seq<Block>)
    requires CarriesOver(p, o, q, arity, a, b) && CarriesOver(p, o, q, arity, b, c)
    ensures CarriesOver(p, o, q, arity, a, c)
  {
  }

  // ---------------------------------------------------------------- what a program prints

  /** The call prints t, perhaps together with at most k calls below it that do not come back. */
  ghost predicate PrintsUpto(p: Prims, prog: Prog, k: nat, fn: FnRef, args: seq<Value>, t: seq<Event>)
    decreases k
  {
    t == []
    || (k > 0 && fn in prog && |args| == prog[fn].arity
        && PrintsIn(p, Results(p, prog), (f, vs, u) => PrintsUpto(p, prog, k - 1, f, vs, u), prog[fn].blocks, args, t))
  }

  ghost function UptoPrints(p: Prims, prog: Prog, k: nat): CallPrints {
    (f, vs, u) => PrintsUpto(p, prog, k, f, vs, u)
  }

  /** The call prints t, whether it comes back or not. */
  ghost predicate ProgramPrints(p: Prims, prog: Prog, fn: FnRef, args: seq<Value>, t: seq<Event>) {
    exists k: nat :: PrintsUpto(p, prog, k, fn, args, t)
  }

  ghost function AllPrints(p: Prims, prog: Prog): CallPrints {
    (f, vs, u) => ProgramPrints(p, prog, f, vs, u)
  }

  lemma PrintsMore(p: Prims, o: Oracle, q: CallPrints, r: CallPrints, blocks: seq<Block>, args: seq<Value>, t: seq<Event>)
    requires PrintsIn(p, o, q, blocks, args, t) && forall f, vs, u :: q(f, vs, u) ==> r(f, vs, u)
    ensures PrintsIn(p, o, r, blocks, args, t)
  {
    var n: nat :| HasPrinted(o, q, blocks, Run(p, o, blocks, Init(args), n), t);
    var c := Run(p, o, blocks, Init(args), n);
    if !(t <= c.trace) {
      var u: seq<Event> :| Hangs(o, q, blocks, c, u) && t <= c.trace + u;
      assert Hangs(o, r, blocks, c, u);
    }
    assert HasPrinted(o, r, blocks, c, t);
  }

  /** The body of a function prints what the function does. */
  lemma PrintedBody(p: Prims, prog: Prog, fn: FnRef, args: seq<Value>, t: seq<Event>)
    requires ProgramPrints(p, prog, fn, args, t) && t != []
    ensures fn in prog && |args| == prog[fn].arity
    ensures PrintsIn(p, Results(p, prog), AllPrints(p, prog), prog[fn].blocks, args, t)
  {
    var k: nat :| PrintsUpto(p, prog, k, fn, args, t);
    forall f, vs, u | UptoPrints(p, prog, k - 1)(f, vs, u) ensures AllPrints(p, prog)(f, vs, u) {
      assert PrintsUpto(p, prog, k - 1, f, vs, u);
    }
    PrintsMore(p, Results(p, prog), UptoPrints(p, prog, k - 1), AllPrints(p, prog), prog[fn].blocks, args, t);
  }

  /** A function prints what its body does. */
  lemma BodyPrinted(p: Prims, prog: Prog, fn: FnRef, args: seq<Value>, t: seq<Event>)
    requires fn in prog && |args| == prog[fn].arity
    requires PrintsIn(p, Results(p, prog), AllPrints(p, prog), prog[fn].blocks, args, t)
    ensures ProgramPrints(p, prog, fn, args, t)
  {
    var o, blocks := Results(p, prog), prog[fn].blocks;
    var n: nat :| HasPrinted(o, AllPrints(p, prog), blocks, Run(p, o, blocks, Init(args), n), t);
    var c := Run(p, o, blocks, Init(args), n);
    var k: nat := 0;
    if !(t <= c.trace) {
      var u: seq<Event> :| Hangs(o, AllPrints(p, prog), blocks, c, u) && t <= c.trace + u;
      var (f, vs) := CallAt(blocks, c).value;
      assert ProgramPrints(p, prog, f, vs, u);
      k :| PrintsUpto(p, prog, k, f, vs, u);
      assert Hangs(o, UptoPrints(p, prog, k), blocks, c, u);
    }
    assert HasPrinted(o, UptoPrints(p, prog, k), blocks, c, t);
    assert PrintsIn(p, o, UptoPrints(p, prog, k), blocks, args, t);
    assert PrintsUpto(p, prog, k + 1, fn, args, t);
  }

  function EventsOf(r: CallResult): seq<Event> {
    match r
    case Returns(_, t) => t
    case Panics(t) => t
    case NoResult => []
  }

  /** A call that comes back has printed what its result says. */
  lemma ResultPrints(p: Prims, prog: Prog, fn: FnRef, args: seq<Value>, t: seq<Event>)
    requires ProgramPrints(p, prog, fn, args, t) && Result(p, prog, fn, args) != NoResult
    ensures t <= EventsOf(Result(p, prog, fn, args))
  {
    if t != [] {
      PrintedBody(p, prog, fn, args, t);
      var o, blocks, q := Results(p, prog), prog[fn].blocks, AllPrints(p, prog);
      ResultFixpoint(p, prog, fn, args, Result(p, prog, fn, args));
      var m: nat :| AsResult(Run(p, o, blocks, Init(args), m)) == Result(p, prog, fn, args);
      var n: nat :| HasPrinted(o, q, blocks, Run(p, o, blocks, Init(args), n), t);
      EndedPrints(p, o, q, blocks, Init(args), m, n, t);
    }
  }

  /** A run that ends with a result has printed nothing else at any time. */
  lemma EndedPrints(p: Prims, o: Oracle, q: CallPrints, blocks: seq<Block>, c: Config, m: nat, n: nat, t: seq<Event>)
    requires AsResult(Run(p, o, blocks, c, m)) != NoResult && HasPrinted(o, q, blocks, Run(p, o, blocks, c, n), t)
    ensures t <= Run(p, o, blocks, c, m).trace
  {
    var d, e := Run(p, o, blocks, c, n), Run(p, o, blocks, c, m);
    if m <= n {
      RunLonger(p, o, blocks, c, m, n);
    } else {
      RunAdd(p, o, blocks, c, n, m - n);
      TraceGrows(p, o, blocks, d, m - n);
      if u: seq<Event> :| Hangs(o, q, blocks, d, u) && t <= d.trace + u {
        HangsBlocked(p, o, q, blocks, d, u, m - n);
      }
    }
  }

  lemma HangsBlocked(p: Prims, o: Oracle, q: CallPrints, blocks: seq<Block>, c: Config, u: seq<Event>, n: nat)
    requires Hangs(o, q, blocks, c, u)
    ensures AsResult(Run(p, o, blocks, c, n)) == NoResult
  {
    if n > 0 {
      assert Step(p, o, blocks, c) == Halted(Blocked, c.trace);
      RunHalted(p, o, blocks, Step(p, o, blocks, c), n - 1);
    }
  }

  // ---------------------------------------------------------------- replacing a body

  /** A run that gets stuck or is blocked has printed everything before. */
  lemma {:induction false} PrintedRunning(p: Prims, o: Oracle, blocks: seq<Block>, c: Config, n: nat) returns (m: nat)
    requires c.Running? && AsResult(Run(p, o, blocks, c, n)) == NoResult
    ensures m <= n && Run(p, o, blocks, c, m).Running? && Run(p, o, blocks, c, m).trace == Run(p, o, blocks, c, n).trace
    decreases n
  {
    m := n;
    if Run(p, o, blocks, c, n).Halted? {
      var d := Step(p, o, blocks, c);
      if d.Running? {
        var k := PrintedRunning(p, o, blocks, d, n - 1);
        m := k + 1;
      } else {
        RunHalted(p, o, blocks, d, n - 1);
        m := 0;
      }
    }
  }

  lemma CallAtLeq(blocks: seq<Block>, c: Config, d: Config)
    requires c.Running? && ConfigLeq(c, d) && CallAt(blocks, c).Some?
    ensures CallAt(blocks, d) == CallAt(blocks, c)
  {
    var r := blocks[c.block].stmts[c.pc].rvalue;
    StoreSees(c.store, d.store);
    EvalSees(c.store, d.store, pl => pl, r.callee);
    EvalAllSees(c.store, d.store, pl => pl, r.args);
    MapRvalueId(r);
    MapOperandsId(r.args);
  }

  /** What a body prints in a program it prints in another whose calls return and print at least as much. */
  lemma PrintsLeq(p: Prims, prog: Prog, q: CallPrints, prog': Prog, blocks: seq<Block>, args: seq<Value>, t: seq<Event>)
    requires OracleLeq(Results(p, prog), Results(p, prog'))
    requires forall f, vs, u :: q(f, vs, u) ==> ProgramPrints(p, prog', f, vs, u)
    requires PrintsIn(p, Results(p, prog), q, blocks, args, t)
    ensures PrintsIn(p, Results(p, prog'), AllPrints(p, prog'), blocks, args, t)
  {
    var o, o', c0 := Results(p, prog), Results(p, prog'), Init(args);
    var n: nat :| HasPrinted(o, q, blocks, Run(p, o, blocks, c0, n), t);
    var c := Run(p, o, blocks, c0, n);
    StoreRefl(c0.store);
    if t <= c.trace {
      var m: nat := n;
      if AsResult(c) == NoResult { m := PrintedRunning(p, o, blocks, c0, n); }
      RunLeq(p, o, o', blocks, c0, c0, m);
      assert HasPrinted(o', AllPrints(p, prog'), blocks, Run(p, o', blocks, c0, m), t);
    } else {
      var u: seq<Event> :| Hangs(o, q, blocks, c, u) && t <= c.trace + u;
      RunLeq(p, o, o', blocks, c0, c0, n);
      var d := Run(p, o', blocks, c0, n);
      CallAtLeq(blocks, c, d);
      HangResolved(p, prog', blocks, args, n, u, t);
    }
  }

  /** A call that prints u does so whether it comes back or not. */
  lemma HangResolved(p: Prims, prog: Prog, blocks: seq<Block>, args: seq<Value>, n: nat, u: seq<Event>, t: seq<Event>)
    requires var d := Run(p, Results(p, prog), blocks, Init(args), n);
             CallAt(blocks, d).Some? && t <= d.trace + u
             && ProgramPrints(p, prog, CallAt(blocks, d).value.0, CallAt(blocks, d).value.1, u)
    ensures PrintsIn(p, Results(p, prog), AllPrints(p, prog), blocks, args, t)
  {
    var o := Results(p, prog);
    var d := Run(p, o, blocks, Init(args), n);
    var (f, vs) := CallAt(blocks, d).value;
    if o(f, vs) == NoResult {
      assert Hangs(o, AllPrints(p, prog), blocks, d, u);
      assert HasPrinted(o, AllPrints(p, prog), blocks, d, t);
    } else {
      ResultPrints(p, prog, f, vs, u);
      RunAdd(p, o, blocks, Init(args), n, 1);
      RunOneStep(p, o, blocks, d);
      assert Step(p, o, blocks, d).trace == d.trace + EventsOf(o(f, vs));
      assert HasPrinted(o, AllPrints(p, prog), blocks, Run(p, o, blocks, Init(args), n + 1), t);
    }
  }

  /** What is asked of the body b that replaces that of g. */
  ghost predicate GoodReplacement(p: Prims, prog: Prog, g: FnRef, b: seq<Block>) {
    && g in prog
    && var prog' := prog[g := prog[g].(blocks := b)];
       && Refines(p, Results(p, prog'), prog[g].arity, prog[g].blocks, b)
       && CarriesOver(p, Results(p, prog'), AllPrints(p, prog'), prog[g].arity, prog[g].blocks, b)
  }

  lemma {:induction false} ReplacePrintsUpto(p: Prims, prog: Prog, g: FnRef, b: seq<Block>, k: nat,
                                             fn: FnRef, args: seq<Value>, t: seq<Event>)
    requires GoodReplacement(p, prog, g, b) && PrintsUpto(p, prog, k, fn, args, t)
    ensures ProgramPrints(p, prog[g := prog[g].(blocks := b)], fn, args, t)
    decreases k
  {
    var prog' := prog[g := prog[g].(blocks := b)];
    if t == [] {
      assert PrintsUpto(p, prog', 0, fn, args, t);
    } else {
      var q := UptoPrints(p, prog, k - 1);
      forall f, vs, u | q(f, vs, u) ensures ProgramPrints(p, prog', f, vs, u) { ReplacePrintsUpto(p, prog, g, b, k - 1, f, vs, u); }
      forall f, vs ensures ResultLeq(Results(p, prog)(f, vs), Results(p, prog')(f, vs)) { ReplaceBody(p, prog, g, b, f, vs); }
      PrintsLeq(p, prog, q, prog', prog[fn].blocks, args, t);
      BodyPrinted(p, prog', fn, args, t);
    }
  }

  /** Replacing a body by one that returns and prints at least as much keeps all that any function of the
      program prints, whether it ever returns or not. */
  lemma ReplaceBodyPrints(p: Prims, prog: Prog, g: FnRef, b: seq<Block>, fn: FnRef, args: seq<Value>, t: seq<Event>)
    requires GoodReplacement(p, prog, g, b) && ProgramPrints(p, prog, fn, args, t)
    ensures ProgramPrints(p, prog[g := prog[g].(blocks := b)], fn, args, t)
  {
    var k: nat :| PrintsUpto(p, prog, k, fn, args, t);
    ReplacePrintsUpto(p, prog, g, b, k, fn, args, t);
  }
}
