/** What a body prints is kept when calls are inlined, calls that do not come back included. */
module InlineTraces {
  import opened Prelude
  import opened Mir
  import opened MirSim
  import opened Visitor
  import opened Cfg
  import opened Program
  import opened Traces
  import opened Inline

  // ---------------------------------------------------------------- the same calls are made

  lemma CallInSees(store: Store, after: Store, f: Place -> Place, s: Stmt)
    requires Sees(store, after, f) && CallIn(store, s).Some?
    ensures CallIn(after, MapStmt(f, s)) == CallIn(store, s)
  {
    EvalSees(store, after, f, s.rvalue.callee);
    EvalAllSees(store, after, f, s.rvalue.args);
  }

  /** Away from the site the caller makes the same call in the inlined body. */
  lemma CallerCallAt(blocks: seq<Block>, site: Site, callee: seq<Block>, localCount: nat, c: Config, d: Config)
    requires IsSite(blocks, site) && CallerRel(site, |blocks| + |callee|, localCount, c, d)
    requires !(c.block == site.block && c.pc == site.stmt) && CallAt(blocks, c).Some?
    ensures CallAt(Inlined(blocks, site, callee, localCount), d) == CallAt(blocks, c)
  {
    var s := blocks[c.block].stmts[c.pc];
    InlinedPoint(blocks, site, callee, localCount, c);
    StoreSees(c.store, d.store);
    MapStmtId(s);
    CallInSees(c.store, d.store, pl => pl, s);
  }

  lemma MapStmtId(s: Stmt)
    ensures MapStmt(pl => pl, s) == s
  {
    if s.Assign? { MapRvalueId(s.rvalue); }
  }

  /** The callee makes the same call where it is inlined. */
  lemma CalleeCallAt(blocks: seq<Block>, site: Site, callee: seq<Block>, localCount: nat, s: Store, t: seq<Event>, e: Config, d: Config)
    requires IsSite(blocks, site) && CalleeRel(site, |blocks|, localCount, s, t, e, d) && CallAt(callee, e).Some?
    ensures CallAt(Inlined(blocks, site, callee, localCount), d) == CallAt(callee, e)
  {
    CalleeStmtAt(blocks, site, callee, localCount, e.block, e.pc);
    CalleeSees(site, localCount, s, e.store, d.store);
    CallAtSees(Inlined(blocks, site, callee, localCount), callee, ReplacePlace(site.place, localCount), e, d);
  }

  lemma CallAtSees(after: seq<Block>, callee: seq<Block>, f: Place -> Place, e: Config, d: Config)
    requires CallAt(callee, e).Some? && d.Running? && d.pc == e.pc && Sees(e.store, d.store, f)
    requires StmtAt(after, d.block, d.pc, MapStmt(f, callee[e.block].stmts[e.pc]))
    ensures CallAt(after, d) == CallAt(callee, e)
  {
    var st := callee[e.block].stmts[e.pc];
    CallAtIs(callee, e, st);
    CallInSees(e.store, d.store, f, st);
    CallAtIs(after, d, MapStmt(f, st));
  }

  lemma CalleeStmtAt(blocks: seq<Block>, site: Site, callee: seq<Block>, localCount: nat, b: nat, i: nat)
    requires IsSite(blocks, site) && b < |callee| && i < |callee[b].stmts|
    ensures StmtAt(Inlined(blocks, site, callee, localCount), b + |blocks|, i, MapStmt(ReplacePlace(site.place, localCount), callee[b].stmts[i]))
  {
    InlinedCalleeBlock(blocks, site, callee, localCount, b);
  }

  ghost predicate StmtAt(blocks: seq<Block>, b: nat, i: nat, s: Stmt) {
    b < |blocks| && i < |blocks[b].stmts| && blocks[b].stmts[i] == s
  }

  lemma CallAtIs(blocks: seq<Block>, c: Config, s: Stmt)
    requires c.Running? && StmtAt(blocks, c.block, c.pc, s)
    ensures CallAt(blocks, c) == CallIn(c.store, s)
  {
  }

  // ---------------------------------------------------------------- what the callee prints

  lemma {:induction false} CalleeLockstep(p: Prims, o: Oracle, blocks: seq<Block>, site: Site, callee: seq<Block>, localCount: nat,
                                          s: Store, t: seq<Event>, e: Config, d: Config, n: nat)
    requires IsSite(blocks, site) && BaseBelow(site.place.base, localCount)
    requires CalleeRel(site, |blocks|, localCount, s, t, e, d) && Run(p, o, callee, e, n).Running?
    ensures CalleeRel(site, |blocks|, localCount, s, t,
                      Run(p, o, callee, e, n), Run(p, o, Inlined(blocks, site, callee, localCount), d, n))
    decreases n
  {
    if n > 0 {
      var e', d' := Step(p, o, callee, e), Step(p, o, Inlined(blocks, site, callee, localCount), d);
      CalleeStep(p, o, blocks, site, callee, localCount, s, t, e, d);
      if e'.Halted? { RunHalted(p, o, callee, e', n - 1); }
      CalleeLockstep(p, o, blocks, site, callee, localCount, s, t, e', d', n - 1);
    }
  }

  lemma PrefixAdd(t: seq<Event>, u: seq<Event>, v: seq<Event>)
    requires u <= v
    ensures t + u <= t + v
  {
  }

  lemma CalleeShows(p: Prims, o: Oracle, blocks: seq<Block>, site: Site, callee: seq<Block>, localCount: nat,
                    s: Store, t: seq<Event>, e: Config, d: Config, n: nat) returns (m: nat)
    requires IsSite(blocks, site) && BaseBelow(site.place.base, localCount)
    requires CalleeRel(site, |blocks|, localCount, s, t, e, d)
    ensures Run(p, o, Inlined(blocks, site, callee, localCount), d, m).trace == t + Run(p, o, callee, e, n).trace
  {
    if AsResult(Run(p, o, callee, e, n)) != NoResult {
      m := CalleeRun(p, o, blocks, site, callee, localCount, s, t, e, d, n);
    } else {
      m := PrintedRunning(p, o, callee, e, n);
      CalleeLockstep(p, o, blocks, site, callee, localCount, s, t, e, d, m);
    }
  }

  lemma CalleeHangs(p: Prims, o: Oracle, q: CallPrints, blocks: seq<Block>, site: Site, callee: seq<Block>, localCount: nat,
                    s: Store, t: seq<Event>, e: Config, d: Config, n: nat, v: seq<Event>)
    requires IsSite(blocks, site) && BaseBelow(site.place.base, localCount)
    requires CalleeRel(site, |blocks|, localCount, s, t, e, d) && Hangs(o, q, callee, Run(p, o, callee, e, n), v)
    ensures var after := Inlined(blocks, site, callee, localCount);
            var y := Run(p, o, after, d, n);
            Hangs(o, q, after, y, v) && y.trace == t + Run(p, o, callee, e, n).trace
  {
    CalleeLockstep(p, o, blocks, site, callee, localCount, s, t, e, d, n);
    CalleeCallAt(blocks, site, callee, localCount, s, t, Run(p, o, callee, e, n),
                 Run(p, o, Inlined(blocks, site, callee, localCount), d, n));
  }

  /** What a run of the callee prints, the inlined body prints behind what it had printed. */
  lemma CalleePrints(p: Prims, o: Oracle, q: CallPrints, blocks: seq<Block>, site: Site, callee: seq<Block>, localCount: nat,
                     s: Store, t: seq<Event>, e: Config, d: Config, n: nat, u: seq<Event>) returns (m: nat)
    requires IsSite(blocks, site) && BaseBelow(site.place.base, localCount)
    requires CalleeRel(site, |blocks|, localCount, s, t, e, d) && HasPrinted(o, q, callee, Run(p, o, callee, e, n), u)
    ensures var after := Inlined(blocks, site, callee, localCount); HasPrinted(o, q, after, Run(p, o, after, d, m), t + u)
  {
    var after, x := Inlined(blocks, site, callee, localCount), Run(p, o, callee, e, n);
    if u <= x.trace {
      m := CalleeShows(p, o, blocks, site, callee, localCount, s, t, e, d, n);
      PrefixAdd(t, u, x.trace);
    } else {
      var v: seq<Event> :| Hangs(o, q, callee, x, v) && u <= x.trace + v;
      m := n;
      CalleeHangs(p, o, q, blocks, site, callee, localCount, s, t, e, d, n, v);
      HangsBehind(o, q, after, Run(p, o, after, d, n), t, x.trace, u, v);
    }
  }

  lemma HangsBehind(o: Oracle, q: CallPrints, blocks: seq<Block>, c: Config, t: seq<Event>, r: seq<Event>, u: seq<Event>, v: seq<Event>)
    requires Hangs(o, q, blocks, c, v) && c.trace == t + r && u <= r + v
    ensures HasPrinted(o, q, blocks, c, t + u)
  {
    PrefixAdd(t, u, r + v);
    assert (t + r) + v == t + (r + v);
  }

  // ---------------------------------------------------------------- what the caller prints

  lemma {:induction false} MatchedRunning(p: Prims, o: Oracle, a: seq<Block>, b: seq<Block>, rel: (Config, Config) -> bool,
                                          c: Config, d: Config, n: nat) returns (m: nat)
    requires Matching(p, o, a, b, rel) && rel(c, d) && Run(p, o, a, c, n).Running?
    ensures rel(Run(p, o, a, c, n), Run(p, o, b, d, m))
    decreases n
  {
    m := 0;
    if n > 0 {
      var c' := Step(p, o, a, c);
      if c'.Halted? { RunHalted(p, o, a, c', n - 1); }
      assert Matched(p, o, a, b, rel, c, d);
      m :| m > 0 && Related(rel, c', Run(p, o, b, d, m));
      var k := MatchedRunning(p, o, a, b, rel, c', Run(p, o, b, d, m), n - 1);
      RunAdd(p, o, b, d, m, k);
      m := m + k;
    }
  }

  /** A point that a run of the caller comes to is found in the inlined body. */
  lemma CallerRunning(p: Prims, o: Oracle, blocks: seq<Block>, site: Site, callee: seq<Block>, localCount: nat,
                      c: Config, n: nat) returns (m: nat)
    requires IsSite(blocks, site) && BodyBelow(blocks, localCount) && BaseBelow(site.place.base, localCount)
    requires Faithful(p, o, site.id, callee)
    requires CallerRel(site, |blocks| + |callee|, localCount, c, c) && Run(p, o, blocks, c, n).Running?
    ensures CallerRel(site, |blocks| + |callee|, localCount, Run(p, o, blocks, c, n),
                      Run(p, o, Inlined(blocks, site, callee, localCount), c, m))
  {
    var rel := CallerRelation(site, |blocks| + |callee|, localCount);
    InlinedMatching(p, o, blocks, site, callee, localCount);
    m := MatchedRunning(p, o, blocks, Inlined(blocks, site, callee, localCount), rel, c, c, n);
  }

  /** The oracle's prints are prints of the bodies. */
  ghost predicate FaithfulPrints(p: Prims, o: Oracle, q: CallPrints, id: nat, callee: seq<Block>) {
    forall vs: seq<Value>, u: seq<Event> :: q(FnRef(id, []), vs, u) ==> PrintsIn(p, o, q, callee, vs, u)
  }

  lemma SiteCall(o: Oracle, q: CallPrints, blocks: seq<Block>, site: Site, c: Config, u: seq<Event>)
    requires IsSite(blocks, site) && c.Running? && c.block == site.block && c.pc == site.stmt && Hangs(o, q, blocks, c, u)
    ensures EvalAll(c.store, site.args).Some? && q(FnRef(site.id, []), EvalAll(c.store, site.args).value, u)
  {
  }

  /** A call at the site that does not come back: its body, inlined, prints what it does. */
  lemma SitePrints(p: Prims, o: Oracle, q: CallPrints, blocks: seq<Block>, site: Site, callee: seq<Block>, localCount: nat,
                   c: Config, d: Config, u: seq<Event>) returns (m: nat)
    requires IsSite(blocks, site) && BaseBelow(site.place.base, localCount) && FaithfulPrints(p, o, q, site.id, callee)
    requires CallerRel(site, |blocks| + |callee|, localCount, c, d)
    requires c.block == site.block && c.pc == site.stmt && Hangs(o, q, blocks, c, u)
    ensures var after := Inlined(blocks, site, callee, localCount); HasPrinted(o, q, after, Run(p, o, after, d, m), c.trace + u)
  {
    SiteCall(o, q, blocks, site, c, u);
    var vs := EvalAll(c.store, site.args).value;
    var k := EnterCallee(p, o, blocks, site, callee, localCount, c, d, vs);
    m := EnteredPrints(p, o, q, blocks, site, callee, localCount, d, c.trace, vs, k, u);
  }

  lemma EnteredPrints(p: Prims, o: Oracle, q: CallPrints, blocks: seq<Block>, site: Site, callee: seq<Block>, localCount: nat,
                      d: Config, t: seq<Event>, vs: seq<Value>, k: nat, u: seq<Event>) returns (m: nat)
    requires IsSite(blocks, site) && BaseBelow(site.place.base, localCount) && d.Running? && PrintsIn(p, o, q, callee, vs, u)
    requires CalleeRel(site, |blocks|, localCount, d.store, t, Init(vs), Run(p, o, Inlined(blocks, site, callee, localCount), d, k))
    ensures var after := Inlined(blocks, site, callee, localCount); HasPrinted(o, q, after, Run(p, o, after, d, m), t + u)
  {
    var after := Inlined(blocks, site, callee, localCount);
    var d1 := Run(p, o, after, d, k);
    var n: nat :| HasPrinted(o, q, callee, Run(p, o, callee, Init(vs), n), u);
    var l := CalleePrints(p, o, q, blocks, site, callee, localCount, d.store, t, Init(vs), d1, n, u);
    RunAdd(p, o, after, d, k, l);
    m := k + l;
  }

  lemma HasPrintedLess(o: Oracle, q: CallPrints, blocks: seq<Block>, c: Config, t: seq<Event>, u: seq<Event>)
    requires HasPrinted(o, q, blocks, c, u) && t <= u
    ensures HasPrinted(o, q, blocks, c, t)
  {
    if !(u <= c.trace) {
      var v: seq<Event> :| Hangs(o, q, blocks, c, v) && u <= c.trace + v;
      assert t <= c.trace + v;
    }
  }

  lemma InlinedHangs(p: Prims, o: Oracle, q: CallPrints, blocks: seq<Block>, site: Site, callee: seq<Block>, localCount: nat,
                     args: seq<Value>, n: nat, u: seq<Event>, t: seq<Event>)
    requires IsSite(blocks, site) && BodyBelow(blocks, localCount) && |args| <= localCount && BaseBelow(site.place.base, localCount)
    requires Faithful(p, o, site.id, callee) && FaithfulPrints(p, o, q, site.id, callee)
    requires var c := Run(p, o, blocks, Init(args), n); Hangs(o, q, blocks, c, u) && t <= c.trace + u
    ensures PrintsIn(p, o, q, Inlined(blocks, site, callee, localCount), args, t)
  {
    var after, c := Inlined(blocks, site, callee, localCount), Run(p, o, blocks, Init(args), n);
    StoreRefl(Init(args).store);
    var m := CallerRunning(p, o, blocks, site, callee, localCount, Init(args), n);
    var d := Run(p, o, after, Init(args), m);
    if c.block == site.block && c.pc == site.stmt {
      var k := SitePrints(p, o, q, blocks, site, callee, localCount, c, d, u);
      RunAdd(p, o, after, Init(args), m, k);
      HasPrintedLess(o, q, after, Run(p, o, after, d, k), t, c.trace + u);
      assert HasPrinted(o, q, after, Run(p, o, after, Init(args), m + k), t);
    } else {
      CallerCallAt(blocks, site, callee, localCount, c, d);
      assert Hangs(o, q, after, d, u);
      assert HasPrinted(o, q, after, d, t);
    }
  }

  /** Inlining one call keeps all that the caller prints, whether the calls in it come back or not. */
  lemma InlinedCarriesOver(p: Prims, o: Oracle, q: CallPrints, blocks: seq<Block>, site: Site, callee: seq<Block>,
                           localCount: nat, arity: nat)
    requires IsSite(blocks, site) && BodyBelow(blocks, localCount) && arity <= localCount
    requires Faithful(p, o, site.id, callee) && FaithfulPrints(p, o, q, site.id, callee)
    ensures CarriesOver(p, o, q, arity, blocks, Inlined(blocks, site, callee, localCount))
  {
    var after := Inlined(blocks, site, callee, localCount);
    assert BlockBelow(blocks[site.block], localCount);
    assert StmtMentions(blocks[site.block].stmts[site.stmt])[0] == site.place;
    InlinedRefines(p, o, blocks, site, callee, localCount, arity);
    forall args: seq<Value>, t: seq<Event> | |args| == arity && PrintsIn(p, o, q, blocks, args, t)
      ensures PrintsIn(p, o, q, after, args, t)
    {
      var n: nat :| HasPrinted(o, q, blocks, Run(p, o, blocks, Init(args), n), t);
      var c := Run(p, o, blocks, Init(args), n);
      if t <= c.trace {
        assert RefinesOn(p, o, blocks, after, args);
        assert Prints(p, o, after, args, c.trace);
        var m: nat :| c.trace <= Run(p, o, after, Init(args), m).trace;
        assert HasPrinted(o, q, after, Run(p, o, after, Init(args), m), t);
      } else {
        var u: seq<Event> :| Hangs(o, q, blocks, c, u) && t <= c.trace + u;
        InlinedHangs(p, o, q, blocks, site, callee, localCount, args, n, u, t);
      }
    }
  }

  // ---------------------------------------------------------------- the pass

  ghost predicate KnowsPrints(p: Prims, o: Oracle, q: CallPrints, bodies: map<nat, FnBody>) {
    forall id :: id in bodies ==> FaithfulPrints(p, o, q, id, bodies[id].blocks)
  }

  lemma OneMoreCarriesOver(p: Prims, o: Oracle, q: CallPrints, bodies: map<nat, FnBody>, a: FnBody, m: FnBody, site: Site, b: FnBody,
                           arity: nat)
    requires InlinesFirst(bodies, m, site, b) && WellFormed(m) && arity <= |m.locals|
    requires Knows(p, o, bodies) && KnowsPrints(p, o, q, bodies)
    requires CarriesOver(p, o, q, arity, a.blocks, m.blocks)
    ensures CarriesOver(p, o, q, arity, a.blocks, b.blocks)
  {
    assert Faithful(p, o, site.id, bodies[site.id].blocks) && FaithfulPrints(p, o, q, site.id, bodies[site.id].blocks);
    InlinedCarriesOver(p, o, q, m.blocks, site, bodies[site.id].blocks, |m.locals|, arity);
    CarriesOverTrans(p, o, q, arity, a.blocks, m.blocks, b.blocks);
  }

  lemma {:induction false} ChainCarriesOver(p: Prims, o: Oracle, q: CallPrints, bodies: map<nat, FnBody>, chain: seq<FnBody>, k: nat,
                                            arity: nat)
    requires Inlinings(bodies, chain) && k < |chain| && BodiesWell(bodies)
    requires WellFormed(chain[0]) && NoEntryEdge(chain[0].blocks) && CallsFit(bodies, chain[0].blocks)
    requires Knows(p, o, bodies) && KnowsPrints(p, o, q, bodies) && arity <= |chain[0].locals|
    ensures CarriesOver(p, o, q, arity, chain[0].blocks, chain[k].blocks)
    decreases k
  {
    if k > 0 {
      ChainCarriesOver(p, o, q, bodies, chain, k - 1, arity);
      var site := ChainStep(bodies, chain, k);
      assert CarriesOver(p, o, q, arity, chain[0].blocks, chain[k - 1].blocks);
      OneMoreCarriesOver(p, o, q, bodies, chain[0], chain[k - 1], site, chain[k], arity);
    }
  }

  /** Inlining calls one after another keeps all that is printed. */
  lemma InlinedToCarriesOver(p: Prims, o: Oracle, q: CallPrints, bodies: map<nat, FnBody>, a: FnBody, b: FnBody, ok: bool, arity: nat)
    requires InlinedTo(bodies, a, b, ok) && BodiesWell(bodies)
    requires WellFormed(a) && NoEntryEdge(a.blocks) && CallsFit(bodies, a.blocks)
    requires Knows(p, o, bodies) && KnowsPrints(p, o, q, bodies) && arity <= |a.locals|
    ensures CarriesOver(p, o, q, arity, a.blocks, b.blocks)
  {
    var chain: seq<FnBody> :| InlinedThrough(bodies, chain, a, b) && InliningStops(bodies, |chain| - 1, b.blocks, ok);
    ChainCarriesOver(p, o, q, bodies, chain, |chain| - 1, arity);
  }
}
