/** Edges between the blocks of a body. */
module Cfg {
  import opened Prelude
  import opened Mir

  function Succ(blocks: seq<Block>, b: nat): seq<nat>
    requires b < |blocks|
  {
    blocks[b].terminator.Successors()
  }

  ghost predicate Edge(blocks: seq<Block>, u: nat, v: nat) {
    u < |blocks| && v in Succ(blocks, u)
  }

  /** Every edge leads to a block of the body. */
  ghost predicate InRange(blocks: seq<Block>) {
    forall u: nat, v: nat :: Edge(blocks, u, v) ==> v < |blocks|
  }

  ghost predicate NoEntryEdge(blocks: seq<Block>) {
    forall u: nat :: !Edge(blocks, u, ENTRY)
  }

  function Repeat(x: nat, n: nat): (r: seq<nat>)
    ensures |r| == n && forall i :: 0 <= i < n ==> r[i] == x
  {
    seq(n, _ => x)
  }

  /** The predecessors of t among the first k blocks: one entry for each edge, in block order. */
  function PredecessorsUpto(blocks: seq<Block>, k: nat, t: nat): seq<nat>
    requires k <= |blocks|
  {
    if k == 0 then []
    else PredecessorsUpto(blocks, k - 1, t) + Repeat(k - 1, multiset(Succ(blocks, k - 1))[t])
  }

  function PredecessorList(blocks: seq<Block>, t: nat): seq<nat> {
    PredecessorsUpto(blocks, |blocks|, t)
  }

  lemma RepeatMember(x: nat, n: nat, y: nat)
    ensures y in Repeat(x, n) <==> n > 0 && y == x
  {
    if n > 0 { assert Repeat(x, n)[0] == x; }
  }

  lemma {:induction false} PredecessorsUptoMember(blocks: seq<Block>, k: nat, t: nat, b: nat)
    requires k <= |blocks|
    ensures b in PredecessorsUpto(blocks, k, t) <==> b < k && t in Succ(blocks, b)
  {
    if k > 0 {
      PredecessorsUptoMember(blocks, k - 1, t, b);
      RepeatMember(k - 1, multiset(Succ(blocks, k - 1))[t], b);
    }
  }

  /** Exactly the blocks with an edge to t are listed as its predecessors. */
  lemma PredecessorListMember(blocks: seq<Block>, t: nat, b: nat)
    ensures b in PredecessorList(blocks, t) <==> Edge(blocks, b, t)
  {
    PredecessorsUptoMember(blocks, |blocks|, t, b);
  }

  // ---------------------------------------------------------------- edges, one by one

  /** The i-th way out of block u leads to v: the only one of a jump or an assertion, one of the targets of a
      switch in their order, or behind them its default. */
  ghost predicate LeadsTo(blocks: seq<Block>, u: nat, i: nat, v: nat) {
    u < |blocks| &&
    match blocks[u].terminator
    case Goto(x) => i == 0 && x == v
    case Assert(_, _, x) => i == 0 && x == v
    case Switch(_, ts) => i <= |ts.targets| && v == if i < |ts.targets| then ts.targets[i].target else ts.otherwise
    case Return => false
    case Panic => false
    case Unreachable => false
  }

  /** The successors of a block are where its ways out lead, in their order. */
  lemma SuccessorsExactly(blocks: seq<Block>, u: nat, i: nat, v: nat)
    ensures LeadsTo(blocks, u, i, v) <==> u < |blocks| && i < |Succ(blocks, u)| && Succ(blocks, u)[i] == v
  {
  }

  lemma {:induction false} MultisetTwice(s: seq<nat>, x: nat)
    ensures multiset(s)[x] >= 2 <==> exists i, j :: 0 <= i < j < |s| && s[i] == x && s[j] == x
  {
    if s != [] {
      var rest, last := s[..|s| - 1], s[|s| - 1];
      assert s == rest + [last];
      MultisetTwice(rest, x);
      if last == x && multiset(rest)[x] > 0 {
        assert x in rest;
        var i :| 0 <= i < |rest| && rest[i] == x;
        assert s[i] == x && s[|rest|] == x;
      }
      if i, j :| 0 <= i < j < |s| && s[i] == x && s[j] == x {
        assert rest[i] == x;
        if j < |rest| { assert rest[j] == x; } else { assert x in rest; }
      }
      if i, j :| 0 <= i < j < |rest| && rest[i] == x && rest[j] == x { assert s[i] == x && s[j] == x; }
    }
  }

  lemma RepeatTimes(x: nat, n: nat, y: nat)
    ensures multiset(Repeat(x, n))[y] == if y == x then n else 0
    decreases n
  {
    if n > 0 {
      RepeatTimes(x, n - 1, y);
      assert Repeat(x, n) == Repeat(x, n - 1) + [x];
    } else {
      assert Repeat(x, n) == [];
    }
  }

  lemma {:induction false} PredecessorsUptoCount(blocks: seq<Block>, k: nat, t: nat, u: nat)
    requires k <= |blocks|
    ensures multiset(PredecessorsUpto(blocks, k, t))[u] == if u < k then multiset(Succ(blocks, u))[t] else 0
  {
    if k > 0 {
      PredecessorsUptoCount(blocks, k - 1, t, u);
      RepeatTimes(k - 1, multiset(Succ(blocks, k - 1))[t], u);
    }
  }

  lemma {:induction false} PredecessorsUptoSorted(blocks: seq<Block>, k: nat, t: nat)
    requires k <= |blocks|
    ensures forall i, j :: 0 <= i < j < |PredecessorsUpto(blocks, k, t)| ==> PredecessorsUpto(blocks, k, t)[i] <= PredecessorsUpto(blocks, k, t)[j]
  {
    if k > 0 {
      PredecessorsUptoSorted(blocks, k - 1, t);
      var before := PredecessorsUpto(blocks, k - 1, t);
      forall i | 0 <= i < |before| ensures before[i] < k {
        assert before[i] in before;
        PredecessorsUptoMember(blocks, k - 1, t, before[i]);
      }
    }
  }

  /** A block is listed as predecessor once for each of its ways to the target, and the list ascends. */
  lemma PredecessorListCount(blocks: seq<Block>, t: nat, u: nat)
    ensures multiset(PredecessorList(blocks, t))[u] == if u < |blocks| then multiset(Succ(blocks, u))[t] else 0
    ensures var l := PredecessorList(blocks, t); forall i, j :: 0 <= i < j < |l| ==> l[i] <= l[j]
  {
    PredecessorsUptoCount(blocks, |blocks|, t, u);
    PredecessorsUptoSorted(blocks, |blocks|, t);
  }

  /** No two ways lead to t. */
  ghost predicate OneWay(blocks: seq<Block>, t: nat) {
    forall u, i, v, j :: LeadsTo(blocks, u, i, t) && LeadsTo(blocks, v, j, t) ==> u == v && i == j
  }

  lemma TwoWays(blocks: seq<Block>, t: nat, u: nat, i: nat, v: nat, j: nat)
    requires LeadsTo(blocks, u, i, t) && LeadsTo(blocks, v, j, t) && (u != v || i != j)
    ensures |PredecessorList(blocks, t)| > 1
  {
    var l := PredecessorList(blocks, t);
    SuccessorsExactly(blocks, u, i, t);
    SuccessorsExactly(blocks, v, j, t);
    if u == v {
      MultisetTwice(Succ(blocks, u), t);
      assert multiset(Succ(blocks, u))[t] >= 2 by { assert i < j || j < i; }
      PredecessorListCount(blocks, t, u);
      MultisetTwice(l, u);
    } else {
      PredecessorListMember(blocks, t, u);
      PredecessorListMember(blocks, t, v);
    }
  }

  lemma ListedTwice(blocks: seq<Block>, t: nat)
    requires OneWay(blocks, t)
    ensures |PredecessorList(blocks, t)| <= 1
  {
    var l := PredecessorList(blocks, t);
    if |l| > 1 {
      var u, v := l[0], l[1];
      PredecessorListMember(blocks, t, u);
      PredecessorListMember(blocks, t, v);
      var i :| 0 <= i < |Succ(blocks, u)| && Succ(blocks, u)[i] == t;
      var j :| 0 <= j < |Succ(blocks, v)| && Succ(blocks, v)[j] == t;
      SuccessorsExactly(blocks, u, i, t);
      SuccessorsExactly(blocks, v, j, t);
      MultisetTwice(l, u);
      PredecessorListCount(blocks, t, u);
      MultisetTwice(Succ(blocks, u), t);
      var x, y :| 0 <= x < y < |Succ(blocks, u)| && Succ(blocks, u)[x] == t && Succ(blocks, u)[y] == t;
      SuccessorsExactly(blocks, u, x, t);
      SuccessorsExactly(blocks, u, y, t);
    }
  }

  /** A block has one predecessor at most exactly if no two ways lead to it. */
  lemma OneWayExactly(blocks: seq<Block>, t: nat)
    ensures |PredecessorList(blocks, t)| <= 1 <==> OneWay(blocks, t)
  {
    if OneWay(blocks, t) {
      ListedTwice(blocks, t);
    } else {
      var u, i, v, j :| LeadsTo(blocks, u, i, t) && LeadsTo(blocks, v, j, t) && !(u == v && i == j);
      TwoWays(blocks, t, u, i, v, j);
    }
  }

  lemma UniquePredecessor(blocks: seq<Block>, t: nat, b: nat, u: nat)
    requires |PredecessorList(blocks, t)| <= 1 && Edge(blocks, b, t) && Edge(blocks, u, t)
    ensures b == u
  {
    PredecessorListMember(blocks, t, b);
    PredecessorListMember(blocks, t, u);
    var l := PredecessorList(blocks, t);
    var i :| 0 <= i < |l| && l[i] == b;
    var j :| 0 <= j < |l| && l[j] == u;
  }

  lemma BranchIsSuccessor(ts: SwitchTargets, operand: Operand, n: int)
    ensures ts.BranchForValue(n) in Switch(operand, ts).Successors()
  {
    var s := Switch(operand, ts).Successors();
    assert s[|ts.targets|] == ts.otherwise;
    if b: nat :| b < |ts.targets| && ts.BranchForValue(n) == ts.targets[b].target {
      assert s[b] == ts.targets[b].target;
    }
  }

  /** A block is only ever left along one of its edges. */
  lemma StepAlongEdge(c: Config, t: Terminator)
    requires c.Running?
    ensures var d := StepTerminator(c, t);
            d.Running? ==> d.block in t.Successors() && d.pc == 0 && d.store == c.store && d.trace == c.trace
  {
    match t
    case Switch(op, ts) =>
      if Eval(c.store, op).Some? && Eval(c.store, op).value.Scalar? {
        BranchIsSuccessor(ts, op, Eval(c.store, op).value.n);
      }
    case _ =>
  }

  lemma MapSuccessorsMember(t: Terminator, f: nat -> nat, v: nat)
    ensures v in t.MapSuccessors(f).Successors() <==> exists u :: u in t.Successors() && f(u) == v
  {
    var s, s' := t.Successors(), t.MapSuccessors(f).Successors();
    assert |s| == |s'| && forall i :: 0 <= i < |s| ==> s'[i] == f(s[i]);
    if v in s' {
      var i :| 0 <= i < |s'| && s'[i] == v;
      assert s[i] in s && f(s[i]) == v;
    }
    if u :| u in s && f(u) == v {
      var i :| 0 <= i < |s| && s[i] == u;
      assert s'[i] == v;
    }
  }

  lemma {:induction false} MapSuccessorsBranch(ts: SwitchTargets, operand: Operand, f: nat -> nat, n: int)
    ensures Switch(operand, ts).MapSuccessors(f).switchTargets.BranchForValue(n) == f(ts.BranchForValue(n))
    decreases |ts.targets|
  {
    if ts.targets != [] {
      var rest := SwitchTargets(ts.targets[1..], ts.otherwise);
      MapSuccessorsBranch(rest, operand, f, n);
      assert Switch(operand, ts).MapSuccessors(f).switchTargets.targets[1..]
          == Switch(operand, rest).MapSuccessors(f).switchTargets.targets;
    }
  }

  /** Rewriting successors redirects the jump and nothing else. */
  lemma StepMapSuccessors(c: Config, t: Terminator, f: nat -> nat)
    requires c.Running?
    ensures var d, d' := StepTerminator(c, t), StepTerminator(c, t.MapSuccessors(f));
            if d.Running? then d' == d.(block := f(d.block)) else d' == d
  {
    match t
    case Switch(op, ts) =>
      if Eval(c.store, op).Some? && Eval(c.store, op).value.Scalar? {
        MapSuccessorsBranch(ts, op, f, Eval(c.store, op).value.n);
      }
    case _ =>
  }

  /** What a statement does does not depend on where it stands. */
  lemma StepStmtMoved(p: Prims, o: Oracle, c: Config, s: Stmt, block: nat, pc: nat)
    requires c.Running?
    ensures var d, d' := StepStmt(p, o, c, s), StepStmt(p, o, c.(block := block, pc := pc), s);
            if d.Running? then d.block == c.block && d.pc == c.pc + 1 && d' == d.(block := block, pc := pc + 1)
            else d' == d
  {
  }

  lemma StepTerminatorMoved(c: Config, t: Terminator, block: nat, pc: nat)
    requires c.Running?
    ensures StepTerminator(c.(block := block, pc := pc), t) == StepTerminator(c, t)
  {
  }

  lemma MapSuccessorsSame(t: Terminator, f: nat -> nat, g: nat -> nat)
    requires forall x :: x in t.Successors() ==> f(x) == g(x)
    ensures t.MapSuccessors(f) == t.MapSuccessors(g)
  {
    if t.Switch? {
      var ts := t.switchTargets;
      assert t.Successors()[|ts.targets|] == ts.otherwise;
      var us, vs := t.MapSuccessors(f).switchTargets.targets, t.MapSuccessors(g).switchTargets.targets;
      forall i | 0 <= i < |ts.targets| ensures us[i] == vs[i] {
        assert t.Successors()[i] == ts.targets[i].target;
      }
      assert us == vs;
    }
  }

  // ---------------------------------------------------------------- what rewriting the graph keeps

  predicate SwitchesOnConstant(t: Terminator) {
    t.Switch? && t.operand.Constant? && t.operand.value.ScalarConst?
  }

  ghost predicate NoConstantSwitch(blocks: seq<Block>) {
    forall b :: 0 <= b < |blocks| ==> !SwitchesOnConstant(blocks[b].terminator)
  }

  /** Every statement passes one test and every terminator the other. */
  ghost predicate AllOf(blocks: seq<Block>, sp: Stmt -> bool, tp: Terminator -> bool) {
    forall b :: 0 <= b < |blocks| ==> BlockOf(blocks[b], sp, tp)
  }

  ghost predicate BlockOf(b: Block, sp: Stmt -> bool, tp: Terminator -> bool) {
    tp(b.terminator) && forall i :: 0 <= i < |b.stmts| ==> sp(b.stmts[i])
  }

  /** The test does not look at successors. */
  ghost predicate Retargetable(tp: Terminator -> bool) {
    tp(Unreachable) && forall t: Terminator, f: nat -> nat :: tp(t) ==> tp(t.MapSuccessors(f))
  }
}
