/** What the body visitors count as a mention of a local, and how rewriting places affects it. */
module Visitor {
  import opened Mir

  /** The locals that are the base of one of the places. */
  function Bases(ps: seq<Place>): set<nat> {
    set i | 0 <= i < |ps| && ps[i].base.Local? :: ps[i].base.index
  }

  /** The places a statement mentions: what it reads and what it assigns. */
  function StmtMentions(s: Stmt): seq<Place> {
    match s
    case Assign(pl, r) => [pl] + RvalueReads(r)
    case _ => StmtReads(s)
  }

  function StmtsMention(ss: seq<Stmt>): set<nat> {
    if ss == [] then {} else StmtsMention(ss[..|ss| - 1]) + Bases(StmtMentions(ss[|ss| - 1]))
  }

  function BlockMentions(b: Block): set<nat> {
    StmtsMention(b.stmts) + Bases(TerminatorReads(b.terminator))
  }

  /** The locals mentioned in the first k blocks. */
  function BlocksMention(blocks: seq<Block>, k: nat): set<nat>
    requires k <= |blocks|
  {
    if k == 0 then {} else BlocksMention(blocks, k - 1) + BlockMentions(blocks[k - 1])
  }

  // ---------------------------------------------------------------- what stands where in a body

  ghost predicate OperandOfRvalue(r: Rvalue, o: Operand) {
    || (r.Use? && r.operand == o)
    || (r.Call? && (r.callee == o || o in r.args))
    || (r.Aggregate? && o in r.fields)
    || (r.Binary? && (r.left == o || r.right == o))
    || (r.Cast? && r.operand == o)
  }

  ghost predicate OperandOfStmt(s: Stmt, o: Operand) {
    (s.Assign? && OperandOfRvalue(s.rvalue, o)) || (s.Print? && s.value == o)
  }

  ghost predicate OperandOfTerminator(t: Terminator, o: Operand) {
    (t.Assert? && t.condition == o) || (t.Switch? && t.operand == o)
  }

  ghost predicate OperandOfBlock(b: Block, o: Operand) {
    (exists s :: s in b.stmts && OperandOfStmt(s, o)) || OperandOfTerminator(b.terminator, o)
  }

  /** The statement reads the place. */
  ghost predicate Reads(s: Stmt, pl: Place) {
    OperandOfStmt(s, Load(pl)) || (s.Assign? && s.rvalue == Discriminant(pl))
  }

  /** The statement reads a place in the local. */
  ghost predicate StmtReadsLocal(s: Stmt, l: nat) {
    exists pl :: Reads(s, pl) && pl.base == Local(l)
  }

  /** The statement reads or assigns a place in the local. */
  ghost predicate StmtHasLocal(s: Stmt, l: nat) {
    StmtReadsLocal(s, l) || (s.Assign? && s.place.base == Local(l))
  }

  ghost predicate TerminatorReadsLocal(t: Terminator, l: nat) {
    exists pl :: OperandOfTerminator(t, Load(pl)) && pl.base == Local(l)
  }

  ghost predicate StmtsReadLocal(ss: seq<Stmt>, l: nat) {
    exists s :: s in ss && StmtReadsLocal(s, l)
  }

  ghost predicate StmtsHaveLocal(ss: seq<Stmt>, l: nat) {
    exists s :: s in ss && StmtHasLocal(s, l)
  }

  /** Some statement or terminator of the block reads a place in the local. */
  ghost predicate BlockReadsLocal(b: Block, l: nat) {
    StmtsReadLocal(b.stmts, l) || TerminatorReadsLocal(b.terminator, l)
  }

  /** Some statement or terminator of the block reads or assigns a place in the local. */
  ghost predicate BlockHasLocal(b: Block, l: nat) {
    StmtsHaveLocal(b.stmts, l) || TerminatorReadsLocal(b.terminator, l)
  }

  /** The body reads a place in the local. */
  ghost predicate LocalRead(blocks: seq<Block>, l: nat) {
    exists b :: b in blocks && BlockReadsLocal(b, l)
  }

  /** The body reads or assigns a place in the local. */
  ghost predicate LocalMentioned(blocks: seq<Block>, l: nat) {
    exists b :: b in blocks && BlockHasLocal(b, l)
  }

  lemma {:induction false} OperandsReadAre(os: seq<Operand>, pl: Place)
    ensures pl in OperandsRead(os) <==> Load(pl) in os
  {
    if os != [] { OperandsReadAre(os[1..], pl); }
  }

  lemma StmtReadsAre(s: Stmt, pl: Place)
    ensures pl in StmtReads(s) <==> Reads(s, pl)
  {
    if s.Assign? {
      match s.rvalue
      case Aggregate(_, fields) => OperandsReadAre(fields, pl);
      case Call(_, args) => OperandsReadAre(args, pl);
      case _ =>
    }
  }

  lemma StmtBasesAre(s: Stmt, l: nat)
    ensures l in Bases(StmtReads(s)) <==> StmtReadsLocal(s, l)
    ensures l in Bases(StmtMentions(s)) <==> StmtHasLocal(s, l)
  {
    forall pl ensures pl in StmtReads(s) <==> Reads(s, pl) { StmtReadsAre(s, pl); }
    BasesAre(StmtReads(s), l);
    BasesAre(StmtMentions(s), l);
  }

  lemma BasesAre(ps: seq<Place>, l: nat)
    ensures l in Bases(ps) <==> exists pl :: pl in ps && pl.base == Local(l)
  {
  }

  lemma TerminatorBasesAre(t: Terminator, l: nat)
    ensures l in Bases(TerminatorReads(t)) <==> TerminatorReadsLocal(t, l)
  {
    forall pl ensures pl in TerminatorReads(t) <==> OperandOfTerminator(t, Load(pl)) { }
    BasesAre(TerminatorReads(t), l);
  }

  lemma StmtsLast(ss: seq<Stmt>, l: nat)
    requires ss != []
    ensures var rest, last := ss[..|ss| - 1], ss[|ss| - 1];
            && (StmtsReadLocal(ss, l) <==> StmtsReadLocal(rest, l) || StmtReadsLocal(last, l))
            && (StmtsHaveLocal(ss, l) <==> StmtsHaveLocal(rest, l) || StmtHasLocal(last, l))
  {
    var rest, last := ss[..|ss| - 1], ss[|ss| - 1];
    assert forall s :: s in ss <==> s in rest || s == last by { assert ss == rest + [last]; }
  }

  lemma {:induction false} StmtsMentionAre(ss: seq<Stmt>, l: nat)
    ensures l in StmtsMention(ss) <==> StmtsHaveLocal(ss, l)
  {
    if ss != [] {
      StmtsMentionAre(ss[..|ss| - 1], l);
      StmtBasesAre(ss[|ss| - 1], l);
      StmtsLast(ss, l);
    }
  }

  lemma BlockMentionsAre(b: Block, l: nat)
    ensures l in BlockMentions(b) <==> BlockHasLocal(b, l)
  {
    StmtsMentionAre(b.stmts, l);
    TerminatorBasesAre(b.terminator, l);
  }

  lemma LocalLast(blocks: seq<Block>, k: nat, l: nat)
    requires 0 < k <= |blocks|
    ensures var rest, last := blocks[..k - 1], blocks[k - 1];
            && (LocalRead(blocks[..k], l) <==> LocalRead(rest, l) || BlockReadsLocal(last, l))
            && (LocalMentioned(blocks[..k], l) <==> LocalMentioned(rest, l) || BlockHasLocal(last, l))
  {
    var rest, last := blocks[..k - 1], blocks[k - 1];
    assert forall b :: b in blocks[..k] <==> b in rest || b == last by { assert blocks[..k] == rest + [last]; }
  }

  lemma {:induction false} BlocksMentionAre(blocks: seq<Block>, k: nat, l: nat)
    requires k <= |blocks|
    ensures l in BlocksMention(blocks, k) <==> LocalMentioned(blocks[..k], l)
  {
    if k > 0 {
      BlocksMentionAre(blocks, k - 1, l);
      BlockMentionsAre(blocks[k - 1], l);
      LocalLast(blocks, k, l);
    }
  }

  /** The locals that a walk over the body finds are those it reads or assigns, at any of its places. */
  lemma MentionedExactly(blocks: seq<Block>)
    ensures forall l: nat :: l in BlocksMention(blocks, |blocks|) <==> LocalMentioned(blocks, l)
  {
    assert blocks[..|blocks|] == blocks;
    forall l: nat ensures l in BlocksMention(blocks, |blocks|) <==> LocalMentioned(blocks, l) { BlocksMentionAre(blocks, |blocks|, l); }
  }

  ghost predicate Below(ls: set<nat>, n: nat) {
    forall l :: l in ls ==> l < n
  }

  lemma {:induction false} StmtMentioned(ss: seq<Stmt>, i: nat)
    requires i < |ss|
    ensures Bases(StmtMentions(ss[i])) <= StmtsMention(ss)
  {
    if i < |ss| - 1 { StmtMentioned(ss[..|ss| - 1], i); }
  }

  lemma {:induction false} BlockMentioned(blocks: seq<Block>, k: nat, b: nat)
    requires b < k <= |blocks|
    ensures BlockMentions(blocks[b]) <= BlocksMention(blocks, k)
    decreases k
  {
    if b < k - 1 { BlockMentioned(blocks, k - 1, b); }
  }

  lemma {:induction false} StmtsBelow(ss: seq<Stmt>, n: nat)
    requires forall i :: 0 <= i < |ss| ==> Below(Bases(StmtMentions(ss[i])), n)
    ensures Below(StmtsMention(ss), n)
  {
    if ss != [] {
      var init := ss[..|ss| - 1];
      forall i | 0 <= i < |init| ensures Below(Bases(StmtMentions(init[i])), n) { assert init[i] == ss[i]; }
      StmtsBelow(init, n);
      assert Below(Bases(StmtMentions(ss[|ss| - 1])), n);
    }
  }

  lemma {:induction false} BlocksBelow(blocks: seq<Block>, k: nat, n: nat)
    requires k <= |blocks| && forall b :: 0 <= b < k ==> Below(BlockMentions(blocks[b]), n)
    ensures Below(BlocksMention(blocks, k), n)
  {
    if k > 0 {
      BlocksBelow(blocks, k - 1, n);
      assert Below(BlockMentions(blocks[k - 1]), n);
    }
  }

  lemma BasesSplit(ps: seq<Place>, qs: seq<Place>)
    ensures Bases(ps + qs) == Bases(ps) + Bases(qs)
  {
    var all := ps + qs;
    forall l ensures l in Bases(all) <==> l in Bases(ps) + Bases(qs) {
      if i :| 0 <= i < |ps| && ps[i].base == Local(l) { assert all[i] == ps[i]; }
      if i :| 0 <= i < |qs| && qs[i].base == Local(l) { assert all[|ps| + i] == qs[i]; }
      if i :| 0 <= i < |all| && all[i].base == Local(l) {
        if i < |ps| { assert ps[i] == all[i]; } else { assert qs[i - |ps|] == all[i]; }
      }
    }
  }

  /** All places with a local base have it below n. */
  predicate PlacesBelow(ps: seq<Place>, n: nat) {
    forall i :: 0 <= i < |ps| ==> BaseBelow(ps[i].base, n)
  }

  predicate BaseBelow(b: PlaceBase, n: nat) {
    b.Local? ==> b.index < n
  }

  ghost predicate BlockBelow(b: Block, n: nat) {
    (forall i :: 0 <= i < |b.stmts| ==> PlacesBelow(StmtMentions(b.stmts[i]), n))
    && PlacesBelow(TerminatorReads(b.terminator), n)
  }

  /** Every local that the body mentions is one of the first n. */
  ghost predicate BodyBelow(blocks: seq<Block>, n: nat) {
    forall b :: 0 <= b < |blocks| ==> BlockBelow(blocks[b], n)
  }

  lemma PlacesBelowBases(ps: seq<Place>, n: nat)
    ensures PlacesBelow(ps, n) <==> Below(Bases(ps), n)
  {
    if Below(Bases(ps), n) {
      forall i | 0 <= i < |ps| ensures BaseBelow(ps[i].base, n) {
        if ps[i].base.Local? { assert ps[i].base.index in Bases(ps); }
      }
    }
  }

  lemma BodyBelowMentions(blocks: seq<Block>, n: nat)
    ensures BodyBelow(blocks, n) <==> Below(BlocksMention(blocks, |blocks|), n)
  {
    if BodyBelow(blocks, n) {
      forall b | 0 <= b < |blocks| ensures Below(BlockMentions(blocks[b]), n) {
        assert BlockBelow(blocks[b], n);
        forall i | 0 <= i < |blocks[b].stmts| ensures Below(Bases(StmtMentions(blocks[b].stmts[i])), n) {
          PlacesBelowBases(StmtMentions(blocks[b].stmts[i]), n);
        }
        StmtsBelow(blocks[b].stmts, n);
        PlacesBelowBases(TerminatorReads(blocks[b].terminator), n);
      }
      BlocksBelow(blocks, |blocks|, n);
    }
    if Below(BlocksMention(blocks, |blocks|), n) {
      forall b | 0 <= b < |blocks| ensures BlockBelow(blocks[b], n) {
        BlockMentioned(blocks, |blocks|, b);
        forall i | 0 <= i < |blocks[b].stmts| ensures PlacesBelow(StmtMentions(blocks[b].stmts[i]), n) {
          StmtMentioned(blocks[b].stmts, i);
          PlacesBelowBases(StmtMentions(blocks[b].stmts[i]), n);
        }
        PlacesBelowBases(TerminatorReads(blocks[b].terminator), n);
      }
    }
  }

  // ---------------------------------------------------------------- rewriting

  function MapPlaces(f: Place -> Place, ps: seq<Place>): (r: seq<Place>)
    ensures |r| == |ps| && forall i :: 0 <= i < |ps| ==> r[i] == f(ps[i])
  {
    seq(|ps|, i requires 0 <= i < |ps| => f(ps[i]))
  }

  lemma {:induction false} OperandsReadMap(f: Place -> Place, os: seq<Operand>)
    ensures OperandsRead(MapOperands(f, os)) == MapPlaces(f, OperandsRead(os))
  {
    if os != [] {
      OperandsReadMap(f, os[1..]);
      var os' := MapOperands(f, os);
      assert os'[1..] == MapOperands(f, os[1..]);
      assert OperandReads(os'[0]) == MapPlaces(f, OperandReads(os[0]));
    }
  }

  lemma RvalueReadsMap(f: Place -> Place, r: Rvalue)
    ensures RvalueReads(MapRvalue(f, r)) == MapPlaces(f, RvalueReads(r))
  {
    match r
    case Aggregate(_, fields) => OperandsReadMap(f, fields);
    case Call(_, args) => OperandsReadMap(f, args);
    case _ =>
  }

  /** Rewriting the places of a statement rewrites the places it mentions. */
  lemma StmtMentionsMap(f: Place -> Place, s: Stmt)
    ensures StmtMentions(MapStmt(f, s)) == MapPlaces(f, StmtMentions(s))
  {
    if s.Assign? { RvalueReadsMap(f, s.rvalue); }
  }

  lemma TerminatorReadsMap(f: Place -> Place, t: Terminator)
    ensures TerminatorReads(MapTerminator(f, t)) == MapPlaces(f, TerminatorReads(t))
  {
  }

  /** The two functions do the same to each of the places. */
  ghost predicate SameOn(f: Place -> Place, g: Place -> Place, ps: seq<Place>) {
    forall i :: 0 <= i < |ps| ==> f(ps[i]) == g(ps[i])
  }

  lemma SameOnSplit(f: Place -> Place, g: Place -> Place, ps: seq<Place>, qs: seq<Place>)
    requires SameOn(f, g, ps + qs)
    ensures SameOn(f, g, ps) && SameOn(f, g, qs)
  {
    forall i | 0 <= i < |ps| ensures f(ps[i]) == g(ps[i]) { assert (ps + qs)[i] == ps[i]; }
    forall i | 0 <= i < |qs| ensures f(qs[i]) == g(qs[i]) { assert (ps + qs)[|ps| + i] == qs[i]; }
  }

  lemma MapOperandSame(f: Place -> Place, g: Place -> Place, o: Operand)
    requires SameOn(f, g, OperandReads(o))
    ensures MapOperand(f, o) == MapOperand(g, o)
  {
    if o.Load? { assert OperandReads(o)[0] == o.place; }
  }

  lemma {:induction false} MapOperandsSame(f: Place -> Place, g: Place -> Place, os: seq<Operand>)
    requires SameOn(f, g, OperandsRead(os))
    ensures MapOperands(f, os) == MapOperands(g, os)
  {
    if os != [] {
      SameOnSplit(f, g, OperandReads(os[0]), OperandsRead(os[1..]));
      MapOperandSame(f, g, os[0]);
      MapOperandsSame(f, g, os[1..]);
    }
  }

  lemma MapRvalueSame(f: Place -> Place, g: Place -> Place, r: Rvalue)
    requires SameOn(f, g, RvalueReads(r))
    ensures MapRvalue(f, r) == MapRvalue(g, r)
  {
    match r
    case UninitZeroed(_) =>
    case Aggregate(_, fields) => MapOperandsSame(f, g, fields);
    case Use(o) => MapOperandSame(f, g, o);
    case Call(callee, args) =>
      SameOnSplit(f, g, OperandReads(callee), OperandsRead(args));
      MapOperandSame(f, g, callee);
      MapOperandsSame(f, g, args);
    case Binary(_, l, x) =>
      SameOnSplit(f, g, OperandReads(l), OperandReads(x));
      MapOperandSame(f, g, l);
      MapOperandSame(f, g, x);
    case Cast(_, o) => MapOperandSame(f, g, o);
    case Discriminant(pl) => assert RvalueReads(r)[0] == pl;
  }

  /** Rewriting depends on the mentioned places only. */
  lemma MapStmtSame(f: Place -> Place, g: Place -> Place, s: Stmt)
    requires SameOn(f, g, StmtMentions(s))
    ensures MapStmt(f, s) == MapStmt(g, s)
  {
    match s
    case Noop =>
    case Print(o, _) => MapOperandSame(f, g, o);
    case Assign(pl, r) =>
      SameOnSplit(f, g, [pl], RvalueReads(r));
      assert [pl][0] == pl;
      MapRvalueSame(f, g, r);
  }

  lemma MapTerminatorSame(f: Place -> Place, g: Place -> Place, t: Terminator)
    requires SameOn(f, g, TerminatorReads(t))
    ensures MapTerminator(f, t) == MapTerminator(g, t)
  {
    match t
    case Switch(o, _) => MapOperandSame(f, g, o);
    case Assert(o, _, _) => MapOperandSame(f, g, o);
    case _ =>
  }
}
