/** How sequences of operands and operators are grouped, told without the parser's table of binding powers. */
module Grouping {
  import opened Prelude
  import opened Parser
  import opened Grammar

  // ---------------------------------------------------------------- the operators

  datatype Operator = Operator(token: Token, tightness: nat, meaning: BinaryOp)

  /** Products bind most, then sums, comparisons, equality, and, or. */
  const OPERATORS := [
    Operator(Slash, 6, Divide), Operator(Star, 6, Multiply), Operator(Band, 6, BitAnd),
    Operator(Plus, 5, Add), Operator(Minus, 5, Subtract), Operator(Bor, 5, BitOr),
    Operator(Lesser, 4, Less), Operator(Greater, 4, More),
    Operator(DoubleEqual, 3, Equals), Operator(And, 2, Both), Operator(Or, 1, Either)]

  predicate IsOperator(o: Operator) {
    o in OPERATORS
  }

  /** The parser has the operator for the token, and its binding power goes by how tightly it binds. */
  lemma OperatorIs(o: Operator)
    requires IsOperator(o)
    ensures TokenOf(o.meaning) == o.token && BinaryOpOf(o.token) == Some((Power(o.meaning), o.meaning))
    ensures 1 <= o.tightness <= 6
    ensures Power(o.meaning) == match o.tightness case 6 => 40 case 5 => 35 case 4 => 20 case 3 => 10 case 2 => 2 case _ => 1
  {
  }

  /** Its binding powers are in the order of the operators. */
  lemma OrderAgrees(o: Operator, q: Operator)
    requires IsOperator(o) && IsOperator(q)
    ensures 0 < Power(o.meaning) < POSTFIX && (Power(o.meaning) < Power(q.meaning) <==> o.tightness < q.tightness)
  {
    OperatorIs(o);
    OperatorIs(q);
  }

  lemma OperatorAt(t: Token) returns (i: nat)
    requires BinaryOpOf(t).Some?
    ensures i < |OPERATORS| && OPERATORS[i].token == t
  {
    i := if t == Slash then 0 else if t == Star then 1 else if t == Band then 2
         else if t == Plus then 3 else if t == Minus then 4 else if t == Bor then 5
         else if t == Lesser then 6 else if t == Greater then 7
         else if t == DoubleEqual then 8 else if t == And then 9 else 10;
  }

  ghost predicate AllOperators(ops: seq<Operator>) {
    forall i :: 0 <= i < |ops| ==> IsOperator(ops[i])
  }

  // ---------------------------------------------------------------- how a chain is grouped

  /** Operator i stands between operands i and i + 1, which are in parentheses if they are operations or assignments. */
  ghost predicate IsChain(es: seq<Tree>, ops: seq<Operator>) {
    |es| == |ops| + 1 && AllOperators(ops) && AllOperands(es)
  }

  /** Of the operators from lo up to hi the first that binds least. */
  predicate IsWeakest(ops: seq<Operator>, lo: nat, hi: nat, k: nat)
    requires hi <= |ops|
  {
    && lo <= k < hi
    && (forall i :: lo <= i < k ==> ops[i].tightness > ops[k].tightness)
    && (forall i :: lo <= i < hi ==> ops[i].tightness >= ops[k].tightness)
  }

  function Weakest(ops: seq<Operator>, lo: nat, hi: nat): (k: nat)
    requires lo < hi <= |ops|
    ensures lo <= k < hi
    decreases hi - lo
  {
    if lo + 1 == hi then lo
    else
      var k := Weakest(ops, lo + 1, hi);
      if ops[lo].tightness <= ops[k].tightness then lo else k
  }

  lemma {:induction false} WeakestIs(ops: seq<Operator>, lo: nat, hi: nat)
    requires lo < hi <= |ops|
    ensures IsWeakest(ops, lo, hi, Weakest(ops, lo, hi))
    decreases hi - lo
  {
    if lo + 1 < hi { WeakestIs(ops, lo + 1, hi); }
  }

  /** The operands from lo to hi, split at the first operator between them that binds least. */
  function Grouped(es: seq<Tree>, ops: seq<Operator>, lo: nat, hi: nat): Tree
    requires |es| == |ops| + 1 && lo <= hi <= |ops|
    decreases hi - lo
  {
    if lo == hi then es[lo]
    else
      var k := Weakest(ops, lo, hi);
      Infix(ops[k].meaning, Grouped(es, ops, lo, k), Grouped(es, ops, k + 1, hi))
  }

  /** The tokens of the operators from lo up to hi, each followed by those of its operand. */
  function Tail(es: seq<Tree>, ops: seq<Operator>, lo: nat, hi: nat, rest: seq<Token>): seq<Token>
    requires |es| == |ops| + 1 && lo <= hi <= |ops|
    decreases hi - lo
  {
    if lo == hi then rest else [ops[lo].token] + Tokens(es[lo + 1], Tail(es, ops, lo + 1, hi, rest))
  }

  /** The tokens of a chain, then the rest. */
  function Chain(es: seq<Tree>, ops: seq<Operator>, rest: seq<Token>): seq<Token>
    requires |es| == |ops| + 1
  {
    Tokens(es[0], Tail(es, ops, 0, |ops|, rest))
  }

  lemma {:induction false} TailSplit(es: seq<Tree>, ops: seq<Operator>, lo: nat, j: nat, hi: nat, rest: seq<Token>)
    requires |es| == |ops| + 1 && lo <= j <= hi <= |ops|
    ensures Tail(es, ops, lo, hi, rest) == Tail(es, ops, lo, j, Tail(es, ops, j, hi, rest))
    decreases j - lo
  {
    if lo < j { TailSplit(es, ops, lo + 1, j, hi, rest); }
  }

  // ---------------------------------------------------------------- that the parser groups so

  ghost predicate IsLeveled(o: Operator, p: nat) {
    Power(o.meaning) == p && 0 < p < POSTFIX
  }

  /** Binding powers for the operators, in their order. */
  ghost predicate Leveled(ops: seq<Operator>, ps: seq<nat>) {
    && |ps| == |ops|
    && (forall i {:trigger IsLeveled(ops[i], ps[i])} :: 0 <= i < |ops| ==> IsLeveled(ops[i], ps[i]))
    && (forall i, j :: 0 <= i < |ops| && 0 <= j < |ops| ==> (ps[i] < ps[j] <==> ops[i].tightness < ops[j].tightness))
  }

  lemma Levels(ops: seq<Operator>) returns (ps: seq<nat>)
    requires AllOperators(ops)
    ensures Leveled(ops, ps)
  {
    ps := seq(|ops|, i requires 0 <= i < |ops| => Power(ops[i].meaning));
    forall i | 0 <= i < |ops| ensures IsLeveled(ops[i], ps[i]) {
      OperatorIs(ops[i]);
    }
    forall i, j | 0 <= i < |ops| && 0 <= j < |ops| ensures ps[i] < ps[j] <==> ops[i].tightness < ops[j].tightness {
      OrderAgrees(ops[i], ops[j]);
    }
  }

  ghost predicate AtLeast(ps: seq<nat>, lo: nat, hi: nat, level: nat)
    requires hi <= |ps|
  {
    forall i :: lo <= i < hi ==> ps[i] >= level
  }

  lemma WeakestLevel(ops: seq<Operator>, ps: seq<nat>, lo: nat, hi: nat, level: nat)
    requires Leveled(ops, ps) && lo < hi <= |ops| && AtLeast(ps, lo, hi, level)
    ensures var k := Weakest(ops, lo, hi);
            IsLeveled(ops[k], ps[k]) && level <= ps[k] && AtLeast(ps, lo, k, ps[k] + 1) && AtLeast(ps, k + 1, hi, ps[k])
  {
    var k := Weakest(ops, lo, hi);
    WeakestIs(ops, lo, hi);
    assert IsLeveled(ops[k], ps[k]);
    forall i | lo <= i < hi ensures ps[i] >= ps[k] && (i < k ==> ps[i] > ps[k]) {
      assert ps[i] < ps[k] <==> ops[i].tightness < ops[k].tightness;
      assert ps[k] < ps[i] <==> ops[k].tightness < ops[i].tightness;
    }
  }

  ghost predicate AllOperands(es: seq<Tree>) {
    forall i :: 0 <= i < |es| ==> Proper(es[i], POSTFIX)
  }

  /** A grouped chain is in the grammar, at every level up to the operators'. */
  lemma {:induction false} GroupedProper(es: seq<Tree>, ops: seq<Operator>, ps: seq<nat>, lo: nat, hi: nat, level: nat)
    requires |es| == |ops| + 1 && AllOperands(es) && Leveled(ops, ps)
    requires lo <= hi <= |ops| && level <= POSTFIX && AtLeast(ps, lo, hi, level)
    ensures Proper(Grouped(es, ops, lo, hi), level)
    decreases hi - lo
  {
    if lo == hi {
      ProperLess(es[lo], POSTFIX, level);
    } else {
      var k := Weakest(ops, lo, hi);
      WeakestLevel(ops, ps, lo, hi, level);
      GroupedProper(es, ops, ps, lo, k, ps[k] + 1);
      GroupedProper(es, ops, ps, k + 1, hi, ps[k]);
      InfixProper(ops[k].meaning, Grouped(es, ops, lo, k), Grouped(es, ops, k + 1, hi), ps[k], level);
    }
  }

  lemma InfixProper(op: BinaryOp, l: Tree, r: Tree, p: nat, level: nat)
    requires Power(op) == p >= level && Proper(l, p + 1) && Proper(r, p)
    ensures Proper(Infix(op, l, r), level)
  {
  }

  ghost predicate IsSpelled(o: Operator) {
    TokenOf(o.meaning) == o.token
  }

  ghost predicate Spelled(ops: seq<Operator>) {
    forall i :: 0 <= i < |ops| ==> IsSpelled(ops[i])
  }

  lemma JoinedTokens(o: Operator, l: Tree, r: Tree, behind: seq<Token>, rest: seq<Token>)
    requires IsSpelled(o) && behind == [o.token] + Tokens(r, rest)
    ensures Tokens(Infix(o.meaning, l, r), rest) == Tokens(l, behind)
  {
  }

  /** Grouping changes no tokens. */
  lemma {:induction false} GroupedTokens(es: seq<Tree>, ops: seq<Operator>, lo: nat, hi: nat, rest: seq<Token>)
    requires |es| == |ops| + 1 && Spelled(ops) && lo <= hi <= |ops|
    ensures Tokens(Grouped(es, ops, lo, hi), rest) == Tokens(es[lo], Tail(es, ops, lo, hi, rest))
    decreases hi - lo
  {
    if lo < hi {
      var k := Weakest(ops, lo, hi);
      var l, r, behind := Grouped(es, ops, lo, k), Grouped(es, ops, k + 1, hi), Tail(es, ops, k, hi, rest);
      GroupedTokens(es, ops, k + 1, hi, rest);
      GroupedTokens(es, ops, lo, k, behind);
      TailSplit(es, ops, lo, k, hi, rest);
      JoinedTokens(ops[k], l, r, behind, rest);
    }
  }

  predicate EndsHere(rest: seq<Token>) {
    NoPostfix(rest) && (rest != [] ==> forall i :: 0 <= i < |OPERATORS| ==> OPERATORS[i].token != rest[0])
  }

  /** A chain of operands is read as it is grouped. */
  lemma ChainGroups(es: seq<Tree>, ops: seq<Operator>, rest: seq<Token>)
    requires IsChain(es, ops) && EndsHere(rest)
    ensures ParseBp(Chain(es, ops, rest), 0) == Ok(Denoted(Grouped(es, ops, 0, |ops|)), rest)
  {
    if rest != [] && BinaryOpOf(rest[0]).Some? { var i := OperatorAt(rest[0]); }
    GroupedReads(es, ops, rest);
  }

  lemma GroupedReads(es: seq<Tree>, ops: seq<Operator>, rest: seq<Token>)
    requires IsChain(es, ops) && NoPostfix(rest) && FirstPower(rest) == 0
    ensures ParseBp(Chain(es, ops, rest), 0) == Ok(Denoted(Grouped(es, ops, 0, |ops|)), rest)
  {
    var t := Grouped(es, ops, 0, |ops|);
    var ps := Levels(ops);
    forall i | 0 <= i < |ops| ensures ps[i] >= 1 && IsSpelled(ops[i]) {
      assert IsLeveled(ops[i], ps[i]);
      OperatorIs(ops[i]);
    }
    GroupedProper(es, ops, ps, 0, |ops|, 1);
    GroupedTokens(es, ops, 0, |ops|, rest);
    BpRead(t, 1, 0, rest);
    assert BpLoop(Denoted(t), rest, 0) == Ok(Denoted(t), rest);
  }

  /** An expression is a chain, or chains with equals signs between them: each sign assigns the chain behind it
      to all that comes before. */
  lemma AssignGroups(lhs: Expr, es: seq<Tree>, ops: seq<Operator>, rest: seq<Token>)
    requires IsChain(es, ops) && EndsHere(rest)
    ensures var e := Denoted(Grouped(es, ops, 0, |ops|));
            && ParseAssign(Chain(es, ops, rest)) == AssignLoop(e, rest)
            && AssignLoop(lhs, [Equal] + Chain(es, ops, rest)) == AssignLoop(Assign(lhs, e), rest)
            && (!Starts(rest, Equal) ==> AssignLoop(lhs, rest) == Ok(lhs, rest))
  {
    ChainGroups(es, ops, rest);
    assert ([Equal] + Chain(es, ops, rest))[1..] == Chain(es, ops, rest);
  }

  lemma TwoOperators(es: seq<Tree>, ops: seq<Operator>)
    requires |es| == 3 && |ops| == 2
    ensures Grouped(es, ops, 0, 2)
            == if ops[0].tightness > ops[1].tightness
               then Infix(ops[1].meaning, Infix(ops[0].meaning, es[0], es[1]), es[2])
               else Infix(ops[0].meaning, es[0], Infix(ops[1].meaning, es[1], es[2]))
  {
    assert Weakest(ops, 0, 2) == if ops[0].tightness <= ops[1].tightness then 0 else 1;
    assert Grouped(es, ops, 0, 1) == Infix(ops[0].meaning, es[0], es[1]);
    assert Grouped(es, ops, 1, 2) == Infix(ops[1].meaning, es[1], es[2]);
  }

  lemma InfixDenoted(op: BinaryOp, l: Tree, r: Tree)
    ensures Denoted(Infix(op, l, r)) == Binary(op, Denoted(l), Denoted(r))
  {
  }

  /** Of two operators the first takes the middle operand only if it binds more than the second. */
  lemma ThreeNumbers(a: nat, o: Operator, b: nat, q: Operator, c: nat)
    requires IsOperator(o) && IsOperator(q)
    ensures ParseAssign([Number(a), o.token, Number(b), q.token, Number(c)])
            == Ok(if o.tightness > q.tightness then Binary(q.meaning, Binary(o.meaning, IntLit(a), IntLit(b)), IntLit(c))
                  else Binary(o.meaning, IntLit(a), Binary(q.meaning, IntLit(b), IntLit(c))), [])
  {
    var es, ops := [Leaf(Number(a)), Leaf(Number(b)), Leaf(Number(c))], [o, q];
    AssignGroups(Unit, es, ops, []);
    TwoOperators(es, ops);
    ThreeTokens(es, ops);
    InfixDenoted(o.meaning, es[0], es[1]);
    InfixDenoted(q.meaning, es[1], es[2]);
    InfixDenoted(q.meaning, Infix(o.meaning, es[0], es[1]), es[2]);
    InfixDenoted(o.meaning, es[0], Infix(q.meaning, es[1], es[2]));
  }

  lemma ThreeTokens(es: seq<Tree>, ops: seq<Operator>)
    requires |es| == 3 && |ops| == 2 && es[0].Leaf? && es[1].Leaf? && es[2].Leaf?
    ensures Chain(es, ops, []) == [es[0].token, ops[0].token, es[1].token, ops[1].token, es[2].token]
  {
    assert Tail(es, ops, 2, 2, []) == [];
    assert Tail(es, ops, 1, 2, []) == [ops[1].token, es[2].token];
    assert Tail(es, ops, 0, 2, []) == [ops[0].token, es[1].token, ops[1].token, es[2].token];
  }
}
