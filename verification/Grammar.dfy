/** The grammar of expressions, and that the parser accepts exactly it. */
module Grammar {
  import opened Prelude
  import opened Parser

  // ---------------------------------------------------------------- the grammar

  /** An expression as it is written: parentheses may stand around anything, and a comma may end a list. */
  datatype Tree =
    | Leaf(token: Token)
    | NoValue
    | Parens(inner: Tree)
    | Infix(op: BinaryOp, left: Tree, right: Tree)
    | Assigned(target: Tree, source: Tree)
    | Applied(callee: Tree, args: seq<Tree>, coma: bool)
    | Method(receiver: Tree, name: string, args: seq<Tree>, coma: bool)
    | Pointed(pointer: Tree)
    | Group(first: Tree, others: seq<Tree>, coma: bool)

  /** The tokens of a tree, then the rest. */
  function Tokens(t: Tree, rest: seq<Token>): seq<Token> {
    match t
    case Leaf(token) => [token] + rest
    case NoValue => [LeftParen, RightParen] + rest
    case Parens(inner) => [LeftParen] + Tokens(inner, [RightParen] + rest)
    case Infix(op, l, r) => Tokens(l, [TokenOf(op)] + Tokens(r, rest))
    case Assigned(l, r) => Tokens(l, [Equal] + Tokens(r, rest))
    case Applied(f, args, coma) => Tokens(f, [LeftParen] + ListTokens(args, coma, rest))
    case Method(x, name, args, coma) => Tokens(x, [Arrow, Ident(name), LeftParen] + ListTokens(args, coma, rest))
    case Pointed(x) => Tokens(x, [Caret] + rest)
    case Group(first, others, coma) => [LeftParen] + Tokens(first, [Coma] + ListTokens(others, coma, rest))
  }

  /** Trees with commas between them, perhaps one behind them, and a right parenthesis. */
  function ListTokens(ts: seq<Tree>, coma: bool, rest: seq<Token>): seq<Token> {
    if ts == [] then [RightParen] + rest
    else if |ts| == 1 && !coma then Tokens(ts[0], [RightParen] + rest)
    else Tokens(ts[0], [Coma] + ListTokens(ts[1..], coma, rest))
  }

  function LeafExpr(token: Token): Option<Expr> {
    match token
    case Number(n) => Some(IntLit(n))
    case CharLiteral(c) => Some(CharLit(c))
    case StringLiteral(s) => Some(StringLit(s))
    case Ident(x) => Some(Path(x))
    case True => Some(BoolLit(true))
    case False => Some(BoolLit(false))
    case PanicWord => Some(Panic)
    case _ => None
  }

  /** What binds as much as an operand at the level, and its parts likewise: to the right of an operator stands what
      binds at least as much, and to the left what binds more. */
  predicate Proper(t: Tree, level: nat)
    decreases t
  {
    match t
    case Leaf(token) => LeafExpr(token).Some?
    case NoValue => true
    case Parens(inner) => Proper(inner, 0)
    case Infix(op, l, r) => Power(op) >= level && Proper(l, Power(op) + 1) && Proper(r, Power(op))
    case Assigned(l, r) => level == 0 && Proper(l, 0) && Proper(r, 1)
    case Applied(f, args, _) => Proper(f, POSTFIX) && forall i :: 0 <= i < |args| ==> Proper(args[i], 0)
    case Method(x, _, args, _) => Proper(x, POSTFIX) && forall i :: 0 <= i < |args| ==> Proper(args[i], 0)
    case Pointed(x) => Proper(x, POSTFIX)
    case Group(first, others, _) => Proper(first, 0) && forall i :: 0 <= i < |others| ==> Proper(others[i], 0)
  }

  function Denoted(t: Tree): Expr
    decreases t
  {
    match t
    case Leaf(token) => if LeafExpr(token).Some? then LeafExpr(token).value else Unit
    case NoValue => Unit
    case Parens(inner) => Denoted(inner)
    case Infix(op, l, r) => Binary(op, Denoted(l), Denoted(r))
    case Assigned(l, r) => Assign(Denoted(l), Denoted(r))
    case Applied(f, args, _) => Call(Denoted(f), DenotedAll(args))
    case Method(x, name, args, _) => MethodCall(Denoted(x), name, DenotedAll(args))
    case Pointed(x) => Deref(Denoted(x))
    case Group(first, others, _) => Expr.Tuple([Denoted(first)] + DenotedAll(others))
  }

  function DenotedAll(ts: seq<Tree>): seq<Expr> {
    if ts == [] then [] else [Denoted(ts[0])] + DenotedAll(ts[1..])
  }

  predicate AllProper(ts: seq<Tree>) {
    forall i :: 0 <= i < |ts| ==> Proper(ts[i], 0)
  }

  /** Nothing with which an expression could go on. */
  predicate CannotGoOn(rest: seq<Token>) {
    NoPostfix(rest) && FirstPower(rest) == 0 && !Starts(rest, Equal)
  }

  // ---------------------------------------------------------------- what is parsed is in the grammar

  lemma {:induction false} ProperLess(t: Tree, level: nat, lower: nat)
    requires Proper(t, level) && lower <= level
    ensures Proper(t, lower)
  {
  }

  lemma {:induction false} AssignTree(ts: seq<Token>) returns (t: Tree)
    requires ParseAssign(ts).Ok?
    ensures var r := ParseAssign(ts); Denoted(t) == r.value && Tokens(t, r.rest) == ts && Proper(t, 0) && CannotGoOn(r.rest)
    decreases |ts|, 4
  {
    var l := BpTree(ts, 0);
    var r := ParseBp(ts, 0);
    t := AssignLoopTree(l, r.rest);
  }

  lemma {:induction false} AssignLoopTree(l: Tree, ts: seq<Token>) returns (t: Tree)
    requires AssignLoop(Denoted(l), ts).Ok? && Proper(l, 0) && NoPostfix(ts) && FirstPower(ts) == 0
    ensures var r := AssignLoop(Denoted(l), ts);
            Denoted(t) == r.value && Tokens(t, r.rest) == Tokens(l, ts) && Proper(t, 0) && CannotGoOn(r.rest)
    decreases |ts|, 0
  {
    if Starts(ts, Equal) {
      var source := BpTree(ts[1..], 0);
      var r := ParseBp(ts[1..], 0);
      ProperLess(source, 1, 0);
      assert ts == [Equal] + ts[1..];
      t := AssignLoopTree(Assigned(l, source), r.rest);
    } else {
      t := l;
    }
  }

  lemma {:induction false} BpTree(ts: seq<Token>, minBp: nat) returns (t: Tree)
    requires ParseBp(ts, minBp).Ok?
    ensures var r := ParseBp(ts, minBp); Denoted(t) == r.value && Tokens(t, r.rest) == ts
    ensures Proper(t, minBp) && Proper(t, 1)
    ensures var rest := ParseBp(ts, minBp).rest; NoPostfix(rest) && (FirstPower(rest) == 0 || FirstPower(rest) < minBp)
    decreases |ts|, 3
  {
    var l := PostfixTree(ts);
    t := BpLoopTree(l, ParsePostfix(ts).rest, minBp);
  }

  lemma {:induction false} BpLoopTree(l: Tree, ts: seq<Token>, minBp: nat) returns (t: Tree)
    requires BpLoop(Denoted(l), ts, minBp).Ok? && NoPostfix(ts)
    requires Proper(l, minBp) && Proper(l, FirstPower(ts) + 1)
    ensures var r := BpLoop(Denoted(l), ts, minBp); Denoted(t) == r.value && Tokens(t, r.rest) == Tokens(l, ts)
    ensures Proper(t, minBp) && Proper(t, 1)
    ensures var rest := BpLoop(Denoted(l), ts, minBp).rest; NoPostfix(rest) && (FirstPower(rest) == 0 || FirstPower(rest) < minBp)
    decreases |ts|, 0
  {
    if ts != [] && BinaryOpOf(ts[0]).Some? && BinaryOpOf(ts[0]).value.0 >= minBp {
      var (bp, op) := BinaryOpOf(ts[0]).value;
      OperatorToken(ts[0]);
      var right := BpTree(ts[1..], bp);
      var r := ParseBp(ts[1..], bp);
      assert ts == [TokenOf(op)] + ts[1..];
      t := BpLoopTree(Infix(op, l, right), r.rest, minBp);
    } else {
      t := l;
      ProperLess(l, FirstPower(ts) + 1, 1);
    }
  }

  lemma OperatorToken(token: Token)
    requires BinaryOpOf(token).Some?
    ensures var (bp, op) := BinaryOpOf(token).value; TokenOf(op) == token && Power(op) == bp && bp > 0
  {
  }

  lemma {:induction false} PostfixTree(ts: seq<Token>) returns (t: Tree)
    requires ParsePostfix(ts).Ok?
    ensures var r := ParsePostfix(ts);
            Denoted(t) == r.value && Tokens(t, r.rest) == ts && ProperAnywhere(t) && NoPostfix(r.rest)
    decreases |ts|, 2
  {
    var l := PrefixTree(ts);
    t := TailTree(l, ParsePrefix(ts).rest);
  }

  ghost predicate ProperAnywhere(t: Tree) {
    forall level: nat :: Proper(t, level)
  }

  lemma AppliedTokens(l: Tree, ts: seq<Token>, args: seq<Tree>, coma: bool, rest: seq<Token>)
    requires Starts(ts, LeftParen) && ListTokens(args, coma, rest) == ts[1..]
    ensures Tokens(Applied(l, args, coma), rest) == Tokens(l, ts)
  {
    assert ts == [LeftParen] + ts[1..];
  }

  lemma AppliedDenoted(l: Tree, args: seq<Tree>, coma: bool)
    ensures Denoted(Applied(l, args, coma)) == Call(Denoted(l), DenotedAll(args))
  {
  }

  lemma MethodDenoted(l: Tree, name: string, args: seq<Tree>, coma: bool)
    ensures Denoted(Method(l, name, args, coma)) == MethodCall(Denoted(l), name, DenotedAll(args))
  {
  }

  lemma MethodTokens(l: Tree, ts: seq<Token>, name: string, args: seq<Tree>, coma: bool, rest: seq<Token>)
    requires |ts| > 2 && ts[0] == Arrow && ts[1] == Ident(name) && ts[2] == LeftParen && ListTokens(args, coma, rest) == ts[3..]
    ensures Tokens(Method(l, name, args, coma), rest) == Tokens(l, ts)
  {
    assert ts == [Arrow, Ident(name), LeftParen] + ts[3..];
  }

  /** After the tree the parser has come to r. */
  ghost predicate Written(t: Tree, ts: seq<Token>, r: Parsed<Expr>) {
    r.Ok? && Denoted(t) == r.value && Tokens(t, r.rest) == ts
  }

  ghost predicate WrittenAll(trees: seq<Tree>, coma: bool, ts: seq<Token>, r: Parsed<seq<Expr>>) {
    r.Ok? && DenotedAll(trees) == r.value && ListTokens(trees, coma, r.rest) == ts && AllProper(trees)
  }

  lemma {:induction false} TailTree(l: Tree, ts: seq<Token>) returns (t: Tree)
    requires PostfixTail(Denoted(l), ts).Ok? && ProperAnywhere(l)
    ensures Written(t, Tokens(l, ts), PostfixTail(Denoted(l), ts)) && ProperAnywhere(t) && NoPostfix(PostfixTail(Denoted(l), ts).rest)
    decreases |ts|, 0, 1
  {
    if Starts(ts, LeftParen) {
      t := AppliedTree(l, ts);
    } else if Starts(ts, Caret) {
      t := PointedTree(l, ts);
    } else if Starts(ts, Arrow) {
      t := MethodTree(l, ts);
    } else {
      t := l;
    }
  }

  lemma {:induction false} AppliedTree(l: Tree, ts: seq<Token>) returns (t: Tree)
    requires PostfixTail(Denoted(l), ts).Ok? && ProperAnywhere(l) && Starts(ts, LeftParen)
    ensures Written(t, Tokens(l, ts), PostfixTail(Denoted(l), ts)) && ProperAnywhere(t) && NoPostfix(PostfixTail(Denoted(l), ts).rest)
    decreases |ts|, 0, 0
  {
    var r := ParseArgs(ts[1..]);
    var args, coma := ListTree(ts[1..]);
    AppliedTokens(l, ts, args, coma, r.rest);
    var l' := Applied(l, args, coma);
    assert WrittenAll(args, coma, ts[1..], r);
    assert ProperAnywhere(l') by { assert Proper(l, POSTFIX); }
    AppliedDenoted(l, args, coma);
    t := TailTree(l', r.rest);
  }

  lemma {:induction false} PointedTree(l: Tree, ts: seq<Token>) returns (t: Tree)
    requires PostfixTail(Denoted(l), ts).Ok? && ProperAnywhere(l) && Starts(ts, Caret)
    ensures Written(t, Tokens(l, ts), PostfixTail(Denoted(l), ts)) && ProperAnywhere(t) && NoPostfix(PostfixTail(Denoted(l), ts).rest)
    decreases |ts|, 0, 0
  {
    assert ts == [Caret] + ts[1..];
    t := TailTree(Pointed(l), ts[1..]);
  }

  lemma {:induction false} MethodTree(l: Tree, ts: seq<Token>) returns (t: Tree)
    requires PostfixTail(Denoted(l), ts).Ok? && ProperAnywhere(l) && Starts(ts, Arrow)
    ensures Written(t, Tokens(l, ts), PostfixTail(Denoted(l), ts)) && ProperAnywhere(t) && NoPostfix(PostfixTail(Denoted(l), ts).rest)
    decreases |ts|, 0, 0
  {
    var r := ParseArgs(ts[3..]);
    var args, coma := ListTree(ts[3..]);
    MethodTokens(l, ts, ts[1].name, args, coma, r.rest);
    var l' := Method(l, ts[1].name, args, coma);
    assert WrittenAll(args, coma, ts[3..], r);
    assert ProperAnywhere(l') by { assert Proper(l, POSTFIX); }
    MethodDenoted(l, ts[1].name, args, coma);
    t := TailTree(l', r.rest);
  }

  lemma {:induction false} PrefixTree(ts: seq<Token>) returns (t: Tree)
    requires ParsePrefix(ts).Ok?
    ensures var r := ParsePrefix(ts); Denoted(t) == r.value && Tokens(t, r.rest) == ts && ProperAnywhere(t)
    decreases |ts|, 1
  {
    if ts[0].LeftParen? {
      t := ParenTree(ts[1..]);
      assert ts == [LeftParen] + ts[1..];
    } else {
      t := Leaf(ts[0]);
      assert ts == [ts[0]] + ts[1..];
    }
  }

  lemma {:induction false} ParenTree(ts: seq<Token>) returns (t: Tree)
    requires ParseParen(ts).Ok?
    ensures Written(t, [LeftParen] + ts, ParseParen(ts)) && ProperAnywhere(t)
    decreases |ts|, 6
  {
    if Starts(ts, RightParen) {
      t := NoValue;
      assert ts == [RightParen] + ts[1..];
    } else {
      var first := AssignTree(ts);
      t := ParensTree(first, ts, ParseAssign(ts).value, ParseAssign(ts).rest);
    }
  }

  /** What follows the first expression in parentheses. */
  lemma {:induction false} ParensTree(first: Tree, ts: seq<Token>, e: Expr, rest: seq<Token>) returns (t: Tree)
    requires !Starts(ts, RightParen) && ParseAssign(ts) == Ok(e, rest) && ParseParen(ts).Ok?
    requires Written(first, ts, ParseAssign(ts)) && Proper(first, 0)
    ensures Written(t, [LeftParen] + ts, ParseParen(ts)) && ProperAnywhere(t)
    decreases |ts|, 5
  {
    if Starts(rest, RightParen) {
      t := Parens(first);
      assert rest == [RightParen] + rest[1..];
    } else {
      var others, coma := ListTree(rest[1..]);
      t := Group(first, others, coma);
      GroupTokens(first, rest, others, coma, ParseArgs(rest[1..]).rest);
    }
  }

  lemma GroupTokens(first: Tree, ts: seq<Token>, others: seq<Tree>, coma: bool, rest: seq<Token>)
    requires Starts(ts, Coma) && ListTokens(others, coma, rest) == ts[1..]
    ensures Tokens(Group(first, others, coma), rest) == [LeftParen] + Tokens(first, ts)
  {
    assert ts == [Coma] + ts[1..];
  }

  lemma {:induction false} ListTree(ts: seq<Token>) returns (trees: seq<Tree>, coma: bool)
    requires ParseArgs(ts).Ok?
    ensures WrittenAll(trees, coma, ts, ParseArgs(ts))
    decreases |ts|, 6
  {
    if Starts(ts, RightParen) {
      trees, coma := [], true;
      assert ts == [RightParen] + ts[1..];
    } else {
      var first := AssignTree(ts);
      trees, coma := RestTree(first, ts, ParseAssign(ts).value, ParseAssign(ts).rest);
    }
  }

  /** What follows the first expression of a list. */
  lemma {:induction false} RestTree(first: Tree, ts: seq<Token>, e: Expr, rest: seq<Token>) returns (trees: seq<Tree>, coma: bool)
    requires !Starts(ts, RightParen) && ParseAssign(ts) == Ok(e, rest) && ParseArgs(ts).Ok?
    requires Written(first, ts, ParseAssign(ts)) && Proper(first, 0)
    ensures WrittenAll(trees, coma, ts, ParseArgs(ts))
    decreases |ts|, 5
  {
    if Starts(rest, Coma) {
      var others, c := ListTree(rest[1..]);
      trees, coma := [first] + others, others == [] || c;
      ListMore(first, rest, others, c, ParseArgs(rest[1..]).rest);
    } else {
      trees, coma := [first], false;
      ListOne(first, rest);
    }
  }

  lemma ListMore(first: Tree, ts: seq<Token>, others: seq<Tree>, coma: bool, rest: seq<Token>)
    requires Starts(ts, Coma) && ListTokens(others, coma, rest) == ts[1..]
    ensures ListTokens([first] + others, others == [] || coma, rest) == Tokens(first, ts)
    ensures DenotedAll([first] + others) == [Denoted(first)] + DenotedAll(others)
  {
    assert ([first] + others)[1..] == others;
    assert ts == [Coma] + ts[1..];
  }

  lemma ListOne(first: Tree, ts: seq<Token>)
    requires Starts(ts, RightParen)
    ensures ListTokens([first], false, ts[1..]) == Tokens(first, ts)
    ensures DenotedAll([first]) == [Denoted(first)]
  {
    assert ts == [RightParen] + ts[1..];
    assert [first][1..] == [];
  }

  // ---------------------------------------------------------------- what is in the grammar is parsed

  lemma {:induction false} TreeStarts(t: Tree, level: nat, rest: seq<Token>)
    requires Proper(t, level)
    ensures Tokens(t, rest) != [] && !Starts(Tokens(t, rest), RightParen)
    decreases t
  {
    match t
    case Infix(op, l, r) => TreeStarts(l, Power(op) + 1, [TokenOf(op)] + Tokens(r, rest));
    case Assigned(l, r) => TreeStarts(l, 0, [Equal] + Tokens(r, rest));
    case Applied(f, args, coma) => TreeStarts(f, POSTFIX, [LeftParen] + ListTokens(args, coma, rest));
    case Method(x, name, args, coma) => TreeStarts(x, POSTFIX, [Arrow, Ident(name), LeftParen] + ListTokens(args, coma, rest));
    case Pointed(x) => TreeStarts(x, POSTFIX, [Caret] + rest);
    case _ =>
  }

  lemma LeafRead(token: Token, rest: seq<Token>)
    requires LeafExpr(token).Some?
    ensures ParsePrefix([token] + rest) == Ok(LeafExpr(token).value, rest)
  {
    assert ([token] + rest)[1..] == rest;
  }

  lemma NoValueRead(rest: seq<Token>)
    ensures ParsePrefix([LeftParen, RightParen] + rest) == Ok(Unit, rest)
  {
    assert ([LeftParen, RightParen] + rest)[1..] == [RightParen] + rest;
    assert ([RightParen] + rest)[1..] == rest;
  }

  lemma DerefTail(x: Expr, rest: seq<Token>)
    ensures PostfixTail(x, [Caret] + rest) == PostfixTail(Deref(x), rest)
  {
    assert ([Caret] + rest)[1..] == rest;
  }

  lemma ParenRead(e: Expr, inner: seq<Token>, rest: seq<Token>)
    requires !Starts(inner, RightParen) && ParseAssign(inner) == AssignLoop(e, [RightParen] + rest)
    ensures ParsePrefix([LeftParen] + inner) == Ok(e, rest)
  {
    assert ([LeftParen] + inner)[1..] == inner;
    assert AssignLoop(e, [RightParen] + rest) == Ok(e, [RightParen] + rest);
    assert ([RightParen] + rest)[1..] == rest;
  }

  lemma GroupRead(ts: seq<Token>, e: Expr, us: seq<Token>, es: seq<Expr>, rest: seq<Token>)
    requires !Starts(ts, RightParen) && ParseAssign(ts) == AssignLoop(e, [Coma] + us) && ParseArgs(us) == Ok(es, rest)
    ensures ParsePrefix([LeftParen] + ts) == Ok(Expr.Tuple([e] + es), rest)
  {
    assert ([LeftParen] + ts)[1..] == ts;
    assert AssignLoop(e, [Coma] + us) == Ok(e, [Coma] + us);
    assert ([Coma] + us)[1..] == us;
    assert ParseParen(ts) == Ok(Expr.Tuple([e] + es), rest);
  }

  /** A tree that is no operation or assignment is read whatever follows. */
  lemma {:induction false} PostfixRead(t: Tree, rest: seq<Token>)
    requires Proper(t, POSTFIX)
    ensures ParsePostfix(Tokens(t, rest)) == PostfixTail(Denoted(t), rest)
    decreases t, 1
  {
    match t
    case Leaf(token) => LeafRead(token, rest);
    case NoValue => NoValueRead(rest);
    case Parens(inner) =>
      TreeStarts(inner, 0, [RightParen] + rest);
      AssignRead(inner, [RightParen] + rest);
      ParenRead(Denoted(inner), Tokens(inner, [RightParen] + rest), rest);
    case Applied(f, args, coma) => AppliedRead(t, rest);
    case Method(x, name, args, coma) => MethodRead(t, rest);
    case Pointed(x) =>
      PostfixRead(x, [Caret] + rest);
      DerefTail(Denoted(x), rest);
    case Group(first, others, coma) =>
      var us := ListTokens(others, coma, rest);
      TreeStarts(first, 0, [Coma] + us);
      AssignRead(first, [Coma] + us);
      ListRead(others, coma, rest);
      GroupRead(Tokens(first, [Coma] + us), Denoted(first), us, DenotedAll(others), rest);
    case _ =>
  }

  lemma {:induction false} AppliedRead(t: Tree, rest: seq<Token>)
    requires t.Applied? && Proper(t, POSTFIX)
    ensures ParsePostfix(Tokens(t, rest)) == PostfixTail(Denoted(t), rest)
    decreases t, 0
  {
    var us := ListTokens(t.args, t.coma, rest);
    PostfixRead(t.callee, [LeftParen] + us);
    ListRead(t.args, t.coma, rest);
    AppliedTail(Denoted(t.callee), us, DenotedAll(t.args), rest);
    AppliedDenoted(t.callee, t.args, t.coma);
  }

  lemma AppliedTail(e: Expr, us: seq<Token>, args: seq<Expr>, rest: seq<Token>)
    requires ParseArgs(us) == Ok(args, rest)
    ensures PostfixTail(e, [LeftParen] + us) == PostfixTail(Call(e, args), rest)
  {
    assert ([LeftParen] + us)[1..] == us;
  }

  lemma {:induction false} MethodRead(t: Tree, rest: seq<Token>)
    requires t.Method? && Proper(t, POSTFIX)
    ensures ParsePostfix(Tokens(t, rest)) == PostfixTail(Denoted(t), rest)
    decreases t, 0
  {
    var us := ListTokens(t.args, t.coma, rest);
    PostfixRead(t.receiver, [Arrow, Ident(t.name), LeftParen] + us);
    ListRead(t.args, t.coma, rest);
    MethodTail(Denoted(t.receiver), t.name, us, DenotedAll(t.args), rest);
    MethodDenoted(t.receiver, t.name, t.args, t.coma);
  }

  lemma MethodTail(e: Expr, name: string, us: seq<Token>, args: seq<Expr>, rest: seq<Token>)
    requires ParseArgs(us) == Ok(args, rest)
    ensures PostfixTail(e, [Arrow, Ident(name), LeftParen] + us) == PostfixTail(MethodCall(e, name, args), rest)
  {
    var ts := [Arrow, Ident(name), LeftParen] + us;
    assert ts[0] == Arrow && ts[1] == Ident(name) && ts[2] == LeftParen && ts[3..] == us;
  }

  lemma InfixRead(l: Expr, op: BinaryOp, ts: seq<Token>, minBp: nat, r: Expr, rest: seq<Token>)
    requires minBp <= Power(op) && ParseBp(ts, Power(op)) == Ok(r, rest)
    ensures BpLoop(l, [TokenOf(op)] + ts, minBp) == BpLoop(Binary(op, l, r), rest, minBp)
  {
    assert ([TokenOf(op)] + ts)[1..] == ts;
  }

  /** A tree is read at any binding power up to its level, and then the loop goes on. */
  lemma {:induction false} BpRead(t: Tree, level: nat, minBp: nat, rest: seq<Token>)
    requires Proper(t, level) && 1 <= level <= POSTFIX && minBp <= level
    requires NoPostfix(rest) && FirstPower(rest) < level
    ensures ParseBp(Tokens(t, rest), minBp) == BpLoop(Denoted(t), rest, minBp)
    decreases t, 2
  {
    if t.Infix? {
      var p := Power(t.op);
      OperatorTail(t.op, Tokens(t.right, rest));
      BpRead(t.left, p + 1, minBp, [TokenOf(t.op)] + Tokens(t.right, rest));
      BpRead(t.right, p, p, rest);
      assert BpLoop(Denoted(t.right), rest, p) == Ok(Denoted(t.right), rest);
      InfixRead(Denoted(t.left), t.op, Tokens(t.right, rest), minBp, Denoted(t.right), rest);
    } else {
      PostfixRead(t, rest);
    }
  }

  lemma {:induction false} AssignRead(t: Tree, rest: seq<Token>)
    requires Proper(t, 0) && NoPostfix(rest) && FirstPower(rest) == 0
    ensures ParseAssign(Tokens(t, rest)) == AssignLoop(Denoted(t), rest)
    decreases t, 3
  {
    if t.Assigned? {
      var us := Tokens(t.source, rest);
      AssignRead(t.target, [Equal] + us);
      BpRead(t.source, 1, 0, rest);
      assert ([Equal] + us)[1..] == us;
    } else {
      BpRead(t, 1, 0, rest);
    }
  }

  lemma {:induction false} ListRead(ts: seq<Tree>, coma: bool, rest: seq<Token>)
    requires AllProper(ts)
    ensures ParseArgs(ListTokens(ts, coma, rest)) == Ok(DenotedAll(ts), rest)
    decreases ts
  {
    if ts == [] {
      assert ([RightParen] + rest)[1..] == rest;
    } else if |ts| == 1 && !coma {
      TreeStarts(ts[0], 0, [RightParen] + rest);
      AssignRead(ts[0], [RightParen] + rest);
      LastRead(Tokens(ts[0], [RightParen] + rest), Denoted(ts[0]), rest);
      assert ts[1..] == [] && DenotedAll(ts) == [Denoted(ts[0])];
    } else {
      var us := ListTokens(ts[1..], coma, rest);
      TreeStarts(ts[0], 0, [Coma] + us);
      AssignRead(ts[0], [Coma] + us);
      ListRead(ts[1..], coma, rest);
      MoreRead(Tokens(ts[0], [Coma] + us), Denoted(ts[0]), us, DenotedAll(ts[1..]), rest);
    }
  }

  lemma LastRead(ts: seq<Token>, e: Expr, rest: seq<Token>)
    requires !Starts(ts, RightParen) && ParseAssign(ts) == AssignLoop(e, [RightParen] + rest)
    ensures ParseArgs(ts) == Ok([e], rest)
  {
    assert AssignLoop(e, [RightParen] + rest) == Ok(e, [RightParen] + rest);
    assert ([RightParen] + rest)[1..] == rest;
  }

  lemma MoreRead(ts: seq<Token>, e: Expr, us: seq<Token>, es: seq<Expr>, rest: seq<Token>)
    requires !Starts(ts, RightParen) && ParseAssign(ts) == AssignLoop(e, [Coma] + us) && ParseArgs(us) == Ok(es, rest)
    ensures ParseArgs(ts) == Ok([e] + es, rest)
  {
    assert AssignLoop(e, [Coma] + us) == Ok(e, [Coma] + us);
    assert ([Coma] + us)[1..] == us;
  }

  // ---------------------------------------------------------------- what binds too little

  lemma {:induction false} TokensLonger(t: Tree, rest: seq<Token>)
    ensures |Tokens(t, rest)| > |rest|
    decreases t
  {
    match t
    case Parens(inner) => TokensLonger(inner, [RightParen] + rest);
    case Infix(op, l, r) =>
      TokensLonger(l, [TokenOf(op)] + Tokens(r, rest));
      TokensLonger(r, rest);
    case Assigned(l, r) =>
      TokensLonger(l, [Equal] + Tokens(r, rest));
      TokensLonger(r, rest);
    case Applied(f, args, coma) =>
      TokensLonger(f, [LeftParen] + ListTokens(args, coma, rest));
      ListLonger(args, coma, rest);
    case Method(x, name, args, coma) =>
      TokensLonger(x, [Arrow, Ident(name), LeftParen] + ListTokens(args, coma, rest));
      ListLonger(args, coma, rest);
    case Pointed(x) => TokensLonger(x, [Caret] + rest);
    case Group(first, others, coma) =>
      TokensLonger(first, [Coma] + ListTokens(others, coma, rest));
      ListLonger(others, coma, rest);
    case _ =>
  }

  lemma {:induction false} ListLonger(ts: seq<Tree>, coma: bool, rest: seq<Token>)
    ensures |ListTokens(ts, coma, rest)| > |rest|
    decreases ts
  {
    if |ts| == 1 && !coma {
      TokensLonger(ts[0], [RightParen] + rest);
    } else if ts != [] {
      ListLonger(ts[1..], coma, rest);
      TokensLonger(ts[0], [Coma] + ListTokens(ts[1..], coma, rest));
    }
  }

  /** Read at a higher binding power than its own, a tree is read at most to its end. */
  lemma {:induction false} ReadsNoFurther(t: Tree, level: nat, minBp: nat, rest: seq<Token>)
    requires Proper(t, level) && level <= minBp <= POSTFIX && 1 <= minBp
    requires NoPostfix(rest) && FirstPower(rest) < minBp && (level > 0 ==> FirstPower(rest) < level)
    requires level == 0 ==> FirstPower(rest) == 0
    ensures var r := ParseBp(Tokens(t, rest), minBp); r.Ok? && |r.rest| >= |rest|
    decreases t
  {
    if t.Assigned? {
      var tail := [Equal] + Tokens(t.source, rest);
      TokensLonger(t.source, rest);
      ReadsNoFurther(t.target, 0, minBp, tail);
    } else if t.Infix? && Power(t.op) < minBp {
      var tail := [TokenOf(t.op)] + Tokens(t.right, rest);
      OperatorTail(t.op, Tokens(t.right, rest));
      TokensLonger(t.right, rest);
      ReadsNoFurther(t.left, Power(t.op) + 1, minBp, tail);
    } else {
      BpRead(t, if t.Infix? then Power(t.op) else POSTFIX, minBp, rest);
    }
  }

  /** An operation or assignment that binds less than the level is not read there without parentheses. */
  lemma TooWeak(t: Tree, level: nat, rest: seq<Token>)
    requires Proper(t, 0) && (t.Assigned? || (t.Infix? && Power(t.op) < level)) && 1 <= level <= POSTFIX
    requires NoPostfix(rest) && FirstPower(rest) < level
    ensures ParseBp(Tokens(t, rest), level) != Ok(Denoted(t), rest)
  {
    if t.Infix? {
      OperatorTail(t.op, Tokens(t.right, rest));
      ReadsNoFurther(t.left, Power(t.op) + 1, level, [TokenOf(t.op)] + Tokens(t.right, rest));
      TokensLonger(t.right, rest);
    } else {
      ReadsNoFurther(t.target, 0, level, [Equal] + Tokens(t.source, rest));
      TokensLonger(t.source, rest);
    }
  }

  /** The parser gives an expression and what is left exactly if the tokens are those of a tree of the grammar
      that denotes the expression, and then what is left, with which no expression could go on. */
  lemma GrammarExactly(ts: seq<Token>, e: Expr, rest: seq<Token>)
    ensures ParseAssign(ts) == Ok(e, rest)
            <==> CannotGoOn(rest) && exists t: Tree :: Proper(t, 0) && Denoted(t) == e && Tokens(t, rest) == ts
  {
    if ParseAssign(ts) == Ok(e, rest) {
      var t := AssignTree(ts);
    }
    if CannotGoOn(rest) {
      forall t: Tree | Proper(t, 0) && Denoted(t) == e && Tokens(t, rest) == ts ensures ParseAssign(ts) == Ok(e, rest) {
        AssignRead(t, rest);
      }
    }
  }
}
