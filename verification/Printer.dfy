/** A printer that uses parentheses only where they are needed, and that the parser inverts. */
module Printer {
  import opened Prelude
  import opened Parser
  import opened Grammar

  // ---------------------------------------------------------------- the printer

  /** How tightly the outermost construct of an expression binds. */
  function Level(e: Expr): nat {
    match e
    case Assign(_, _) => 0
    case Binary(op, _, _) => Power(op)
    case _ => POSTFIX
  }

  /** How an expression is written as an operand at a level: in parentheses only if it binds less. */
  function Shown(e: Expr, level: nat): Tree
    decreases e, 1
  {
    if Level(e) >= level then Bare(e) else Parens(Bare(e))
  }

  /** Equal powers group to the right, assignments to the left. */
  function Bare(e: Expr): Tree
    decreases e, 0
  {
    match e
    case IntLit(n) => Leaf(Number(n))
    case CharLit(c) => Leaf(CharLiteral(c))
    case StringLit(s) => Leaf(StringLiteral(s))
    case Path(x) => Leaf(Ident(x))
    case BoolLit(b) => Leaf(if b then True else False)
    case Panic => Leaf(PanicWord)
    case Unit => NoValue
    case Binary(op, l, r) => Infix(op, Shown(l, Power(op) + 1), Shown(r, Power(op)))
    case Assign(l, r) => Assigned(Shown(l, 0), Shown(r, 1))
    case Call(f, args) => Applied(Shown(f, POSTFIX), ShownAll(args), false)
    case MethodCall(x, name, args) => Method(Shown(x, POSTFIX), name, ShownAll(args), false)
    case Deref(x) => Pointed(Shown(x, POSTFIX))
    case Tuple(es) => if es == [] then NoValue else Group(Shown(es[0], 0), ShownAll(es[1..]), false)
  }

  function ShownAll(es: seq<Expr>): seq<Tree> {
    if es == [] then [] else [Shown(es[0], 0)] + ShownAll(es[1..])
  }

  /** The tokens of an expression as operand at the level, followed by the rest. */
  function Print(e: Expr, level: nat, rest: seq<Token>): seq<Token> {
    Tokens(Shown(e, level), rest)
  }

  /** Tuples have at least one field: none would be the unit expression. */
  predicate Printable(e: Expr) {
    match e
    case Binary(_, l, r) => Printable(l) && Printable(r)
    case Assign(l, r) => Printable(l) && Printable(r)
    case Call(f, args) => Printable(f) && forall i :: 0 <= i < |args| ==> Printable(args[i])
    case MethodCall(x, _, args) => Printable(x) && forall i :: 0 <= i < |args| ==> Printable(args[i])
    case Deref(x) => Printable(x)
    case Tuple(es) => es != [] && forall i :: 0 <= i < |es| ==> Printable(es[i])
    case _ => true
  }

  predicate AllPrintable(es: seq<Expr>) {
    forall i :: 0 <= i < |es| ==> Printable(es[i])
  }

  // ---------------------------------------------------------------- parsing undoes printing

  /** What is written is in the grammar and denotes the expression. */
  lemma {:induction false} ShownIs(e: Expr, level: nat)
    requires Printable(e) && level <= POSTFIX
    ensures Proper(Shown(e, level), level) && Denoted(Shown(e, level)) == e
    decreases e, 1
  {
    BareIs(e);
    if Level(e) >= level { ProperLess(Bare(e), Level(e), level); } else { ProperLess(Bare(e), Level(e), 0); }
  }

  lemma {:induction false} BareIs(e: Expr)
    requires Printable(e)
    ensures Proper(Bare(e), Level(e)) && Denoted(Bare(e)) == e
    decreases e, 0, 1
  {
    match e
    case Binary(_, _, _) => OperationIs(e);
    case Assign(_, _) => OperationIs(e);
    case Call(_, _) => CalledIs(e);
    case MethodCall(_, _, _) => CalledIs(e);
    case Deref(x) => ShownIs(x, POSTFIX);
    case Tuple(es) =>
      ShownIs(es[0], 0);
      ShownAllAre(es[1..]);
      TupleIs(Shown(es[0], 0), ShownAll(es[1..]), es);
    case _ =>
  }

  lemma {:induction false} OperationIs(e: Expr)
    requires Printable(e) && (e.Binary? || e.Assign?)
    ensures Proper(Bare(e), Level(e)) && Denoted(Bare(e)) == e
    decreases e, 0, 0
  {
    if e.Binary? {
      var p := Power(e.op);
      ShownIs(e.left, p + 1);
      ShownIs(e.right, p);
      BinaryIs(e.op, Shown(e.left, p + 1), Shown(e.right, p));
    } else {
      ShownIs(e.target, 0);
      ShownIs(e.source, 1);
      AssignIs(Shown(e.target, 0), Shown(e.source, 1));
    }
  }

  lemma {:induction false} CalledIs(e: Expr)
    requires Printable(e) && (e.Call? || e.MethodCall?)
    ensures Proper(Bare(e), POSTFIX) && Denoted(Bare(e)) == e
    decreases e, 0, 0
  {
    ShownAllAre(e.args);
    if e.Call? {
      ShownIs(e.callee, POSTFIX);
      CallIs(Shown(e.callee, POSTFIX), ShownAll(e.args), e.callee, e.args);
    } else {
      ShownIs(e.receiver, POSTFIX);
      MethodCallIs(Shown(e.receiver, POSTFIX), e.name, ShownAll(e.args), e.receiver, e.args);
    }
  }

  lemma BinaryIs(op: BinaryOp, l: Tree, r: Tree)
    requires Proper(l, Power(op) + 1) && Proper(r, Power(op))
    ensures Proper(Infix(op, l, r), Power(op)) && Denoted(Infix(op, l, r)) == Binary(op, Denoted(l), Denoted(r))
  {
  }

  lemma AssignIs(l: Tree, r: Tree)
    requires Proper(l, 0) && Proper(r, 1)
    ensures Proper(Assigned(l, r), 0) && Denoted(Assigned(l, r)) == Assign(Denoted(l), Denoted(r))
  {
  }

  lemma CallIs(f: Tree, args: seq<Tree>, e: Expr, es: seq<Expr>)
    requires Proper(f, POSTFIX) && AllProper(args) && Denoted(f) == e && DenotedAll(args) == es
    ensures Proper(Applied(f, args, false), POSTFIX) && Denoted(Applied(f, args, false)) == Call(e, es)
  {
    AppliedDenoted(f, args, false);
  }

  lemma MethodCallIs(x: Tree, name: string, args: seq<Tree>, e: Expr, es: seq<Expr>)
    requires Proper(x, POSTFIX) && AllProper(args) && Denoted(x) == e && DenotedAll(args) == es
    ensures Proper(Method(x, name, args, false), POSTFIX) && Denoted(Method(x, name, args, false)) == MethodCall(e, name, es)
  {
    MethodDenoted(x, name, args, false);
  }

  lemma TupleIs(first: Tree, others: seq<Tree>, es: seq<Expr>)
    requires es != [] && Proper(first, 0) && AllProper(others) && Denoted(first) == es[0] && DenotedAll(others) == es[1..]
    ensures Proper(Group(first, others, false), POSTFIX) && Denoted(Group(first, others, false)) == Expr.Tuple(es)
  {
    assert [es[0]] + es[1..] == es;
    assert Denoted(Group(first, others, false)) == Expr.Tuple([Denoted(first)] + DenotedAll(others));
  }

  lemma {:induction false} ShownAllAre(es: seq<Expr>)
    requires AllPrintable(es)
    ensures AllProper(ShownAll(es)) && DenotedAll(ShownAll(es)) == es
    decreases es
  {
    if es != [] {
      ShownIs(es[0], 0);
      ShownAllAre(es[1..]);
      assert ShownAll(es)[1..] == ShownAll(es[1..]);
      assert [es[0]] + es[1..] == es;
    }
  }

  /** After the tokens of an operand the parser has read that operand and goes on with its loop, at any
      binding power up to the operand's level. */
  lemma BpPrinted(e: Expr, level: nat, minBp: nat, rest: seq<Token>)
    requires Printable(e) && 1 <= level <= POSTFIX && minBp <= level
    requires NoPostfix(rest) && FirstPower(rest) < level
    ensures ParseBp(Print(e, level, rest), minBp) == BpLoop(e, rest, minBp)
  {
    ShownIs(e, level);
    BpRead(Shown(e, level), level, minBp, rest);
  }

  /** Parsing a printed expression gives the expression back and leaves what follows it. */
  lemma RoundTrip(e: Expr, rest: seq<Token>)
    requires Printable(e) && CannotGoOn(rest)
    ensures ParseAssign(Print(e, 0, rest)) == Ok(e, rest)
  {
    ShownIs(e, 0);
    AssignRead(Shown(e, 0), rest);
  }

  /** Without its parentheses an operand that binds too little is not read back. */
  lemma BareTooWeak(e: Expr, level: nat, rest: seq<Token>)
    requires Printable(e) && Level(e) < level <= POSTFIX && NoPostfix(rest) && FirstPower(rest) < level
    ensures ParseBp(Tokens(Bare(e), rest), level) != Ok(e, rest)
  {
    BareIs(e);
    ProperLess(Bare(e), Level(e), 0);
    TooWeak(Bare(e), level, rest);
  }
}
