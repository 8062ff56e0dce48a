/** The precedence-climbing expression parser, and a printer that it inverts. */
module Parser {
  import opened Prelude

  datatype Token =
    | Slash | Star | Band | Plus | Minus | Bor | Lesser | Greater | DoubleEqual | And | Or
    | Equal | LeftParen | RightParen | Coma | Caret | Arrow | Semicolon
    | Number(value: nat) | CharLiteral(c: char) | StringLiteral(text: string) | Ident(name: string)
    | True | False | PanicWord

  datatype BinaryOp =
    | Divide | Multiply | BitAnd | Add | Subtract | BitOr | Less | More | Equals | Both | Either

  datatype Expr =
    | IntLit(value: nat) | CharLit(c: char) | StringLit(text: string) | Path(name: string)
    | BoolLit(b: bool) | Panic | Unit
    | Binary(op: BinaryOp, left: Expr, right: Expr)
    | Assign(target: Expr, source: Expr)
    | Call(callee: Expr, args: seq<Expr>)
    | MethodCall(receiver: Expr, name: string, args: seq<Expr>)
    | Deref(pointer: Expr)
    | Tuple(fields: seq<Expr>)

  /** The binding power of a token and its operator, if it is one. */
  function BinaryOpOf(t: Token): Option<(nat, BinaryOp)> {
    match t
    case Slash => Some((40, Divide))
    case Star => Some((40, Multiply))
    case Band => Some((40, BitAnd))
    case Plus => Some((35, Add))
    case Minus => Some((35, Subtract))
    case Bor => Some((35, BitOr))
    case Lesser => Some((20, Less))
    case Greater => Some((20, More))
    case DoubleEqual => Some((10, Equals))
    case And => Some((2, Both))
    case Or => Some((1, Either))
    case _ => None
  }

  /** An expression or a list of them and the tokens left, or an error. */
  datatype Parsed<T> = Ok(value: T, rest: seq<Token>) | Err

  datatype ParseAction = Stop | Continue

  predicate Starts(ts: seq<Token>, t: Token) {
    ts != [] && ts[0] == t
  }

  // ---------------------------------------------------------------- what is parsed

  function ParseAssign(ts: seq<Token>): (r: Parsed<Expr>)
    ensures r.Ok? ==> |r.rest| < |ts|
    decreases |ts|, 4
  {
    match ParseBp(ts, 0)
    case Err => Err
    case Ok(lhs, rest) => AssignLoop(lhs, rest)
  }

  function AssignLoop(lhs: Expr, ts: seq<Token>): (r: Parsed<Expr>)
    ensures r.Ok? ==> |r.rest| <= |ts|
    decreases |ts|, 0
  {
    if Starts(ts, Equal) then
      match ParseBp(ts[1..], 0)
      case Err => Err
      case Ok(rhs, rest) => AssignLoop(Assign(lhs, rhs), rest)
    else Ok(lhs, ts)
  }

  function ParseBp(ts: seq<Token>, minBp: nat): (r: Parsed<Expr>)
    ensures r.Ok? ==> |r.rest| < |ts|
    decreases |ts|, 3
  {
    match ParsePostfix(ts)
    case Err => Err
    case Ok(e, rest) => BpLoop(e, rest, minBp)
  }

  function BpLoop(lhs: Expr, ts: seq<Token>, minBp: nat): (r: Parsed<Expr>)
    ensures r.Ok? ==> |r.rest| <= |ts|
    decreases |ts|, 0
  {
    if ts != [] && BinaryOpOf(ts[0]).Some? && BinaryOpOf(ts[0]).value.0 >= minBp then
      var (bp, op) := BinaryOpOf(ts[0]).value;
      match ParseBp(ts[1..], bp)
      case Err => Err
      case Ok(rhs, rest) => BpLoop(Binary(op, lhs, rhs), rest, minBp)
    else Ok(lhs, ts)
  }

  function ParsePostfix(ts: seq<Token>): (r: Parsed<Expr>)
    ensures r.Ok? ==> |r.rest| < |ts|
    decreases |ts|, 2
  {
    match ParsePrefix(ts)
    case Err => Err
    case Ok(e, rest) => PostfixTail(e, rest)
  }

  function PostfixTail(e: Expr, ts: seq<Token>): (r: Parsed<Expr>)
    ensures r.Ok? ==> |r.rest| <= |ts|
    decreases |ts|, 0
  {
    if Starts(ts, LeftParen) then
      match ParseArgs(ts[1..])
      case Err => Err
      case Ok(args, rest) => PostfixTail(Call(e, args), rest)
    else if Starts(ts, Caret) then PostfixTail(Deref(e), ts[1..])
    else if Starts(ts, Arrow) then
      if |ts| > 2 && ts[1].Ident? && ts[2] == LeftParen then
        match ParseArgs(ts[3..])
        case Err => Err
        case Ok(args, rest) => PostfixTail(MethodCall(e, ts[1].name, args), rest)
      else Err
    else Ok(e, ts)
  }

  function ParsePrefix(ts: seq<Token>): (r: Parsed<Expr>)
    ensures r.Ok? ==> |r.rest| < |ts|
    decreases |ts|, 1
  {
    if ts == [] then Err
    else
      match ts[0]
      case Number(n) => Ok(IntLit(n), ts[1..])
      case CharLiteral(c) => Ok(CharLit(c), ts[1..])
      case StringLiteral(s) => Ok(StringLit(s), ts[1..])
      case Ident(x) => Ok(Path(x), ts[1..])
      case True => Ok(BoolLit(true), ts[1..])
      case False => Ok(BoolLit(false), ts[1..])
      case PanicWord => Ok(Panic, ts[1..])
      case LeftParen => ParseParen(ts[1..])
      case _ => Err
  }

  /** What follows a left parenthesis: nothing, one expression, or the fields of a tuple. */
  function ParseParen(ts: seq<Token>): (r: Parsed<Expr>)
    ensures r.Ok? ==> |r.rest| < |ts|
    decreases |ts|, 5
  {
    if Starts(ts, RightParen) then Ok(Unit, ts[1..])
    else
      match ParseAssign(ts)
      case Err => Err
      case Ok(e, rest) =>
        if Starts(rest, RightParen) then Ok(e, rest[1..])
        else if Starts(rest, Coma) then
          match ParseArgs(rest[1..])
          case Err => Err
          case Ok(es, rest') => Ok(Tuple([e] + es), rest')
        else Err
  }

  /** Expressions separated by commas, up to a right parenthesis; the last may be followed by a comma. */
  function ParseArgs(ts: seq<Token>): (r: Parsed<seq<Expr>>)
    ensures r.Ok? ==> |r.rest| < |ts|
    decreases |ts|, 5
  {
    if Starts(ts, RightParen) then Ok([], ts[1..])
    else
      match ParseAssign(ts)
      case Err => Err
      case Ok(e, rest) =>
        if Starts(rest, Coma) then
          match ParseArgs(rest[1..])
          case Err => Err
          case Ok(es, rest') => Ok([e] + es, rest')
        else if Starts(rest, RightParen) then Ok([e], rest[1..])
        else Err
  }

  // ---------------------------------------------------------------- the parser

  class Parser {
    var tokens: seq<Token>

    constructor (tokens: seq<Token>)
      ensures this.tokens == tokens
    {
      this.tokens := tokens;
    }

    method MatchesToken(t: Token) returns (r: bool)
      modifies this
      ensures r == Starts(old(tokens), t)
      ensures tokens == if r then old(tokens)[1..] else old(tokens)
    {
      r := Starts(tokens, t);
      if r { tokens := tokens[1..]; }
    }

    method ParseExpr() returns (e: Option<Expr>)
      modifies this
      ensures match ParseAssign(old(tokens)) case Ok(v, rest) => e == Some(v) && tokens == rest case Err => e == None
      decreases |tokens|, 4
    {
      var lhs := ParseExprBindingPower(0);
      if lhs.None? { return None; }
      while true
        invariant lhs.Some? && |tokens| < |old(tokens)|
        invariant AssignLoop(lhs.value, tokens) == ParseAssign(old(tokens))
        decreases |tokens|
      {
        var more := MatchesToken(Equal);
        if !more { break; }
        var rhs := ParseExprBindingPower(0);
        if rhs.None? { return None; }
        lhs := Some(Assign(lhs.value, rhs.value));
      }
      e := lhs;
    }

    method ParseExprBindingPower(minBp: nat) returns (e: Option<Expr>)
      modifies this
      ensures match ParseBp(old(tokens), minBp) case Ok(v, rest) => e == Some(v) && tokens == rest case Err => e == None
      decreases |tokens|, 3
    {
      e := ParseExprPostfix();
      if e.None? { return; }
      while tokens != [] && BinaryOpOf(tokens[0]).Some? && BinaryOpOf(tokens[0]).value.0 >= minBp
        invariant e.Some? && |tokens| < |old(tokens)|
        invariant BpLoop(e.value, tokens, minBp) == ParseBp(old(tokens), minBp)
        decreases |tokens|
      {
        var (bp, op) := BinaryOpOf(tokens[0]).value;
        tokens := tokens[1..];
        var rhs := ParseExprBindingPower(bp);
        if rhs.None? { return None; }
        e := Some(Binary(op, e.value, rhs.value));
      }
    }

    method ParseExprPostfix() returns (e: Option<Expr>)
      modifies this
      ensures match ParsePostfix(old(tokens)) case Ok(v, rest) => e == Some(v) && tokens == rest case Err => e == None
      decreases |tokens|, 2
    {
      e := ParseExprPrefix();
      if e.None? { return; }
      while true
        invariant e.Some? && |tokens| < |old(tokens)|
        invariant PostfixTail(e.value, tokens) == ParsePostfix(old(tokens))
        decreases |tokens|
      {
        var action, next := ParseExprPostfixSingle(e.value);
        if next.None? { return None; }
        e := next;
        if action.Stop? { break; }
      }
    }

    /** Reads one call, method call or dereference, if one follows. */
    method ParseExprPostfixSingle(e: Expr) returns (action: ParseAction, next: Option<Expr>)
      modifies this
      ensures next.None? ==> PostfixTail(e, old(tokens)) == Err
      ensures next.Some? && action.Stop? ==> next.value == e && tokens == old(tokens) && PostfixTail(e, tokens) == Ok(e, tokens)
      ensures next.Some? && action.Continue? ==>
                |tokens| < |old(tokens)| && PostfixTail(next.value, tokens) == PostfixTail(e, old(tokens))
      decreases |tokens|, 0
    {
      if tokens == [] { return Stop, Some(e); }
      action, next := Continue, None;
      match tokens[0] {
        case LeftParen =>
          tokens := tokens[1..];
          var args := DelimitedComaSep();
          if args.Some? { next := Some(Call(e, args.value)); }
        case Caret =>
          tokens := tokens[1..];
          next := Some(Deref(e));
        case Arrow =>
          if |tokens| < 3 || !tokens[1].Ident? || tokens[2] != LeftParen { return; }
          var name := tokens[1].name;
          tokens := tokens[3..];
          var args := DelimitedComaSep();
          if args.Some? { next := Some(MethodCall(e, name, args.value)); }
        case _ => return Stop, Some(e);
      }
    }

    method ParseExprPrefix() returns (e: Option<Expr>)
      modifies this
      ensures match ParsePrefix(old(tokens)) case Ok(v, rest) => e == Some(v) && tokens == rest case Err => e == None
      decreases |tokens|, 1
    {
      if tokens == [] { return None; }
      var first := tokens[0];
      tokens := tokens[1..];
      match first {
        case Number(n) => return Some(IntLit(n));
        case CharLiteral(c) => return Some(CharLit(c));
        case StringLiteral(s) => return Some(StringLit(s));
        case Ident(x) => return Some(Path(x));
        case True => return Some(BoolLit(true));
        case False => return Some(BoolLit(false));
        case PanicWord => return Some(Panic);
        case LeftParen => e := ParseParenExpr();
        case _ => return None;
      }
    }

    method ParseParenExpr() returns (e: Option<Expr>)
      modifies this
      ensures match ParseParen(old(tokens)) case Ok(v, rest) => e == Some(v) && tokens == rest case Err => e == None
      decreases |tokens|, 5
    {
      var empty := MatchesToken(RightParen);
      if empty { return Some(Unit); }
      e := ParseExpr();
      if e.None? { return; }
      var closed := MatchesToken(RightParen);
      if closed { return; }
      var coma := MatchesToken(Coma);
      if !coma { return None; }
      var rest := DelimitedComaSep();
      if rest.None? { return None; }
      e := Some(Tuple([e.value] + rest.value));
    }

    method DelimitedComaSep() returns (es: Option<seq<Expr>>)
      modifies this
      ensures match ParseArgs(old(tokens)) case Ok(v, rest) => es == Some(v) && tokens == rest case Err => es == None
      decreases |tokens|, 5
    {
      var results: seq<Expr> := [];
      assert forall es: seq<Expr> :: [] + es == es;
      while tokens != [] && tokens[0] != RightParen
        invariant |tokens| <= |old(tokens)|
        invariant Prepended(results, ParseArgs(tokens)) == ParseArgs(old(tokens))
        decreases |tokens|
      {
        var e := ParseExpr();
        if e.None? { return None; }
        var coma := MatchesToken(Coma);
        if !coma {
          var end := MatchesToken(RightParen);
          if !end { return None; }
          return Some(results + [e.value]);
        }
        assert forall es: seq<Expr> :: results + ([e.value] + es) == (results + [e.value]) + es;
        results := results + [e.value];
      }
      var end := MatchesToken(RightParen);
      if !end { return None; }
      assert results + [] == results;
      return Some(results);
    }
  }

  function Prepended(es: seq<Expr>, r: Parsed<seq<Expr>>): Parsed<seq<Expr>> {
    match r case Ok(v, rest) => Ok(es + v, rest) case Err => Err
  }

  // ---------------------------------------------------------------- operators and their powers

  function TokenOf(op: BinaryOp): (t: Token)
    ensures BinaryOpOf(t).Some? && BinaryOpOf(t).value.1 == op
  {
    match op
    case Divide => Slash
    case Multiply => Star
    case BitAnd => Band
    case Add => Plus
    case Subtract => Minus
    case BitOr => Bor
    case Less => Lesser
    case More => Greater
    case Equals => DoubleEqual
    case Both => And
    case Either => Or
  }

  function Power(op: BinaryOp): (bp: nat)
    ensures 1 <= bp <= 40
  {
    BinaryOpOf(TokenOf(op)).value.0
  }

  /** Above every binding power: the level of what needs no operator. */
  const POSTFIX: nat := 41

  /** Nothing that continues an expression after its first operand. */
  predicate NoPostfix(ts: seq<Token>) {
    !Starts(ts, LeftParen) && !Starts(ts, Caret) && !Starts(ts, Arrow)
  }

  /** The binding power of the first token; none if it is not an operator. */
  function FirstPower(ts: seq<Token>): nat {
    if ts != [] && BinaryOpOf(ts[0]).Some? then BinaryOpOf(ts[0]).value.0 else 0
  }

  lemma OperatorTail(op: BinaryOp, ts: seq<Token>)
    ensures NoPostfix([TokenOf(op)] + ts) && FirstPower([TokenOf(op)] + ts) == Power(op)
  {
  }
}
