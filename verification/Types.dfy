/** The types of kli, shared by the type checker, the MIR and the layout code. */
module Types {

  datatype IntegerSize = Int8 | Int32 | Int64

  datatype IntegerKind = Signed(size: IntegerSize) | Unsigned(size: IntegerSize)

  /** What a structural type is made of, apart from its component types. */
  datatype Head =
    | Unknown | Bool | Char | Never | Str
    | Int(kind: IntegerKind)
    | Function | Tuple | Array | Box | Uninit | RawPtr
    | Named(id: nat)

  /** A type is a variable, a generic parameter, or a head applied to its component types in
      the order in which the source visits them: the parameters then the result of a function,
      the fields of a tuple, the generic arguments of a named type, the element of a pointer. */
  datatype Ty =
    | Infer(tyVar: nat)
    | IntVar(tyVar: nat)
    | Param(index: nat)
    | Con(head: Head, args: seq<Ty>)

  const UNKNOWN := Con(Unknown, [])

  /** Substitution of generic arguments for parameters; a parameter out of range is unknown. */
  function Bind(ty: Ty, args: seq<Ty>): Ty
    decreases ty, 1
  {
    match ty
    case Param(i) => if i < |args| then args[i] else UNKNOWN
    case Con(head, tys) => Con(head, BindAll(ty, args))
    case _ => ty
  }

  function BindAll(ty: Ty, args: seq<Ty>): (r: seq<Ty>)
    requires ty.Con?
    ensures |r| == |ty.args|
    decreases ty, 0
  {
    seq(|ty.args|, i requires 0 <= i < |ty.args| => Bind(ty.args[i], args))
  }

  function BindEach(tys: seq<Ty>, args: seq<Ty>): (r: seq<Ty>)
    ensures |r| == |tys| && forall i :: 0 <= i < |r| ==> r[i] == Bind(tys[i], args)
  {
    seq(|tys|, i requires 0 <= i < |tys| => Bind(tys[i], args))
  }

  /** Binding twice is binding once with the bound arguments, parameters out of range included. */
  lemma {:induction false} BindCompose(t: Ty, us: seq<Ty>, args: seq<Ty>)
    ensures Bind(Bind(t, us), args) == Bind(t, BindEach(us, args))
  {
    if t.Con? {
      forall i | 0 <= i < |t.args|
        ensures Bind(Bind(t.args[i], us), args) == Bind(t.args[i], BindEach(us, args))
      {
        BindCompose(t.args[i], us, args);
      }
      assert Bind(Bind(t, us), args).args == Bind(t, BindEach(us, args)).args;
    }
  }

  /** The first n parameters, in their order. */
  function Parameters(n: nat): (r: seq<Ty>)
    ensures |r| == n && forall i :: 0 <= i < n ==> r[i] == Param(i)
  {
    seq(n, i => if i >= 0 then Param(i) else UNKNOWN)
  }

  /** Binding the parameters to themselves changes nothing, and a parameter without an argument becomes unknown. */
  lemma {:induction false} BindIdentity(t: Ty, n: nat)
    requires ClosedUnder(t, n)
    ensures Bind(t, Parameters(n)) == t
    ensures forall i: nat, args :: i >= |args| ==> Bind(Param(i), args) == UNKNOWN
  {
    if t.Con? {
      forall i | 0 <= i < |t.args| ensures Bind(t.args[i], Parameters(n)) == t.args[i] { BindIdentity(t.args[i], n); }
      assert BindAll(t, Parameters(n)) == t.args;
    }
  }

  /** The number of heads, variables and parameters. */
  function Size(t: Ty): (n: nat)
    ensures n > 0
  {
    match t
    case Con(_, args) => 1 + TotalSize(args)
    case _ => 1
  }

  function TotalSize(ts: seq<Ty>): nat {
    if ts == [] then 0 else Size(ts[0]) + TotalSize(ts[1..])
  }

  /** A type without variables, parameters or unknown parts. */
  predicate IsClosed(t: Ty) {
    t.Con? && !t.head.Unknown? && forall i :: 0 <= i < |t.args| ==> IsClosed(t.args[i])
  }

  /** A type that mentions only the first `arity` parameters, and nothing unknown. */
  predicate ClosedUnder(t: Ty, arity: nat) {
    match t
    case Param(i) => i < arity
    case Con(head, args) => !head.Unknown? && forall i :: 0 <= i < |args| ==> ClosedUnder(args[i], arity)
    case _ => false
  }

  lemma {:induction false} ClosedBind(t: Ty, args: seq<Ty>)
    requires ClosedUnder(t, |args|) && forall i :: 0 <= i < |args| ==> IsClosed(args[i])
    ensures IsClosed(Bind(t, args))
  {
    if t.Con? {
      forall i | 0 <= i < |t.args| ensures IsClosed(Bind(t, args).args[i]) { ClosedBind(t.args[i], args); }
    }
  }
}
