/** The layout of a type, computed by unfolding it by value. */
module CalculateLayout {
  import opened Prelude
  import opened Types
  import opened Layout
  import opened VariantLayout
  import opened RecursiveTypes

  datatype LayoutError = TooGeneric | NotKnown

  datatype Result<T> = Ok(value: T) | Err(error: LayoutError)

  const ARRAY_LAYOUT := AggregateOf([FieldLayout(0, Pointer(true)), FieldLayout(1, FromScalar(IntScalar(false, Int64)))])

  /** d bounds the unfolding; it exists only to show that the computation ends. */
  function CalculateLayout(defs: Defs, t: Ty, ghost d: nat): Result<Layout>
    requires KnownTable(defs) && Known(defs, t) && Unfolds(defs, t, d)
    decreases d, 1, 0
  {
    match t
    case Infer(_) => Err(NotKnown)
    case IntVar(_) => Err(NotKnown)
    case Param(_) => Err(TooGeneric)
    case Con(RawPtr, _) => Ok(Pointer(false))
    case Con(Unknown, _) => Err(NotKnown)
    case Con(Int(kind), _) => Ok(FromScalar(IntScalar(kind.Signed?, kind.size)))
    case Con(Bool, _) => Ok(FromScalar(BoolScalar))
    case Con(Char, _) => Ok(FromScalar(IntScalar(false, Int32)))
    case Con(Never, _) => Ok(ZST.Uninhabited())
    case Con(Function, _) => Ok(Pointer(true))
    case Con(Box, _) => Ok(Pointer(true))
    case Con(Array, _) => Ok(ARRAY_LAYOUT)
    case Con(Str, _) => Ok(ARRAY_LAYOUT)
    case Con(_, args) =>
      KnownComponents(defs, t);
      Assembled(defs, t, CalculateAll(defs, Components(defs, t), d))
  }

  /** The layouts of the types in order, or the first error. */
  function CalculateAll(defs: Defs, ts: seq<Ty>, ghost d: nat): (r: Result<seq<Layout>>)
    requires KnownTable(defs) && AllKnown(defs, ts) && AllUnfold(defs, ts, d)
    ensures r.Ok? ==> |r.value| == |ts|
    decreases d, 0, |ts|
  {
    if ts == [] then Ok([])
    else
      match CalculateLayout(defs, ts[0], d - 1)
      case Err(e) => Err(e)
      case Ok(l) =>
        RestUnfold(defs, ts, d);
        match CalculateAll(defs, ts[1..], d)
        case Err(e) => Err(e)
        case Ok(ls) => Ok([l] + ls)
  }

  lemma RestUnfold(defs: Defs, ts: seq<Ty>, d: nat)
    requires KnownTable(defs) && AllKnown(defs, ts) && AllUnfold(defs, ts, d) && ts != []
    ensures AllKnown(defs, ts[1..]) && AllUnfold(defs, ts[1..], d)
  {
    var rest := ts[1..];
    assert Known(defs, ts[0]) && d > 0 && Unfolds(defs, ts[0], d - 1);
    forall i | 0 <= i < |rest| ensures Known(defs, rest[i]) && Unfolds(defs, rest[i], d - 1) { assert rest[i] == ts[i + 1]; }
    assert AllUnfold(defs, rest, d);
  }

  /** The layout of each case: that of its payload, or nothing. */
  function CaseLayouts(cases: seq<Option<Ty>>, payloads: seq<Layout>): (r: seq<Layout>)
    requires |payloads| == |Payloads(cases)|
    ensures |r| == |cases|
    decreases |cases|
  {
    if cases == [] then []
    else
      var k := |cases| - 1;
      match cases[k]
      case Some(_) => CaseLayouts(cases[..k], payloads[..|payloads| - 1]) + [payloads[|payloads| - 1]]
      case None => CaseLayouts(cases[..k], payloads) + [ZST]
  }

  /** The layout of a type from those of its components. */
  function Assembled(defs: Defs, t: Ty, layouts: Result<seq<Layout>>): Result<Layout>
    requires Known(defs, t) && (layouts.Ok? ==> |layouts.value| == |Components(defs, t)|)
    requires t.Con? && (t.head.Uninit? || t.head.Tuple? || t.head.Named?)
  {
    match layouts
    case Err(e) => Err(e)
    case Ok(ls) =>
      match t.head
      case Uninit => Ok(Layout(ls[0].size, ls[0].alignment, LayoutKind.Uninit(ls[0])))
      case Named(id) =>
        (match defs[id]
         case RecordDef(_, _) => Ok(RecordOf(ls))
         case VariantDef(_, cases) => Ok(VariantOf(CaseLayouts(cases, ls))))
      case _ => Ok(RecordOf(ls))
  }

  // ---------------------------------------------------------------- what every computed layout is

  /** Fields and cases are sound and where they should be, and the size is a multiple of the alignment. */
  ghost predicate Sound(l: Layout) {
    && IsMultiple(l.size, l.alignment)
    && match l.kind
       case Aggregate(fields, _) => GoodAggregate(l) && forall i :: 0 <= i < |fields| ==> Sound(fields[i].layout)
       case Variant(_, cases) => l == VariantOf(cases) && forall i :: 0 <= i < |cases| ==> Sound(cases[i])
       case ScalarKind(s) => l == FromScalar(s)
       case Uninit(inner) => Sound(inner) && l.size == inner.size && l.alignment == inner.alignment
  }

  ghost predicate AllSound(ls: seq<Layout>) {
    forall i :: 0 <= i < |ls| ==> Sound(ls[i])
  }

  lemma ScalarSound(s: Scalar)
    ensures Sound(FromScalar(s))
  {
    assert Pow2(0) == 1 && Pow2(1) == 2 && Pow2(2) == 4 && Pow2(3) == 8;
  }

  lemma ZstSound()
    ensures Sound(ZST) && Sound(ZST.Uninhabited())
  {
    assert Pow2(0) == 1;
    AggregateGood([]);
    assert AggregateOf([]) == ZST;
  }

  lemma ArraySound()
    ensures Sound(ARRAY_LAYOUT)
  {
    var fs := [FieldLayout(0, Pointer(true)), FieldLayout(1, FromScalar(IntScalar(false, Int64)))];
    AggregateGood(fs);
    ScalarSound(PointerScalar(true));
    ScalarSound(IntScalar(false, Int64));
  }

  lemma RecordSound(ls: seq<Layout>)
    requires AllSound(ls)
    ensures Sound(RecordOf(ls))
  {
    RecordGood(ls);
    SortedNumbered(ls);
    var fields := RecordOf(ls).kind.fields;
    forall i | 0 <= i < |fields| ensures Sound(fields[i].layout) {
      assert fields[i] in fields;
      assert fields[i] in Enumerated(ls);
    }
  }

  lemma VariantSound(cases: seq<Layout>)
    requires AllSound(cases)
    ensures Sound(VariantOf(cases))
  {
    ZstSound();
    if cases != [] {
      var l := VariantOf(cases);
      if NicheCase(cases).Some? {
        assert Sound(cases[NicheCase(cases).value]);
      } else {
        AlignToIs(TagScalar(|cases|).ByteCount() + Biggest(cases).size, l.alignment);
      }
    }
  }

  lemma {:induction false} CaseLayoutsSound(cases: seq<Option<Ty>>, payloads: seq<Layout>)
    requires |payloads| == |Payloads(cases)| && AllSound(payloads)
    ensures AllSound(CaseLayouts(cases, payloads))
    decreases |cases|
  {
    ZstSound();
    if cases != [] {
      var k := |cases| - 1;
      if cases[k].Some? { CaseLayoutsSound(cases[..k], payloads[..|payloads| - 1]); } else { CaseLayoutsSound(cases[..k], payloads); }
    }
  }

  lemma AssembledSound(defs: Defs, t: Ty, ls: seq<Layout>)
    requires Known(defs, t) && |ls| == |Components(defs, t)| && AllSound(ls)
    requires t.Con? && (t.head.Uninit? || t.head.Tuple? || t.head.Named?)
    ensures Assembled(defs, t, Ok(ls)).Ok? && Sound(Assembled(defs, t, Ok(ls)).value)
  {
    if t.head.Named? {
      match defs[t.head.id]
      case RecordDef(_, _) => RecordSound(ls);
      case VariantDef(_, cases) =>
        CaseLayoutsSound(cases, ls);
        VariantSound(CaseLayouts(cases, ls));
    } else if t.head.Tuple? {
      RecordSound(ls);
    } else {
      assert Sound(ls[0]);
    }
  }

  predicate IsUnfolded(t: Ty) {
    t.Con? && (t.head.Uninit? || t.head.Tuple? || t.head.Named?)
  }

  lemma LeafSound(defs: Defs, t: Ty, d: nat)
    requires KnownTable(defs) && Known(defs, t) && Unfolds(defs, t, d) && CalculateLayout(defs, t, d).Ok? && !IsUnfolded(t)
    ensures Sound(CalculateLayout(defs, t, d).value)
  {
    match t.head {
      case Array => ArraySound();
      case Str => ArraySound();
      case Never => ZstSound();
      case Int(kind) => ScalarSound(IntScalar(kind.Signed?, kind.size));
      case Char => ScalarSound(IntScalar(false, Int32));
      case Bool => ScalarSound(BoolScalar);
      case RawPtr => ScalarSound(PointerScalar(false));
      case _ => ScalarSound(PointerScalar(true));
    }
  }

  /** Every layout that is computed is sound, all the way down. */
  lemma {:induction false} CalculatedSound(defs: Defs, t: Ty, d: nat)
    requires KnownTable(defs) && Known(defs, t) && Unfolds(defs, t, d)
    ensures CalculateLayout(defs, t, d).Ok? ==> Sound(CalculateLayout(defs, t, d).value)
    decreases d, 1, 0
  {
    if IsUnfolded(t) {
      KnownComponents(defs, t);
      CalculatedAllSound(defs, Components(defs, t), d);
      var layouts := CalculateAll(defs, Components(defs, t), d);
      if layouts.Ok? { AssembledSound(defs, t, layouts.value); }
    } else if CalculateLayout(defs, t, d).Ok? {
      LeafSound(defs, t, d);
    }
  }

  lemma {:induction false} CalculatedAllSound(defs: Defs, ts: seq<Ty>, d: nat)
    requires KnownTable(defs) && AllKnown(defs, ts) && AllUnfold(defs, ts, d)
    ensures CalculateAll(defs, ts, d).Ok? ==> AllSound(CalculateAll(defs, ts, d).value)
    decreases d, 0, |ts|
  {
    if ts != [] {
      RestUnfold(defs, ts, d);
      CalculatedSound(defs, ts[0], d - 1);
      CalculatedAllSound(defs, ts[1..], d);
    }
  }

  /** The layout does not depend on the bound. */
  lemma {:induction false} BoundIrrelevant(defs: Defs, t: Ty, d: nat, e: nat)
    requires KnownTable(defs) && Known(defs, t) && Unfolds(defs, t, d) && Unfolds(defs, t, e)
    ensures CalculateLayout(defs, t, d) == CalculateLayout(defs, t, e)
    decreases d, 1, 0
  {
    if t.Con? && (t.head.Uninit? || t.head.Tuple? || t.head.Named?) {
      KnownComponents(defs, t);
      BoundIrrelevantAll(defs, Components(defs, t), d, e);
    }
  }

  lemma {:induction false} BoundIrrelevantAll(defs: Defs, ts: seq<Ty>, d: nat, e: nat)
    requires KnownTable(defs) && AllKnown(defs, ts) && AllUnfold(defs, ts, d) && AllUnfold(defs, ts, e)
    ensures CalculateAll(defs, ts, d) == CalculateAll(defs, ts, e)
    decreases d, 0, |ts|
  {
    if ts != [] {
      RestUnfold(defs, ts, d);
      RestUnfold(defs, ts, e);
      BoundIrrelevant(defs, ts[0], d - 1, e - 1);
      BoundIrrelevantAll(defs, ts[1..], d, e);
    }
  }

  // ---------------------------------------------------------------- the layouts of types, kind by kind

  /** The layout that is computed for the type. */
  ghost predicate HasLayout(defs: Defs, t: Ty, l: Layout) {
    KnownTable(defs) && Known(defs, t) && exists d: nat :: Unfolds(defs, t, d) && CalculateLayout(defs, t, d) == Ok(l)
  }

  /** A type has one layout at most. */
  lemma LayoutUnique(defs: Defs, t: Ty, l: Layout, m: Layout)
    requires HasLayout(defs, t, l) && HasLayout(defs, t, m)
    ensures l == m
  {
    var d: nat :| Unfolds(defs, t, d) && CalculateLayout(defs, t, d) == Ok(l);
    var e: nat :| Unfolds(defs, t, e) && CalculateLayout(defs, t, e) == Ok(m);
    BoundIrrelevant(defs, t, d, e);
  }

  lemma {:induction false} AllCalculated(defs: Defs, ts: seq<Ty>, d: nat)
    requires KnownTable(defs) && AllKnown(defs, ts) && AllUnfold(defs, ts, d) && CalculateAll(defs, ts, d).Ok?
    ensures forall i :: 0 <= i < |ts| ==> HasLayout(defs, ts[i], CalculateAll(defs, ts, d).value[i])
    decreases |ts|
  {
    if ts != [] {
      RestUnfold(defs, ts, d);
      AllCalculated(defs, ts[1..], d);
    }
  }

  /** The layout of a type with components comes from theirs. */
  lemma ComponentLayouts(defs: Defs, t: Ty, l: Layout) returns (ls: seq<Layout>)
    requires HasLayout(defs, t, l) && IsUnfolded(t)
    ensures |ls| == |Components(defs, t)| && forall i :: 0 <= i < |ls| ==> HasLayout(defs, Components(defs, t)[i], ls[i])
    ensures Assembled(defs, t, Ok(ls)) == Ok(l)
  {
    var d: nat :| Unfolds(defs, t, d) && CalculateLayout(defs, t, d) == Ok(l);
    KnownComponents(defs, t);
    AllCalculated(defs, Components(defs, t), d);
    ls := CalculateAll(defs, Components(defs, t), d).value;
  }

  /** A good aggregate of as many fields as there are types, in which each has its own layout. */
  ghost predicate RecordLaidOut(defs: Defs, fields: seq<Ty>, l: Layout) {
    && GoodAggregate(l) && |l.kind.positions| == |fields|
    && (forall i :: 0 <= i < |fields| ==> HasLayout(defs, fields[i], LayoutOf(l, i)))
    && l == RecordOf(seq(|fields|, i requires 0 <= i < |fields| => LayoutOf(l, i)))
  }

  lemma RecordLaidOutBy(defs: Defs, fields: seq<Ty>, ls: seq<Layout>)
    requires |ls| == |fields| && forall i :: 0 <= i < |ls| ==> HasLayout(defs, fields[i], ls[i])
    ensures RecordLaidOut(defs, fields, RecordOf(ls))
  {
    var l := RecordOf(ls);
    RecordGood(ls);
    forall i | 0 <= i < |fields| ensures HasLayout(defs, fields[i], LayoutOf(l, i)) { assert LayoutOf(l, i) == ls[i]; }
    assert seq(|fields|, i requires 0 <= i < |fields| => LayoutOf(l, i)) == ls;
  }

  lemma TupleLayout(defs: Defs, fields: seq<Ty>, l: Layout)
    requires HasLayout(defs, Con(Tuple, fields), l)
    ensures RecordLaidOut(defs, fields, l)
  {
    var ls := ComponentLayouts(defs, Con(Tuple, fields), l);
    RecordLaidOutBy(defs, fields, ls);
  }

  /** A record is laid out like the tuple of its declared fields, the type's arguments put in. */
  lemma NamedRecordLayout(defs: Defs, id: nat, args: seq<Ty>, l: Layout)
    requires id < |defs| && defs[id].RecordDef? && HasLayout(defs, Con(Named(id), args), l)
    ensures |l.kind.positions| == |defs[id].fields|
    ensures RecordLaidOut(defs, seq(|defs[id].fields|, i requires 0 <= i < |defs[id].fields| => Bind(defs[id].fields[i], args)), l)
  {
    var fields := defs[id].fields;
    var ls := ComponentLayouts(defs, Con(Named(id), args), l);
    var bound := seq(|fields|, i requires 0 <= i < |fields| => Bind(fields[i], args));
    assert Components(defs, Con(Named(id), args)) == bound;
    RecordLaidOutBy(defs, bound, ls);
  }

  lemma {:induction false} CaseLayoutAt(cases: seq<Option<Ty>>, payloads: seq<Layout>, i: nat) returns (k: nat)
    requires |payloads| == |Payloads(cases)| && i < |cases|
    ensures match cases[i]
            case Some(t) => k < |payloads| && Payloads(cases)[k] == t && CaseLayouts(cases, payloads)[i] == payloads[k]
            case None => CaseLayouts(cases, payloads)[i] == ZST
    decreases |cases|
  {
    var n := |cases| - 1;
    var rest := if cases[n].Some? then payloads[..|payloads| - 1] else payloads;
    if i < n {
      k := CaseLayoutAt(cases[..n], rest, i);
    } else {
      k := if cases[n].Some? then |payloads| - 1 else 0;
    }
  }

  /** A case holds its payload, the type's arguments put in, or nothing. */
  ghost predicate CaseLaidOut(defs: Defs, payload: Option<Ty>, args: seq<Ty>, l: Layout) {
    match payload
    case Some(t) => HasLayout(defs, Bind(t, args), l)
    case None => l == ZST
  }

  /** The cases of a variant are laid out in their order of declaration. */
  lemma NamedVariantLayout(defs: Defs, id: nat, args: seq<Ty>, l: Layout)
    requires id < |defs| && defs[id].VariantDef? && HasLayout(defs, Con(Named(id), args), l)
    ensures l.kind.Variant? && |l.kind.cases| == |defs[id].cases| && l == VariantOf(l.kind.cases)
    ensures forall i :: 0 <= i < |defs[id].cases| ==> CaseLaidOut(defs, defs[id].cases[i], args, l.kind.cases[i])
  {
    var t, cases := Con(Named(id), args), defs[id].cases;
    var ls := ComponentLayouts(defs, t, l);
    assert l.kind.cases == CaseLayouts(cases, ls);
    forall i | 0 <= i < |cases| ensures CaseLaidOut(defs, cases[i], args, l.kind.cases[i]) {
      var k := CaseLayoutAt(cases, ls, i);
      if cases[i].Some? { assert Components(defs, t)[k] == Bind(cases[i].value, args); }
    }
  }

  lemma UninitLayout(defs: Defs, content: Ty, l: Layout)
    requires HasLayout(defs, Con(Head.Uninit, [content]), l)
    ensures l.kind.Uninit? && HasLayout(defs, content, l.kind.inner)
    ensures l.size == l.kind.inner.size && l.alignment == l.kind.inner.alignment
  {
    var ls := ComponentLayouts(defs, Con(Head.Uninit, [content]), l);
  }

  /** The size and the alignment in bytes. */
  ghost predicate Takes(l: Layout, size: nat, align: nat) {
    l.size == size && Pow2(l.alignment) == align
  }

  /** A pointer to the elements and, behind it, their number. */
  ghost predicate IsSlice(l: Layout) {
    && Takes(l, 16, 8) && GoodAggregate(l) && |l.kind.positions| == 2
    && OffsetOf(l, 0) == 0 && LayoutOf(l, 0).kind == ScalarKind(PointerScalar(true))
    && OffsetOf(l, 1) == 8 && LayoutOf(l, 1).kind == ScalarKind(IntScalar(false, Int64))
  }

  lemma WordMultiples()
    ensures Pow2(3) == 8 && AlignTo(0, 3) == 0 && AlignTo(8, 3) == 8 && AlignTo(16, 3) == 16
  {
    assert Pow2(3) == 8 by { assert Pow2(1) == 2 && Pow2(2) == 4; }
    assert Remainder(0, 8) == 0 && Remainder(8, 8) == 0 && Remainder(16, 8) == 0;
  }

  lemma TwoWords(fs: seq<FieldLayout>)
    requires |fs| == 2 && forall i :: 0 <= i < 2 ==> fs[i].layout.size == 8 && fs[i].layout.alignment == 3
    ensures Start(fs, 0) == 0 && Start(fs, 1) == 8 && AggregateOf(fs).size == 16 && AggregateOf(fs).alignment == 3
  {
    WordMultiples();
    assert MaxAlign(fs, 0) == 3 && MaxAlign(fs, 1) == 3 && MaxAlign(fs, 2) == 3;
    assert End(fs, 0) == 0 && Start(fs, 0) == 0;
    assert End(fs, 1) == 8 && Start(fs, 1) == 8;
    assert End(fs, 2) == 16;
  }

  lemma SliceOf(fs: seq<FieldLayout>)
    requires |fs| == 2 && fs[0].field == 0 && fs[1].field == 1
    requires fs[0].layout == FromScalar(PointerScalar(true)) && fs[1].layout == FromScalar(IntScalar(false, Int64))
    ensures IsSlice(AggregateOf(fs))
  {
    WordMultiples();
    TwoWords(fs);
    AggregateGood(fs);
    PositionsAt(fs, 2, 0);
    PositionsAt(fs, 2, 1);
  }

  lemma SliceLayout(l: Layout)
    requires l == ARRAY_LAYOUT
    ensures IsSlice(l)
  {
    SliceOf([FieldLayout(0, Pointer(true)), FieldLayout(1, FromScalar(IntScalar(false, Int64)))]);
  }

  /** What a type without components is laid out as, in bytes. */
  lemma LeafLayout(defs: Defs, head: Head, args: seq<Ty>, l: Layout)
    requires HasLayout(defs, Con(head, args), l)
    ensures match head
            case Bool => Takes(l, 1, 1) && l.kind == ScalarKind(BoolScalar)
            case Char => Takes(l, 4, 4) && l.kind == ScalarKind(IntScalar(false, Int32))
            case Int(kind) =>
              && l.kind == ScalarKind(IntScalar(kind.Signed?, kind.size))
              && (match kind.size case Int8 => Takes(l, 1, 1) case Int32 => Takes(l, 4, 4) case Int64 => Takes(l, 8, 8))
            case RawPtr => Takes(l, 8, 8) && l.kind == ScalarKind(PointerScalar(false))
            case Box => Takes(l, 8, 8) && l.kind == ScalarKind(PointerScalar(true))
            case Function => Takes(l, 8, 8) && l.kind == ScalarKind(PointerScalar(true))
            case Array => IsSlice(l)
            case Str => IsSlice(l)
            case Never => Takes(l, 0, 1) && l.kind == LayoutKind.Variant(UninhabitedTag, [])
            case Unknown => false
            case _ => true
  {
    if head.Array? || head.Str? {
      SliceLayout(l);
    } else {
      assert Pow2(0) == 1 && Pow2(1) == 2 && Pow2(2) == 4 && Pow2(3) == 8;
    }
  }

  /** The types without a layout of their own, and the errors for them. */
  lemma LeafError(defs: Defs, t: Ty, d: nat)
    requires KnownTable(defs) && Known(defs, t) && Unfolds(defs, t, d) && !IsUnfolded(t)
    ensures CalculateLayout(defs, t, d).Ok? <==> t.Con? && !t.head.Unknown?
    ensures CalculateLayout(defs, t, d).Err? ==> CalculateLayout(defs, t, d).error == if t.Param? then TooGeneric else NotKnown
  {
  }

  /** A type has no layout exactly if one of its components has none, and the first of these decides the error. */
  lemma {:induction false} FirstError(defs: Defs, t: Ty, d: nat, i: nat)
    requires KnownTable(defs) && Known(defs, t) && Unfolds(defs, t, d) && IsUnfolded(t) && i < |Components(defs, t)|
    ensures d > 0 && AllKnown(defs, Components(defs, t)) && Unfolds(defs, Components(defs, t)[i], d - 1)
    ensures CalculateLayout(defs, Components(defs, t)[i], d - 1).Err? && (forall j :: 0 <= j < i ==> Calculates(defs, Components(defs, t)[j], d - 1)) ==>
              CalculateLayout(defs, t, d) == CalculateLayout(defs, Components(defs, t)[i], d - 1)
  {
    KnownComponents(defs, t);
    FirstErrorAmong(defs, Components(defs, t), d, i);
  }

  ghost predicate Calculates(defs: Defs, t: Ty, d: nat) {
    KnownTable(defs) && Known(defs, t) && Unfolds(defs, t, d) && CalculateLayout(defs, t, d).Ok?
  }

  lemma {:induction false} FirstErrorAmong(defs: Defs, ts: seq<Ty>, d: nat, i: nat)
    requires KnownTable(defs) && AllKnown(defs, ts) && AllUnfold(defs, ts, d) && i < |ts|
    ensures CalculateLayout(defs, ts[i], d - 1).Err? && (forall j :: 0 <= j < i ==> Calculates(defs, ts[j], d - 1)) ==>
              CalculateAll(defs, ts, d) == Err(CalculateLayout(defs, ts[i], d - 1).error)
    decreases |ts|
  {
    RestUnfold(defs, ts, d);
    if i > 0 && CalculateLayout(defs, ts[i], d - 1).Err? && (forall j :: 0 <= j < i ==> Calculates(defs, ts[j], d - 1)) {
      forall j | 0 <= j < i - 1 ensures Calculates(defs, ts[1..][j], d - 1) { assert ts[1..][j] == ts[j + 1]; }
      assert Calculates(defs, ts[0], d - 1);
      FirstErrorAmong(defs, ts[1..], d, i - 1);
    }
  }

  // ---------------------------------------------------------------- accepted tables

  ghost predicate ClosedTable(defs: Defs) {
    forall id, i :: 0 <= id < |defs| && 0 <= i < |defs[id].AllFields()| ==> ClosedUnder(defs[id].AllFields()[i], defs[id].arity)
  }

  lemma ClosedComponents(defs: Defs, t: Ty)
    requires ClosedTable(defs) && Known(defs, t) && IsClosed(t)
    ensures forall i :: 0 <= i < |Components(defs, t)| ==> IsClosed(Components(defs, t)[i])
  {
    if t.head.Named? {
      var fields := defs[t.head.id].AllFields();
      forall i | 0 <= i < |fields| ensures IsClosed(Bind(fields[i], t.args)) { ClosedBind(fields[i], t.args); }
    }
  }

  /** A closed type gets a layout. */
  lemma {:induction false} ClosedCalculates(defs: Defs, t: Ty, d: nat)
    requires KnownTable(defs) && ClosedTable(defs) && Known(defs, t) && IsClosed(t) && Unfolds(defs, t, d)
    ensures CalculateLayout(defs, t, d).Ok?
    decreases d, 1, 0
  {
    if t.head.Uninit? || t.head.Tuple? || t.head.Named? {
      KnownComponents(defs, t);
      ClosedComponents(defs, t);
      ClosedCalculatesAll(defs, Components(defs, t), d);
    }
  }

  lemma {:induction false} ClosedCalculatesAll(defs: Defs, ts: seq<Ty>, d: nat)
    requires KnownTable(defs) && ClosedTable(defs) && AllKnown(defs, ts) && AllUnfold(defs, ts, d)
    requires forall i :: 0 <= i < |ts| ==> IsClosed(ts[i])
    ensures CalculateAll(defs, ts, d).Ok?
    decreases d, 0, |ts|
  {
    if ts != [] {
      RestUnfold(defs, ts, d);
      ClosedCalculates(defs, ts[0], d - 1);
      ClosedCalculatesAll(defs, ts[1..], d);
    }
  }

  /** When the check passes every definition, every closed type, nested generic instances included,
      unfolds finitely and has a sound layout. */
  lemma AcceptedHasLayout(defs: Defs, t: Ty) returns (d: nat)
    requires Accepted(defs) && ClosedTable(defs) && Known(defs, t) && IsClosed(t)
    ensures Unfolds(defs, t, d) && CalculateLayout(defs, t, d).Ok? && Sound(CalculateLayout(defs, t, d).value)
    ensures HasLayout(defs, t, CalculateLayout(defs, t, d).value)
  {
    d := AcceptedUnfolds(defs, t);
    ClosedCalculates(defs, t, d);
    CalculatedSound(defs, t, d);
  }

  lemma SoundCases(cases: seq<Layout>)
    requires AllSound(cases)
    ensures WellSized(cases)
    ensures forall i :: 0 <= i < |cases| && cases[i].kind.ScalarKind? ==> cases[i] == FromScalar(cases[i].kind.scalar)
  {
    forall i | 0 <= i < |cases| ensures IsMultiple(cases[i].size, cases[i].alignment) { assert Sound(cases[i]); }
    forall i | 0 <= i < |cases| && cases[i].kind.ScalarKind? ensures cases[i] == FromScalar(cases[i].kind.scalar) {
      assert Sound(cases[i]);
    }
  }

  /** In a computed layout of a variant every stored case is read back with its payload. */
  lemma SoundVariantRoundTrip(l: Layout, m: seq<Byte>, base: nat, c: nat, payload: seq<Byte>)
    requires Sound(l) && l.kind.Variant? && c < |l.kind.cases| <= 0x1_0000_0000
    requires |payload| == l.kind.cases[c].size && Fits(m, base, l, c, payload)
    requires NicheCase(l.kind.cases) == Some(c) ==> FromBytes(payload) != 1 - c
    ensures var m' := Encoded(m, base, l, c, payload);
            ReadsBack(m', base, l, c, payload) && (l.kind.cases[c].alignment <= l.alignment ==> OnlyWithin(m, m', base, l.size))
  {
    SoundCases(l.kind.cases);
    VariantRoundTrip(l.kind.cases, m, base, c, payload);
  }

  lemma NicheAlignments(cases: seq<Layout>, c: nat)
    requires NicheCase(cases).Some? && c < |cases|
    requires forall i :: 0 <= i < |cases| && cases[i].kind.ScalarKind? ==> cases[i] == FromScalar(cases[i].kind.scalar)
    ensures cases[NicheCase(cases).value] == FromScalar(PointerScalar(true))
    ensures cases[c].alignment <= NicheForm(cases).alignment
  {
    var untagged := NicheCase(cases).value;
    assert cases[untagged].kind.ScalarKind?;
    assert c == untagged || cases[c].IsAlign1Zst();
  }

  /** In a computed layout a payload is in bounds and aligned, wherever the variant may stand,
      exactly when its case is no more aligned than the variant. */
  lemma SoundPayloadFits(l: Layout, c: nat)
    requires Sound(l) && l.kind.Variant? && c < |l.kind.cases|
    ensures InBounds(l, c) && PayloadAligned(l, c) <==> l.kind.cases[c].alignment <= l.alignment
  {
    var cases := l.kind.cases;
    SoundCases(cases);
    assert l == VariantOf(cases);
    if NicheCase(cases).Some? {
      NicheAlignments(cases, c);
      NichePayloadFits(cases, c);
    } else {
      TaggedPayloadFits(cases, c);
    }
  }
}
