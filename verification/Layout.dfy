/** Sizes, alignments and the placement of fields. */
module Layout {
  import opened Prelude
  import opened Types

  // ---------------------------------------------------------------- sizes and alignments

  /** An alignment is kept as its exponent: the alignment in bytes is a power of two. */
  type Align = nat

  const BYTE_ALIGN: Align := 0
  const INT_ALIGN: Align := 3
  const POINTER_SIZE: nat := 8

  function Pow2(n: nat): (r: nat)
    ensures r > 0
  {
    if n == 0 then 1 else 2 * Pow2(n - 1)
  }

  /** The remainder of a division, found by repeated subtraction. */
  function Remainder(n: nat, m: nat): nat
    requires m > 0
  {
    if n < m then n else Remainder(n - m, m)
  }

  /** The least multiple of the alignment that is not below n. */
  function AlignTo(n: nat, align: Align): (r: nat) {
    var m := Pow2(align);
    RemainderBelow(n, m);
    if Remainder(n, m) == 0 then n else n - Remainder(n, m) + m
  }

  predicate IsMultiple(n: nat, align: Align) {
    Remainder(n, Pow2(align)) == 0
  }

  function Max(a: nat, b: nat): nat {
    if a >= b then a else b
  }

  lemma {:induction false} RemainderBelow(n: nat, m: nat)
    requires m > 0
    ensures Remainder(n, m) < m && Remainder(n, m) <= n
    ensures Remainder(n - Remainder(n, m), m) == 0
  {
    if n >= m { RemainderBelow(n - m, m); }
  }

  /** It is the remainder that division leaves. */
  lemma {:induction false} RemainderIs(n: nat, m: nat)
    requires m > 0
    ensures exists q: nat :: n == q * m + Remainder(n, m)
  {
    if n < m {
      assert n == 0 * m + Remainder(n, m);
    } else {
      RemainderIs(n - m, m);
      var q: nat :| n - m == q * m + Remainder(n - m, m);
      assert n == (q + 1) * m + Remainder(n, m);
    }
  }

  lemma {:induction false} TimesRemainder(q: nat, m: nat)
    requires m > 0
    ensures Remainder(q * m, m) == 0
  {
    if q > 0 {
      TimesRemainder(q - 1, m);
      assert q * m == (q - 1) * m + m;
    }
  }

  /** What a multiple is. */
  lemma MultipleIs(n: nat, align: Align)
    ensures IsMultiple(n, align) <==> exists q: nat :: n == q * Pow2(align)
  {
    RemainderIs(n, Pow2(align));
    if IsMultiple(n, align) {
      var q: nat :| n == q * Pow2(align) + Remainder(n, Pow2(align));
      assert n == q * Pow2(align);
    }
    if q: nat :| n == q * Pow2(align) { TimesRemainder(q, Pow2(align)); }
  }

  lemma {:induction false} AddMultiple(m: nat, n: nat, d: nat)
    requires d > 0 && Remainder(m, d) == 0
    ensures Remainder(m + n, d) == Remainder(n, d)
  {
    if m >= d { AddMultiple(m - d, n, d); }
  }

  lemma {:induction false} AlignedGap(m: nat, n: nat, d: nat)
    requires d > 0 && Remainder(m, d) == 0 && Remainder(n, d) == 0 && m < n
    ensures m + d <= n
  {
    if m >= d { AlignedGap(m - d, n - d, d); }
  }

  lemma AlignToIs(n: nat, align: Align)
    ensures n <= AlignTo(n, align) < n + Pow2(align) && IsMultiple(AlignTo(n, align), align)
  {
    var m := Pow2(align);
    RemainderBelow(n, m);
    AddMultiple(n - Remainder(n, m), m, m);
  }

  /** No smaller multiple will do. */
  lemma AlignToLeast(n: nat, align: Align, k: nat)
    requires n <= k && IsMultiple(k, align)
    ensures AlignTo(n, align) <= k
  {
    AlignToIs(n, align);
    if k < AlignTo(n, align) { AlignedGap(k, AlignTo(n, align), Pow2(align)); }
  }

  lemma {:induction false} HalfMultiple(n: nat, d: nat)
    requires d > 0 && Remainder(n, 2 * d) == 0
    ensures Remainder(n, d) == 0
  {
    if n >= 2 * d { HalfMultiple(n - 2 * d, d); }
  }

  /** A multiple of a larger alignment is a multiple of a smaller one. */
  lemma {:induction false} MultipleOfSmaller(n: nat, small: Align, large: Align)
    requires small <= large && IsMultiple(n, large)
    ensures IsMultiple(n, small)
  {
    if small < large {
      HalfMultiple(n, Pow2(large - 1));
      MultipleOfSmaller(n, small, large - 1);
    }
  }

  lemma {:induction false} MultipleOfByte(n: nat)
    ensures IsMultiple(n, BYTE_ALIGN)
  {
    if n > 0 { MultipleOfByte(n - 1); }
  }

  lemma {:induction false} Pow2Monotone(a: nat, b: nat)
    requires a <= b
    ensures Pow2(a) <= Pow2(b) && IsMultiple(Pow2(b), a)
    ensures a < b ==> Pow2(a) < Pow2(b)
  {
    MultipleOfSmaller(Pow2(b), a, b);
    if a < b { Pow2Monotone(a, b - 1); }
  }

  // ---------------------------------------------------------------- layouts

  datatype Scalar = BoolScalar | PointerScalar(nonNull: bool) | IntScalar(signed: bool, size: IntegerSize) {
    function ByteCount(): nat {
      match this
      case BoolScalar => 1
      case PointerScalar(_) => POINTER_SIZE
      case IntScalar(_, Int8) => 1
      case IntScalar(_, Int32) => 4
      case IntScalar(_, Int64) => 8
    }

    function Alignment(): Align {
      match this
      case BoolScalar => BYTE_ALIGN
      case PointerScalar(_) => INT_ALIGN
      case IntScalar(_, Int8) => BYTE_ALIGN
      case IntScalar(_, Int32) => 2
      case IntScalar(_, Int64) => INT_ALIGN
    }
  }

  datatype TagEncoding =
    | UninhabitedTag
    | FieldTag(scalar: Scalar)
    | Niche(encoded: nat, direct: nat, untagged: Scalar)

  datatype FieldLayout = FieldLayout(field: nat, layout: Layout)

  datatype FieldOffset = FieldOffset(indexInMemory: nat, offset: nat)

  datatype LayoutKind =
    | Aggregate(fields: seq<FieldLayout>, positions: seq<FieldOffset>)
    | Variant(tag: TagEncoding, cases: seq<Layout>)
    | ScalarKind(scalar: Scalar)
    | Uninit(inner: Layout)

  datatype Layout = Layout(size: nat, alignment: Align, kind: LayoutKind) {
    predicate IsAlign1Zst() { size == 0 && alignment == BYTE_ALIGN }

    function Uninhabited(): Layout { Layout(size, alignment, Variant(UninhabitedTag, [])) }
  }

  const ZST := Layout(0, BYTE_ALIGN, Aggregate([], []))

  function Pointer(nonNull: bool): Layout {
    FromScalar(PointerScalar(nonNull))
  }

  function FromScalar(s: Scalar): Layout {
    Layout(s.ByteCount(), s.Alignment(), ScalarKind(s))
  }

  // ---------------------------------------------------------------- aggregates

  /** The greatest alignment among the first and the first k fields. */
  function MaxAlign(fs: seq<FieldLayout>, k: nat): Align
    requires k <= |fs|
  {
    if fs == [] then BYTE_ALIGN
    else if k == 0 then fs[0].layout.alignment
    else Max(fs[k - 1].layout.alignment, MaxAlign(fs, k - 1))
  }

  /** Where the first k fields end, rounded up for the next. */
  function End(fs: seq<FieldLayout>, k: nat): nat
    requires k <= |fs|
    decreases k, 0
  {
    if k == 0 then 0 else AlignTo(Start(fs, k - 1) + fs[k - 1].layout.size, MaxAlign(fs, k))
  }

  /** Where field k of the memory order starts. */
  function Start(fs: seq<FieldLayout>, k: nat): nat
    requires k < |fs|
    decreases k, 1
  {
    AlignTo(End(fs, k), MaxAlign(fs, k + 1))
  }

  /** The position of each field id, as far as the first k fields of the memory order tell. */
  function Positions(fs: seq<FieldLayout>, k: nat): (r: seq<FieldOffset>)
    requires k <= |fs|
    ensures |r| == |fs|
  {
    if k == 0 then seq(|fs|, _ => FieldOffset(0, 0))
    else
      var before := Positions(fs, k - 1);
      var field := fs[k - 1].field;
      if field < |fs| then before[field := FieldOffset(k - 1, Start(fs, k - 1))] else before
  }

  function AggregateOf(fs: seq<FieldLayout>): Layout {
    var align := MaxAlign(fs, |fs|);
    Layout(AlignTo(End(fs, |fs|), align), align, Aggregate(fs, Positions(fs, |fs|)))
  }

  /** Field ids are the numbers below the number of fields, each used once. */
  ghost predicate Numbered(fs: seq<FieldLayout>) {
    && (forall i :: 0 <= i < |fs| ==> fs[i].field < |fs|)
    && (forall i, j :: 0 <= i < j < |fs| ==> fs[i].field != fs[j].field)
  }

  method AggregateLayout(fieldLayouts: seq<FieldLayout>) returns (l: Layout)
    requires Numbered(fieldLayouts)
    ensures l == AggregateOf(fieldLayouts)
  {
    var offset := 0;
    var maxAlign := if fieldLayouts == [] then BYTE_ALIGN else fieldLayouts[0].layout.alignment;
    var positions := seq(|fieldLayouts|, _ => FieldOffset(0, 0));
    for i := 0 to |fieldLayouts|
      invariant offset == End(fieldLayouts, i) && maxAlign == MaxAlign(fieldLayouts, i)
      invariant positions == Positions(fieldLayouts, i)
    {
      var layout := fieldLayouts[i].layout;
      maxAlign := Max(layout.alignment, maxAlign);
      offset := AlignTo(offset, maxAlign);
      positions := positions[fieldLayouts[i].field := FieldOffset(i, offset)];
      offset := AlignTo(offset + layout.size, maxAlign);
    }
    return Layout(AlignTo(offset, maxAlign), maxAlign, Aggregate(fieldLayouts, positions));
  }

  /** The offset and the layout of a field of an aggregate. */
  function OffsetOf(l: Layout, field: nat): nat
    requires l.kind.Aggregate? && field < |l.kind.positions|
  {
    l.kind.positions[field].offset
  }

  ghost predicate MapsInverse(l: Layout)
    requires l.kind.Aggregate?
  {
    var fs, ps := l.kind.fields, l.kind.positions;
    && |ps| == |fs|
    && (forall f :: 0 <= f < |ps| ==> ps[f].indexInMemory < |fs| && fs[ps[f].indexInMemory].field == f)
    && (forall i :: 0 <= i < |fs| ==> fs[i].field < |ps| && ps[fs[i].field].indexInMemory == i)
  }

  function LayoutOf(l: Layout, field: nat): Layout
    requires l.kind.Aggregate? && MapsInverse(l) && field < |l.kind.positions|
  {
    l.kind.fields[l.kind.positions[field].indexInMemory].layout
  }

  /** Every field is aligned and in bounds, and no two overlap. */
  ghost predicate Placed(l: Layout)
    requires l.kind.Aggregate? && MapsInverse(l)
  {
    var n := |l.kind.positions|;
    && (forall f :: 0 <= f < n ==> IsMultiple(OffsetOf(l, f), LayoutOf(l, f).alignment) && LayoutOf(l, f).alignment <= l.alignment)
    && (forall f :: 0 <= f < n ==> OffsetOf(l, f) + LayoutOf(l, f).size <= l.size)
    && (forall f, g :: 0 <= f < n && 0 <= g < n && f != g ==>
          OffsetOf(l, f) + LayoutOf(l, f).size <= OffsetOf(l, g) || OffsetOf(l, g) + LayoutOf(l, g).size <= OffsetOf(l, f))
  }

  /** A layout with inverse maps, well placed fields and a size that is a multiple of its alignment. */
  ghost predicate GoodAggregate(l: Layout) {
    l.kind.Aggregate? && MapsInverse(l) && Placed(l) && IsMultiple(l.size, l.alignment)
  }

  lemma {:induction false} PositionsAt(fs: seq<FieldLayout>, k: nat, i: nat)
    requires Numbered(fs) && i < k <= |fs|
    ensures Positions(fs, k)[fs[i].field] == FieldOffset(i, Start(fs, i))
  {
    if i < k - 1 { PositionsAt(fs, k - 1, i); }
  }

  lemma {:induction false} MaxAlignBounds(fs: seq<FieldLayout>, i: nat, k: nat)
    requires i <= k <= |fs|
    ensures MaxAlign(fs, i) <= MaxAlign(fs, k)
    ensures i < k ==> fs[i].layout.alignment <= MaxAlign(fs, k)
  {
    if i < k {
      if i < k - 1 { MaxAlignBounds(fs, i, k - 1); } else { assert MaxAlign(fs, k) == Max(fs[i].layout.alignment, MaxAlign(fs, i)); }
    }
  }

  /** Fields follow one another in memory order. */
  lemma {:induction false} StartsGrow(fs: seq<FieldLayout>, i: nat, k: nat)
    requires i < k <= |fs|
    ensures Start(fs, i) + fs[i].layout.size <= End(fs, k)
    ensures k < |fs| ==> Start(fs, i) + fs[i].layout.size <= Start(fs, k)
  {
    AlignToIs(Start(fs, k - 1) + fs[k - 1].layout.size, MaxAlign(fs, k));
    if i < k - 1 { StartsGrow(fs, i, k - 1); }
    if k < |fs| { AlignToIs(End(fs, k), MaxAlign(fs, k + 1)); }
  }

  lemma StartAligned(fs: seq<FieldLayout>, i: nat)
    requires i < |fs|
    ensures IsMultiple(Start(fs, i), fs[i].layout.alignment)
  {
    AlignToIs(End(fs, i), MaxAlign(fs, i + 1));
    MaxAlignBounds(fs, i, i + 1);
    MultipleOfSmaller(Start(fs, i), fs[i].layout.alignment, MaxAlign(fs, i + 1));
  }

  /** A list of distinct numbers below its length contains them all. */
  lemma {:induction false} NumberedComplete(fs: seq<FieldLayout>, f: nat) returns (i: nat)
    requires Numbered(fs) && f < |fs|
    ensures i < |fs| && fs[i].field == f
  {
    var used := set j | 0 <= j < |fs| :: fs[j].field;
    if forall j :: 0 <= j < |fs| ==> fs[j].field != f {
      UsedCount(fs, |fs|);
      assert used <= Ids(|fs|) - {f};
      IdsCount(|fs|);
      SubsetCount(used, Ids(|fs|) - {f});
    }
    i :| 0 <= i < |fs| && fs[i].field == f;
  }

  lemma {:induction false} UsedCount(fs: seq<FieldLayout>, k: nat)
    requires Numbered(fs) && k <= |fs|
    ensures |set j | 0 <= j < k :: fs[j].field| == k
  {
    if k > 0 {
      UsedCount(fs, k - 1);
      var before := set j | 0 <= j < k - 1 :: fs[j].field;
      assert (set j | 0 <= j < k :: fs[j].field) == before + {fs[k - 1].field};
      assert fs[k - 1].field !in before;
    }
  }

  lemma {:induction false} IdsCount(n: nat)
    ensures |Ids(n)| == n
  {
    if n > 0 {
      IdsCount(n - 1);
      assert n - 1 !in Ids(n - 1);
    }
  }

  lemma {:induction false} SubsetCount(a: set<nat>, b: set<nat>)
    requires a <= b
    ensures |a| <= |b|
  {
    if a != {} {
      var x :| x in a;
      SubsetCount(a - {x}, b - {x});
    }
  }

  lemma AggregateMaps(fs: seq<FieldLayout>)
    requires Numbered(fs)
    ensures MapsInverse(AggregateOf(fs))
  {
    var ps := Positions(fs, |fs|);
    forall f | 0 <= f < |fs| ensures ps[f].indexInMemory < |fs| && fs[ps[f].indexInMemory].field == f {
      var i := NumberedComplete(fs, f);
      PositionsAt(fs, |fs|, i);
    }
    forall i | 0 <= i < |fs| ensures ps[fs[i].field].indexInMemory == i { PositionsAt(fs, |fs|, i); }
  }

  lemma FieldPlaced(fs: seq<FieldLayout>, f: nat)
    requires Numbered(fs) && f < |fs|
    ensures var l := AggregateOf(fs);
            && MapsInverse(l) && OffsetOf(l, f) == Start(fs, l.kind.positions[f].indexInMemory)
            && IsMultiple(OffsetOf(l, f), LayoutOf(l, f).alignment)
            && LayoutOf(l, f).alignment <= l.alignment
            && OffsetOf(l, f) + LayoutOf(l, f).size <= l.size
  {
    AggregateMaps(fs);
    var l := AggregateOf(fs);
    var i := l.kind.positions[f].indexInMemory;
    AlignToIs(End(fs, |fs|), l.alignment);
    PositionsAt(fs, |fs|, i);
    StartAligned(fs, i);
    StartsGrow(fs, i, |fs|);
    MaxAlignBounds(fs, i, |fs|);
  }

  /** A field ends before the fields behind it in memory start. */
  lemma FieldsDisjoint(fs: seq<FieldLayout>, i: nat, j: nat)
    requires Numbered(fs) && i < j < |fs|
    ensures OffsetOf(AggregateOf(fs), fs[i].field) + fs[i].layout.size <= OffsetOf(AggregateOf(fs), fs[j].field)
  {
    PositionsAt(fs, |fs|, i);
    PositionsAt(fs, |fs|, j);
    StartsGrow(fs, i, j);
  }

  /** Some field is as aligned as the whole. */
  lemma AggregateAlignment(fs: seq<FieldLayout>)
    ensures var l := AggregateOf(fs);
            if fs == [] then l.alignment == BYTE_ALIGN && l.size == 0
            else exists i :: 0 <= i < |fs| && fs[i].layout.alignment == l.alignment
  {
    MaxAlignAttained(fs, |fs|);
  }

  /** Every field list gets a good layout. */
  lemma AggregateGood(fs: seq<FieldLayout>)
    requires Numbered(fs)
    ensures GoodAggregate(AggregateOf(fs))
  {
    var l := AggregateOf(fs);
    AggregateMaps(fs);
    AlignToIs(End(fs, |fs|), l.alignment);
    forall f | 0 <= f < |fs| ensures
      && IsMultiple(OffsetOf(l, f), LayoutOf(l, f).alignment)
      && LayoutOf(l, f).alignment <= l.alignment
      && OffsetOf(l, f) + LayoutOf(l, f).size <= l.size
    {
      FieldPlaced(fs, f);
    }
    forall f, g | 0 <= f < |fs| && 0 <= g < |fs| && f != g
      ensures OffsetOf(l, f) + LayoutOf(l, f).size <= OffsetOf(l, g) || OffsetOf(l, g) + LayoutOf(l, g).size <= OffsetOf(l, f)
    {
      var i, j := l.kind.positions[f].indexInMemory, l.kind.positions[g].indexInMemory;
      if i < j { FieldsDisjoint(fs, i, j); } else { FieldsDisjoint(fs, j, i); }
    }
  }

  lemma {:induction false} MaxAlignAttained(fs: seq<FieldLayout>, k: nat)
    requires k <= |fs|
    ensures fs != [] ==> exists i :: 0 <= i < |fs| && fs[i].layout.alignment == MaxAlign(fs, k)
  {
    if fs != [] {
      if k > 0 { MaxAlignAttained(fs, k - 1); } else { assert fs[0].layout.alignment == MaxAlign(fs, 0); }
      if k > 0 && fs[k - 1].layout.alignment >= MaxAlign(fs, k - 1) { assert fs[k - 1].layout.alignment == MaxAlign(fs, k); }
    }
  }

  // ---------------------------------------------------------------- records

  /** Insertion after every entry whose alignment is not smaller. */
  function Insert(fs: seq<FieldLayout>, f: FieldLayout): seq<FieldLayout> {
    if fs == [] || fs[|fs| - 1].layout.alignment >= f.layout.alignment then fs + [f]
    else Insert(fs[..|fs| - 1], f) + [fs[|fs| - 1]]
  }

  /** The stable sort by descending alignment. */
  function SortedByAlign(fs: seq<FieldLayout>): seq<FieldLayout> {
    if fs == [] then [] else Insert(SortedByAlign(fs[..|fs| - 1]), fs[|fs| - 1])
  }

  ghost predicate Descending(fs: seq<FieldLayout>) {
    forall i, j :: 0 <= i < j < |fs| ==> fs[i].layout.alignment >= fs[j].layout.alignment
  }

  lemma {:induction false} InsertKeeps(fs: seq<FieldLayout>, f: FieldLayout)
    ensures multiset(Insert(fs, f)) == multiset(fs) + multiset{f}
    ensures |Insert(fs, f)| == |fs| + 1
  {
    if fs != [] && fs[|fs| - 1].layout.alignment < f.layout.alignment {
      InsertKeeps(fs[..|fs| - 1], f);
      assert fs == fs[..|fs| - 1] + [fs[|fs| - 1]];
    }
  }

  lemma {:induction false} InsertDescending(fs: seq<FieldLayout>, f: FieldLayout)
    requires Descending(fs)
    ensures Descending(Insert(fs, f))
  {
    if fs != [] && fs[|fs| - 1].layout.alignment < f.layout.alignment {
      var init, last := fs[..|fs| - 1], fs[|fs| - 1];
      InsertDescending(init, f);
      InsertKeeps(init, f);
      var r := Insert(init, f);
      forall i | 0 <= i < |r| ensures r[i].layout.alignment >= last.layout.alignment {
        assert r[i] in multiset(r);
        assert r[i] in multiset(init) + multiset{f};
        if r[i] != f { assert r[i] in init; }
      }
    }
  }

  lemma {:induction false} SortedIs(fs: seq<FieldLayout>)
    ensures Descending(SortedByAlign(fs)) && multiset(SortedByAlign(fs)) == multiset(fs) && |SortedByAlign(fs)| == |fs|
  {
    if fs != [] {
      SortedIs(fs[..|fs| - 1]);
      InsertDescending(SortedByAlign(fs[..|fs| - 1]), fs[|fs| - 1]);
      InsertKeeps(SortedByAlign(fs[..|fs| - 1]), fs[|fs| - 1]);
      assert fs == fs[..|fs| - 1] + [fs[|fs| - 1]];
    }
  }

  function Enumerated(layouts: seq<Layout>): (r: seq<FieldLayout>)
    ensures |r| == |layouts| && forall i :: 0 <= i < |r| ==> r[i] == FieldLayout(i, layouts[i])
  {
    seq(|layouts|, i requires 0 <= i < |layouts| => FieldLayout(i, layouts[i]))
  }

  function RecordOf(layouts: seq<Layout>): Layout {
    AggregateOf(SortedByAlign(Enumerated(layouts)))
  }

  /** Sorting neither drops nor repeats a field. */
  lemma SortedNumbered(layouts: seq<Layout>)
    ensures Numbered(SortedByAlign(Enumerated(layouts)))
    ensures forall x :: x in SortedByAlign(Enumerated(layouts)) ==> x in Enumerated(layouts)
  {
    var fs := Enumerated(layouts);
    var r := SortedByAlign(fs);
    SortedIs(fs);
    forall x | x in r ensures x in fs { assert x in multiset(r); assert x in multiset(fs); }
    forall i | 0 <= i < |r| ensures r[i].field < |r| { assert r[i] in r; }
    forall i, j | 0 <= i < j < |r| ensures r[i].field != r[j].field {
      if r[i].field == r[j].field {
        assert r[i] in r && r[j] in r;
        assert r[i] == r[j];
        TwiceIn(r, i, j);
        EnumeratedOnce(layouts, r[i]);
        assert false;
      }
    }
  }

  lemma TwiceIn(r: seq<FieldLayout>, i: nat, j: nat)
    requires i < j < |r| && r[i] == r[j]
    ensures multiset(r)[r[i]] >= 2
  {
    assert r == r[..i] + [r[i]] + r[i + 1..j] + [r[j]] + r[j + 1..];
  }

  lemma {:induction false} EnumeratedOnce(layouts: seq<Layout>, x: FieldLayout)
    ensures multiset(Enumerated(layouts))[x] <= 1
    decreases |layouts|
  {
    if layouts != [] {
      var init := layouts[..|layouts| - 1];
      EnumeratedOnce(init, x);
      var fs := Enumerated(layouts);
      assert fs == Enumerated(init) + [fs[|init|]];
      if x == fs[|init|] { assert x !in Enumerated(init); assert multiset(Enumerated(init))[x] == 0; }
    }
  }

  /** Every record has a good layout, in which each declared field has its own layout. */
  lemma RecordGood(layouts: seq<Layout>)
    ensures GoodAggregate(RecordOf(layouts)) && |RecordOf(layouts).kind.positions| == |layouts|
    ensures forall f :: 0 <= f < |layouts| ==> LayoutOf(RecordOf(layouts), f) == layouts[f]
  {
    var fs := SortedByAlign(Enumerated(layouts));
    SortedNumbered(layouts);
    SortedIs(Enumerated(layouts));
    AggregateGood(fs);
    var l := RecordOf(layouts);
    forall f | 0 <= f < |layouts| ensures LayoutOf(l, f) == layouts[f] {
      var i := l.kind.positions[f].indexInMemory;
      assert fs[i] in fs;
      assert fs[i] in Enumerated(layouts);
    }
  }

  /** Equally aligned fields stay in the order of their ids. */
  ghost predicate Stable(fs: seq<FieldLayout>) {
    forall i, j :: 0 <= i < j < |fs| && fs[i].layout.alignment == fs[j].layout.alignment ==> fs[i].field < fs[j].field
  }

  lemma {:induction false} InsertStable(fs: seq<FieldLayout>, f: FieldLayout)
    requires Stable(fs) && Descending(fs) && forall i :: 0 <= i < |fs| ==> fs[i].field < f.field
    ensures Stable(Insert(fs, f))
  {
    if fs != [] && fs[|fs| - 1].layout.alignment < f.layout.alignment {
      var init, last := fs[..|fs| - 1], fs[|fs| - 1];
      InsertStable(init, f);
      InsertKeeps(init, f);
      var r := Insert(init, f);
      forall i | 0 <= i < |r| && r[i].layout.alignment == last.layout.alignment ensures r[i].field < last.field {
        assert r[i] in multiset(r);
        assert r[i] in multiset(init) + multiset{f};
        assert r[i] in init;
        var k :| 0 <= k < |init| && init[k] == r[i];
        assert fs[k] == r[i] && fs[|init|] == last;
      }
    }
  }

  /** In memory a record's equally aligned fields come in declaration order. */
  lemma {:induction false} SortedStable(layouts: seq<Layout>)
    ensures Stable(SortedByAlign(Enumerated(layouts)))
    decreases |layouts|
  {
    if layouts != [] {
      var init := layouts[..|layouts| - 1];
      var fs := Enumerated(layouts);
      assert fs[..|fs| - 1] == Enumerated(init);
      SortedStable(init);
      SortedIs(Enumerated(init));
      SortedNumbered(init);
      InsertStable(SortedByAlign(Enumerated(init)), fs[|init|]);
    }
  }

  /** The sum of the sizes, each rounded up to the alignment. */
  function RoundedTotal(layouts: seq<Layout>, align: Align): nat {
    if layouts == [] then 0
    else RoundedTotal(layouts[..|layouts| - 1], align) + AlignTo(layouts[|layouts| - 1].size, align)
  }

  function Greatest(layouts: seq<Layout>): Align {
    if layouts == [] then BYTE_ALIGN else Max(layouts[|layouts| - 1].alignment, Greatest(layouts[..|layouts| - 1]))
  }

  lemma {:induction false} RoundedTotalConcat(a: seq<Layout>, b: seq<Layout>, align: Align)
    ensures RoundedTotal(a + b, align) == RoundedTotal(a, align) + RoundedTotal(b, align)
    decreases |b|
  {
    if b == [] {
      assert a + b == a;
    } else {
      assert (a + b)[..|a + b| - 1] == a + b[..|b| - 1];
      RoundedTotalConcat(a, b[..|b| - 1], align);
    }
  }

  lemma {:induction false} RoundedTotalPermuted(a: seq<Layout>, b: seq<Layout>, align: Align)
    requires multiset(a) == multiset(b)
    ensures RoundedTotal(a, align) == RoundedTotal(b, align)
    decreases |a|
  {
    if a == [] {
      assert |multiset(b)| == 0;
    } else {
      var x, init := a[|a| - 1], a[..|a| - 1];
      assert a == init + [x];
      assert x in multiset(b);
      var i :| 0 <= i < |b| && b[i] == x;
      var b' := b[..i] + b[i + 1..];
      assert b == b[..i] + [x] + b[i + 1..];
      assert multiset(b') == multiset(b) - multiset{x};
      RoundedTotalPermuted(init, b', align);
      RoundedTotalConcat(b[..i], b[i + 1..], align);
      RoundedTotalConcat(b[..i] + [x], b[i + 1..], align);
      RoundedTotalConcat(b[..i], [x], align);
    }
  }

  ghost predicate IsGreatest(layouts: seq<Layout>, align: Align) {
    && (forall i :: 0 <= i < |layouts| ==> layouts[i].alignment <= align)
    && (if layouts == [] then align == BYTE_ALIGN else exists i :: 0 <= i < |layouts| && layouts[i].alignment == align)
  }

  lemma {:induction false} GreatestIs(layouts: seq<Layout>)
    ensures IsGreatest(layouts, Greatest(layouts))
  {
    if layouts != [] {
      var init := layouts[..|layouts| - 1];
      GreatestIs(init);
      if init != [] && layouts[|init|].alignment < Greatest(init) {
        var i :| 0 <= i < |init| && init[i].alignment == Greatest(init);
        assert layouts[i].alignment == Greatest(layouts);
      } else if init == [] {
        assert layouts[0].alignment == Greatest(layouts);
      } else {
        assert layouts[|init|].alignment == Greatest(layouts);
      }
    }
  }

  lemma GreatestPermuted(a: seq<Layout>, b: seq<Layout>)
    requires multiset(a) == multiset(b)
    ensures Greatest(a) == Greatest(b)
  {
    GreatestIs(a);
    GreatestIs(b);
    forall i | 0 <= i < |a| ensures a[i].alignment <= Greatest(b) { assert a[i] in multiset(a); assert a[i] in b; }
    forall i | 0 <= i < |b| ensures b[i].alignment <= Greatest(a) { assert b[i] in multiset(b); assert b[i] in a; }
    assert |a| == |multiset(a)| == |multiset(b)| == |b|;
  }

  function Layouts(fs: seq<FieldLayout>): (r: seq<Layout>)
    ensures |r| == |fs| && forall i :: 0 <= i < |r| ==> r[i] == fs[i].layout
  {
    seq(|fs|, i requires 0 <= i < |fs| => fs[i].layout)
  }

  lemma {:induction false} DescendingMaxAlign(fs: seq<FieldLayout>, k: nat)
    requires Descending(fs) && k <= |fs| && fs != []
    ensures MaxAlign(fs, k) == fs[0].layout.alignment
  {
    if k > 0 { DescendingMaxAlign(fs, k - 1); }
  }

  lemma AlignToSum(m: nat, n: nat, align: Align)
    requires IsMultiple(m, align)
    ensures AlignTo(m + n, align) == m + AlignTo(n, align)
  {
    AlignToIs(n, align);
    AlignToIs(m + n, align);
    AddMultiple(m, AlignTo(n, align), Pow2(align));
    var r, s := AlignTo(m + n, align), m + AlignTo(n, align);
    if r < s { AlignedGap(r, s, Pow2(align)); }
    if s < r { AlignedGap(s, r, Pow2(align)); }
  }

  lemma {:induction false} DescendingEnd(fs: seq<FieldLayout>, k: nat)
    requires Descending(fs) && k <= |fs| && fs != []
    ensures var align := fs[0].layout.alignment;
            End(fs, k) == RoundedTotal(Layouts(fs)[..k], align) && IsMultiple(End(fs, k), align)
  {
    var align := fs[0].layout.alignment;
    if k > 0 {
      DescendingEnd(fs, k - 1);
      DescendingMaxAlign(fs, k);
      assert Start(fs, k - 1) == End(fs, k - 1);
      AlignToSum(End(fs, k - 1), fs[k - 1].layout.size, align);
      AlignToIs(Start(fs, k - 1) + fs[k - 1].layout.size, align);
      assert Layouts(fs)[..k][..k - 1] == Layouts(fs)[..k - 1];
    }
  }

  lemma LayoutsConcat(a: seq<FieldLayout>, b: seq<FieldLayout>)
    ensures Layouts(a + b) == Layouts(a) + Layouts(b)
  {
  }

  lemma LayoutsWithout(b: seq<FieldLayout>, i: nat)
    requires i < |b|
    ensures multiset(b[..i] + b[i + 1..]) == multiset(b) - multiset{b[i]}
    ensures multiset(Layouts(b)) == multiset(Layouts(b[..i] + b[i + 1..])) + multiset{b[i].layout}
  {
    assert b == b[..i] + [b[i]] + b[i + 1..];
    LayoutsConcat(b[..i], b[i + 1..]);
    LayoutsConcat(b[..i] + [b[i]], b[i + 1..]);
    LayoutsConcat(b[..i], [b[i]]);
    assert Layouts([b[i]]) == [b[i].layout];
  }

  lemma {:induction false} LayoutsMultiset(a: seq<FieldLayout>, b: seq<FieldLayout>)
    requires multiset(a) == multiset(b)
    ensures multiset(Layouts(a)) == multiset(Layouts(b))
    decreases |a|
  {
    if a == [] {
      assert |multiset(b)| == 0;
    } else {
      var x, k := a[|a| - 1], |a| - 1;
      assert x in multiset(b);
      var i :| 0 <= i < |b| && b[i] == x;
      LayoutsWithout(a, k);
      LayoutsWithout(b, i);
      LayoutsMultiset(a[..k] + a[k + 1..], b[..i] + b[i + 1..]);
    }
  }

  /** A record is as aligned as its most aligned field, and every field takes up its size rounded up to that. */
  lemma RecordSize(layouts: seq<Layout>)
    ensures RecordOf(layouts).alignment == Greatest(layouts)
    ensures RecordOf(layouts).size == RoundedTotal(layouts, Greatest(layouts))
  {
    var es := Enumerated(layouts);
    var fs := SortedByAlign(es);
    SortedIs(es);
    LayoutsMultiset(fs, es);
    assert Layouts(es) == layouts;
    if layouts != [] {
      var align := fs[0].layout.alignment;
      DescendingMaxAlign(fs, |fs|);
      DescendingEnd(fs, |fs|);
      assert Layouts(fs)[..|fs|] == Layouts(fs);
      RoundedTotalPermuted(Layouts(fs), layouts, align);
      GreatestPermuted(Layouts(fs), layouts);
      GreatestIs(Layouts(fs));
      assert Layouts(fs)[0].alignment == align;
    }
  }

  /** The order in which fields are declared changes neither the size nor the alignment. */
  lemma RecordPermuted(a: seq<Layout>, b: seq<Layout>)
    requires multiset(a) == multiset(b)
    ensures RecordOf(a).size == RecordOf(b).size && RecordOf(a).alignment == RecordOf(b).alignment
  {
    RecordSize(a);
    RecordSize(b);
    GreatestPermuted(a, b);
    RoundedTotalPermuted(a, b, Greatest(a));
  }

  method RecordLayout(layouts: seq<Layout>) returns (l: Layout)
    ensures l == RecordOf(layouts)
    ensures GoodAggregate(l) && |l.kind.positions| == |layouts|
    ensures forall f :: 0 <= f < |layouts| ==> LayoutOf(l, f) == layouts[f]
  {
    var fieldLayouts: seq<FieldLayout> := [];
    for i := 0 to |layouts|
      invariant fieldLayouts == Enumerated(layouts[..i])
    {
      fieldLayouts := fieldLayouts + [FieldLayout(i, layouts[i])];
    }
    assert layouts[..|layouts|] == layouts;
    SortedNumbered(layouts);
    RecordGood(layouts);
    l := AggregateLayout(SortedByAlign(fieldLayouts));
  }
}
