/** The layout of variants, and what storing a case and reading a discriminant do to memory. */
module VariantLayout {
  import opened Prelude
  import opened Types
  import opened Layout

  // ---------------------------------------------------------------- layout

  /** The tag takes one byte if a byte can hold the number of cases, and otherwise eight. */
  function TagScalar(caseCount: nat): Scalar {
    IntScalar(false, if caseCount <= 255 then Int8 else Int64)
  }

  /** The first of the cases of greatest size. */
  function Biggest(cases: seq<Layout>): (r: Layout)
    requires cases != []
    ensures r in cases && forall i :: 0 <= i < |cases| ==> cases[i].size <= r.size
  {
    var last := cases[|cases| - 1];
    if |cases| == 1 then last
    else
      var acc := Biggest(cases[..|cases| - 1]);
      if acc.size >= last.size then acc else last
  }

  /** The case that holds a pointer, when the other one of two holds nothing. */
  function NicheCase(cases: seq<Layout>): Option<nat> {
    if |cases| == 2 && cases[0].IsAlign1Zst() != cases[1].IsAlign1Zst() then
      var untagged := if cases[0].IsAlign1Zst() then 1 else 0;
      if cases[untagged].kind == ScalarKind(PointerScalar(true)) then Some(untagged) else None
    else None
  }

  /** A tag at the start and room for the biggest case behind it. */
  function TaggedForm(cases: seq<Layout>): Layout
    requires cases != []
  {
    var tag := TagScalar(|cases|);
    var biggest := Biggest(cases);
    var align := Max(tag.Alignment(), biggest.alignment);
    Layout(AlignTo(tag.ByteCount() + biggest.size, align), align, Variant(FieldTag(tag), cases))
  }

  /** No tag: a pointer that is the index of the other case means the other case. */
  function NicheForm(cases: seq<Layout>): Layout
    requires NicheCase(cases).Some?
  {
    var untagged := NicheCase(cases).value;
    Layout(cases[untagged].size, cases[untagged].alignment,
           Variant(Niche(untagged, 1 - untagged, PointerScalar(false)), cases))
  }

  function VariantOf(cases: seq<Layout>): Layout {
    if cases == [] then ZST.Uninhabited()
    else if NicheCase(cases).Some? then NicheForm(cases)
    else TaggedForm(cases)
  }

  /** The layout as only field, behind a prefix. */
  function PrefixedBy(prefix: nat, align: Align, layout: Layout): Layout {
    var a := Max(align, layout.alignment);
    Layout(AlignTo(prefix + layout.size, a), layout.alignment,
           Aggregate([FieldLayout(0, layout)], [FieldOffset(0, AlignTo(prefix, a))]))
  }

  /** The place of a variant seen as the place of one case: a tuple of at most one field. */
  function Downcast(l: Layout, c: nat): (r: Layout)
    requires l.kind.Variant? && c < |l.kind.cases|
    ensures r.kind.Aggregate? && |r.kind.positions| == 1
  {
    match l.kind.tag
    case FieldTag(scalar) => PrefixedBy(scalar.ByteCount(), scalar.Alignment(), l.kind.cases[c])
    case UninhabitedTag => PrefixedBy(0, BYTE_ALIGN, l.kind.cases[c])
    case Niche(_, _, _) => PrefixedBy(0, l.alignment, l.kind.cases[c])
  }

  function PayloadOffset(l: Layout, c: nat): nat
    requires l.kind.Variant? && c < |l.kind.cases|
  {
    OffsetOf(Downcast(l, c), 0)
  }

  // ---------------------------------------------------------------- which form is taken

  /** Case u is a pointer that is never null and takes up space, and the other of two cases takes none. */
  predicate NicheAt(cases: seq<Layout>, u: nat) {
    && |cases| == 2 && u < 2
    && cases[u].kind == ScalarKind(PointerScalar(true)) && !(cases[u].size == 0 && Pow2(cases[u].alignment) == 1)
    && cases[1 - u].size == 0 && Pow2(cases[1 - u].alignment) == 1
  }

  /** The size is the least that is a multiple of the alignment and has room for so many bytes. */
  ghost predicate RoundedUp(size: nat, bytes: nat, align: Align) {
    IsMultiple(size, align) && bytes <= size < bytes + Pow2(align)
  }

  /** A byte of tag for up to 255 cases and else a word, with room behind it for case b. */
  ghost predicate TaggedFor(cases: seq<Layout>, b: nat, l: Layout) {
    && b < |cases|
    && (forall i :: 0 <= i < |cases| ==> cases[i].size <= cases[b].size)
    && (forall i :: 0 <= i < b ==> cases[i].size < cases[b].size)
    && l.alignment == Max(if |cases| <= 255 then 0 else 3, cases[b].alignment)
    && l.kind == Variant(FieldTag(IntScalar(false, if |cases| <= 255 then Int8 else Int64)), cases)
    && RoundedUp(l.size, (if |cases| <= 255 then 1 else 8) + cases[b].size, l.alignment)
  }

  lemma {:induction false} BiggestAt(cases: seq<Layout>) returns (b: nat)
    requires cases != []
    ensures b < |cases| && cases[b] == Biggest(cases)
    ensures forall i :: 0 <= i < b ==> cases[i].size < cases[b].size
    decreases |cases|
  {
    var n := |cases| - 1;
    b := n;
    if n > 0 {
      var rest := cases[..n];
      var k := BiggestAt(rest);
      if Biggest(rest).size >= cases[n].size {
        b := k;
        forall i | 0 <= i < b ensures cases[i].size < cases[b].size { assert rest[i].size < rest[k].size; }
      } else {
        forall i | 0 <= i < n ensures cases[i].size < cases[n].size { assert rest[i].size <= Biggest(rest).size; }
      }
    }
  }

  lemma OnlyByteAlign(a: Align)
    ensures Pow2(a) == 1 <==> a == BYTE_ALIGN
  {
  }

  lemma NicheExactly(cases: seq<Layout>, u: nat)
    ensures NicheCase(cases) == Some(u) <==> NicheAt(cases, u)
  {
    if |cases| == 2 {
      OnlyByteAlign(cases[0].alignment);
      OnlyByteAlign(cases[1].alignment);
    }
  }

  lemma TaggedExactly(cases: seq<Layout>)
    requires cases != []
    ensures exists b: nat :: TaggedFor(cases, b, TaggedForm(cases))
  {
    var b := BiggestAt(cases);
    var tag := TagScalar(|cases|);
    AlignToIs(tag.ByteCount() + cases[b].size, Max(tag.Alignment(), cases[b].alignment));
    assert TaggedFor(cases, b, TaggedForm(cases));
  }

  /** Two cases share the room of a pointer if one is that pointer and the other nothing; all other variants
      have a tag and room for the first of their biggest cases; and one without cases takes no room. */
  lemma FormExactly(cases: seq<Layout>)
    ensures cases == [] ==> VariantOf(cases) == Layout(0, 0, Variant(UninhabitedTag, []))
    ensures forall u: nat :: NicheAt(cases, u) ==>
              VariantOf(cases) == Layout(cases[u].size, cases[u].alignment, Variant(Niche(u, 1 - u, PointerScalar(false)), cases))
    ensures cases == [] || (exists u: nat :: NicheAt(cases, u)) || (exists b: nat :: TaggedFor(cases, b, VariantOf(cases)))
  {
    forall u: nat ensures NicheCase(cases) == Some(u) <==> NicheAt(cases, u) { NicheExactly(cases, u); }
    if NicheCase(cases).Some? {
      assert NicheAt(cases, NicheCase(cases).value);
    } else if cases != [] {
      TaggedExactly(cases);
      assert VariantOf(cases) == TaggedForm(cases);
    }
  }

  // ---------------------------------------------------------------- where payloads go

  /** Every case has a size that is a multiple of its alignment, as every computed layout has. */
  ghost predicate WellSized(cases: seq<Layout>) {
    forall i :: 0 <= i < |cases| ==> IsMultiple(cases[i].size, cases[i].alignment)
  }

  ghost predicate InBounds(l: Layout, c: nat)
    requires l.kind.Variant? && c < |l.kind.cases|
  {
    PayloadOffset(l, c) + l.kind.cases[c].size <= l.size
  }

  /** Wherever a variant may stand, the payload is aligned. */
  ghost predicate PayloadAligned(l: Layout, c: nat)
    requires l.kind.Variant? && c < |l.kind.cases|
  {
    forall base: nat :: IsMultiple(base, l.alignment) ==> IsMultiple(base + PayloadOffset(l, c), l.kind.cases[c].alignment)
  }

  lemma ByteCountIsAlignment(caseCount: nat)
    ensures TagScalar(caseCount).ByteCount() == Pow2(TagScalar(caseCount).Alignment())
  {
    assert Pow2(0) == 1 && Pow2(1) == 2 && Pow2(2) == 4 && Pow2(3) == 8;
  }

  lemma AlignToPow2(small: nat, large: nat)
    requires small <= large
    ensures AlignTo(Pow2(small), large) == Pow2(large)
  {
    Pow2Monotone(small, large);
    AlignToIs(Pow2(small), large);
    Pow2Monotone(large, large);
    AlignToLeast(Pow2(small), large, Pow2(large));
    var r := AlignTo(Pow2(small), large);
    if r < Pow2(large) {
      AlignedGap(0, r, Pow2(large));
    }
  }

  /** Behind a tag the payload starts at the greater of the two alignments, so never inside the tag. */
  lemma TaggedOffset(cases: seq<Layout>, c: nat)
    requires c < |cases|
    ensures var tag := TagScalar(|cases|);
            && PayloadOffset(TaggedForm(cases), c) == Pow2(Max(tag.Alignment(), cases[c].alignment))
            && tag.ByteCount() <= PayloadOffset(TaggedForm(cases), c)
  {
    var tag := TagScalar(|cases|);
    ByteCountIsAlignment(|cases|);
    AlignToPow2(tag.Alignment(), Max(tag.Alignment(), cases[c].alignment));
    Pow2Monotone(tag.Alignment(), Max(tag.Alignment(), cases[c].alignment));
  }

  lemma TaggedInBounds(cases: seq<Layout>, c: nat)
    requires c < |cases| && WellSized(cases) && cases[c].alignment <= TaggedForm(cases).alignment
    ensures InBounds(TaggedForm(cases), c)
  {
    var tag, l := TagScalar(|cases|), TaggedForm(cases);
    var t, a, size := tag.Alignment(), cases[c].alignment, cases[c].size;
    TaggedOffset(cases, c);
    ByteCountIsAlignment(|cases|);
    AlignToIs(Pow2(t) + Biggest(cases).size, l.alignment);
    if a > t {
      MultipleOfSmaller(l.size, a, l.alignment);
      AlignedGap(size, l.size, Pow2(a));
    }
  }

  lemma TaggedAligned(cases: seq<Layout>, c: nat)
    requires c < |cases|
    ensures PayloadAligned(TaggedForm(cases), c) <==> cases[c].alignment <= TaggedForm(cases).alignment
  {
    var tag, l := TagScalar(|cases|), TaggedForm(cases);
    var a, off := cases[c].alignment, PayloadOffset(TaggedForm(cases), c);
    TaggedOffset(cases, c);
    Pow2Monotone(a, Max(tag.Alignment(), a));
    if a <= l.alignment {
      forall base: nat | IsMultiple(base, l.alignment) ensures IsMultiple(base + off, a) {
        MultipleOfSmaller(base, a, l.alignment);
        AddMultiple(base, off, Pow2(a));
      }
    } else {
      Misaligned(l.alignment, a);
    }
  }

  /** An address that is aligned for the smaller alignment only. */
  lemma Misaligned(small: Align, large: Align)
    requires small < large
    ensures IsMultiple(Pow2(small), small) && !IsMultiple(Pow2(small) + Pow2(large), large)
  {
    Pow2Monotone(small, small);
    Pow2Monotone(small, large);
    Pow2Monotone(large, large);
    if IsMultiple(Pow2(small) + Pow2(large), large) {
      AlignedGap(Pow2(large), Pow2(small) + Pow2(large), Pow2(large));
    }
  }

  /** A payload is in bounds and aligned wherever the variant may stand exactly when its case is
      no more aligned than the variant, which looks at the biggest case's alignment only. */
  lemma TaggedPayloadFits(cases: seq<Layout>, c: nat)
    requires c < |cases| && WellSized(cases)
    ensures InBounds(TaggedForm(cases), c) && PayloadAligned(TaggedForm(cases), c)
            <==> cases[c].alignment <= Max(TagScalar(|cases|).Alignment(), Biggest(cases).alignment)
  {
    TaggedAligned(cases, c);
    if cases[c].alignment <= TaggedForm(cases).alignment { TaggedInBounds(cases, c); }
  }

  /** Every payload fits when the biggest case is also the most aligned one. */
  lemma BiggestMostAligned(cases: seq<Layout>, c: nat)
    requires c < |cases| && WellSized(cases)
    requires forall i :: 0 <= i < |cases| ==> cases[i].alignment <= Biggest(cases).alignment
    ensures InBounds(TaggedForm(cases), c) && PayloadAligned(TaggedForm(cases), c)
  {
    TaggedPayloadFits(cases, c);
  }

  function Bytes(n: nat): seq<Layout> {
    seq(n, _ => FromScalar(IntScalar(false, Int8)))
  }

  lemma {:induction false} RecordOfBytes(n: nat)
    ensures RecordOf(Bytes(n)).size == n && RecordOf(Bytes(n)).alignment == BYTE_ALIGN
  {
    RecordSize(Bytes(n));
    if n > 0 {
      assert Bytes(n)[..n - 1] == Bytes(n - 1);
      RecordOfBytes(n - 1);
      RecordSize(Bytes(n - 1));
    }
  }

  lemma WordBehind(first: Layout)
    requires first.size == 9 && first.alignment == BYTE_ALIGN
    ensures var cases := [first, FromScalar(IntScalar(false, Int64))];
            TaggedForm(cases).size == 10 && PayloadOffset(TaggedForm(cases), 1) == 8
  {
    var word := FromScalar(IntScalar(false, Int64));
    var cases := [first, word];
    assert Pow2(0) == 1 && Pow2(1) == 2 && Pow2(2) == 4 && Pow2(3) == 8;
    assert cases[..1] == [first] && Biggest([first]) == first;
    assert Biggest(cases) == first;
    MultipleOfByte(10);
    TaggedOffset(cases, 1);
    assert cases[1].alignment == 3;
  }

  /** A record of nine bytes against one word: the word's case reaches past the end of the variant. */
  lemma WordPastEnd()
    ensures var cases := [RecordOf(Bytes(9)), FromScalar(IntScalar(false, Int64))];
            TaggedForm(cases).size == 10 && PayloadOffset(TaggedForm(cases), 1) == 8 && !InBounds(TaggedForm(cases), 1)
  {
    RecordOfBytes(9);
    WordBehind(RecordOf(Bytes(9)));
  }

  /** Without a tag both payloads start at the start and fit. */
  lemma NichePayloadFits(cases: seq<Layout>, c: nat)
    requires NicheCase(cases).Some? && c < 2
    ensures PayloadOffset(NicheForm(cases), c) == 0
    ensures cases[NicheCase(cases).value].size == POINTER_SIZE && cases[NicheCase(cases).value].alignment == INT_ALIGN ==>
              InBounds(NicheForm(cases), c) && PayloadAligned(NicheForm(cases), c)
  {
    var l := NicheForm(cases);
    assert AlignTo(0, Max(l.alignment, cases[c].alignment)) == 0;
    if cases[NicheCase(cases).value].size == POINTER_SIZE && cases[NicheCase(cases).value].alignment == INT_ALIGN {
      forall base: nat | IsMultiple(base, l.alignment) ensures IsMultiple(base + 0, cases[c].alignment) {
        MultipleOfSmaller(base, cases[c].alignment, l.alignment);
      }
    }
  }

  /** The place of a case is itself a good one-field aggregate. */
  lemma DowncastGood(cases: seq<Layout>, c: nat)
    requires c < |cases| && WellSized(cases)
    ensures GoodAggregate(Downcast(TaggedForm(cases), c)) && LayoutOf(Downcast(TaggedForm(cases), c), 0) == cases[c]
  {
    var tag, l := TagScalar(|cases|), TaggedForm(cases);
    var d, t, a, size := Downcast(l, c), tag.Alignment(), cases[c].alignment, cases[c].size;
    var m := Max(t, a);
    TaggedOffset(cases, c);
    ByteCountIsAlignment(|cases|);
    AlignToIs(tag.ByteCount() + size, m);
    MultipleOfSmaller(d.size, a, m);
    Pow2Monotone(a, m);
    if a > t { AlignedGap(size, d.size, Pow2(a)); }
    assert MapsInverse(d);
    assert LayoutOf(d, 0) == cases[c];
  }

  /** One field with the layout at the offset, and room for the prefix and the layout. */
  ghost predicate OneField(l: Layout, inner: Layout, prefix: nat, align: Align) {
    && l.alignment == inner.alignment && l.kind.Aggregate?
    && l.kind.fields == [FieldLayout(0, inner)] && |l.kind.positions| == 1 && l.kind.positions[0].indexInMemory == 0
    && RoundedUp(OffsetOf(l, 0), prefix, Max(align, inner.alignment))
    && RoundedUp(l.size, prefix + inner.size, Max(align, inner.alignment))
  }

  /** The place of a case has the case's payload, and before it room for the tag, or for nothing. */
  lemma DowncastExactly(l: Layout, c: nat)
    requires l.kind.Variant? && c < |l.kind.cases|
    ensures match l.kind.tag
            case UninhabitedTag => OneField(Downcast(l, c), l.kind.cases[c], 0, BYTE_ALIGN)
            case FieldTag(scalar) => OneField(Downcast(l, c), l.kind.cases[c], FromScalar(scalar).size, FromScalar(scalar).alignment)
            case Niche(_, _, _) => OneField(Downcast(l, c), l.kind.cases[c], 0, l.alignment)
  {
    forall n: nat, a: Align ensures RoundedUp(AlignTo(n, a), n, a) { AlignToIs(n, a); }
  }

  // ---------------------------------------------------------------- memory

  type Byte = b: nat | b < 256

  function Pow256(n: nat): (r: nat)
    ensures r > 0
  {
    if n == 0 then 1 else 256 * Pow256(n - 1)
  }

  /** A number as n bytes, the least significant first. */
  function ToBytes(v: nat, n: nat): (r: seq<Byte>)
    ensures |r| == n
  {
    if n == 0 then [] else [v % 256] + ToBytes(v / 256, n - 1)
  }

  function FromBytes(bs: seq<Byte>): (r: nat) {
    if bs == [] then 0 else bs[0] + 256 * FromBytes(bs[1..])
  }

  lemma {:induction false} BytesRoundTrip(v: nat, n: nat)
    requires v < Pow256(n)
    ensures FromBytes(ToBytes(v, n)) == v
  {
    if n > 0 {
      BytesRoundTrip(v / 256, n - 1);
      assert ToBytes(v, n)[1..] == ToBytes(v / 256, n - 1);
    }
  }

  /** Memory with some bytes written at an address. */
  function Written(m: seq<Byte>, at: nat, bytes: seq<Byte>): (r: seq<Byte>)
    requires at + |bytes| <= |m|
    ensures |r| == |m|
    ensures forall i :: 0 <= i < |m| ==> r[i] == if at <= i < at + |bytes| then bytes[i - at] else m[i]
  {
    m[..at] + bytes + m[at + |bytes|..]
  }

  method StoreBytes(mem: array<Byte>, at: nat, bytes: seq<Byte>)
    requires at + |bytes| <= mem.Length
    modifies mem
    ensures mem[..] == Written(old(mem[..]), at, bytes)
  {
    for i := 0 to |bytes|
      invariant forall k :: 0 <= k < mem.Length ==> mem[k] == if at <= k < at + i then bytes[k - at] else old(mem[k])
    {
      mem[at + i] := bytes[i];
    }
  }

  /** How many bytes at the start hold the tag, or the pointer that stands for it. */
  function TagBytes(l: Layout): nat
    requires l.kind.Variant?
  {
    match l.kind.tag
    case UninhabitedTag => 0
    case FieldTag(scalar) => scalar.ByteCount()
    case Niche(_, _, scalar) => scalar.ByteCount()
  }

  /** Whether storing a case writes its index at the start. */
  predicate WritesTag(l: Layout, c: nat)
    requires l.kind.Variant?
  {
    l.kind.tag.FieldTag? || (l.kind.tag.Niche? && c == l.kind.tag.direct)
  }

  ghost predicate Fits(m: seq<Byte>, base: nat, l: Layout, c: nat, payload: seq<Byte>) {
    && l.kind.Variant? && c < |l.kind.cases|
    && base + PayloadOffset(l, c) + |payload| <= |m| && base + TagBytes(l) <= |m|
  }

  /** Memory after a case has been stored: first its payload, then its index where the form has one. */
  function Encoded(m: seq<Byte>, base: nat, l: Layout, c: nat, payload: seq<Byte>): seq<Byte>
    requires Fits(m, base, l, c, payload)
  {
    var m' := Written(m, base + PayloadOffset(l, c), payload);
    if WritesTag(l, c) then Written(m', base, ToBytes(c, TagBytes(l))) else m'
  }

  method StoreVariant(mem: array<Byte>, base: nat, l: Layout, c: nat, payload: seq<Byte>)
    requires Fits(mem[..], base, l, c, payload)
    modifies mem
    ensures mem[..] == Encoded(old(mem[..]), base, l, c, payload)
  {
    StoreBytes(mem, base + PayloadOffset(l, c), payload);
    match l.kind.tag {
      case FieldTag(scalar) => StoreBytes(mem, base, ToBytes(c, scalar.ByteCount()));
      case UninhabitedTag =>
      case Niche(_, direct, scalar) =>
        if c == direct { StoreBytes(mem, base, ToBytes(c, scalar.ByteCount())); }
    }
  }

  /** What reading the discriminant gives; nothing for a type without cases. */
  function Discriminant(m: seq<Byte>, base: nat, l: Layout): Option<nat>
    requires l.kind.Variant? && base + TagBytes(l) <= |m|
  {
    var value := FromBytes(m[base..base + TagBytes(l)]);
    match l.kind.tag
    case UninhabitedTag => None
    case FieldTag(_) => Some(value)
    case Niche(encoded, direct, _) => Some(if value != direct then encoded else direct)
  }

  function Payload(m: seq<Byte>, base: nat, l: Layout, c: nat): seq<Byte>
    requires l.kind.Variant? && c < |l.kind.cases| && base + PayloadOffset(l, c) + l.kind.cases[c].size <= |m|
  {
    m[base + PayloadOffset(l, c)..][..l.kind.cases[c].size]
  }

  ghost predicate OnlyWithin(m: seq<Byte>, m': seq<Byte>, base: nat, size: nat) {
    |m| == |m'| && forall i :: 0 <= i < |m| && !(base <= i < base + size) ==> m'[i] == m[i]
  }

  /** The stored case and its payload are read back. */
  ghost predicate ReadsBack(m: seq<Byte>, base: nat, l: Layout, c: nat, payload: seq<Byte>) {
    && l.kind.Variant? && c < |l.kind.cases|
    && base + PayloadOffset(l, c) + l.kind.cases[c].size <= |m| && base + TagBytes(l) <= |m|
    && Discriminant(m, base, l) == Some(c)
    && Payload(m, base, l, c) == payload
  }

  lemma TagHolds(caseCount: nat, c: nat)
    requires c < caseCount <= 0x1_0000_0000
    ensures c < Pow256(TagScalar(caseCount).ByteCount())
  {
    assert Pow256(1) == 256 && Pow256(2) == 0x1_0000 && Pow256(4) == 0x1_0000_0000;
    assert Pow256(5) == 256 * Pow256(4) && Pow256(8) == 256 * 256 * 256 * Pow256(5);
  }

  /** The tagged form reads back every case and payload; and it writes inside the variant only,
      if the case is no more aligned than the variant. */
  lemma TaggedRoundTrip(cases: seq<Layout>, m: seq<Byte>, base: nat, c: nat, payload: seq<Byte>)
    requires c < |cases| <= 0x1_0000_0000 && WellSized(cases) && |payload| == cases[c].size
    requires Fits(m, base, TaggedForm(cases), c, payload)
    ensures var l := TaggedForm(cases);
            var m' := Encoded(m, base, l, c, payload);
            ReadsBack(m', base, l, c, payload) && (cases[c].alignment <= l.alignment ==> OnlyWithin(m, m', base, l.size))
  {
    var l := TaggedForm(cases);
    var m' := Encoded(m, base, l, c, payload);
    TagHolds(|cases|, c);
    BytesRoundTrip(c, TagBytes(l));
    TaggedOffset(cases, c);
    assert m'[base..base + TagBytes(l)] == ToBytes(c, TagBytes(l));
    assert Payload(m', base, l, c) == payload;
    if cases[c].alignment <= l.alignment { TaggedInBounds(cases, c); }
  }

  lemma IndexHolds(c: nat)
    requires c < 2
    ensures FromBytes(ToBytes(c, POINTER_SIZE)) == c
  {
    TagHolds(256, c);
    assert Pow256(8) == 256 * Pow256(7) && Pow256(7) >= 1;
    BytesRoundTrip(c, POINTER_SIZE);
  }

  /** The whole of memory after a case has been stored without a tag. */
  lemma NicheStored(cases: seq<Layout>, m: seq<Byte>, base: nat, c: nat, payload: seq<Byte>)
    requires c < |cases| && NicheCase(cases).Some? && |payload| == cases[c].size
    requires cases[NicheCase(cases).value].size == POINTER_SIZE
    requires Fits(m, base, NicheForm(cases), c, payload)
    ensures PayloadOffset(NicheForm(cases), c) == 0
    ensures Encoded(m, base, NicheForm(cases), c, payload)
         == Written(m, base, if c == NicheCase(cases).value then payload else ToBytes(c, POINTER_SIZE))
  {
    NichePayloadFits(cases, c);
  }

  lemma NichePayload(cases: seq<Layout>, m: seq<Byte>, base: nat, c: nat, payload: seq<Byte>)
    requires c < |cases| && NicheCase(cases).Some? && |payload| == cases[c].size
    requires cases[NicheCase(cases).value].size == POINTER_SIZE
    requires Fits(m, base, NicheForm(cases), c, payload)
    ensures Payload(Encoded(m, base, NicheForm(cases), c, payload), base, NicheForm(cases), c) == payload
  {
    NicheStored(cases, m, base, c, payload);
    var p := Payload(Encoded(m, base, NicheForm(cases), c, payload), base, NicheForm(cases), c);
    if c != NicheCase(cases).value { assert p == [] == payload; } else { assert p == payload; }
  }

  lemma NicheRead(cases: seq<Layout>, m: seq<Byte>, base: nat)
    requires NicheCase(cases).Some? && base + POINTER_SIZE <= |m|
    ensures var untagged := NicheCase(cases).value;
            Discriminant(m, base, NicheForm(cases))
              == Some(if FromBytes(m[base..base + POINTER_SIZE]) != 1 - untagged then untagged else 1 - untagged)
  {
  }

  lemma WrittenAt(m: seq<Byte>, at: nat, bytes: seq<Byte>)
    requires at + |bytes| <= |m|
    ensures Written(m, at, bytes)[at..at + |bytes|] == bytes
  {
  }

  lemma NicheDiscriminant(cases: seq<Layout>, m: seq<Byte>, base: nat, c: nat, payload: seq<Byte>)
    requires c < |cases| && NicheCase(cases).Some? && |payload| == cases[c].size
    requires cases[NicheCase(cases).value].size == POINTER_SIZE
    requires Fits(m, base, NicheForm(cases), c, payload)
    ensures var l, untagged := NicheForm(cases), NicheCase(cases).value;
            Discriminant(Encoded(m, base, l, c, payload), base, l) == Some(c) <==> c != untagged || FromBytes(payload) != 1 - untagged
  {
    var untagged := NicheCase(cases).value;
    var start := if c == untagged then payload else ToBytes(c, POINTER_SIZE);
    NicheStored(cases, m, base, c, payload);
    WrittenAt(m, base, start);
    NicheRead(cases, Written(m, base, start), base);
    IndexHolds(c);
  }

  /** The case without payload is read back, and the pointer's case exactly when the pointer
      is not the other case's index. */
  lemma NicheRoundTrip(cases: seq<Layout>, m: seq<Byte>, base: nat, c: nat, payload: seq<Byte>)
    requires c < |cases| && NicheCase(cases).Some? && |payload| == cases[c].size
    requires cases[NicheCase(cases).value].size == POINTER_SIZE
    requires Fits(m, base, NicheForm(cases), c, payload)
    ensures var l, untagged := NicheForm(cases), NicheCase(cases).value;
            var m' := Encoded(m, base, l, c, payload);
            && OnlyWithin(m, m', base, l.size)
            && (ReadsBack(m', base, l, c, payload) <==> c != untagged || FromBytes(payload) != 1 - untagged)
  {
    NicheStored(cases, m, base, c, payload);
    NichePayload(cases, m, base, c, payload);
    NicheDiscriminant(cases, m, base, c, payload);
  }

  /** Whichever form is chosen, storing a case and reading it back gives the case and its payload;
      a pointer must differ from the index of the case without payload. */
  lemma VariantRoundTrip(cases: seq<Layout>, m: seq<Byte>, base: nat, c: nat, payload: seq<Byte>)
    requires c < |cases| <= 0x1_0000_0000 && WellSized(cases) && |payload| == cases[c].size
    requires forall i :: 0 <= i < |cases| && cases[i].kind.ScalarKind? ==> cases[i] == FromScalar(cases[i].kind.scalar)
    requires Fits(m, base, VariantOf(cases), c, payload)
    requires NicheCase(cases) == Some(c) ==> FromBytes(payload) != 1 - c
    ensures var l := VariantOf(cases);
            var m' := Encoded(m, base, l, c, payload);
            ReadsBack(m', base, l, c, payload) && (cases[c].alignment <= l.alignment ==> OnlyWithin(m, m', base, l.size))
  {
    if NicheCase(cases).Some? { NicheRoundTrip(cases, m, base, c, payload); } else { TaggedRoundTrip(cases, m, base, c, payload); }
  }

  /** The form without a tag reads back what the tagged form reads back. */
  lemma NicheAgreesWithTagged(cases: seq<Layout>, m1: seq<Byte>, m2: seq<Byte>, base: nat, c: nat, payload: seq<Byte>)
    requires c < |cases| && NicheCase(cases).Some? && WellSized(cases) && |payload| == cases[c].size
    requires cases[NicheCase(cases).value].size == POINTER_SIZE
    requires Fits(m1, base, NicheForm(cases), c, payload) && Fits(m2, base, TaggedForm(cases), c, payload)
    requires NicheCase(cases) == Some(c) ==> FromBytes(payload) != 1 - c
    ensures var e1, e2 := Encoded(m1, base, NicheForm(cases), c, payload), Encoded(m2, base, TaggedForm(cases), c, payload);
            && Discriminant(e1, base, NicheForm(cases)) == Discriminant(e2, base, TaggedForm(cases))
            && Payload(e1, base, NicheForm(cases), c) == Payload(e2, base, TaggedForm(cases), c) == payload
  {
    NicheRoundTrip(cases, m1, base, c, payload);
    TaggedRoundTrip(cases, m2, base, c, payload);
  }

  method LoadDiscriminant(mem: array<Byte>, base: nat, l: Layout) returns (d: Option<nat>)
    requires l.kind.Variant? && base + TagBytes(l) <= mem.Length
    ensures d == Discriminant(mem[..], base, l)
  {
    match l.kind.tag {
      case UninhabitedTag => return None;
      case FieldTag(scalar) => return Some(FromBytes(mem[base..base + scalar.ByteCount()]));
      case Niche(encoded, direct, scalar) =>
        var tag := FromBytes(mem[base..base + scalar.ByteCount()]);
        return Some(if tag != direct then encoded else direct);
    }
  }
}
