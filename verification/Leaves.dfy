/** The two flattenings of a static type in `src/types.ts`: into ABI head words (`abiLeaves`) and
    into packed storage locations (`structStorageLeaves`), and their agreement. */
module Leaves {
  import opened Wrappers
  import opened JethTypes
  import opened Layout

  datatype AbiLeaf = AbiLeaf(wordOffset: nat, ty: JethType)
  datatype StorageLeaf = StorageLeaf(abiWord: nat, storageSlot: nat, storageOffset: nat, ty: JethType) {
    function BytePos(): nat {
      storageSlot * 32 + storageOffset
    }
  }

  // ---------------------------------------------------------------- what the two loops compute

  /** The leaf types of `t` in order, which both flattenings visit. */
  function LeafTypes(t: JethType): seq<JethType>
    decreases t, 1
  {
    match t
    case Struct(_, fields, _) => FieldLeafTypes(t, |fields|)
    case Array(element, Some(length)) => Repeat(LeafTypes(element), length)
    case _ => [t]
  }

  function FieldLeafTypes(t: JethType, k: nat): seq<JethType>
    requires t.Struct? && k <= |t.fields|
    decreases t, 0, k
  {
    if k == 0 then [] else FieldLeafTypes(t, k - 1) + LeafTypes(t.fields[k - 1].ty)
  }

  function Repeat<T>(s: seq<T>, n: nat): seq<T> {
    if n == 0 then [] else Repeat(s, n - 1) + s
  }

  /** The storage leaves of a value of type `t` whose ABI head starts at word `aw` and whose storage
      starts at byte `off` of slot `sb`. */
  function StorageLeaves(t: JethType, aw: nat, sb: nat, off: nat): seq<StorageLeaf>
    requires Sized(t)
    decreases t, 1
  {
    match t
    case Struct(_, fields, _) => FieldLeaves(t, |fields|, aw, sb)
    case Array(element, Some(length)) => ElementLeaves(t, length, aw, sb)
    case _ => [StorageLeaf(aw, sb, off, t)]
  }

  /** The leaves of a struct's first `k` fields. */
  function FieldLeaves(t: JethType, k: nat, aw: nat, sb: nat): seq<StorageLeaf>
    requires Sized(t) && t.Struct? && k <= |t.fields|
    decreases t, 0, k
  {
    if k == 0 then []
    else
      var f := t.fields[k - 1];
      FieldLeaves(t, k - 1, aw, sb) + StorageLeaves(f.ty, aw + FieldHeadWords(t, k - 1), sb + f.slot, f.offset)
  }

  /** The leaves of a fixed array's first `k` elements. */
  function ElementLeaves(t: JethType, k: nat, aw: nat, sb: nat): seq<StorageLeaf>
    requires Sized(t) && IsFixedArray(t)
    decreases t, 0, k
  {
    if k == 0 then [] else ElementLeaves(t, k - 1, aw, sb) + ElementAt(t, k - 1, aw, sb)
  }

  function Stride(base: nat, j: nat, n: nat): nat {
    base + j * n
  }

  /** The `j`-th of elements that share slots, `p` to a slot. */
  function PackedLeaf(e: JethType, p: nat, size: nat, j: nat, aw: nat, sb: nat): StorageLeaf
    requires p > 0
  {
    StorageLeaf(aw + j, sb + j / p, j % p * size, e)
  }

  function ElementAt(t: JethType, j: nat, aw: nat, sb: nat): seq<StorageLeaf>
    requires Sized(t) && IsFixedArray(t)
    decreases t, 0, j, 0
  {
    var e := t.element;
    if e.Struct? || e.Array? then
      StorageLeaves(e, Stride(aw, j, AbiHeadWords(e)), Stride(sb, j, StorageSlotCount(e)), 0)
    else
      var packs := ArrayElemPacks(e);
      if packs.packed then [PackedLeaf(e, packs.perSlot, packs.size, j, aw, sb)]
      else [StorageLeaf(aw + j, sb + j, 0, e)]
  }

  // ---------------------------------------------------------------- numbering

  /** Leaf `i` has ABI word `aw + i` and the `i`-th of the given types. */
  ghost predicate Numbered(ls: seq<StorageLeaf>, aw: nat, types: seq<JethType>) {
    && |ls| == |types|
    && forall i :: 0 <= i < |ls| ==> ls[i].abiWord == aw + i && ls[i].ty == types[i]
  }

  lemma NumberedConcat(a: seq<StorageLeaf>, b: seq<StorageLeaf>, aw: nat, ta: seq<JethType>, tb: seq<JethType>)
    requires Numbered(a, aw, ta) && Numbered(b, aw + |ta|, tb)
    ensures Numbered(a + b, aw, ta + tb)
  { }

  lemma {:induction false} RepeatLength<T>(s: seq<T>, n: nat)
    ensures |Repeat(s, n)| == n * |s|
  {
    if n > 0 {
      RepeatLength(s, n - 1);
    }
  }

  /** A static type has one head word per leaf. */
  lemma {:induction false} HeadWordsCountLeaves(t: JethType)
    ensures AbiHeadWords(t) == |LeafTypes(t)|
    decreases t, 1
  {
    match t
    case Struct(_, fields, _) => FieldHeadWordsCountLeaves(t, |fields|);
    case Array(element, Some(length)) =>
      HeadWordsCountLeaves(element);
      RepeatLength(LeafTypes(element), length);
    case _ =>
  }

  lemma {:induction false} FieldHeadWordsCountLeaves(t: JethType, k: nat)
    requires t.Struct? && k <= |t.fields|
    ensures FieldHeadWords(t, k) == |FieldLeafTypes(t, k)|
    decreases t, 0, k
  {
    if k > 0 {
      FieldHeadWordsCountLeaves(t, k - 1);
      HeadWordsCountLeaves(t.fields[k - 1].ty);
    }
  }

  /** The storage flattening visits the leaves in the order of the ABI head, without gaps. */
  lemma {:induction false} LeavesAreNumbered(t: JethType, aw: nat, sb: nat, off: nat)
    requires Sized(t)
    ensures Numbered(StorageLeaves(t, aw, sb, off), aw, LeafTypes(t))
    decreases t, 1
  {
    match t
    case Struct(_, fields, _) => FieldLeavesAreNumbered(t, |fields|, aw, sb);
    case Array(_, Some(length)) => ElementLeavesAreNumbered(t, length, aw, sb);
    case _ =>
  }

  lemma {:induction false} FieldLeavesAreNumbered(t: JethType, k: nat, aw: nat, sb: nat)
    requires Sized(t) && t.Struct? && k <= |t.fields|
    ensures Numbered(FieldLeaves(t, k, aw, sb), aw, FieldLeafTypes(t, k))
    decreases t, 0, k
  {
    if k > 0 {
      var f := t.fields[k - 1];
      var w := aw + FieldHeadWords(t, k - 1);
      FieldLeavesAreNumbered(t, k - 1, aw, sb);
      FieldHeadWordsCountLeaves(t, k - 1);
      LeavesAreNumbered(f.ty, w, sb + f.slot, f.offset);
      NumberedConcat(FieldLeaves(t, k - 1, aw, sb), StorageLeaves(f.ty, w, sb + f.slot, f.offset),
                     aw, FieldLeafTypes(t, k - 1), LeafTypes(f.ty));
    }
  }

  lemma {:induction false} ElementLeavesAreNumbered(t: JethType, k: nat, aw: nat, sb: nat)
    requires Sized(t) && IsFixedArray(t)
    ensures Numbered(ElementLeaves(t, k, aw, sb), aw, Repeat(LeafTypes(t.element), k))
    decreases t, 0, k
  {
    if k > 0 {
      var e := t.element;
      ElementLeavesAreNumbered(t, k - 1, aw, sb);
      HeadWordsCountLeaves(e);
      RepeatLength(LeafTypes(e), k - 1);
      if e.Struct? || e.Array? {
        LeavesAreNumbered(e, aw + (k - 1) * AbiHeadWords(e), sb + (k - 1) * StorageSlotCount(e), 0);
      }
      NumberedConcat(ElementLeaves(t, k - 1, aw, sb), ElementAt(t, k - 1, aw, sb),
                     aw, Repeat(LeafTypes(e), k - 1), LeafTypes(e));
    }
  }

  // ---------------------------------------------------------------- storage ranges

  /** `StorageByteSize` on the types that are leaves. */
  function LeafBytes(t: JethType): nat {
    match t
    case UInt(bits, _, _) => bits / 8
    case SInt(bits, _) => bits / 8
    case Bool(_) => 1
    case Address(_, _) => 20
    case BytesN(size, _) => size
    case FuncRef(_, _, _) => 8
    case _ => 32
  }

  predicate IsLeaf(t: JethType) {
    !t.Struct? && !IsFixedArray(t)
  }

  lemma LeafBytesIsSize(t: JethType)
    requires Sized(t) && IsLeaf(t)
    ensures LeafBytes(t) == StorageByteSize(t) == ShapeOf(t).Extent()
  { }

  /** The bytes a leaf occupies, as numbers alone. */
  datatype Span = Span(pos: nat, offset: nat, size: nat)

  function SpanOf(l: StorageLeaf): Span {
    Span(l.BytePos(), l.storageOffset, LeafBytes(l.ty))
  }

  function Spans(ls: seq<StorageLeaf>): (r: seq<Span>)
    ensures |r| == |ls|
  {
    if ls == [] then [] else [SpanOf(ls[0])] + Spans(ls[1..])
  }

  lemma {:induction false} SpansConcat(a: seq<StorageLeaf>, b: seq<StorageLeaf>)
    ensures Spans(a + b) == Spans(a) + Spans(b)
  {
    if a == [] {
      assert a + b == b;
    } else {
      assert a + b == [a[0]] + (a[1..] + b);
      SpansConcat(a[1..], b);
    }
  }

  lemma {:induction false} SpansAt(ls: seq<StorageLeaf>, i: nat)
    requires i < |ls|
    ensures Spans(ls)[i] == SpanOf(ls[i])
  {
    if i > 0 {
      SpansAt(ls[1..], i - 1);
    }
  }

  ghost predicate Inside(s: Span, lo: nat, hi: nat) {
    lo <= s.pos && s.pos + s.size <= hi && s.offset + s.size <= 32
  }

  ghost predicate Apart(a: Span, b: Span) {
    a.pos + a.size <= b.pos
  }

  /** The spans lie between the two byte positions, in increasing order without overlap, and none
      crosses a slot. */
  ghost predicate Ranged(ss: seq<Span>, lo: nat, hi: nat) {
    && (forall i :: 0 <= i < |ss| ==> Inside(ss[i], lo, hi))
    && (forall i, j :: 0 <= i < j < |ss| ==> Apart(ss[i], ss[j]))
  }

  lemma RangedEmpty(lo: nat, hi: nat)
    ensures Ranged([], lo, hi)
  { }

  lemma RangedOne(s: Span, lo: nat, hi: nat)
    requires Inside(s, lo, hi)
    ensures Ranged([s], lo, hi)
  { }

  lemma RangedConcat(a: seq<Span>, b: seq<Span>, lo: nat, mid: nat, mid': nat, hi: nat)
    requires Ranged(a, lo, mid) && Ranged(b, mid', hi) && lo <= mid <= mid' <= hi
    ensures Ranged(a + b, lo, hi)
  {
    var ls := a + b;
    forall i | 0 <= i < |ls| ensures Inside(ls[i], lo, hi) {
      if i < |a| {
        assert Inside(a[i], lo, mid);
      } else {
        assert Inside(b[i - |a|], mid', hi);
      }
    }
    forall i, j | 0 <= i < j < |ls| ensures Apart(ls[i], ls[j]) {
      if j < |a| {
        assert Apart(a[i], a[j]);
      } else if i >= |a| {
        assert Apart(b[i - |a|], b[j - |a|]);
      } else {
        assert Inside(a[i], lo, mid) && Inside(b[j - |a|], mid', hi);
      }
    }
  }

  /** Every leaf lies within the bytes its value reserves, in order, without overlap, and never
      across a slot. */
  lemma {:induction false} LeavesAreRanged(t: JethType, aw: nat, sb: nat, off: nat)
    requires WellFormed(t) && ShapeOf(t).Admits(Placement(sb, off))
    ensures Ranged(Spans(StorageLeaves(t, aw, sb, off)), sb * 32 + off, sb * 32 + off + ShapeOf(t).Extent())
    decreases t, 1
  {
    hide Ranged, Spans, LaidOut, FieldLeaves, ElementLeaves, FieldsEnd;
    match t
    case Struct(_, fields, _) =>
      FieldLeavesAreRanged(t, |fields|, aw, sb);
      StructCovers(t);
      RangedWiden(Spans(FieldLeaves(t, |fields|, aw, sb)), sb * 32,
                  sb * 32 + FieldsEnd(t, |fields|), sb * 32 + StorageSlotCount(t) * 32);
    case Array(_, Some(length)) =>
      ArrayIsRanged(t, aw, sb);
    case _ =>
      LeafBytesIsSize(t);
      var l := StorageLeaf(aw, sb, off, t);
      SpansOfOne(l);
      RangedOne(SpanOf(l), sb * 32 + off, sb * 32 + off + ShapeOf(t).Extent());
  }

  lemma {:induction false} ArrayIsRanged(t: JethType, aw: nat, sb: nat)
    requires WellFormed(t) && IsFixedArray(t)
    ensures Ranged(Spans(ElementLeaves(t, t.length.value, aw, sb)), sb * 32, (sb + StorageSlotCount(t)) * 32)
    decreases t, 0, t.length.value + 1
  {
    hide Ranged, Spans, ElementLeaves, LaidOut, StorageSlotCount, StorageByteSize;
    var n := t.length.value;
    if IsWide(t.element) {
      WideElementsAreRanged(t, n, aw, sb);
      WideStride(t);
    } else {
      var packs := ArrayElemPacks(t.element);
      PackedElementsAreRanged(t, n, aw, sb);
      PackedCovers(t);
      RangedWiden(Spans(ElementLeaves(t, n, aw, sb)), sb * 32,
                  sb * 32 + PackedEnd(packs.perSlot, packs.size, n), (sb + StorageSlotCount(t)) * 32);
    }
  }

  lemma RangedWiden(ls: seq<Span>, lo: nat, hi: nat, hi': nat)
    requires Ranged(ls, lo, hi) && hi <= hi'
    ensures Ranged(ls, lo, hi')
  {
    forall i | 0 <= i < |ls| ensures Inside(ls[i], lo, hi') {
      assert Inside(ls[i], lo, hi);
    }
  }

  /** First byte behind a struct's first `k` fields, as the planner places them. */
  function FieldsEnd(t: JethType, k: nat): nat
    requires Sized(t) && t.Struct? && k <= |t.fields|
  {
    CursorAt(FieldShapes(t.fields), k).BytePos()
  }

  lemma StructCovers(t: JethType)
    requires WellFormed(t) && t.Struct?
    ensures FieldsEnd(t, |t.fields|) <= StorageSlotCount(t) * 32
  {
    if t.fields != [] {
      SlotCountsAgree(t);
    }
  }

  /** Field `k` lies where the planner puts it: behind the cursor, and up to the next cursor. */
  lemma FieldPlaced(t: JethType, k: nat, sb: nat)
    requires WellFormed(t) && t.Struct? && k < |t.fields|
    ensures var f := t.fields[k];
            && WellFormed(f.ty)
            && ShapeOf(f.ty).Admits(Placement(sb + f.slot, f.offset))
            && FieldsEnd(t, k) <= f.slot * 32 + f.offset
            && f.slot * 32 + f.offset + ShapeOf(f.ty).Extent() == FieldsEnd(t, k + 1)
  {
    var f, ss := t.fields[k], FieldShapes(t.fields);
    FieldShapesAt(t.fields, k);
    assert f in t.fields;
    assert Placement(f.slot, f.offset) == PlanAt(ss, k);
    NextIsEarliest(ss[k], CursorAt(ss, k), PlanAt(ss, k));
  }

  lemma {:induction false} FieldIsRanged(t: JethType, k: nat, w: nat, sb: nat)
    requires WellFormed(t) && t.Struct? && k < |t.fields|
    ensures var f := t.fields[k];
            var at := (sb + f.slot) * 32 + f.offset;
            && sb * 32 + FieldsEnd(t, k) <= at <= sb * 32 + FieldsEnd(t, k + 1)
            && Sized(f.ty)
            && Ranged(Spans(StorageLeaves(f.ty, w, sb + f.slot, f.offset)), at, sb * 32 + FieldsEnd(t, k + 1))
    decreases t, 0, k
  {
    hide Ranged, Spans, StorageLeaves, FieldsEnd, LaidOut;
    var f := t.fields[k];
    var at := (sb + f.slot) * 32 + f.offset;
    FieldPlaced(t, k, sb);
    LeavesAreRanged(f.ty, w, sb + f.slot, f.offset);
    RangedWiden(Spans(StorageLeaves(f.ty, w, sb + f.slot, f.offset)), at, at + ShapeOf(f.ty).Extent(),
                sb * 32 + FieldsEnd(t, k + 1));
  }

  lemma NoFieldLeaves(t: JethType, aw: nat, sb: nat, lo: nat, hi: nat)
    requires Sized(t) && t.Struct?
    ensures Ranged(Spans(FieldLeaves(t, 0, aw, sb)), lo, hi)
  {
    assert FieldLeaves(t, 0, aw, sb) == [];
  }

  lemma FieldLeavesStep(t: JethType, k: nat, aw: nat, sb: nat)
    requires Sized(t) && t.Struct? && k < |t.fields|
    ensures var f := t.fields[k];
            Spans(FieldLeaves(t, k + 1, aw, sb)) ==
            Spans(FieldLeaves(t, k, aw, sb))
            + Spans(StorageLeaves(f.ty, aw + FieldHeadWords(t, k), sb + f.slot, f.offset))
  {
    var f := t.fields[k];
    SpansConcat(FieldLeaves(t, k, aw, sb), StorageLeaves(f.ty, aw + FieldHeadWords(t, k), sb + f.slot, f.offset));
  }

  /** A struct's fields in turn. */
  lemma {:induction false} FieldLeavesAreRanged(t: JethType, k: nat, aw: nat, sb: nat)
    requires WellFormed(t) && t.Struct? && k <= |t.fields|
    ensures Ranged(Spans(FieldLeaves(t, k, aw, sb)), sb * 32, sb * 32 + FieldsEnd(t, k))
    decreases t, 0, k
  {
    hide Ranged, Spans, FieldLeaves, StorageLeaves, FieldHeadWords, FieldsEnd, LaidOut;
    if k == 0 {
      NoFieldLeaves(t, aw, sb, sb * 32, sb * 32 + FieldsEnd(t, k));
    } else {
      var f := t.fields[k - 1];
      var w := aw + FieldHeadWords(t, k - 1);
      FieldLeavesAreRanged(t, k - 1, aw, sb);
      FieldIsRanged(t, k - 1, w, sb);
      FieldLeavesStep(t, k - 1, aw, sb);
      RangedConcat(Spans(FieldLeaves(t, k - 1, aw, sb)), Spans(StorageLeaves(f.ty, w, sb + f.slot, f.offset)),
                   sb * 32, sb * 32 + FieldsEnd(t, k - 1),
                   (sb + f.slot) * 32 + f.offset, sb * 32 + FieldsEnd(t, k));
    }
  }

  predicate IsWide(t: JethType)
    requires Sized(t)
  {
    t.Struct? || t.Array? || !ArrayElemPacks(t).packed
  }

  lemma ElementLeavesStep(t: JethType, k: nat, aw: nat, sb: nat)
    requires Sized(t) && IsFixedArray(t)
    ensures Spans(ElementLeaves(t, 0, aw, sb)) == []
    ensures Spans(ElementLeaves(t, k + 1, aw, sb)) ==
            Spans(ElementLeaves(t, k, aw, sb)) + Spans(ElementAt(t, k, aw, sb))
  {
    SpansConcat(ElementLeaves(t, k, aw, sb), ElementAt(t, k, aw, sb));
  }

  /** Elements that take whole slots. */
  lemma {:induction false} WideElementsAreRanged(t: JethType, k: nat, aw: nat, sb: nat)
    requires WellFormed(t) && IsFixedArray(t) && IsWide(t.element)
    ensures Ranged(Spans(ElementLeaves(t, k, aw, sb)), sb * 32, (sb + k * StorageSlotCount(t.element)) * 32)
    decreases t, 0, k
  {
    hide Ranged, Spans, ElementLeaves, ElementAt, LaidOut, StorageSlotCount, StorageByteSize, ArrayElemPacks;
    var n := StorageSlotCount(t.element);
    if k == 0 {
      ElementLeavesStep(t, 0, aw, sb);
      RangedEmpty(sb * 32, (sb + k * n) * 32);
    } else {
      var base := sb + (k - 1) * n;
      assert sb + k * n == base + n;
      WideElementsAreRanged(t, k - 1, aw, sb);
      WideElement(t, k - 1, aw, sb);
      ElementLeavesStep(t, k - 1, aw, sb);
      RangedConcat(Spans(ElementLeaves(t, k - 1, aw, sb)), Spans(ElementAt(t, k - 1, aw, sb)),
                   sb * 32, base * 32, base * 32, (base + n) * 32);
    }
  }

  lemma {:induction false} WideElement(t: JethType, j: nat, aw: nat, sb: nat)
    requires WellFormed(t) && IsFixedArray(t) && IsWide(t.element)
    ensures var base := sb + j * StorageSlotCount(t.element);
            Ranged(Spans(ElementAt(t, j, aw, sb)), base * 32, (base + StorageSlotCount(t.element)) * 32)
    decreases t, 0, j
  {
    hide Ranged, LaidOut, Spans, StorageLeaves, StorageByteSize, StorageSlotCount;
    var e := t.element;
    WideShape(t);
    if e.Struct? || e.Array? {
      LeavesAreRanged(e, Stride(aw, j, AbiHeadWords(e)), Stride(sb, j, StorageSlotCount(e)), 0);
    } else {
      var l := StorageLeaf(aw + j, sb + j, 0, e);
      SpansOfOne(l);
      RangedOne(SpanOf(l), (sb + j) * 32, (sb + j + 1) * 32);
    }
  }

  lemma WideShape(t: JethType)
    requires WellFormed(t) && IsFixedArray(t) && IsWide(t.element)
    ensures WellFormed(t.element)
    ensures t.element.Struct? || t.element.Array? ==> ShapeOf(t.element) == Whole(StorageSlotCount(t.element))
    ensures !t.element.Struct? && !t.element.Array? ==> StorageSlotCount(t.element) == 1 && LeafBytes(t.element) <= 32
  { }

  lemma SpansOfOne(l: StorageLeaf)
    ensures Spans([l]) == [SpanOf(l)]
  { }

  lemma WideStride(t: JethType)
    requires Sized(t) && IsFixedArray(t) && IsWide(t.element)
    ensures StorageSlotCount(t) == t.length.value * StorageSlotCount(t.element)
  {
    DivUnique(t.length.value, 1, t.length.value, 0);
  }

  /** Byte offset of packed element `j`, relative to the array. */
  function PackedPos(p: nat, size: nat, j: nat): nat
    requires p > 0
  {
    j / p * 32 + j % p * size
  }

  /** First byte behind the first `k` packed elements. */
  function PackedEnd(p: nat, size: nat, k: nat): nat
    requires p > 0
  {
    if k == 0 then 0 else PackedPos(p, size, k - 1) + size
  }

  /** `p` elements share a slot, so consecutive ones never overlap and none crosses a slot. */
  lemma PackedPosStep(p: nat, size: nat, j: nat)
    requires p > 0 && p * size <= 32
    ensures j % p * size + size <= 32
    ensures PackedEnd(p, size, j) <= PackedPos(p, size, j)
    ensures PackedEnd(p, size, j + 1) <= (j / p + 1) * 32
  {
    var r := j % p;
    assert r < p;
    assert (r + 1) * size == r * size + size;
    assert (r + 1) * size <= p * size;
    if j > 0 {
      DivStep(j - 1, p);
      var r' := (j - 1) % p;
      assert r' < p;
      assert (r' + 1) * size == r' * size + size;
      assert (r' + 1) * size <= p * size;
    }
  }

  lemma PackedFacts(e: JethType)
    requires Sized(e) && ArrayElemPacks(e).packed
    ensures var packs := ArrayElemPacks(e);
            && packs.size == LeafBytes(e)
            && packs.perSlot > 0 && packs.perSlot * packs.size <= 32
            && !e.Struct? && !e.Array?
  {
    var size := StorageByteSize(e);
    DivBounds(32, size);
  }

  lemma PackedCovers(t: JethType)
    requires Sized(t) && IsFixedArray(t) && ArrayElemPacks(t.element).packed
    ensures ArrayElemPacks(t.element).perSlot > 0
    ensures var packs := ArrayElemPacks(t.element);
            PackedEnd(packs.perSlot, packs.size, t.length.value) <= StorageSlotCount(t) * 32
  {
    PackedFacts(t.element);
    var packs := ArrayElemPacks(t.element);
    var n := t.length.value;
    CeilOfPred(n, packs.perSlot);
    PackedPosStep(packs.perSlot, packs.size, n - 1);
  }

  /** Elements that share slots. */
  lemma {:induction false} PackedElementsAreRanged(t: JethType, k: nat, aw: nat, sb: nat)
    requires Sized(t) && IsFixedArray(t) && ArrayElemPacks(t.element).packed
    ensures ArrayElemPacks(t.element).perSlot > 0
    ensures var packs := ArrayElemPacks(t.element);
            Ranged(Spans(ElementLeaves(t, k, aw, sb)), sb * 32, sb * 32 + PackedEnd(packs.perSlot, packs.size, k))
    decreases t, 0, k
  {
    PackedFacts(t.element);
    var packs := ArrayElemPacks(t.element);
    var p, size := packs.perSlot, packs.size;
    hide Ranged, Spans, ElementLeaves, StorageSlotCount, StorageByteSize, ArrayElemPacks, PackedPos, PackedEnd;
    ElementLeavesStep(t, if k == 0 then 0 else k - 1, aw, sb);
    if k == 0 {
      RangedEmpty(sb * 32, sb * 32 + PackedEnd(p, size, k));
    } else {
      PackedElementsAreRanged(t, k - 1, aw, sb);
      PackedPosStep(p, size, k - 1);
      PackedElement(t, k - 1, aw, sb);
      RangedConcat(Spans(ElementLeaves(t, k - 1, aw, sb)), Spans(ElementAt(t, k - 1, aw, sb)),
                   sb * 32, sb * 32 + PackedEnd(p, size, k - 1),
                   sb * 32 + PackedPos(p, size, k - 1), sb * 32 + PackedEnd(p, size, k));
    }
  }

  lemma PackedElement(t: JethType, j: nat, aw: nat, sb: nat)
    requires Sized(t) && IsFixedArray(t) && ArrayElemPacks(t.element).packed
    ensures var packs := ArrayElemPacks(t.element);
            && packs.perSlot > 0
            && PackedPos(packs.perSlot, packs.size, j) <= PackedEnd(packs.perSlot, packs.size, j + 1)
            && Ranged(Spans(ElementAt(t, j, aw, sb)), sb * 32 + PackedPos(packs.perSlot, packs.size, j),
                      sb * 32 + PackedEnd(packs.perSlot, packs.size, j + 1))
  {
    PackedFacts(t.element);
    var packs := ArrayElemPacks(t.element);
    var p, size := packs.perSlot, packs.size;
    PackedPosStep(p, size, j);
    var l := StorageLeaf(aw + j, sb + j / p, j % p * size, t.element);
    assert ElementAt(t, j, aw, sb) == [l];
    SpansOfOne(l);
    RangedOne(SpanOf(l), sb * 32 + PackedPos(p, size, j), sb * 32 + PackedEnd(p, size, j + 1));
  }

  // ---------------------------------------------------------------- the theorem

  /** The two leaves' storage bytes have none in common. */
  ghost predicate Disjoint(a: StorageLeaf, b: StorageLeaf) {
    || a.storageSlot != b.storageSlot
    || a.storageOffset + LeafBytes(a.ty) <= b.storageOffset
    || b.storageOffset + LeafBytes(b.ty) <= a.storageOffset
  }

  /** Transcoding a packed storage aggregate into its ABI head: for a well-formed type nested to any
      depth, leaf `i` of the storage walk is head word `i` with the type the ABI flattening gives that
      word; every leaf lies inside one slot of the first `StorageSlotCount(t)`; and no two leaves
      share a byte. */
  lemma StorageMatchesAbi(t: JethType)
    requires WellFormed(t)
    ensures var ls := StorageLeaves(t, 0, 0, 0);
            && |ls| == AbiHeadWords(t) == |LeafTypes(t)|
            && (forall i :: 0 <= i < |ls| ==>
                  && ls[i].abiWord == i
                  && ls[i].ty == LeafTypes(t)[i]
                  && ls[i].storageSlot < StorageSlotCount(t)
                  && ls[i].storageOffset + LeafBytes(ls[i].ty) <= 32)
            && (forall i, j :: 0 <= i < j < |ls| ==> Disjoint(ls[i], ls[j]))
  {
    hide StorageLeaves, StorageSlotCount, StorageByteSize, LeafTypes, AbiHeadWords, LaidOut, Spans;
    var ls := StorageLeaves(t, 0, 0, 0);
    LeavesAreNumbered(t, 0, 0, 0);
    HeadWordsCountLeaves(t);
    StartAdmitted(t);
    LeavesAreRanged(t, 0, 0, 0);
    LeafTypesAreLeaves(t);
    forall i | 0 <= i < |ls|
      ensures ls[i].storageSlot < StorageSlotCount(t) && ls[i].storageOffset + LeafBytes(ls[i].ty) <= 32
    {
      SpansAt(ls, i);
      assert Inside(Spans(ls)[i], 0, ShapeOf(t).Extent());
      assert LeafBytes(LeafTypes(t)[i]) > 0;
    }
    forall i, j | 0 <= i < j < |ls| ensures Disjoint(ls[i], ls[j]) {
      SpansAt(ls, i);
      SpansAt(ls, j);
      assert Apart(Spans(ls)[i], Spans(ls)[j]);
    }
  }

  lemma StartAdmitted(t: JethType)
    requires Sized(t)
    ensures ShapeOf(t).Admits(Placement(0, 0))
    ensures ShapeOf(t).Extent() <= StorageSlotCount(t) * 32
  { }

  /** What the flattenings stop at is no struct or fixed array, so its storage size is that of one
      value. */
  lemma {:induction false} LeafTypesAreLeaves(t: JethType)
    requires Sized(t)
    ensures forall l :: l in LeafTypes(t) ==> IsLeaf(l) && Sized(l) && 0 < LeafBytes(l) == StorageByteSize(l)
    decreases t, 1
  {
    match t
    case Struct(_, fields, _) => FieldLeafTypesAreLeaves(t, |fields|);
    case Array(element, Some(length)) =>
      LeafTypesAreLeaves(element);
      RepeatMembers(LeafTypes(element), length);
    case _ => LeafBytesIsSize(t);
  }

  lemma {:induction false} FieldLeafTypesAreLeaves(t: JethType, k: nat)
    requires Sized(t) && t.Struct? && k <= |t.fields|
    ensures forall l :: l in FieldLeafTypes(t, k) ==> IsLeaf(l) && Sized(l) && 0 < LeafBytes(l) == StorageByteSize(l)
    decreases t, 0, k
  {
    if k > 0 {
      FieldLeafTypesAreLeaves(t, k - 1);
      LeafTypesAreLeaves(t.fields[k - 1].ty);
    }
  }

  lemma {:induction false} RepeatMembers<T>(s: seq<T>, n: nat)
    ensures forall x :: x in Repeat(s, n) ==> x in s
  {
    if n > 0 {
      RepeatMembers(s, n - 1);
    }
  }

  // ---------------------------------------------------------------- the source's loops

  /** `abiLeaves`: one entry per head word, numbered from 0, with the leaf types in order. */
  method AbiLeaves(t: JethType) returns (out: seq<AbiLeaf>)
    ensures |out| == AbiHeadWords(t) == |LeafTypes(t)|
    ensures forall i :: 0 <= i < |out| ==> out[i] == AbiLeaf(i, LeafTypes(t)[i])
    decreases t
  {
    HeadWordsCountLeaves(t);
    match t
    case Struct(_, fields, _) =>
      out := [];
      var w := 0;
      for k := 0 to |fields|
        invariant w == FieldHeadWords(t, k)
        invariant Offsets(out, 0, FieldLeafTypes(t, k)) && |out| == w
      {
        FieldHeadWordsCountLeaves(t, k + 1);
        var leaves := AbiLeaves(fields[k].ty);
        out := AppendShifted(out, leaves, w, FieldLeafTypes(t, k), LeafTypes(fields[k].ty));
        w := w + AbiHeadWords(fields[k].ty);
      }
    case Array(element, Some(length)) =>
      out := [];
      var ew := AbiHeadWords(element);
      HeadWordsCountLeaves(element);
      for i := 0 to length
        invariant |out| == i * ew
        invariant Offsets(out, 0, Repeat(LeafTypes(element), i))
      {
        var leaves := AbiLeaves(element);
        out := AppendShifted(out, leaves, i * ew, Repeat(LeafTypes(element), i), LeafTypes(element));
        assert (i + 1) * ew == i * ew + ew;
      }
    case _ =>
      out := [AbiLeaf(0, t)];
  }

  ghost predicate Offsets(ls: seq<AbiLeaf>, w: nat, types: seq<JethType>) {
    |ls| == |types| && forall i :: 0 <= i < |ls| ==> ls[i] == AbiLeaf(w + i, types[i])
  }

  /** The inner push loop. */
  method AppendShifted(out: seq<AbiLeaf>, leaves: seq<AbiLeaf>, w: nat,
                       ghost done: seq<JethType>, ghost types: seq<JethType>)
    returns (r: seq<AbiLeaf>)
    requires Offsets(out, 0, done) && |out| == w && Offsets(leaves, 0, types)
    ensures Offsets(r, 0, done + types)
  {
    r := out;
    for i := 0 to |leaves|
      invariant Offsets(r, 0, done + types[..i])
    {
      r := r + [AbiLeaf(w + leaves[i].wordOffset, leaves[i].ty)];
      assert done + types[..i + 1] == (done + types[..i]) + [types[i]];
    }
    assert types[..|leaves|] == types;
  }

  /** `structStorageLeaves`: the walk pushes exactly the specified leaves. */
  method StructStorageLeaves(t: JethType) returns (out: seq<StorageLeaf>)
    requires Sized(t)
    ensures out == StorageLeaves(t, 0, 0, 0)
  {
    out := Walk([], t, 0, 0, 0);
  }

  method Walk(out0: seq<StorageLeaf>, t: JethType, abiBase: nat, slotBase: nat, byteOff: nat)
    returns (out: seq<StorageLeaf>)
    requires Sized(t)
    ensures out == out0 + StorageLeaves(t, abiBase, slotBase, byteOff)
    decreases t
  {
    out := out0;
    match t
    case Struct(_, fields, _) =>
      var aw := abiBase;
      for k := 0 to |fields|
        invariant aw == abiBase + FieldHeadWords(t, k)
        invariant out == out0 + FieldLeaves(t, k, abiBase, slotBase)
      {
        var f := fields[k];
        out := Walk(out, f.ty, aw, slotBase + f.slot, f.offset);
        aw := aw + AbiHeadWords(f.ty);
      }
    case Array(element, Some(length)) =>
      var ew := AbiHeadWords(element);
      if element.Struct? || element.Array? {
        var sc := StorageSlotCount(element);
        for j := 0 to length
          invariant out == out0 + ElementLeaves(t, j, abiBase, slotBase)
        {
          out := Walk(out, element, abiBase + j * ew, slotBase + j * sc, 0);
        }
      } else {
        out := PushElements(out, t, abiBase, slotBase);
      }
    case _ =>
      out := out + [StorageLeaf(abiBase, slotBase, byteOff, t)];
  }

  /** The walk's loop over value elements. */
  method PushElements(out0: seq<StorageLeaf>, t: JethType, abiBase: nat, slotBase: nat) returns (out: seq<StorageLeaf>)
    requires Sized(t) && IsFixedArray(t) && !t.element.Struct? && !t.element.Array?
    ensures out == out0 + ElementLeaves(t, t.length.value, abiBase, slotBase)
  {
    hide StorageSlotCount, StorageByteSize, ElementAt, ArrayElemPacks;
    out := out0;
    var packs := ArrayElemPacks(t.element);
    for j := 0 to t.length.value
      invariant out == out0 + ElementLeaves(t, j, abiBase, slotBase)
    {
      ValueElement(t, j, abiBase, slotBase);
      if packs.packed {
        out := out + [StorageLeaf(abiBase + j, slotBase + j / packs.perSlot,
                                  j % packs.perSlot * packs.size, t.element)];
      } else {
        out := out + [StorageLeaf(abiBase + j, slotBase + j, 0, t.element)];
      }
    }
  }

  lemma ValueElement(t: JethType, j: nat, aw: nat, sb: nat)
    requires Sized(t) && IsFixedArray(t) && !t.element.Struct? && !t.element.Array?
    ensures var packs := ArrayElemPacks(t.element);
            && packs.perSlot > 0
            && ElementAt(t, j, aw, sb) ==
               if packs.packed then
                 [StorageLeaf(aw + j, sb + j / packs.perSlot, j % packs.perSlot * packs.size, t.element)]
               else [StorageLeaf(aw + j, sb + j, 0, t.element)]
  {
    if ArrayElemPacks(t.element).packed {
      PackedFacts(t.element);
    }
  }
}
