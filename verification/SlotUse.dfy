/** Storage is used tightly: widths are the least that tell a type's values apart, packed elements share
    slots wherever they can, and no slot is reserved in vain. */
module SlotUse {
  import opened JethTypes
  import opened Layout
  import opened Leaves

  // ---------------------------------------------------------------- widths

  function Pow2(n: nat): (p: nat)
    ensures p >= 1
  {
    if n == 0 then 1 else 2 * Pow2(n - 1)
  }

  lemma {:induction false} Pow2Grows(m: nat, n: nat)
    requires m < n
    ensures Pow2(m) < Pow2(n)
  {
    if m + 1 < n {
      Pow2Grows(m, n - 1);
    }
  }

  /** How many values a leaf must tell apart: its type's, a 64-bit id for a function pointer, or a whole word
      for a reference or header. */
  function ValueCount(t: JethType): nat {
    match t
    case UInt(bits, _, _) => Pow2(bits)
    case SInt(bits, _) => Pow2(bits)
    case Bool(_) => 2
    case Address(_, _) => Pow2(160)
    case BytesN(size, _) => Pow2(8 * size)
    case FuncRef(_, _, _) => Pow2(64)
    case _ => Pow2(256)
  }

  /** The bytes reserved for a single value are the least that tell its values apart, for the planner and for
      both flattenings. */
  lemma WidthIsLeast(t: JethType, width: nat)
    requires Sized(t) && IsLeaf(t)
    ensures ShapeOf(t).Extent() == StorageByteSize(t) == LeafBytes(t)
    ensures width >= StorageByteSize(t) <==> Pow2(8 * width) >= ValueCount(t)
  {
    LeafBytesIsSize(t);
    if t.Bool? {
      BytesOfBool(width);
    } else {
      CountIsPower(t);
      hide Pow2, StorageByteSize, ValueCount;
      BytesOfPower(StorageByteSize(t), width);
    }
  }

  lemma CountIsPower(t: JethType)
    requires Sized(t) && IsLeaf(t) && !t.Bool?
    ensures ValueCount(t) == Pow2(8 * StorageByteSize(t))
  {
    hide Pow2;
  }

  lemma BytesOfPower(n: nat, width: nat)
    ensures width >= n <==> Pow2(8 * width) >= Pow2(8 * n)
  {
    hide Pow2;
    if width < n {
      Pow2Grows(8 * width, 8 * n);
    } else if width > n {
      Pow2Grows(8 * n, 8 * width);
    }
  }

  lemma BytesOfBool(width: nat)
    ensures width >= 1 <==> Pow2(8 * width) >= 2
  {
    assert Pow2(0) == 1 && Pow2(1) == 2;
    if width > 0 {
      Pow2Grows(1, 8 * width);
    }
  }

  // ---------------------------------------------------------------- packed elements

  /** Consecutive elements of a packed array share a slot whenever the second still fits behind the first, and
      it then lies directly behind it; otherwise it begins the next slot. */
  lemma PackedNeighbours(t: JethType, j: nat)
    requires Sized(t) && IsFixedArray(t) && ArrayElemPacks(t.element).packed && j + 1 < t.length.value
    ensures ArrayElemPacks(t.element).perSlot > 0
    ensures var packs, size := ArrayElemPacks(t.element), LeafBytes(t.element);
            var a := PackedLeaf(t.element, packs.perSlot, packs.size, j, 0, 0);
            var b := PackedLeaf(t.element, packs.perSlot, packs.size, j + 1, 0, 0);
            if a.storageOffset + size + size <= 32 then
              b.storageSlot == a.storageSlot && b.storageOffset == a.storageOffset + size
            else b.storageSlot == a.storageSlot + 1 && b.storageOffset == 0
  {
    PackedFacts(t.element);
    MostPerSlot(t.element);
    hide ArrayElemPacks, LeafBytes;
    var packs := ArrayElemPacks(t.element);
    DivStep(j, packs.perSlot);
    RoomFor(packs.perSlot, packs.size, j % packs.perSlot);
  }

  lemma RoomFor(p: nat, size: nat, r: nat)
    requires r < p && p * size <= 32 < (p + 1) * size
    ensures if r * size + size + size <= 32 then r + 1 < p && (r + 1) * size == r * size + size else r + 1 == p
  {
    assert (r + 1) * size == r * size + size && (r + 2) * size == r * size + size + size;
    if r + 1 < p {
      MulMono(r + 2, p, size);
    } else {
      assert r + 2 == p + 1;
    }
  }

  /** As many elements share a slot as fit in it. */
  lemma MostPerSlot(e: JethType)
    requires Sized(e) && ArrayElemPacks(e).packed
    ensures var packs := ArrayElemPacks(e); packs.size == LeafBytes(e) && (packs.perSlot + 1) * packs.size > 32
  {
    PackedFacts(e);
    var packs := ArrayElemPacks(e);
    DivBounds(32, packs.size);
    assert (packs.perSlot + 1) * packs.size == packs.size * packs.perSlot + packs.size;
  }

  lemma MulMono(a: nat, b: nat, n: nat)
    requires a <= b
    ensures a * n <= b * n
  { }

  /** Exactly the single values that need fewer than 32 bytes share slots, but no addresses. */
  lemma PacksIff(e: JethType)
    requires Sized(e)
    ensures ArrayElemPacks(e).packed <==> IsLeaf(e) && LeafBytes(e) < 32 && !e.Address?
  { }

  // ---------------------------------------------------------------- no slot in vain

  predicate NoEmptyStruct(t: JethType) {
    match t
    case Array(element, Some(_)) => NoEmptyStruct(element)
    case Struct(_, fields, _) => fields != [] && forall f | f in fields :: NoEmptyStruct(f.ty)
    case _ => true
  }

  ghost predicate Holds(ls: seq<StorageLeaf>, slot: nat) {
    exists i :: 0 <= i < |ls| && ls[i].storageSlot == slot
  }

  /** Every slot from `lo` up to `hi` holds a leaf. */
  ghost predicate Covers(ls: seq<StorageLeaf>, lo: nat, hi: nat) {
    forall k: nat :: lo <= k < hi ==> Holds(ls, k)
  }

  lemma CoversConcat(a: seq<StorageLeaf>, b: seq<StorageLeaf>, lo: nat, mid: nat, mid': nat, hi: nat)
    requires Covers(a, lo, mid) && Covers(b, mid', hi) && mid' <= mid
    ensures Covers(a + b, lo, hi)
  {
    var ls := a + b;
    forall k: nat | lo <= k < hi ensures Holds(ls, k) {
      if k < mid {
        assert Holds(a, k);
        var i :| 0 <= i < |a| && a[i].storageSlot == k;
        assert ls[i] == a[i];
      } else {
        assert Holds(b, k);
        var i :| 0 <= i < |b| && b[i].storageSlot == k;
        assert ls[|a| + i] == b[i];
      }
    }
  }

  lemma CoversOne(l: StorageLeaf)
    ensures Covers([l], l.storageSlot, l.storageSlot + 1)
  {
    assert [l][0] == l;
  }

  /** The planner leaves no slot out between one variable and the next. */
  lemma NextSlot(ss: seq<Shape>, k: nat)
    requires k < |ss|
    ensures PlanAt(ss, k).slot <=
            if k == 0 then 0
            else PlanAt(ss, k - 1).slot + match ss[k - 1] case Whole(n) => n case Packed(_) => 1
  { }

  /** Every slot of a value holds a leaf. */
  lemma {:induction false} LeavesCover(t: JethType, aw: nat, sb: nat, off: nat)
    requires WellFormed(t) && NoEmptyStruct(t)
    ensures Covers(StorageLeaves(t, aw, sb, off), sb, sb + StorageSlotCount(t))
    decreases t, 1
  {
    hide Covers, StorageSlotCount, FieldLeaves, ElementLeaves, LaidOut;
    match t
    case Struct(_, fields, _) =>
      FieldsCover(t, |fields|, aw, sb);
      StructSlots(t);
    case Array(_, Some(length)) => ArrayCovers(t, aw, sb);
    case _ =>
      CoversOne(StorageLeaf(aw, sb, off, t));
      LeafSlot(t);
  }

  lemma StructSlots(t: JethType)
    requires Sized(t) && t.Struct? && t.fields != []
    ensures StorageSlotCount(t) == FieldsReach(t, |t.fields|)
  { }

  lemma LeafSlot(t: JethType)
    requires Sized(t) && IsLeaf(t)
    ensures StorageSlotCount(t) == 1
  { }

  /** The slot behind the first `k` fields. */
  function FieldsReach(t: JethType, k: nat): nat
    requires Sized(t) && t.Struct? && k <= |t.fields|
  {
    if k == 0 then 0 else t.fields[k - 1].slot + StorageSlotCount(t.fields[k - 1].ty)
  }

  lemma FieldFollows(t: JethType, k: nat)
    requires WellFormed(t) && t.Struct? && NoEmptyStruct(t) && k < |t.fields|
    ensures WellFormed(t.fields[k].ty) && NoEmptyStruct(t.fields[k].ty)
    ensures t.fields[k].slot <= FieldsReach(t, k)
  {
    var ss := FieldShapes(t.fields);
    assert t.fields[k] in t.fields;
    assert Placement(t.fields[k].slot, t.fields[k].offset) == PlanAt(ss, k);
    NextSlot(ss, k);
    if k > 0 {
      FieldShapesAt(t.fields, k - 1);
      assert Placement(t.fields[k - 1].slot, t.fields[k - 1].offset) == PlanAt(ss, k - 1);
      ShapeSlots(t.fields[k - 1].ty);
    }
  }

  lemma {:induction false} FieldsCover(t: JethType, k: nat, aw: nat, sb: nat)
    requires WellFormed(t) && t.Struct? && NoEmptyStruct(t) && k <= |t.fields|
    ensures Covers(FieldLeaves(t, k, aw, sb), sb, sb + FieldsReach(t, k))
    decreases t, 0, k
  {
    hide Covers, StorageSlotCount, StorageLeaves, FieldHeadWords, LaidOut;
    if k == 0 {
      CoversNothing(FieldLeaves(t, 0, aw, sb), sb);
    } else {
      var f, w := t.fields[k - 1], aw + FieldHeadWords(t, k - 1);
      FieldsCover(t, k - 1, aw, sb);
      FieldFollows(t, k - 1);
      LeavesCover(f.ty, w, sb + f.slot, f.offset);
      CoversConcat(FieldLeaves(t, k - 1, aw, sb), StorageLeaves(f.ty, w, sb + f.slot, f.offset),
                   sb, sb + FieldsReach(t, k - 1), sb + f.slot, sb + FieldsReach(t, k));
    }
  }

  lemma CoversNothing(ls: seq<StorageLeaf>, lo: nat)
    ensures Covers(ls, lo, lo)
  { }

  lemma {:induction false} ArrayCovers(t: JethType, aw: nat, sb: nat)
    requires WellFormed(t) && IsFixedArray(t) && NoEmptyStruct(t)
    ensures Covers(ElementLeaves(t, t.length.value, aw, sb), sb, sb + StorageSlotCount(t))
    decreases t, 0, t.length.value + 1
  {
    hide Covers, ElementLeaves, LaidOut, StorageSlotCount, StorageByteSize;
    var n := t.length.value;
    if IsWide(t.element) {
      WideElementsCover(t, n, aw, sb);
      WideStride(t);
    } else {
      PackedElementsCover(t, n, aw, sb);
      PackedSlots(t);
    }
  }

  lemma PackedSlots(t: JethType)
    requires Sized(t) && IsFixedArray(t) && ArrayElemPacks(t.element).packed
    ensures ArrayElemPacks(t.element).perSlot > 0
    ensures StorageSlotCount(t) == (t.length.value - 1) / ArrayElemPacks(t.element).perSlot + 1
  {
    PackedFacts(t.element);
    CeilOfPred(t.length.value, ArrayElemPacks(t.element).perSlot);
  }

  lemma {:induction false} WideElementsCover(t: JethType, k: nat, aw: nat, sb: nat)
    requires WellFormed(t) && IsFixedArray(t) && NoEmptyStruct(t) && IsWide(t.element)
    ensures Covers(ElementLeaves(t, k, aw, sb), sb, sb + k * StorageSlotCount(t.element))
    decreases t, 0, k
  {
    hide Covers, ElementAt, LaidOut, StorageSlotCount, StorageByteSize, ArrayElemPacks;
    var n := StorageSlotCount(t.element);
    if k == 0 {
      CoversNothing(ElementLeaves(t, 0, aw, sb), sb);
    } else {
      var base := sb + (k - 1) * n;
      assert sb + k * n == base + n;
      WideElementsCover(t, k - 1, aw, sb);
      WideElementCovers(t, k - 1, aw, sb);
      CoversConcat(ElementLeaves(t, k - 1, aw, sb), ElementAt(t, k - 1, aw, sb), sb, base, base, base + n);
    }
  }

  lemma {:induction false} WideElementCovers(t: JethType, j: nat, aw: nat, sb: nat)
    requires WellFormed(t) && IsFixedArray(t) && NoEmptyStruct(t) && IsWide(t.element)
    ensures var base := sb + j * StorageSlotCount(t.element);
            Covers(ElementAt(t, j, aw, sb), base, base + StorageSlotCount(t.element))
    decreases t, 0, j
  {
    hide Covers, LaidOut, StorageLeaves, StorageByteSize, StorageSlotCount;
    var e := t.element;
    WideShape(t);
    if e.Struct? || e.Array? {
      LeavesCover(e, Stride(aw, j, AbiHeadWords(e)), Stride(sb, j, StorageSlotCount(e)), 0);
    } else {
      CoversOne(StorageLeaf(aw + j, sb + j, 0, e));
    }
  }

  lemma {:induction false} PackedElementsCover(t: JethType, k: nat, aw: nat, sb: nat)
    requires Sized(t) && IsFixedArray(t) && ArrayElemPacks(t.element).packed
    ensures ArrayElemPacks(t.element).perSlot > 0
    ensures Covers(ElementLeaves(t, k, aw, sb), sb,
                   if k == 0 then sb else sb + (k - 1) / ArrayElemPacks(t.element).perSlot + 1)
    decreases k
  {
    PackedFacts(t.element);
    hide Covers, StorageSlotCount, StorageByteSize, ArrayElemPacks;
    var packs := ArrayElemPacks(t.element);
    var p := packs.perSlot;
    if k == 0 {
      CoversNothing(ElementLeaves(t, 0, aw, sb), sb);
    } else {
      var l := PackedLeaf(t.element, p, packs.size, k - 1, aw, sb);
      PackedElementsCover(t, k - 1, aw, sb);
      CoversOne(l);
      assert ElementAt(t, k - 1, aw, sb) == [l];
      if k > 1 {
        DivStep(k - 2, p);
      } else {
        DivUnique(0, p, 0, 0);
      }
      CoversConcat(ElementLeaves(t, k - 1, aw, sb), [l], sb,
                   if k == 1 then sb else sb + (k - 2) / p + 1, l.storageSlot, l.storageSlot + 1);
    }
  }

  // ---------------------------------------------------------------- an empty struct's slot

  /** Slot `gap` lies among those reserved and holds no leaf. */
  ghost predicate InVain(ls: seq<StorageLeaf>, lo: nat, hi: nat, gap: nat) {
    lo <= gap < hi && !Holds(ls, gap)
  }

  /** Leaves between two byte positions hold no slot in front of the first or behind the last. */
  lemma OutOfRange(ls: seq<StorageLeaf>, lo: nat, hi: nat, slot: nat)
    requires Ranged(Spans(ls), lo, hi) && (slot * 32 + 32 <= lo || hi <= slot * 32)
    requires forall l :: l in ls ==> LeafBytes(l.ty) > 0
    ensures !Holds(ls, slot)
  {
    forall i | 0 <= i < |ls| ensures ls[i].storageSlot != slot {
      SpansAt(ls, i);
      assert Inside(Spans(ls)[i], lo, hi);
      assert ls[i] in ls;
    }
  }

  lemma LeavesTakeBytes(t: JethType, aw: nat, sb: nat, off: nat)
    requires Sized(t)
    ensures forall l :: l in StorageLeaves(t, aw, sb, off) ==> LeafBytes(l.ty) > 0
  {
    LeafTypesAreLeaves(t);
    LeavesAreNumbered(t, aw, sb, off);
    hide StorageLeaves, LeafTypes, LeafBytes;
    var ls := StorageLeaves(t, aw, sb, off);
    forall l | l in ls ensures LeafBytes(l.ty) > 0 {
      var i :| 0 <= i < |ls| && ls[i] == l;
      assert l.ty == LeafTypes(t)[i] && LeafTypes(t)[i] in LeafTypes(t);
    }
  }

  lemma HoldsConcat(a: seq<StorageLeaf>, b: seq<StorageLeaf>, slot: nat)
    requires !Holds(a, slot) && !Holds(b, slot)
    ensures !Holds(a + b, slot)
  { }

  /** A type with an empty struct in it reserves a slot in vain. */
  lemma {:induction false} EmptyStructGap(t: JethType, aw: nat, sb: nat, off: nat) returns (gap: nat)
    requires WellFormed(t) && !NoEmptyStruct(t)
    ensures InVain(StorageLeaves(t, aw, sb, off), sb, sb + StorageSlotCount(t), gap)
    decreases t, 1
  {
    hide Holds, LaidOut, FieldLeaves, ElementLeaves, StorageSlotCount;
    match t
    case Struct(_, fields, _) =>
      if fields == [] {
        NoFields(t, aw, sb);
        gap := sb;
      } else {
        var f :| f in fields && !NoEmptyStruct(f.ty);
        var i :| 0 <= i < |fields| && fields[i] == f;
        gap := FieldsGap(t, |fields|, i, aw, sb);
        StructCovers(t);
      }
    case Array(_, Some(length)) =>
      gap := ElementsGap(t, length, aw, sb);
      IsWideHere(t);
      WideStride(t);
  }

  lemma IsWideHere(t: JethType)
    requires Sized(t) && IsFixedArray(t) && !NoEmptyStruct(t)
    ensures IsWide(t.element) && (t.element.Struct? || t.element.Array?)
  { }

  lemma NoFields(t: JethType, aw: nat, sb: nat)
    requires Sized(t) && t.Struct? && t.fields == []
    ensures StorageSlotCount(t) == 1 && FieldLeaves(t, 0, aw, sb) == [] && !Holds([], sb)
  { }

  lemma WholeHere(t: JethType)
    requires Sized(t) && !NoEmptyStruct(t)
    ensures ShapeOf(t) == Whole(StorageSlotCount(t))
  { }

  /** Field `k` holds no slot in front of its place, and the fields before it none from there on. */
  lemma FieldApart(t: JethType, k: nat, aw: nat, sb: nat, gap: nat)
    requires WellFormed(t) && t.Struct? && k < |t.fields|
    ensures var f := t.fields[k];
            && Sized(f.ty)
            && (gap * 32 + 32 <= sb * 32 + FieldsEnd(t, k) ==>
                  !Holds(StorageLeaves(f.ty, aw + FieldHeadWords(t, k), sb + f.slot, f.offset), gap))
            && (f.offset == 0 && gap >= sb + f.slot ==> !Holds(FieldLeaves(t, k, aw, sb), gap))
            && FieldsEnd(t, k) <= FieldsEnd(t, k + 1)
  {
    hide Holds, LaidOut, StorageLeaves, FieldLeaves, StorageSlotCount, FieldsEnd, FieldHeadWords, Ranged, Spans;
    var f, w := t.fields[k], aw + FieldHeadWords(t, k);
    FieldPlaced(t, k, sb);
    FieldIsRanged(t, k, w, sb);
    FieldLeavesAreRanged(t, k, aw, sb);
    LeavesTakeBytes(f.ty, w, sb + f.slot, f.offset);
    EarlierTakeBytes(t, k, aw, sb);
    if gap * 32 + 32 <= sb * 32 + FieldsEnd(t, k) {
      OutOfRange(StorageLeaves(f.ty, w, sb + f.slot, f.offset), (sb + f.slot) * 32 + f.offset,
                 sb * 32 + FieldsEnd(t, k + 1), gap);
    }
    if f.offset == 0 && gap >= sb + f.slot {
      OutOfRange(FieldLeaves(t, k, aw, sb), sb * 32, sb * 32 + FieldsEnd(t, k), gap);
    }
  }

  /** The gap in field `i` stays one among the first `k` fields. */
  lemma {:induction false} FieldsGap(t: JethType, k: nat, i: nat, aw: nat, sb: nat) returns (gap: nat)
    requires WellFormed(t) && t.Struct? && i < k <= |t.fields| && !NoEmptyStruct(t.fields[i].ty)
    ensures sb <= gap && gap * 32 + 32 <= sb * 32 + FieldsEnd(t, k) && !Holds(FieldLeaves(t, k, aw, sb), gap)
    decreases t, 0, k
  {
    hide Holds, LaidOut, StorageLeaves, StorageSlotCount, FieldsEnd, FieldHeadWords;
    var f, w := t.fields[k - 1], aw + FieldHeadWords(t, k - 1);
    if i == k - 1 {
      FieldPlaced(t, i, sb);
      WholeHere(f.ty);
      gap := EmptyStructGap(f.ty, w, sb + f.slot, f.offset);
    } else {
      gap := FieldsGap(t, k - 1, i, aw, sb);
    }
    FieldApart(t, k - 1, aw, sb, gap);
    HoldsConcat(FieldLeaves(t, k - 1, aw, sb), StorageLeaves(f.ty, w, sb + f.slot, f.offset), gap);
  }

  lemma {:induction false} EarlierTakeBytes(t: JethType, k: nat, aw: nat, sb: nat)
    requires Sized(t) && t.Struct? && k <= |t.fields|
    ensures forall l :: l in FieldLeaves(t, k, aw, sb) ==> LeafBytes(l.ty) > 0
    decreases k
  {
    hide StorageLeaves, LeafBytes;
    if k > 0 {
      var f := t.fields[k - 1];
      EarlierTakeBytes(t, k - 1, aw, sb);
      LeavesTakeBytes(f.ty, aw + FieldHeadWords(t, k - 1), sb + f.slot, f.offset);
    }
  }

  lemma ElementIs(t: JethType, j: nat, aw: nat, sb: nat)
    requires Sized(t) && IsFixedArray(t) && (t.element.Struct? || t.element.Array?)
    ensures var e := t.element;
            ElementAt(t, j, aw, sb) ==
            StorageLeaves(e, Stride(aw, j, AbiHeadWords(e)), Stride(sb, j, StorageSlotCount(e)), 0)
    ensures forall l :: l in ElementAt(t, j, aw, sb) ==> LeafBytes(l.ty) > 0
  {
    var e := t.element;
    LeavesTakeBytes(e, Stride(aw, j, AbiHeadWords(e)), Stride(sb, j, StorageSlotCount(e)), 0);
  }

  /** Later elements hold no slot of the first. */
  lemma LaterElement(t: JethType, j: nat, aw: nat, sb: nat, gap: nat)
    requires WellFormed(t) && IsFixedArray(t) && IsWide(t.element) && (t.element.Struct? || t.element.Array?)
    requires j > 0 && gap < sb + StorageSlotCount(t.element)
    ensures !Holds(ElementAt(t, j, aw, sb), gap)
  {
    hide Holds, ElementAt, StorageSlotCount, Ranged, Spans, LaidOut;
    var n := StorageSlotCount(t.element);
    ElementIs(t, j, aw, sb);
    WideElement(t, j, aw, sb);
    assert j * n >= n;
    OutOfRange(ElementAt(t, j, aw, sb), (sb + j * n) * 32, (sb + j * n + n) * 32, gap);
  }

  /** The gap in the first element stays one among the first `k`. */
  lemma {:induction false} ElementsGap(t: JethType, k: nat, aw: nat, sb: nat) returns (gap: nat)
    requires WellFormed(t) && IsFixedArray(t) && !NoEmptyStruct(t) && k > 0
    ensures InVain(ElementLeaves(t, k, aw, sb), sb, sb + StorageSlotCount(t.element), gap)
    ensures StorageSlotCount(t.element) <= k * StorageSlotCount(t.element)
    decreases t, 0, k
  {
    IsWideHere(t);
    hide Holds, LaidOut, StorageLeaves, StorageSlotCount, ElementAt, StorageByteSize, ArrayElemPacks;
    var e, j := t.element, k - 1;
    var n := StorageSlotCount(e);
    if j == 0 {
      gap := EmptyStructGap(e, Stride(aw, 0, AbiHeadWords(e)), Stride(sb, 0, n), 0);
      ElementIs(t, 0, aw, sb);
      assert [] + ElementAt(t, 0, aw, sb) == ElementAt(t, 0, aw, sb);
    } else {
      gap := ElementsGap(t, j, aw, sb);
      LaterElement(t, j, aw, sb, gap);
      HoldsConcat(ElementLeaves(t, j, aw, sb), ElementAt(t, j, aw, sb), gap);
      assert k * n == j * n + n;
    }
  }

  /** A type reserves no slot in vain: every slot below its slot count holds one of its leaves, and no other
      does. That is so if and only if no struct in it is empty. */
  lemma SlotsAreUsedIff(t: JethType)
    requires WellFormed(t)
    ensures NoEmptyStruct(t) <==>
            forall slot: nat :: slot < StorageSlotCount(t) <==> Holds(StorageLeaves(t, 0, 0, 0), slot)
  {
    StorageMatchesAbi(t);
    if NoEmptyStruct(t) {
      LeavesCover(t, 0, 0, 0);
    } else {
      var gap := EmptyStructGap(t, 0, 0, 0);
    }
  }
}
