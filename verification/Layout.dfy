/** The storage planner of `src/layout.ts`.

    The planner sees a type only through its shape: how many whole slots it takes, or how many
    bytes it packs into. A layout is judged on byte positions, slot * 32 + offset, so that
    lexicographic order on (slot, offset) is order on positions. */
module Layout {
  import opened Wrappers
  import opened JethTypes

  datatype Placement = Placement(slot: nat, offset: nat) {
    function BytePos(): nat {
      slot * 32 + offset
    }
  }

  type Slots = n: nat | n >= 1 witness 1
  type PackedBytes = n: nat | 1 <= n < 32 witness 1

  datatype Shape = Whole(slots: Slots) | Packed(bytes: PackedBytes) {
    /** The bytes a variable reserves: all of its slots when it does not pack. */
    function Extent(): (n: nat)
      ensures n >= 1
    {
      match this
      case Whole(slots) => slots * 32
      case Packed(bytes) => bytes
    }

    /** Whole-slot variables start a slot; a packed variable does not cross one. */
    predicate Admits(p: Placement) {
      match this
      case Whole(_) => p.offset == 0
      case Packed(bytes) => p.offset + bytes <= 32
    }
  }

  predicate OccupiesWholeSlot(t: JethType)
    requires Sized(t)
  {
    t.Struct? || IsFixedArray(t) || StorageByteSize(t) == 32
  }

  function ShapeOf(t: JethType): Shape
    requires Sized(t)
  {
    if OccupiesWholeSlot(t) then Whole(StorageSlotCount(t)) else Packed(StorageByteSize(t))
  }

  // ---------------------------------------------------------------- the rules a layout obeys

  ghost predicate Before(ss: seq<Shape>, ps: seq<Placement>, i: nat, j: nat) {
    i < j < |ss| == |ps| ==> ps[i].BytePos() + ss[i].Extent() <= ps[j].BytePos()
  }

  ghost predicate Fits(ss: seq<Shape>, ps: seq<Placement>, i: nat) {
    i < |ss| == |ps| ==> ss[i].Admits(ps[i])
  }

  /** An order-preserving layout without overlap in which every placement is admissible. */
  ghost predicate Legal(ss: seq<Shape>, ps: seq<Placement>) {
    && |ps| == |ss|
    && (forall i :: Fits(ss, ps, i))
    && (forall i, j :: Before(ss, ps, i, j))
  }

  // ---------------------------------------------------------------- the greedy plan

  /** The first free byte: a slot and the bytes used in it, fewer than 32. */
  datatype Cursor = Cursor(slot: nat, used: nat) {
    function BytePos(): nat {
      slot * 32 + used
    }
  }

  /** Where a variable goes. */
  function Next(s: Shape, c: Cursor): Placement {
    match s
    case Whole(_) => Placement(if c.used > 0 then c.slot + 1 else c.slot, 0)
    case Packed(bytes) => if c.used + bytes > 32 then Placement(c.slot + 1, 0) else Placement(c.slot, c.used)
  }

  /** The first free byte behind a variable. */
  function Behind(s: Shape, p: Placement): Cursor {
    match s
    case Whole(slots) => Cursor(p.slot + slots, 0)
    case Packed(bytes) => if p.offset + bytes == 32 then Cursor(p.slot + 1, 0) else Cursor(p.slot, p.offset + bytes)
  }

  /** The cursor once the first `n` variables are placed. */
  function CursorAt(ss: seq<Shape>, n: nat): (c: Cursor)
    requires n <= |ss|
    ensures c.used < 32
  {
    if n == 0 then Cursor(0, 0) else Behind(ss[n - 1], Next(ss[n - 1], CursorAt(ss, n - 1)))
  }

  function PlanAt(ss: seq<Shape>, i: nat): Placement
    requires i < |ss|
  {
    Next(ss[i], CursorAt(ss, i))
  }

  function Plan(ss: seq<Shape>): (ps: seq<Placement>)
    ensures |ps| == |ss| && forall i {:trigger ps[i]} :: 0 <= i < |ss| ==> ps[i] == PlanAt(ss, i)
  {
    seq(|ss|, i requires 0 <= i < |ss| => PlanAt(ss, i))
  }

  function SlotCount(ss: seq<Shape>): nat {
    var c := CursorAt(ss, |ss|);
    if c.used > 0 then c.slot + 1 else c.slot
  }

  /** `Next` is the earliest admissible placement at or behind the cursor. */
  lemma NextIsEarliest(s: Shape, c: Cursor, q: Placement)
    requires c.used < 32
    ensures s.Admits(Next(s, c)) && c.BytePos() <= Next(s, c).BytePos()
    ensures Behind(s, Next(s, c)).BytePos() == Next(s, c).BytePos() + s.Extent()
    ensures s.Admits(q) && c.BytePos() <= q.BytePos() ==> Next(s, c).BytePos() <= q.BytePos()
  { }

  /** Later variables lie behind earlier ones. */
  lemma {:induction false} CursorMonotone(ss: seq<Shape>, i: nat, j: nat)
    requires i <= j <= |ss|
    ensures CursorAt(ss, i).BytePos() <= CursorAt(ss, j).BytePos()
    decreases j
  {
    if i < j {
      CursorMonotone(ss, i, j - 1);
      NextIsEarliest(ss[j - 1], CursorAt(ss, j - 1), Placement(0, 0));
    }
  }

  lemma PlanBefore(ss: seq<Shape>, i: nat, j: nat)
    requires i < j < |ss|
    ensures PlanAt(ss, i).BytePos() + ss[i].Extent() <= PlanAt(ss, j).BytePos()
  {
    NextIsEarliest(ss[i], CursorAt(ss, i), Placement(0, 0));
    CursorMonotone(ss, i + 1, j);
    NextIsEarliest(ss[j], CursorAt(ss, j), Placement(0, 0));
  }

  /** The plan is legal. */
  lemma PlanIsLegal(ss: seq<Shape>)
    ensures Legal(ss, Plan(ss))
  {
    var ps := Plan(ss);
    forall i: nat ensures Fits(ss, ps, i) {
      if i < |ss| {
        NextIsEarliest(ss[i], CursorAt(ss, i), Placement(0, 0));
      }
    }
    forall i: nat, j: nat ensures Before(ss, ps, i, j) {
      if i < j < |ss| {
        PlanBefore(ss, i, j);
      }
    }
  }

  /** No legal layout puts any variable earlier than the plan does. */
  lemma {:induction false} PlanIsEarliest(ss: seq<Shape>, qs: seq<Placement>, i: nat)
    requires Legal(ss, qs) && i < |ss|
    ensures PlanAt(ss, i).BytePos() <= qs[i].BytePos()
    ensures CursorAt(ss, i + 1).BytePos() <= qs[i].BytePos() + ss[i].Extent()
  {
    var c := CursorAt(ss, i);
    assert c.BytePos() <= qs[i].BytePos() by {
      if i > 0 {
        PlanIsEarliest(ss, qs, i - 1);
        assert Before(ss, qs, i - 1, i);
      }
    }
    assert Fits(ss, qs, i);
    NextIsEarliest(ss[i], c, qs[i]);
    assert CursorAt(ss, i + 1) == Behind(ss[i], Next(ss[i], c));
  }

  /** Hence the slot count is the least any legal layout fits in. */
  lemma SlotCountIsMinimal(ss: seq<Shape>, qs: seq<Placement>, slots: nat)
    requires Legal(ss, qs)
    requires forall i :: 0 <= i < |ss| ==> qs[i].BytePos() + ss[i].Extent() <= slots * 32
    ensures SlotCount(ss) <= slots
  {
    if ss != [] {
      PlanIsEarliest(ss, qs, |ss| - 1);
    }
  }

  /** The plan itself fits in that many slots. */
  lemma PlanFits(ss: seq<Shape>)
    ensures forall i :: 0 <= i < |ss| ==> Plan(ss)[i].BytePos() + ss[i].Extent() <= SlotCount(ss) * 32
  {
    forall i: nat | i < |ss| ensures Plan(ss)[i].BytePos() + ss[i].Extent() <= SlotCount(ss) * 32 {
      NextIsEarliest(ss[i], CursorAt(ss, i), Placement(0, 0));
      CursorMonotone(ss, i + 1, |ss|);
    }
  }

  lemma {:induction false} CursorOfPrefix(a: seq<Shape>, b: seq<Shape>, n: nat)
    requires n <= |a|
    ensures CursorAt(a + b, n) == CursorAt(a, n)
  {
    if n > 0 {
      CursorOfPrefix(a, b, n - 1);
    }
  }

  /** Appending variables moves none of the existing ones. */
  lemma PlanIsAppendStable(a: seq<Shape>, b: seq<Shape>)
    ensures Plan(a + b)[..|a|] == Plan(a)
  {
    forall i: nat | i < |a| ensures Plan(a + b)[i] == Plan(a)[i] {
      CursorOfPrefix(a, b, i);
    }
  }

  // ---------------------------------------------------------------- structs

  function FieldShapes(fields: seq<StructField>): (ss: seq<Shape>)
    requires forall f :: f in fields ==> Sized(f.ty)
    ensures |ss| == |fields|
  {
    if fields == [] then [] else [ShapeOf(fields[0].ty)] + FieldShapes(fields[1..])
  }

  lemma {:induction false} FieldShapesAt(fields: seq<StructField>, i: nat)
    requires (forall f :: f in fields ==> Sized(f.ty)) && i < |fields|
    ensures FieldShapes(fields)[i] == ShapeOf(fields[i].ty)
  {
    if i > 0 {
      FieldShapesAt(fields[1..], i - 1);
    }
  }

  /** Every struct at every depth carries the placements the planner gives its fields. */
  ghost predicate LaidOut(t: JethType)
    requires Sized(t)
  {
    match t
    case Array(element, _) => LaidOut(element)
    case Struct(_, fields, _) =>
      && (forall f :: f in fields ==> LaidOut(f.ty))
      && (forall i :: 0 <= i < |fields| ==>
            Placement(fields[i].slot, fields[i].offset) == PlanAt(FieldShapes(fields), i))
    case _ => true
  }

  ghost predicate WellFormed(t: JethType) {
    Sized(t) && LaidOut(t)
  }

  /** The slot behind the last variable. */
  lemma SlotCountOfLast(ss: seq<Shape>)
    requires ss != []
    ensures SlotCount(ss) == PlanAt(ss, |ss| - 1).slot + match ss[|ss| - 1] case Whole(n) => n case Packed(_) => 1
  { }

  lemma ShapeSlots(t: JethType)
    requires Sized(t)
    ensures StorageSlotCount(t) == match ShapeOf(t) case Whole(n) => n case Packed(_) => 1
  { }

  /** The size computed from a struct's last field agrees with the planner's slot count exactly when
      there is a field: an empty struct takes one slot, an empty plan none. */
  lemma SlotCountsAgree(t: JethType)
    requires WellFormed(t) && t.Struct?
    ensures StorageSlotCount(t) == SlotCount(FieldShapes(t.fields)) <==> t.fields != []
  {
    var ss := FieldShapes(t.fields);
    if t.fields != [] {
      var last := t.fields[|t.fields| - 1];
      SlotCountOfLast(ss);
      ShapeSlots(last.ty);
      FieldShapesAt(t.fields, |t.fields| - 1);
      assert Placement(last.slot, last.offset) == PlanAt(ss, |ss| - 1);
    }
  }

  // ---------------------------------------------------------------- the planner's loop

  /** The initial value of a variable, which the planner hands on. */
  datatype Initial = Number(value: int) | Truth(holds: bool)
  datatype SlotWord = SlotWord(slotOffset: nat, word: int)

  datatype RawStateVar = RawStateVar(
    name: string, ty: JethType, initialValue: Option<Initial>, initialSlotWords: Option<seq<SlotWord>>)

  datatype PlannedVar = PlannedVar(raw: RawStateVar, slot: nat, offset: nat)

  function ShapesOf(raw: seq<RawStateVar>): (ss: seq<Shape>)
    requires forall v :: v in raw ==> Sized(v.ty)
    ensures |ss| == |raw|
  {
    if raw == [] then [] else [ShapeOf(raw[0].ty)] + ShapesOf(raw[1..])
  }

  lemma {:induction false} ShapesOfAt(raw: seq<RawStateVar>, i: nat)
    requires (forall v :: v in raw ==> Sized(v.ty)) && i < |raw|
    ensures ShapesOf(raw)[i] == ShapeOf(raw[i].ty)
  {
    if i > 0 {
      ShapesOfAt(raw[1..], i - 1);
    }
  }

  /** The planner's loop: the variables keep their order, names and types, and lie where the
      greedy plan puts them. */
  method PlanLayout(raw: seq<RawStateVar>) returns (vars: seq<PlannedVar>, slotCount: nat)
    requires forall v :: v in raw ==> Sized(v.ty)
    ensures |vars| == |raw|
    ensures forall i :: 0 <= i < |raw| ==>
              && vars[i].raw == raw[i]
              && Placement(vars[i].slot, vars[i].offset) == Plan(ShapesOf(raw))[i]
    ensures slotCount == SlotCount(ShapesOf(raw))
  {
    hide StorageByteSize, StorageSlotCount, ShapesOf;
    ghost var ss := ShapesOf(raw);
    vars := [];
    var slot: nat, usedInSlot: nat := 0, 0;
    for i := 0 to |raw|
      invariant |vars| == i && usedInSlot < 32
      invariant forall k :: 0 <= k < i ==> vars[k].raw == raw[k]
      invariant forall k :: 0 <= k < i ==> Placement(vars[k].slot, vars[k].offset) == PlanAt(ss, k)
      invariant Cursor(slot, usedInSlot) == CursorAt(ss, i)
    {
      var v := raw[i];
      var size := StorageByteSize(v.ty);
      ShapesOfAt(raw, i);
      assert CursorAt(ss, i + 1) == Behind(ss[i], Next(ss[i], Cursor(slot, usedInSlot)));
      if OccupiesWholeSlot(v.ty) {
        if usedInSlot > 0 {
          slot, usedInSlot := slot + 1, 0;
        }
        vars := vars + [PlannedVar(v, slot, 0)];
        slot := slot + StorageSlotCount(v.ty);
        usedInSlot := 0;
        continue;
      }
      if usedInSlot + size > 32 {
        slot, usedInSlot := slot + 1, 0;
      }
      vars := vars + [PlannedVar(v, slot, usedInSlot)];
      usedInSlot := usedInSlot + size;
      if usedInSlot == 32 {
        slot, usedInSlot := slot + 1, 0;
      }
    }
    slotCount := if usedInSlot > 0 then slot + 1 else slot;
  }
}
