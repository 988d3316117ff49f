/** The admission predicates of `src/types.ts` that decide which codec lays out a type. Each predicate is
    written as in the source; the lemmas say which types it admits in terms of a type's array levels and
    of the one type below them, and that the families these predicates define do not overlap. */
module Classify {
  import opened Wrappers
  import opened JethTypes

  // ---------------------------------------------------------------- the predicates

  predicate IsStaticValueType(t: JethType) {
    t.UInt? || t.SInt? || t.Bool? || t.Address? || t.BytesN?
  }

  predicate IsValueWord(t: JethType) {
    IsStaticValueType(t) || t.FuncRef?
  }

  predicate IsBytesLike(t: JethType) {
    t.Bytes? || t.Str?
  }

  predicate IsDynamicType(t: JethType) {
    match t
    case Bytes => true
    case Str => true
    case Array(element, length) => length.None? || IsDynamicType(element)
    case Struct(_, fields, _) => exists f | f in fields :: IsDynamicType(f.ty)
    case _ => false
  }

  predicate IsStaticType(t: JethType) {
    || IsStaticValueType(t)
    || (t.Struct? && !t.recursiveRef && forall f | f in t.fields :: IsStaticType(f.ty))
    || (t.Array? && t.length.Some? && IsStaticType(t.element))
  }

  predicate IsValueWordAggregate(t: JethType) {
    || IsValueWord(t)
    || (t.Struct? && forall f | f in t.fields :: IsValueWordAggregate(f.ty))
    || (t.Array? && t.length.Some? && IsValueWordAggregate(t.element))
  }

  predicate IsFuncrefValueAggregate(t: JethType) {
    !IsStaticType(t) && IsValueWordAggregate(t)
  }

  predicate IsValueLeafArray(t: JethType) {
    t.Array? && (IsStaticValueType(t.element) || IsValueLeafArray(t.element))
  }

  predicate IsNestedValueArray(t: JethType) {
    t.Array? && t.element.Array? && IsValueLeafArray(t)
  }

  predicate IsFixedValueWordArray(t: JethType) {
    IsFixedArray(t) && (IsStaticValueType(t.element) || IsFixedValueWordArray(t.element))
  }

  predicate IsStaticStructAnyLeafArray(t: JethType) {
    && t.Array?
    && if t.element.Struct? then IsStaticType(t.element) else t.element.Array? && IsStaticStructAnyLeafArray(t.element)
  }

  predicate IsStaticStructFixedLeafArray(t: JethType) {
    && IsFixedArray(t)
    && if t.element.Struct? then IsStaticType(t.element) else t.element.Array? && IsStaticStructAnyLeafArray(t.element)
  }

  predicate IsDynBytesLeafArray(t: JethType) {
    && t.Array? && t.length.None?
    && (IsBytesLike(t.element) || (t.element.Array? && IsDynBytesLeafArray(t.element)))
  }

  predicate IsDynBytesFixedLeafArray(t: JethType) {
    && IsFixedArray(t)
    && (IsBytesLike(t.element)
        || (t.element.Array? && (IsDynBytesFixedLeafArray(t.element) || IsDynBytesLeafArray(t.element))))
  }

  predicate IsDynLeafFixedArray(t: JethType) {
    IsFixedArray(t) && IsDynamicType(t) && (IsDynBytesFixedLeafArray(t) || IsNestedValueArray(t))
  }

  predicate IsDynStructLeafArrayField(t: JethType) {
    && t.Array? && t.length.None? && !IsStaticValueType(t.element)
    && (IsDynBytesLeafArray(t) || IsNestedValueArray(t))
  }

  predicate IsDynStructFixedLeafArray(t: JethType)
    decreases t, 1
  {
    && IsFixedArray(t) && IsDynamicType(t)
    && if t.element.Struct? then IsDynStructLeaf(t.element)
       else IsFixedArray(t.element) && IsDynStructFixedLeafArray(t.element)
  }

  predicate IsDynStructElemArrayField(t: JethType)
    decreases t, 1
  {
    && t.Array? && t.length.None? && t.element.Struct?
    && (IsStaticType(t.element) || IsDynStructLeaf(t.element))
  }

  predicate IsDynStructLeaf(t: JethType)
    decreases t, 1
  {
    t.Struct? && IsDynamicType(t) && forall f | f in t.fields :: IsDynStructLeafFieldOk(f.ty)
  }

  predicate IsDynStructLeafFieldOk(t: JethType)
    decreases t, 2
  {
    || IsStaticValueType(t)
    || IsBytesLike(t)
    || (t.Array? && t.length.None? && IsStaticValueType(t.element))
    || IsDynStructLeafArrayField(t)
    || IsDynLeafFixedArray(t)
    || IsDynStructFixedLeafArray(t)
    || IsDynStructElemArrayField(t)
    || (t.Struct? && IsDynamicType(t) && IsDynStructLeaf(t))
    || (t.Struct? && IsStaticType(t))
    || (IsFixedArray(t) && IsStaticType(t))
  }

  predicate IsFuncrefDynStructLeaf(t: JethType) {
    && t.Struct? && IsDynamicType(t)
    && (exists f | f in t.fields :: f.ty.FuncRef?)
    && forall f | f in t.fields :: f.ty.FuncRef? || IsDynStructLeafFieldOk(f.ty)
  }

  // ---------------------------------------------------------------- static and dynamic

  /** A mapping, function pointer, void or recursive reference held by value in `t`: `t` itself, or an
      element of a fixed array or a struct field that has one. */
  predicate HoldsUnsized(t: JethType) {
    || t.Mapping? || t.FuncRef? || t.Void?
    || (t.Struct? && (t.recursiveRef || exists f | f in t.fields :: HoldsUnsized(f.ty)))
    || (IsFixedArray(t) && HoldsUnsized(t.element))
  }

  /** Static means: not dynamic, and nothing unsized is held by value. So the two never hold together, and
      one of them holds unless something unsized is held by value. */
  lemma {:induction false} StaticIff(t: JethType)
    ensures IsStaticType(t) <==> !IsDynamicType(t) && !HoldsUnsized(t)
  {
    match t
    case Array(element, _) => StaticIff(element);
    case Struct(_, fields, _) =>
      forall f | f in fields ensures IsStaticType(f.ty) <==> !IsDynamicType(f.ty) && !HoldsUnsized(f.ty) {
        StaticIff(f.ty);
      }
    case _ =>
  }

  /** Nothing unsized anywhere, even behind a dynamic array. */
  predicate IsData(t: JethType) {
    match t
    case Array(element, _) => IsData(element)
    case Struct(_, fields, recursiveRef) => !recursiveRef && forall f | f in fields :: IsData(f.ty)
    case Mapping(_, _) => false
    case FuncRef(_, _, _) => false
    case Void => false
    case _ => true
  }

  lemma {:induction false} DataHoldsNothingUnsized(t: JethType)
    requires IsData(t)
    ensures !HoldsUnsized(t)
  {
    match t
    case Array(element, _) => DataHoldsNothingUnsized(element);
    case Struct(_, fields, _) =>
      forall f | f in fields ensures !HoldsUnsized(f.ty) {
        DataHoldsNothingUnsized(f.ty);
      }
    case _ =>
  }

  lemma ExactlyOneOnData(t: JethType)
    requires IsData(t)
    ensures IsStaticType(t) <==> !IsDynamicType(t)
  {
    StaticIff(t);
    DataHoldsNothingUnsized(t);
  }

  // ---------------------------------------------------------------- levels and leaf

  /** The type below all array levels. */
  function Leaf(t: JethType): (leaf: JethType)
    ensures !leaf.Array? && (leaf == t || leaf < t)
  {
    if t.Array? then Leaf(t.element) else t
  }

  /** Whether each array level is fixed, outermost first. */
  function Levels(t: JethType): (fixed: seq<bool>)
    ensures fixed != [] <==> t.Array?
  {
    if t.Array? then [t.length.Some?] + Levels(t.element) else []
  }

  predicate AllOf(levels: seq<bool>, fixed: bool) {
    levels == [] || (levels[0] == fixed && AllOf(levels[1..], fixed))
  }

  /** No fixed level below a dynamic one. */
  predicate FixedOutside(levels: seq<bool>) {
    levels == [] || (if levels[0] then FixedOutside(levels[1..]) else AllOf(levels, false))
  }

  lemma LevelsStep(t: JethType)
    requires t.Array?
    ensures Leaf(t) == Leaf(t.element) && Levels(t)[0] == t.length.Some? && Levels(t)[1..] == Levels(t.element)
    ensures forall b: bool :: AllOf(Levels(t), b) <==> t.length.Some? == b && AllOf(Levels(t.element), b)
    ensures !t.element.Array? ==> Leaf(t) == t.element && Levels(t) == [t.length.Some?]
  { }

  lemma {:induction false} DynamicIff(t: JethType)
    requires t.Array?
    ensures IsDynamicType(t) <==> !AllOf(Levels(t), true) || IsDynamicType(Leaf(t))
  {
    LevelsStep(t);
    if t.element.Array? {
      DynamicIff(t.element);
    }
  }

  lemma {:induction false} ValueLeafIff(t: JethType)
    ensures IsValueLeafArray(t) <==> t.Array? && IsStaticValueType(Leaf(t))
  {
    if t.Array? {
      ValueLeafIff(t.element);
    }
  }

  lemma {:induction false} FixedValueIff(t: JethType)
    ensures IsFixedValueWordArray(t) <==> IsFixedArray(t) && IsStaticType(t) && IsStaticValueType(Leaf(t))
  {
    if t.Array? {
      FixedValueIff(t.element);
    }
  }

  lemma {:induction false} StaticStructAnyIff(t: JethType)
    ensures IsStaticStructAnyLeafArray(t) <==> t.Array? && Leaf(t).Struct? && IsStaticType(Leaf(t))
  {
    if t.Array? {
      StaticStructAnyIff(t.element);
    }
  }

  lemma StaticStructFixedIff(t: JethType)
    ensures IsStaticStructFixedLeafArray(t) <==> IsFixedArray(t) && Leaf(t).Struct? && IsStaticType(Leaf(t))
  {
    if t.Array? {
      StaticStructAnyIff(t.element);
    }
  }

  lemma {:induction false} DynBytesIff(t: JethType)
    ensures IsDynBytesLeafArray(t) <==> t.Array? && AllOf(Levels(t), false) && IsBytesLike(Leaf(t))
  {
    if t.Array? {
      LevelsStep(t);
      DynBytesIff(t.element);
    }
  }

  lemma {:induction false} DynBytesFixedIff(t: JethType)
    ensures IsDynBytesFixedLeafArray(t) <==> IsFixedArray(t) && FixedOutside(Levels(t)) && IsBytesLike(Leaf(t))
  {
    if t.Array? {
      LevelsStep(t);
      DynBytesFixedIff(t.element);
      DynBytesIff(t.element);
    }
  }

  lemma {:induction false} DynStructFixedIff(t: JethType)
    ensures IsDynStructFixedLeafArray(t) <==> t.Array? && AllOf(Levels(t), true) && IsDynStructLeaf(Leaf(t))
  {
    if t.Array? {
      LevelsStep(t);
      DynamicIff(t);
      DynStructFixedIff(t.element);
    }
  }

  // ---------------------------------------------------------------- the fixed-outer families

  datatype Family = StaticStructLeaf | BytesLeaf | ValueLeaf | DynStructLeaf

  /** The source's predicate for each family of fixed-outer arrays. */
  predicate Admits(family: Family, t: JethType) {
    match family
    case StaticStructLeaf => IsStaticStructFixedLeafArray(t)
    case BytesLeaf => IsDynBytesFixedLeafArray(t)
    case ValueLeaf => IsFixedArray(t) && IsValueLeafArray(t)
    case DynStructLeaf => IsDynStructFixedLeafArray(t)
  }

  /** What the leaf must be, and which levels are allowed above it. */
  predicate LeafFits(family: Family, t: JethType) {
    match family
    case StaticStructLeaf => Leaf(t).Struct? && IsStaticType(Leaf(t))
    case BytesLeaf => IsBytesLike(Leaf(t)) && FixedOutside(Levels(t))
    case ValueLeaf => IsStaticValueType(Leaf(t))
    case DynStructLeaf => IsDynStructLeaf(Leaf(t)) && AllOf(Levels(t), true)
  }

  lemma AdmitsIff(family: Family, t: JethType)
    ensures Admits(family, t) <==> IsFixedArray(t) && LeafFits(family, t)
  {
    StaticStructFixedIff(t);
    DynBytesFixedIff(t);
    ValueLeafIff(t);
    DynStructFixedIff(t);
    if t.Array? {
      LevelsStep(t);
    }
  }

  /** No type belongs to two families. */
  lemma FamiliesDisjoint(a: Family, b: Family, t: JethType)
    requires Admits(a, t) && Admits(b, t)
    ensures a == b
  {
    AdmitsIff(a, t);
    AdmitsIff(b, t);
    StaticIff(Leaf(t));
  }

  /** The pointer-headed codec's two sub-families are those of the bytes leaf and of the value leaf behind
      a dynamic level; static arrays are left to the inline codec. */
  lemma DynLeafFixedIff(t: JethType)
    ensures IsDynLeafFixedArray(t) <==>
            Admits(BytesLeaf, t) || (Admits(ValueLeaf, t) && !AllOf(Levels(t), true))
    ensures IsDynLeafFixedArray(t) ==> !IsStaticType(t)
  {
    AdmitsIff(BytesLeaf, t);
    AdmitsIff(ValueLeaf, t);
    StaticIff(t);
    if t.Array? {
      DynamicIff(t);
      LevelsStep(t);
      DynBytesFixedIff(t);
    }
  }

  // ---------------------------------------------------------------- function pointers stay out

  /** A function pointer, mapping or void anywhere in `t`, or a recursive reference's empty struct. */
  predicate Foreign(t: JethType) {
    match t
    case Array(element, _) => Foreign(element)
    case Struct(_, fields, recursiveRef) => (recursiveRef && fields == []) || exists f | f in fields :: Foreign(f.ty)
    case Mapping(_, _) => true
    case FuncRef(_, _, _) => true
    case Void => true
    case _ => false
  }

  lemma {:induction false} StaticIsNotForeign(t: JethType)
    requires IsStaticType(t)
    ensures !Foreign(t)
  {
    match t
    case Array(element, _) => StaticIsNotForeign(element);
    case Struct(_, fields, _) =>
      forall f | f in fields ensures !Foreign(f.ty) {
        StaticIsNotForeign(f.ty);
      }
    case _ =>
  }

  lemma {:induction false} ForeignLeaf(t: JethType)
    ensures Foreign(t) <==> Foreign(Leaf(t))
  {
    if t.Array? {
      ForeignLeaf(t.element);
    }
  }

  /** A dynamic-struct leaf has nothing foreign in it, at any depth. */
  lemma {:induction false} DynStructLeafIsNotForeign(t: JethType)
    requires IsDynStructLeaf(t)
    ensures !Foreign(t)
    decreases t, 1
  {
    forall f | f in t.fields ensures !Foreign(f.ty) {
      FieldOkIsNotForeign(f.ty);
    }
  }

  lemma {:induction false} DynStructArrayIsNotForeign(t: JethType)
    requires IsDynStructFixedLeafArray(t)
    ensures !Foreign(t)
    decreases t, 1
  {
    if t.element.Struct? {
      DynStructLeafIsNotForeign(t.element);
    } else {
      DynStructArrayIsNotForeign(t.element);
    }
  }

  lemma SimpleLeafIsNotForeign(t: JethType)
    requires IsValueLeafArray(t) || IsDynBytesLeafArray(t) || IsDynBytesFixedLeafArray(t)
    ensures !Foreign(t)
  {
    ValueLeafIff(t);
    DynBytesIff(t);
    DynBytesFixedIff(t);
    ForeignLeaf(t);
  }

  lemma StructFieldOk(t: JethType)
    requires IsDynStructLeafFieldOk(t) && t.Struct? && !IsStaticType(t)
    ensures IsDynStructLeaf(t)
  {
    hide IsDynStructLeaf, IsDynamicType, IsStaticType;
  }

  /** Nor has any field the codec admits. */
  lemma {:induction false} FieldOkIsNotForeign(t: JethType)
    requires IsDynStructLeafFieldOk(t)
    ensures !Foreign(t)
    decreases t, 2
  {
    hide IsDynStructLeaf;
    if IsStaticType(t) {
      StaticIsNotForeign(t);
    } else if t.Struct? {
      StructFieldOk(t);
      DynStructLeafIsNotForeign(t);
    } else if IsDynStructFixedLeafArray(t) {
      DynStructArrayIsNotForeign(t);
    } else if IsDynStructElemArrayField(t) {
      if IsStaticType(t.element) {
        StaticIsNotForeign(t.element);
      } else {
        DynStructLeafIsNotForeign(t.element);
      }
    } else if t.Array? {
      SimpleLeafIsNotForeign(t);
    }
  }

  // ---------------------------------------------------------------- which fields are admitted

  predicate IsSingleValue(t: JethType) {
    t.UInt? || t.SInt? || t.Bool? || t.Address? || t.BytesN?
  }

  /** The fields that the codec must admit, by levels and leaf: arrays of any levels over a single value;
      arrays over a byte sequence with the fixed levels outside; and structs of admitted fields, alone, in
      fixed arrays or in one dynamic array. A struct without anything dynamic needs only hold nothing
      unsized. */
  predicate Admissible(t: JethType)
    decreases t, 1
  {
    var leaf, levels := Leaf(t), Levels(t);
    || IsSingleValue(leaf)
    || ((leaf.Bytes? || leaf.Str?) && FixedOutside(levels))
    || (leaf.Struct? && (AllOf(levels, true) || levels == [false]) && StructAdmissible(leaf))
  }

  predicate StructAdmissible(t: JethType)
    decreases t, 0
  {
    t.Struct? && if IsDynamicType(t) then forall f | f in t.fields :: Admissible(f.ty) else !HoldsUnsized(t)
  }

  lemma {:induction false} StaticArrayIff(t: JethType)
    ensures IsStaticType(t) <==> AllOf(Levels(t), true) && IsStaticType(Leaf(t))
  {
    if t.Array? {
      LevelsStep(t);
      StaticArrayIff(t.element);
    }
  }

  /** A field is admitted exactly if it is admissible. */
  lemma {:induction false} FieldOkIff(t: JethType)
    ensures IsDynStructLeafFieldOk(t) <==> Admissible(t)
    decreases t, 2
  {
    var leaf := Leaf(t);
    if leaf.Struct? {
      StructOkIff(leaf);
    }
    StaticIff(leaf);
    StaticArrayIff(t);
    if t.Array? {
      hide IsDynStructLeaf, IsDynStructFixedLeafArray, IsValueLeafArray, IsDynBytesLeafArray, Admissible;
      hide IsDynBytesFixedLeafArray, IsDynamicType, IsStaticType, HoldsUnsized, StructAdmissible;
      ArrayFacts(t);
      OneDynamicLevel(t);
      ArrayFieldIff(t);
      AdmissibleUnfolds(t);
    }
  }

  lemma AdmissibleUnfolds(t: JethType)
    ensures Admissible(t) <==>
            var leaf, levels := Leaf(t), Levels(t);
            || IsSingleValue(leaf)
            || ((leaf.Bytes? || leaf.Str?) && FixedOutside(levels))
            || (leaf.Struct? && (AllOf(levels, true) || levels == [false]) && StructAdmissible(leaf))
  { }

  /** The struct predicates at a leaf. */
  lemma {:induction false} StructOkIff(t: JethType)
    requires t.Struct?
    ensures IsDynStructLeaf(t) <==> IsDynamicType(t) && StructAdmissible(t)
    ensures IsStaticType(t) <==> !IsDynamicType(t) && StructAdmissible(t)
    decreases t, 1
  {
    StaticIff(t);
    forall f | f in t.fields ensures IsDynStructLeafFieldOk(f.ty) <==> Admissible(f.ty) {
      FieldOkIff(f.ty);
    }
  }

  lemma ArrayFacts(t: JethType)
    requires t.Array?
    ensures IsValueLeafArray(t) <==> IsStaticValueType(Leaf(t))
    ensures IsDynBytesLeafArray(t) <==> AllOf(Levels(t), false) && IsBytesLike(Leaf(t))
    ensures IsDynBytesFixedLeafArray(t) <==> IsFixedArray(t) && FixedOutside(Levels(t)) && IsBytesLike(Leaf(t))
    ensures IsDynStructFixedLeafArray(t) <==> AllOf(Levels(t), true) && IsDynStructLeaf(Leaf(t))
    ensures IsStaticType(t) <==> AllOf(Levels(t), true) && IsStaticType(Leaf(t))
    ensures IsDynamicType(t) <==> !AllOf(Levels(t), true) || IsDynamicType(Leaf(t))
  {
    ValueLeafIff(t);
    DynBytesIff(t);
    DynBytesFixedIff(t);
    DynStructFixedIff(t);
    StaticArrayIff(t);
    DynamicIff(t);
  }

  lemma OneDynamicLevel(t: JethType)
    requires t.Array?
    ensures Levels(t) == [false] <==> t.length.None? && !t.element.Array?
    ensures !t.element.Array? ==> Leaf(t) == t.element
    ensures AllOf(Levels(t), true) ==> IsFixedArray(t)
    ensures AllOf(Levels(t), false) ==> FixedOutside(Levels(t))
    ensures t.length.None? && FixedOutside(Levels(t)) ==> AllOf(Levels(t), false)
  {
    LevelsStep(t);
  }

  /** The field predicate on arrays, with the source's predicates folded up. */
  lemma ArrayFieldIff(t: JethType)
    requires t.Array?
    ensures IsDynStructLeafFieldOk(t) <==>
            || (t.length.None? && IsStaticValueType(t.element))
            || (t.length.None? && !IsStaticValueType(t.element)
                && (IsDynBytesLeafArray(t) || (t.element.Array? && IsValueLeafArray(t))))
            || (IsFixedArray(t) && IsDynamicType(t)
                && (IsDynBytesFixedLeafArray(t) || (t.element.Array? && IsValueLeafArray(t))))
            || IsDynStructFixedLeafArray(t)
            || (t.length.None? && t.element.Struct? && (IsStaticType(t.element) || IsDynStructLeaf(t.element)))
            || (IsFixedArray(t) && IsStaticType(t))
  {
    hide IsDynStructLeaf, IsDynStructFixedLeafArray, IsValueLeafArray, IsDynBytesLeafArray, IsDynBytesFixedLeafArray;
    hide IsDynamicType, IsStaticType;
  }

  /** A function pointer anywhere in `t` (not looking into a pointer's own signature). */
  predicate HasFuncRef(t: JethType) {
    match t
    case Array(element, _) => HasFuncRef(element)
    case Struct(_, fields, _) => exists f | f in fields :: HasFuncRef(f.ty)
    case Mapping(key, value) => HasFuncRef(key) || HasFuncRef(value)
    case FuncRef(_, _, _) => true
    case _ => false
  }

  lemma {:induction false} FuncRefIsForeign(t: JethType)
    requires HasFuncRef(t)
    ensures Foreign(t)
  {
    match t
    case Array(element, _) => FuncRefIsForeign(element);
    case Struct(_, fields, _) =>
      var f :| f in fields && HasFuncRef(f.ty);
      FuncRefIsForeign(f.ty);
    case _ =>
  }

  const WORD := UInt(256, None, None)

  /** The struct with each function pointer field replaced by a word. */
  function WithWords(fields: seq<StructField>): seq<StructField> {
    if fields == [] then []
    else [if fields[0].ty.FuncRef? then fields[0].(ty := WORD) else fields[0]] + WithWords(fields[1..])
  }

  /** Looking at the direct fields is enough: a struct is the function-pointer twin of a dynamic-struct leaf
      exactly if it has a function pointer at any depth and would be one with a word for each direct one. */
  lemma FuncrefTwinExact(t: JethType)
    requires t.Struct?
    ensures IsFuncrefDynStructLeaf(t) <==> HasFuncRef(t) && IsDynStructLeaf(t.(fields := WithWords(t.fields)))
  {
    hide IsDynStructLeafFieldOk, HasFuncRef, IsDynamicType, WithWords;
    DynamicWithWords(t);
    FieldsWithWords(t.fields);
    HasFuncRefInField(t);
    forall f | f in t.fields && IsDynStructLeafFieldOk(f.ty) ensures !HasFuncRef(f.ty) {
      FieldOkHasNoFuncRef(f.ty);
    }
  }

  lemma HasFuncRefInField(t: JethType)
    requires t.Struct?
    ensures HasFuncRef(t) <==> exists f | f in t.fields :: HasFuncRef(f.ty)
    ensures forall f | f in t.fields :: f.ty.FuncRef? ==> HasFuncRef(f.ty)
  { }

  lemma FieldOkHasNoFuncRef(t: JethType)
    requires IsDynStructLeafFieldOk(t)
    ensures !HasFuncRef(t)
  {
    hide IsDynStructLeafFieldOk;
    FieldOkIsNotForeign(t);
    if HasFuncRef(t) {
      FuncRefIsForeign(t);
    }
  }

  lemma {:induction false} FieldsWithWords(fields: seq<StructField>)
    ensures (forall g | g in WithWords(fields) :: IsDynStructLeafFieldOk(g.ty)) <==>
            (forall f | f in fields :: f.ty.FuncRef? || IsDynStructLeafFieldOk(f.ty))
  {
    if fields != [] {
      FieldsWithWords(fields[1..]);
      WordsStep(fields);
      assert IsDynStructLeafFieldOk(WORD);
    }
  }

  lemma WordsStep(fields: seq<StructField>)
    requires fields != []
    ensures var head := if fields[0].ty.FuncRef? then fields[0].(ty := WORD) else fields[0];
            forall g :: g in WithWords(fields) <==> g == head || g in WithWords(fields[1..])
    ensures forall f :: f in fields <==> f == fields[0] || f in fields[1..]
  { }

  lemma DynamicWithWords(t: JethType)
    requires t.Struct?
    ensures IsDynamicType(t) <==> IsDynamicType(t.(fields := WithWords(t.fields)))
  {
    DynamicFields(t.fields);
  }

  lemma {:induction false} DynamicFields(fields: seq<StructField>)
    ensures (exists g | g in WithWords(fields) :: IsDynamicType(g.ty)) <==>
            (exists f | f in fields :: IsDynamicType(f.ty))
  {
    if fields != [] {
      DynamicFields(fields[1..]);
      WordsStep(fields);
      assert !IsDynamicType(WORD);
    }
  }

  // ---------------------------------------------------------------- flat function-pointer aggregates

  /** A recursive reference anywhere in `t`. */
  predicate HasRecursion(t: JethType) {
    match t
    case Array(element, _) => HasRecursion(element)
    case Struct(_, fields, recursiveRef) => recursiveRef || exists f | f in fields :: HasRecursion(f.ty)
    case _ => false
  }

  /** The resolver's rule: a recursive reference, at any depth, is a struct without fields. */
  predicate SentinelsEmpty(t: JethType) {
    match t
    case Array(element, _) => SentinelsEmpty(element)
    case Struct(_, fields, recursiveRef) =>
      (recursiveRef ==> fields == []) && forall f | f in fields :: SentinelsEmpty(f.ty)
    case _ => true
  }

  lemma {:induction false} RecursionIsForeign(t: JethType)
    requires SentinelsEmpty(t) && HasRecursion(t)
    ensures Foreign(t)
  {
    match t
    case Array(element, _) => RecursionIsForeign(element);
    case Struct(_, fields, recursiveRef) =>
      if !recursiveRef {
        var f :| f in fields && HasRecursion(f.ty);
        RecursionIsForeign(f.ty);
      }
    case _ =>
  }

  /** No field the codec admits holds a recursive reference. */
  lemma FieldOkHasNoRecursion(t: JethType)
    requires SentinelsEmpty(t) && IsDynStructLeafFieldOk(t)
    ensures !HasRecursion(t)
  {
    FieldOkIsNotForeign(t);
    if HasRecursion(t) {
      RecursionIsForeign(t);
    }
  }

  /** A flat aggregate fails to be static because of a function pointer or of a recursive reference. */
  lemma {:induction false} FlatNotStatic(t: JethType)
    requires IsValueWordAggregate(t)
    ensures !IsStaticType(t) <==> HasFuncRef(t) || HasRecursion(t)
  {
    match t
    case Array(element, _) => FlatNotStatic(element);
    case Struct(_, fields, _) =>
      forall f | f in fields ensures !IsStaticType(f.ty) <==> HasFuncRef(f.ty) || HasRecursion(f.ty) {
        FlatNotStatic(f.ty);
      }
    case _ =>
  }

  /** The source documents `isFuncrefValueAggregate` as true of exactly the flat aggregates that contain a
      function pointer. That is so if and only if the type is not a flat aggregate of words in which a
      recursive reference stands where no function pointer does. */
  lemma FuncrefAggregateIff(t: JethType)
    ensures (IsFuncrefValueAggregate(t) <==> IsValueWordAggregate(t) && HasFuncRef(t)) <==>
            !(IsValueWordAggregate(t) && HasRecursion(t) && !HasFuncRef(t))
  {
    if IsValueWordAggregate(t) {
      FlatNotStatic(t);
    }
  }

  /** The empty struct that stands for a recursive reference is such a type. */
  lemma SentinelIsNoFuncrefAggregate(name: string)
    ensures var sentinel := Struct(name, [], true);
            IsFuncrefValueAggregate(sentinel) && !HasFuncRef(sentinel)
  {
    var sentinel := Struct(name, [], true);
    FlatNotStatic(sentinel);
  }

  /** The aggregate with a word in place of every function pointer. */
  function AsWords(t: JethType): (r: JethType)
    ensures r.Struct? <==> t.Struct?
    ensures t.Struct? ==> |r.fields| == |t.fields|
    decreases t, 1
  {
    match t
    case FuncRef(_, _, _) => WORD
    case Array(element, length) => Array(AsWords(element), length)
    case Struct(name, fields, recursiveRef) => Struct(name, FieldsAsWords(fields), recursiveRef)
    case _ => t
  }

  function FieldsAsWords(fields: seq<StructField>): (r: seq<StructField>)
    ensures |r| == |fields|
    decreases fields, 0
  {
    if fields == [] then [] else [fields[0].(ty := AsWords(fields[0].ty))] + FieldsAsWords(fields[1..])
  }

  /** A flat aggregate is one that is static once its function pointers are read as words. */
  lemma {:induction false} FlatIffStaticAsWords(t: JethType)
    requires !HasRecursion(t)
    ensures IsValueWordAggregate(t) <==> IsStaticType(AsWords(t))
    decreases t, 1
  {
    match t
    case Array(element, _) => FlatIffStaticAsWords(element);
    case Struct(_, fields, _) => FieldsFlatIff(fields);
    case _ =>
  }

  lemma {:induction false} FieldsFlatIff(fields: seq<StructField>)
    requires forall f | f in fields :: !HasRecursion(f.ty)
    ensures (forall f | f in fields :: IsValueWordAggregate(f.ty)) <==>
            (forall g | g in FieldsAsWords(fields) :: IsStaticType(g.ty))
    decreases fields, 0
  {
    if fields != [] {
      FlatIffStaticAsWords(fields[0].ty);
      FieldsFlatIff(fields[1..]);
      FieldsAsWordsStep(fields);
    }
  }

  lemma FieldsAsWordsStep(fields: seq<StructField>)
    requires fields != []
    ensures forall g :: g in FieldsAsWords(fields) <==>
                        g == fields[0].(ty := AsWords(fields[0].ty)) || g in FieldsAsWords(fields[1..])
    ensures forall f :: f in fields <==> f == fields[0] || f in fields[1..]
  { }

  lemma {:induction false} FieldsAsWordsAt(fields: seq<StructField>, k: nat)
    requires k < |fields|
    ensures FieldsAsWords(fields)[k] == fields[k].(ty := AsWords(fields[k].ty))
  {
    if k > 0 {
      FieldsAsWordsAt(fields[1..], k - 1);
    }
  }

  /** Its image has the same words. */
  lemma {:induction false} SameHeadWords(t: JethType)
    ensures AbiHeadWords(AsWords(t)) == AbiHeadWords(t)
    decreases t, 1
  {
    match t
    case Array(element, _) => SameHeadWords(element);
    case Struct(_, fields, _) => SameFieldHeadWords(t, |fields|);
    case _ =>
  }

  lemma {:induction false} SameFieldHeadWords(t: JethType, k: nat)
    requires t.Struct? && k <= |t.fields|
    ensures FieldHeadWords(AsWords(t), k) == FieldHeadWords(t, k)
    decreases t, 0, k
  {
    if k > 0 {
      SameFieldHeadWords(t, k - 1);
      FieldsAsWordsAt(t.fields, k - 1);
      assert t.fields[k - 1] in t.fields;
      SameHeadWords(t.fields[k - 1].ty);
    }
  }
}
