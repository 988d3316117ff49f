/** The type system of `src/types.ts` and its storage geometry.

    Widths, sizes and lengths are natural numbers; `Sized` collects what the type resolver
    guarantees of them (bit widths are multiples of 8 in 8..256, `bytesN` sizes lie in 1..32 and
    fixed arrays have at least one element), under which every division is exact or a floor. */
module JethTypes {
  import opened Wrappers

  datatype JethType =
    | UInt(bits: nat, brand: Option<string>, enumMembers: Option<seq<string>>)
    | SInt(bits: nat, brand: Option<string>)
    | Bool(brand: Option<string>)
    | Address(payable: bool, brand: Option<string>)
    | BytesN(size: nat, brand: Option<string>)
    | Bytes
    | Str
    | Mapping(key: JethType, value: JethType)
    | Array(element: JethType, length: Option<nat>)
    | Struct(name: string, fields: seq<StructField>, recursiveRef: bool)
    | FuncRef(params: seq<JethType>, result: FuncResult, brand: Option<string>)
    | Void

  /** What a function pointer returns: nothing, one value, or the multi-value form. */
  datatype FuncResult = NoResult | OneResult(ty: JethType) | ManyResults(tys: seq<JethType>)

  datatype StructField = StructField(name: string, ty: JethType, slot: nat, offset: nat)

  predicate IsFixedArray(t: JethType) {
    t.Array? && t.length.Some?
  }

  predicate Sized(t: JethType) {
    match t
    case UInt(bits, _, _) => 8 <= bits <= 256 && bits % 8 == 0
    case SInt(bits, _) => 8 <= bits <= 256 && bits % 8 == 0
    case BytesN(size, _) => 1 <= size <= 32
    case Array(element, length) => Sized(element) && (length.Some? ==> length.value > 0)
    case Struct(_, fields, _) => forall f | f in fields :: Sized(f.ty)
    case _ => true
  }

  function StorageSlotCount(t: JethType): (n: nat)
    requires Sized(t)
    ensures n >= 1
    decreases t, 0
  {
    match t
    case Struct(_, fields, _) =>
      if fields == [] then 1
      else fields[|fields| - 1].slot + StorageSlotCount(fields[|fields| - 1].ty)
    case Array(element, Some(length)) =>
      var elemBytes := StorageByteSize(element);
      if elemBytes < 32 && !element.Struct? && !element.Array? then
        CeilDivPositive(length, 32 / elemBytes);
        CeilDiv(length, 32 / elemBytes)
      else
        MulPositive(length, StorageSlotCount(element));
        length * StorageSlotCount(element)
    case _ => 1
  }

  function StorageByteSize(t: JethType): (n: nat)
    requires Sized(t)
    ensures n >= 1
    ensures !t.Struct? && !IsFixedArray(t) ==> n <= 32
    decreases t, 1
  {
    match t
    case UInt(bits, _, _) => bits / 8
    case SInt(bits, _) => bits / 8
    case Bool(_) => 1
    case Address(_, _) => 20
    case BytesN(size, _) => size
    case Struct(_, _, _) => StorageSlotCount(t) * 32
    case Array(_, length) => if length.None? then 32 else StorageSlotCount(t) * 32
    case FuncRef(_, _, _) => 8
    case _ => 32
  }

  function CeilDiv(n: nat, d: nat): nat
    requires d > 0
  {
    (n + d - 1) / d
  }

  lemma CeilDivPositive(n: nat, d: nat)
    requires n > 0 && 0 < d
    ensures CeilDiv(n, d) >= 1
  {
    DivBounds(n + d - 1, d);
  }

  lemma MulPositive(a: nat, b: nat)
    requires a >= 1 && b >= 1
    ensures a * b >= 1
  { }

  /** The quotient and remainder are the only pair with these bounds. */
  lemma DivBounds(n: nat, d: nat)
    requires d > 0
    ensures d * (n / d) <= n < d * (n / d) + d
    ensures n >= d ==> n / d >= 1
  { }

  lemma DivUnique(n: nat, d: nat, q: nat, r: nat)
    requires n == d * q + r && r < d
    ensures n / d == q && n % d == r
  {
    var k := n / d;
    assert k < q ==> d * (k + 1) <= d * q;
    assert k > q ==> d * (q + 1) <= d * k;
  }

  lemma DivStep(j: nat, p: nat)
    requires p > 0
    ensures if j % p + 1 < p then (j + 1) / p == j / p && (j + 1) % p == j % p + 1
            else (j + 1) / p == j / p + 1 && (j + 1) % p == 0
  {
    if j % p + 1 < p {
      DivUnique(j + 1, p, j / p, j % p + 1);
    } else {
      DivUnique(j + 1, p, j / p + 1, 0);
    }
  }

  lemma CeilOfPred(n: nat, p: nat)
    requires p > 0 && n > 0
    ensures CeilDiv(n, p) == (n - 1) / p + 1
  {
    DivUnique(n + p - 1, p, (n - 1) / p + 1, (n - 1) % p);
  }

  datatype ElemPacking = ElemPacking(perSlot: nat, size: nat, packed: bool)

  function ArrayElemPacks(t: JethType): (packs: ElemPacking)
    requires Sized(t)
    ensures 1 <= packs.perSlot && 1 <= packs.size && packs.perSlot * packs.size <= 32
  {
    var size := StorageByteSize(t);
    DivBounds(32, size);
    var packable :=
      || t.Bool?
      || (t.UInt? && t.bits < 256)
      || (t.SInt? && t.bits < 256)
      || (t.BytesN? && t.size < 32)
      || t.FuncRef?;
    if packable then ElemPacking(32 / size, size, true) else ElemPacking(1, 32, false)
  }

  /** Words a static type takes in the ABI head. */
  function AbiHeadWords(t: JethType): nat
    decreases t, 0
  {
    match t
    case Struct(_, fields, _) => FieldHeadWords(t, |fields|)
    case Array(element, Some(length)) => length * AbiHeadWords(element)
    case _ => 1
  }

  /** The head words of a struct's first `k` fields. */
  function FieldHeadWords(t: JethType, k: nat): nat
    requires t.Struct? && k <= |t.fields|
    decreases t, 0, k
  {
    if k == 0 then 0 else FieldHeadWords(t, k - 1) + AbiHeadWords(t.fields[k - 1].ty)
  }
}
