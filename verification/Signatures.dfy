/** The ABI type printer `canonicalName` and the signatures built on it: two signatures agree exactly
    when the names and the erased parameter types do. */
module Signatures {
  import opened Wrappers
  import opened Decimals
  import opened JethTypes
  import opened Strings

  // ---------------------------------------------------------------- the printer

  function CanonicalName(t: JethType): string
    decreases t, 1
  {
    match t
    case UInt(bits, _, _) => "uint" + Decimal(bits)
    case SInt(bits, _) => "int" + Decimal(bits)
    case Bool(_) => "bool"
    case Address(_, _) => "address"
    case BytesN(size, _) => "bytes" + Decimal(size)
    case Bytes => "bytes"
    case Str => "string"
    case Array(element, length) => CanonicalName(element) + DimText(length)
    case Mapping(key, value) => "mapping(" + CanonicalName(key) + " => " + CanonicalName(value) + ")"
    case Struct(_, fields, _) => "(" + JoinFields(fields) + ")"
    case FuncRef(params, result, _) => "function(" + JoinTypes(params) + ")" + ResultText(result)
    case Void => "void"
  }

  function ResultText(result: FuncResult): string
    decreases result, 0
  {
    match result
    case NoResult => ""
    case OneResult(ty) => " returns(" + CanonicalName(ty) + ")"
    case ManyResults(tys) => " returns(" + JoinTypes(tys) + ")"
  }

  function DimText(length: Option<nat>): string {
    match length
    case Some(n) => "[" + Decimal(n) + "]"
    case None => "[]"
  }

  function JoinFields(fields: seq<StructField>): string
    decreases fields, 0
  {
    if fields == [] then ""
    else if |fields| == 1 then CanonicalName(fields[0].ty)
    else CanonicalName(fields[0].ty) + "," + JoinFields(fields[1..])
  }

  function JoinTypes(ts: seq<JethType>): string
    decreases ts, 0
  {
    if ts == [] then ""
    else if |ts| == 1 then CanonicalName(ts[0])
    else CanonicalName(ts[0]) + "," + JoinTypes(ts[1..])
  }

  function FunctionSignature(name: string, params: seq<JethType>): string {
    name + "(" + JoinTypes(params) + ")"
  }

  // ---------------------------------------------------------------- what a signature identifies

  /** The types that occur in ABI positions. */
  predicate IsAbi(t: JethType) {
    match t
    case Mapping(_, _) => false
    case FuncRef(_, _, _) => false
    case Void => false
    case Array(element, _) => IsAbi(element)
    case Struct(_, fields, recursiveRef) => !recursiveRef && forall f | f in fields :: IsAbi(f.ty)
    case _ => true
  }

  /** An ABI type without its brands, enum members, payability and struct and field names. */
  function Erase(t: JethType): JethType
    decreases t, 1
  {
    match t
    case UInt(bits, _, _) => UInt(bits, None, None)
    case SInt(bits, _) => SInt(bits, None)
    case Bool(_) => Bool(None)
    case Address(_, _) => Address(false, None)
    case BytesN(size, _) => BytesN(size, None)
    case Array(element, length) => Array(Erase(element), length)
    case Struct(_, fields, _) => Struct("", EraseFields(fields), false)
    case _ => t
  }

  function EraseFields(fields: seq<StructField>): seq<StructField>
    decreases fields, 0
  {
    if fields == [] then [] else [StructField("", Erase(fields[0].ty), 0, 0)] + EraseFields(fields[1..])
  }

  function EraseAll(ts: seq<JethType>): seq<JethType> {
    if ts == [] then [] else [Erase(ts[0])] + EraseAll(ts[1..])
  }

  // ---------------------------------------------------------------- scalar names

  /** `s` continues neither a word nor a run of dimensions. */
  predicate EndsType(s: string) {
    s == "" || s[0] == ',' || s[0] == ')'
  }

  predicate IsScalar(t: JethType) {
    IsAbi(t) && !t.Array? && !t.Struct?
  }

  lemma ScalarIsWord(t: JethType)
    requires IsScalar(t)
    ensures IsWord(CanonicalName(t)) && CanonicalName(t) != ""
    ensures CanonicalName(t)[0] in "uibas"
  { }

  /** Scalar names are pairwise different up to erasure. */
  lemma ScalarsUnique(t: JethType, u: JethType)
    requires IsScalar(t) && IsScalar(u) && CanonicalName(t) == CanonicalName(u)
    ensures Erase(t) == Erase(u)
  {
    var s := CanonicalName(t);
    match t
    case UInt(m, _, _) =>
      assert s[0] == 'u';
      assert u.UInt?;
      assert s[4..] == Decimal(m) == Decimal(u.bits);
      DecimalInjective(m, u.bits);
    case SInt(m, _) =>
      assert s[0] == 'i';
      assert u.SInt?;
      assert s[3..] == Decimal(m) == Decimal(u.bits);
      DecimalInjective(m, u.bits);
    case BytesN(m, _) =>
      assert s[0] == 'b' && s[1] == 'y' && |s| > 5;
      assert u.BytesN?;
      assert s[5..] == Decimal(m) == Decimal(u.size);
      DecimalInjective(m, u.size);
    case Bytes =>
      assert s[0] == 'b' && s[1] == 'y' && |s| == 5;
    case Bool(_) =>
      assert s[0] == 'b' && s[1] == 'o';
    case Address(_, _) =>
      assert s[0] == 'a';
    case Str =>
      assert s[0] == 's';
  }

  // ---------------------------------------------------------------- arrays as a base and dimensions

  function Base(t: JethType): (b: JethType)
    ensures !b.Array? && (b == t || b < t)
  {
    if t.Array? then Base(t.element) else t
  }

  /** The dimensions of an array type, innermost first. */
  function Dims(t: JethType): seq<Option<nat>> {
    if t.Array? then Dims(t.element) + [t.length] else []
  }

  function DimsText(ds: seq<Option<nat>>): string {
    if ds == [] then "" else DimText(ds[0]) + DimsText(ds[1..])
  }

  function WithDims(b: JethType, ds: seq<Option<nat>>): JethType
    decreases |ds|
  {
    if ds == [] then b else WithDims(Array(b, ds[0]), ds[1..])
  }

  lemma {:induction false} DimsTextSnoc(ds: seq<Option<nat>>, d: Option<nat>)
    ensures DimsText(ds + [d]) == DimsText(ds) + DimText(d)
  {
    if ds == [] {
      assert ds + [d] == [d];
    } else {
      assert ds + [d] == [ds[0]] + (ds[1..] + [d]);
      DimsTextSnoc(ds[1..], d);
    }
  }

  lemma {:induction false} WithDimsSnoc(b: JethType, ds: seq<Option<nat>>, d: Option<nat>)
    ensures WithDims(b, ds + [d]) == Array(WithDims(b, ds), d)
    decreases |ds|
  {
    if ds == [] {
      assert ds + [d] == [d];
    } else {
      assert ds + [d] == [ds[0]] + (ds[1..] + [d]);
      WithDimsSnoc(Array(b, ds[0]), ds[1..], d);
    }
  }

  lemma {:induction false} SplitDims(t: JethType)
    requires IsAbi(t)
    ensures IsAbi(Base(t))
    ensures CanonicalName(t) == CanonicalName(Base(t)) + DimsText(Dims(t))
    ensures Erase(t) == WithDims(Erase(Base(t)), Dims(t))
  {
    if t.Array? {
      SplitDims(t.element);
      DimsTextSnoc(Dims(t.element), t.length);
      WithDimsSnoc(Erase(Base(t)), Dims(t.element), t.length);
      assert CanonicalName(t) == CanonicalName(Base(t)) + DimsText(Dims(t.element)) + DimText(t.length);
    }
  }

  /** The text inside the brackets. */
  function LengthText(d: Option<nat>): (s: string)
    ensures IsWord(s)
  {
    match d
    case Some(n) => Decimal(n)
    case None => ""
  }

  lemma DimTextShape(d: Option<nat>, r: string)
    ensures DimText(d) + r == ['['] + (LengthText(d) + ([']'] + r))
  {
    if d.Some? {
      Assoc("[" + Decimal(d.value), "]", r);
      Assoc("[", Decimal(d.value), "]" + r);
    } else {
      assert DimText(d) == ['['] + [']'] && LengthText(d) + ([']'] + r) == [']'] + r;
    }
  }

  lemma DimSplits(d: Option<nat>, e: Option<nat>, r: string, q: string)
    requires DimText(d) + r == DimText(e) + q
    ensures d == e && r == q
  {
    DimTextShape(d, r);
    DimTextShape(e, q);
    Cancel('[', LengthText(d) + ([']'] + r), '[', LengthText(e) + ([']'] + q));
    WordsSplit(LengthText(d), LengthText(e), [']'] + r, [']'] + q);
    Cancel(']', r, ']', q);
    if d.Some? && e.Some? {
      DecimalInjective(d.value, e.value);
    }
  }

  lemma DimsTextStarts(ds: seq<Option<nat>>, r: string)
    ensures ds == [] ==> DimsText(ds) + r == r
    ensures ds != [] ==> DimsText(ds) + r == DimText(ds[0]) + (DimsText(ds[1..]) + r)
    ensures ds != [] ==> (DimsText(ds) + r)[0] == '['
  {
    if ds != [] {
      Assoc(DimText(ds[0]), DimsText(ds[1..]), r);
    }
  }

  lemma {:induction false} DimsSplit(ds: seq<Option<nat>>, es: seq<Option<nat>>, r: string, q: string)
    requires EndsType(r) && EndsType(q)
    requires DimsText(ds) + r == DimsText(es) + q
    ensures ds == es && r == q
  {
    DimsTextStarts(ds, r);
    DimsTextStarts(es, q);
    if ds != [] && es != [] {
      DimSplits(ds[0], es[0], DimsText(ds[1..]) + r, DimsText(es[1..]) + q);
      DimsSplit(ds[1..], es[1..], r, q);
    }
  }

  // ---------------------------------------------------------------- unique decoding

  /** A type's name, whatever separator follows it, determines the erased type and what follows. */
  lemma {:induction false} TypesSplit(t: JethType, u: JethType, r: string, q: string)
    requires IsAbi(t) && IsAbi(u) && EndsType(r) && EndsType(q)
    requires CanonicalName(t) + r == CanonicalName(u) + q
    ensures Erase(t) == Erase(u) && r == q
    decreases t, 2
  {
    SplitDims(t);
    SplitDims(u);
    var r', q' := DimsText(Dims(t)) + r, DimsText(Dims(u)) + q;
    Assoc(CanonicalName(Base(t)), DimsText(Dims(t)), r);
    Assoc(CanonicalName(Base(u)), DimsText(Dims(u)), q);
    DimsTextStarts(Dims(t), r);
    DimsTextStarts(Dims(u), q);
    BasesSplit(Base(t), Base(u), r', q');
    DimsSplit(Dims(t), Dims(u), r, q);
  }

  lemma {:induction false} BasesSplit(b: JethType, c: JethType, r: string, q: string)
    requires IsAbi(b) && IsAbi(c) && !b.Array? && !c.Array? && EndsWord(r) && EndsWord(q)
    requires CanonicalName(b) + r == CanonicalName(c) + q
    ensures Erase(b) == Erase(c) && r == q
    decreases b, 1
  {
    assert CanonicalName(b)[0] == CanonicalName(c)[0] by {
      NameNonEmpty(b);
      NameNonEmpty(c);
      assert (CanonicalName(b) + r)[0] == CanonicalName(b)[0];
      assert (CanonicalName(c) + q)[0] == CanonicalName(c)[0];
    }
    NameNonEmpty(b);
    NameNonEmpty(c);
    if b.Struct? {
      var fs, gs := JoinFields(b.fields), JoinFields(c.fields);
      assert CanonicalName(b) + r == "(" + (fs + (")" + r));
      assert CanonicalName(c) + q == "(" + (gs + (")" + q));
      assert (CanonicalName(b) + r)[1..] == fs + (")" + r);
      assert (CanonicalName(c) + q)[1..] == gs + (")" + q);
      FieldsSplit(b.fields, c.fields, r, q);
    } else {
      ScalarIsWord(b);
      ScalarIsWord(c);
      WordsSplit(CanonicalName(b), CanonicalName(c), r, q);
      ScalarsUnique(b, c);
    }
  }

  /** An ABI name starts with a letter or, for a tuple, with a parenthesis. */
  lemma {:induction false} NameNonEmpty(t: JethType)
    requires IsAbi(t)
    ensures CanonicalName(t) != ""
    ensures CanonicalName(t)[0] in "uibas("
    ensures !t.Array? ==> (CanonicalName(t)[0] == '(' <==> t.Struct?)
  {
    if t.Array? {
      NameNonEmpty(t.element);
    } else if !t.Struct? {
      ScalarIsWord(t);
    }
  }

  /** What follows the first field of a non-empty list. */
  function AfterFirst(fs: seq<StructField>, r: string): string
    requires fs != []
  {
    if |fs| == 1 then ")" + r else "," + (JoinFields(fs[1..]) + (")" + r))
  }

  lemma JoinSplits(fs: seq<StructField>, r: string)
    requires fs != []
    ensures JoinFields(fs) + (")" + r) == CanonicalName(fs[0].ty) + AfterFirst(fs, r)
  { }

  lemma {:induction false} FieldsSplit(fs: seq<StructField>, gs: seq<StructField>, r: string, q: string)
    requires (forall f :: f in fs ==> IsAbi(f.ty)) && (forall g :: g in gs ==> IsAbi(g.ty))
    requires JoinFields(fs) + (")" + r) == JoinFields(gs) + (")" + q)
    ensures EraseFields(fs) == EraseFields(gs) && r == q
    decreases fs, 0
  {
    var s := JoinFields(fs) + (")" + r);
    FirstChar(fs, r);
    FirstChar(gs, q);
    if fs == [] || gs == [] {
      assert s == ")" + r && s == ")" + q;
      assert (")" + r)[1..] == r && (")" + q)[1..] == q;
    } else {
      JoinSplits(fs, r);
      JoinSplits(gs, q);
      TypesSplit(fs[0].ty, gs[0].ty, AfterFirst(fs, r), AfterFirst(gs, q));
      assert AfterFirst(fs, r)[1..] == if |fs| == 1 then r else JoinFields(fs[1..]) + (")" + r);
      assert AfterFirst(gs, q)[1..] == if |gs| == 1 then q else JoinFields(gs[1..]) + (")" + q);
      assert |fs| == 1 <==> AfterFirst(fs, r)[0] == ')';
      assert |gs| == 1 <==> AfterFirst(gs, q)[0] == ')';
      if |fs| > 1 {
        FieldsSplit(fs[1..], gs[1..], r, q);
      }
    }
  }

  /** A closing parenthesis comes first exactly when there are no fields. */
  lemma FirstChar(fs: seq<StructField>, r: string)
    requires forall f :: f in fs ==> IsAbi(f.ty)
    ensures (JoinFields(fs) + (")" + r))[0] == ')' <==> fs == []
  {
    if fs != [] {
      NameNonEmpty(fs[0].ty);
      JoinSplits(fs, r);
    }
  }

  // ---------------------------------------------------------------- signatures

  /** A parameter list as the fields of a tuple. */
  function AsFields(ts: seq<JethType>): seq<StructField> {
    if ts == [] then [] else [StructField("", ts[0], 0, 0)] + AsFields(ts[1..])
  }

  lemma {:induction false} AsFieldsJoin(ts: seq<JethType>)
    requires forall t :: t in ts ==> IsAbi(t)
    ensures JoinFields(AsFields(ts)) == JoinTypes(ts)
    ensures EraseFields(AsFields(ts)) == AsFields(EraseAll(ts))
    ensures forall f :: f in AsFields(ts) ==> IsAbi(f.ty)
  {
    if ts != [] {
      AsFieldsJoin(ts[1..]);
    }
  }

  lemma {:induction false} AsFieldsInjective(ts: seq<JethType>, us: seq<JethType>)
    requires AsFields(ts) == AsFields(us)
    ensures ts == us
  {
    if ts != [] && us != [] {
      assert AsFields(ts)[0].ty == ts[0] && AsFields(us)[0].ty == us[0];
      assert AsFields(ts)[1..] == AsFields(ts[1..]) && AsFields(us)[1..] == AsFields(us[1..]);
      AsFieldsInjective(ts[1..], us[1..]);
    }
  }

  /** Erasing changes no canonical name. */
  lemma {:induction false} ErasedName(t: JethType)
    ensures CanonicalName(Erase(t)) == CanonicalName(t)
    decreases t, 1
  {
    if t.Array? {
      ErasedName(t.element);
    } else if t.Struct? {
      ErasedJoin(t.fields);
    }
  }

  lemma {:induction false} ErasedJoin(fs: seq<StructField>)
    ensures |EraseFields(fs)| == |fs| && JoinFields(EraseFields(fs)) == JoinFields(fs)
    decreases fs, 0
  {
    if fs != [] {
      ErasedName(fs[0].ty);
      ErasedJoin(fs[1..]);
      assert EraseFields(fs)[1..] == EraseFields(fs[1..]);
    }
  }

  lemma {:induction false} ErasedTypesJoin(ts: seq<JethType>)
    ensures |EraseAll(ts)| == |ts| && JoinTypes(EraseAll(ts)) == JoinTypes(ts)
  {
    if ts != [] {
      ErasedName(ts[0]);
      ErasedTypesJoin(ts[1..]);
      assert EraseAll(ts)[1..] == EraseAll(ts[1..]);
    }
  }

  /** The name ends at the first parenthesis. */
  lemma {:induction false} NamesSplit(a: string, b: string, r: string, q: string)
    requires '(' !in a && '(' !in b && a + (['('] + r) == b + (['('] + q)
    ensures a == b && r == q
  {
    assert a == "" ==> a + (['('] + r) == ['('] + r;
    assert b == "" ==> b + (['('] + q) == ['('] + q;
    assert a != "" ==> (a + (['('] + r))[0] == a[0] && a[0] in a;
    assert b != "" ==> (b + (['('] + q))[0] == b[0] && b[0] in b;
    if a == "" {
      Cancel('(', r, '(', q);
    } else {
      assert a + (['('] + r) == [a[0]] + (a[1..] + (['('] + r));
      assert b + (['('] + q) == [b[0]] + (b[1..] + (['('] + q));
      Cancel(a[0], a[1..] + (['('] + r), b[0], b[1..] + (['('] + q));
      NamesSplit(a[1..], b[1..], r, q);
    }
  }

  lemma SignatureShape(f: string, ts: seq<JethType>)
    ensures FunctionSignature(f, ts) == f + (['('] + (JoinTypes(ts) + (")" + "")))
  {
    var join := JoinTypes(ts);
    assert ")" + "" == ")";
    Assoc(f + "(", join, ")");
    Assoc(f, "(", join + ")");
  }

  /** Signatures are uniquely decodable: they are equal exactly when the function names are and the
      parameter lists agree up to what erasure forgets. */
  lemma SignaturesDecode(f: string, ts: seq<JethType>, g: string, us: seq<JethType>)
    requires '(' !in f && '(' !in g
    requires (forall t :: t in ts ==> IsAbi(t)) && (forall u :: u in us ==> IsAbi(u))
    ensures FunctionSignature(f, ts) == FunctionSignature(g, us) <==> f == g && EraseAll(ts) == EraseAll(us)
  {
    if FunctionSignature(f, ts) == FunctionSignature(g, us) {
      SignatureShape(f, ts);
      SignatureShape(g, us);
      NamesSplit(f, g, JoinTypes(ts) + (")" + ""), JoinTypes(us) + (")" + ""));
      AsFieldsJoin(ts);
      AsFieldsJoin(us);
      FieldsSplit(AsFields(ts), AsFields(us), "", "");
      AsFieldsInjective(EraseAll(ts), EraseAll(us));
    }
    if f == g && EraseAll(ts) == EraseAll(us) {
      ErasedTypesJoin(ts);
      ErasedTypesJoin(us);
    }
  }
}
