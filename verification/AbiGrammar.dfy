/** A reader of the type grammar of the contract ABI specification (sections "Types" and "Function Selector and
    Argument Encoding"), written from the grammar. It inverts the printer of `Signatures`: every printed name
    is the one that the grammar gives the type. */
module AbiGrammar {
  import opened Wrappers
  import opened Decimals
  import opened JethTypes
  import opened Strings
  import opened Signatures

  // ---------------------------------------------------------------- the reader

  function WordLength(s: string): (n: nat)
    ensures n <= |s|
  {
    if s != "" && IsWordChar(s[0]) then 1 + WordLength(s[1..]) else 0
  }

  /** The number of a numeral, which has no leading zero. */
  function ReadNumber(s: string): Option<nat> {
    if s != "" && AllDigits(s) && (s[0] != '0' || |s| == 1) then Some(Value(s)) else None
  }

  /** An elementary type: `bool`, `address`, `string`, `bytes`, `uint<M>`, `int<M>` or `bytes<M>`. */
  function ReadScalar(w: string): Option<JethType> {
    if w == "bool" then Some(Bool(None))
    else if w == "address" then Some(Address(false, None))
    else if w == "string" then Some(Str)
    else if w == "bytes" then Some(Bytes)
    else if |w| >= 4 && w[..4] == "uint" then
      match ReadNumber(w[4..]) case Some(n) => Some(UInt(n, None, None)) case None => None
    else if |w| >= 3 && w[..3] == "int" then
      match ReadNumber(w[3..]) case Some(n) => Some(SInt(n, None)) case None => None
    else if |w| >= 5 && w[..5] == "bytes" then
      match ReadNumber(w[5..]) case Some(n) => Some(BytesN(n, None)) case None => None
    else None
  }

  /** Any number of `[]` and `[<M>]` behind a type, the innermost first. */
  function ReadDims(t: JethType, s: string): (r: (JethType, string))
    ensures |r.1| <= |s|
    decreases |s|
  {
    if s == "" || s[0] != '[' then (t, s)
    else
      var n := WordLength(s[1..]);
      if n + 1 == |s| || s[n + 1] != ']' then (t, s)
      else if n == 0 then ReadDims(Array(t, None), s[2..])
      else
        match ReadNumber(s[1..n + 1])
        case Some(length) => ReadDims(Array(t, Some(length)), s[n + 2..])
        case None => (t, s)
  }

  /** An elementary type or a tuple, with its dimensions, and what follows it. */
  function ReadType(s: string): (r: Option<(JethType, string)>)
    ensures r.Some? ==> |r.value.1| < |s|
    decreases |s|, 0
  {
    if s == "" then None
    else if s[0] == '(' then
      match ReadTuple(s[1..])
      case Some((fields, rest)) => Some(ReadDims(Struct("", fields, false), rest))
      case None => None
    else
      var n := WordLength(s);
      match ReadScalar(s[..n])
      case Some(t) => if n > 0 then Some(ReadDims(t, s[n..])) else None
      case None => None
  }

  /** The components of a tuple behind its opening parenthesis, and what follows the closing one. */
  function ReadTuple(s: string): (r: Option<(seq<StructField>, string)>)
    ensures r.Some? ==> |r.value.1| < |s|
    decreases |s|, 2
  {
    if s != "" && s[0] == ')' then Some(([], s[1..])) else ReadComponents(s)
  }

  function ReadComponents(s: string): (r: Option<(seq<StructField>, string)>)
    ensures r.Some? ==> |r.value.1| < |s|
    decreases |s|, 1
  {
    match ReadType(s)
    case None => None
    case Some((t, rest)) =>
      var field := StructField("", t, 0, 0);
      if rest == "" then None
      else if rest[0] == ')' then Some(([field], rest[1..]))
      else if rest[0] != ',' then None
      else
        match ReadComponents(rest[1..])
        case Some((fields, rest')) => Some(([field] + fields, rest'))
        case None => None
  }

  function NameLength(s: string): (n: nat)
    ensures n <= |s|
  {
    if s != "" && s[0] != '(' then 1 + NameLength(s[1..]) else 0
  }

  /** A signature: the function's name and its parameter types as the components of a tuple. */
  function ReadSignature(s: string): Option<(string, seq<StructField>)> {
    var n := NameLength(s);
    if n == |s| then None
    else
      match ReadTuple(s[n + 1..])
      case Some((fields, rest)) => if rest == "" then Some((s[..n], fields)) else None
      case None => None
  }

  // ---------------------------------------------------------------- it inverts the printer

  lemma {:induction false} WordLengthIs(w: string, r: string)
    requires IsWord(w) && EndsWord(r)
    ensures WordLength(w + r) == |w|
  {
    if w == "" {
      assert w + r == r;
    } else {
      assert w[0] in w && w + r == [w[0]] + (w[1..] + r);
      WordLengthIs(w[1..], r);
    }
  }

  lemma {:induction false} DecimalIsNumeral(n: nat)
    ensures |Decimal(n)| == 1 || Decimal(n)[0] != '0'
    ensures n > 0 ==> Decimal(n)[0] != '0'
  {
    if n >= 10 {
      DecimalIsNumeral(n / 10);
      assert Decimal(n)[0] == Decimal(n / 10)[0];
    }
  }

  lemma ReadsNumber(n: nat)
    ensures ReadNumber(Decimal(n)) == Some(n)
  {
    DecimalIsNumeral(n);
    ValueOfDecimal(n);
  }

  lemma ReadsScalar(t: JethType)
    requires IsScalar(t)
    ensures ReadScalar(CanonicalName(t)) == Some(Erase(t))
  {
    var s := CanonicalName(t);
    hide ReadNumber, Decimal;
    match t
    case UInt(m, _, _) =>
      assert s[..4] == "uint" && s[4..] == Decimal(m) && s[0] == 'u';
      ReadsNumber(m);
    case SInt(m, _) =>
      assert s[..3] == "int" && s[3..] == Decimal(m) && s[0] == 'i';
      ReadsNumber(m);
    case BytesN(m, _) =>
      assert s[..5] == "bytes" && s[5..] == Decimal(m) && s[0] == 'b' && s[1] == 'y' && |s| > 5;
      ReadsNumber(m);
    case _ =>
  }

  lemma {:induction false} ReadsDims(t: JethType, ds: seq<Option<nat>>, r: string)
    requires EndsType(r)
    ensures ReadDims(t, DimsText(ds) + r) == (WithDims(t, ds), r)
    decreases |ds|
  {
    DimsTextStarts(ds, r);
    if ds != [] {
      var rest := DimsText(ds[1..]) + r;
      ReadsDims(Array(t, ds[0]), ds[1..], r);
      ReadsDim(t, ds[0], rest);
    }
  }

  lemma ReadsDim(t: JethType, d: Option<nat>, rest: string)
    ensures ReadDims(t, DimText(d) + rest) == ReadDims(Array(t, d), rest)
  {
    var s, w := DimText(d) + rest, LengthText(d);
    DimTextShape(d, rest);
    HeadTail('[', w + ([']'] + rest));
    HeadTail(']', rest);
    WordLengthIs(w, [']'] + rest);
    assert s[1..] == w + ([']'] + rest);
    assert s[|w| + 1] == ']' && s[|w| + 2..] == rest && s[1..|w| + 1] == w;
    if d.Some? {
      ReadsNumber(d.value);
    }
  }

  /** A printed type is read back, up to erasure, whatever separator follows it. */
  lemma {:induction false} ReadsType(t: JethType, r: string)
    requires IsAbi(t) && EndsType(r)
    ensures ReadType(CanonicalName(t) + r) == Some((Erase(t), r))
    decreases t, 2
  {
    SplitDims(t);
    var rest := DimsText(Dims(t)) + r;
    Assoc(CanonicalName(Base(t)), DimsText(Dims(t)), r);
    DimsTextStarts(Dims(t), r);
    ReadsDims(Erase(Base(t)), Dims(t), r);
    ReadsBase(Base(t), rest);
  }

  lemma {:induction false} ReadsBase(b: JethType, rest: string)
    requires IsAbi(b) && !b.Array? && EndsWord(rest)
    ensures ReadType(CanonicalName(b) + rest) == Some(ReadDims(Erase(b), rest))
    decreases b, 1
  {
    hide ReadDims, ReadScalar;
    var s := CanonicalName(b) + rest;
    if b.Struct? {
      var fs := JoinFields(b.fields);
      assert s == ['('] + (fs + (")" + rest));
      HeadTail('(', fs + (")" + rest));
      ReadsTuple(b.fields, rest);
    } else {
      var w := CanonicalName(b);
      ScalarIsWord(b);
      ReadsScalar(b);
      WordLengthIs(w, rest);
      assert s[..|w|] == w && s[|w|..] == rest && s[0] == w[0];
    }
  }

  lemma {:induction false} ReadsTuple(fs: seq<StructField>, rest: string)
    requires forall f :: f in fs ==> IsAbi(f.ty)
    ensures ReadTuple(JoinFields(fs) + (")" + rest)) == Some((EraseFields(fs), rest))
    decreases fs, 1
  {
    hide ReadComponents;
    FirstChar(fs, rest);
    if fs == [] {
      assert JoinFields(fs) + (")" + rest) == ")" + rest;
      HeadTail(')', rest);
      assert ")" + rest == [')'] + rest;
    } else {
      ReadsComponents(fs, rest);
    }
  }

  lemma {:induction false} ReadsComponents(fs: seq<StructField>, rest: string)
    requires fs != [] && forall f :: f in fs ==> IsAbi(f.ty)
    ensures ReadComponents(JoinFields(fs) + (")" + rest)) == Some((EraseFields(fs), rest))
    decreases fs, 0
  {
    hide ReadType;
    var after := AfterFirst(fs, rest);
    JoinSplits(fs, rest);
    ReadsType(fs[0].ty, after);
    if |fs| == 1 {
      assert after == [')'] + rest && EraseFields(fs[1..]) == [];
      HeadTail(')', rest);
      var field := StructField("", Erase(fs[0].ty), 0, 0);
      assert EraseFields(fs) == [field] + [] == [field];
    } else {
      assert after == [','] + (JoinFields(fs[1..]) + (")" + rest));
      HeadTail(',', JoinFields(fs[1..]) + (")" + rest));
      ReadsComponents(fs[1..], rest);
    }
  }

  lemma {:induction false} NameLengthIs(f: string, r: string)
    requires '(' !in f
    ensures NameLength(f + (['('] + r)) == |f|
  {
    if f == "" {
      assert f + (['('] + r) == ['('] + r;
    } else {
      assert f[0] in f && f + (['('] + r) == [f[0]] + (f[1..] + (['('] + r));
      NameLengthIs(f[1..], r);
    }
  }

  /** A signature reads back to the function's name and its parameter types up to erasure. */
  lemma SignatureReadsBack(f: string, ts: seq<JethType>)
    requires '(' !in f && forall t :: t in ts ==> IsAbi(t)
    ensures ReadSignature(FunctionSignature(f, ts)) == Some((f, AsFields(EraseAll(ts))))
  {
    var s, rest := FunctionSignature(f, ts), JoinTypes(ts) + (")" + "");
    SignatureShape(f, ts);
    NameLengthIs(f, rest);
    assert s[..|f|] == f && s[|f| + 1..] == rest;
    AsFieldsJoin(ts);
    ReadsTuple(AsFields(ts), "");
  }
}
