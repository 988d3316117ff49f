/** The lines that diagnostics are reported on. They are the TypeScript parser's, which also ends a line at
    U+2028 and U+2029; the bundler counts only carriage returns and line feeds. */
module ParserLines {
  import opened LineMaps

  predicate IsSeparator(c: char) {
    c == '\U{2028}' || c == '\U{2029}'
  }

  function ParserBreak(s: string): (n: nat)
    ensures n <= |s|
  {
    if s != "" && IsSeparator(s[0]) then 1 else BreakLength(s)
  }

  /** The lines the parser sees. */
  function Split(s: string): (ls: seq<string>)
    ensures |ls| >= 1
    decreases |s|
  {
    if s == "" then [""]
    else if ParserBreak(s) > 0 then [""] + Split(s[ParserBreak(s)..])
    else AddToFirst(s[0], Split(s[1..]))
  }

  // ---------------------------------------------------------------- where lines end

  /** A line ends behind `i`. */
  predicate EndsLine(s: string, i: nat) {
    i < |s| && (s[i] == '\n' || IsSeparator(s[i]) || (s[i] == '\r' && !(i + 1 < |s| && s[i + 1] == '\n')))
  }

  function CountEnds(s: string): nat {
    if s == "" then 0 else (if EndsLine(s, 0) then 1 else 0) + CountEnds(s[1..])
  }

  lemma {:induction false} LinesCountEnds(s: string)
    ensures |Split(s)| == CountEnds(s) + 1
    decreases |s|
  {
    if s != "" {
      LinesCountEnds(s[1..]);
      if ParserBreak(s) == 2 {
        assert s[1..][0] == '\n' && s[1..][1..] == s[2..];
        LinesCountEnds(s[2..]);
      }
    }
  }

  ghost predicate EndsKept(a: string, b: string) {
    forall i: nat :: EndsLine(a, i) <==> EndsLine(b, i)
  }

  /** If `b` ends lines only where `a` does, it has as many lines only if it ends them at all those places. */
  lemma {:induction false} FewerEnds(a: string, b: string)
    requires |a| == |b| && forall i: nat :: EndsLine(b, i) ==> EndsLine(a, i)
    ensures CountEnds(b) <= CountEnds(a)
    ensures CountEnds(b) == CountEnds(a) <==> EndsKept(a, b)
  {
    if a != "" {
      EndsBehind(a);
      EndsBehind(b);
      FewerEnds(a[1..], b[1..]);
      if EndsKept(a[1..], b[1..]) && (EndsLine(a, 0) <==> EndsLine(b, 0)) {
        forall i: nat ensures EndsLine(a, i) <==> EndsLine(b, i) {
          assert i > 0 ==> (EndsLine(a[1..], i - 1) <==> EndsLine(b[1..], i - 1));
        }
      }
      if EndsKept(a, b) {
        forall i: nat ensures EndsLine(a[1..], i) <==> EndsLine(b[1..], i) {
          assert EndsLine(a, i + 1) <==> EndsLine(b, i + 1);
        }
      }
    }
  }

  lemma EndsBehind(s: string)
    requires s != ""
    ensures forall i: nat :: EndsLine(s[1..], i) <==> EndsLine(s, i + 1)
  { }

  // ---------------------------------------------------------------- parser lines and bundler lines

  predicate Plain(s: string) {
    forall c :: c in s ==> !IsSeparator(c)
  }

  function Separators(s: string): nat {
    if s == "" then 0 else (if IsSeparator(s[0]) then 1 else 0) + Separators(s[1..])
  }

  lemma {:induction false} PlainHasNone(s: string)
    ensures Separators(s) == 0 <==> Plain(s)
  {
    if s != "" {
      PlainHasNone(s[1..]);
      assert s == [s[0]] + s[1..];
    }
  }

  lemma {:induction false} SplitCounts(s: string)
    ensures |Split(s)| == |Lines(s)| + Separators(s)
    ensures Separators(s) == 0 ==> Split(s) == Lines(s)
    decreases |s|
  {
    if s != "" {
      SplitCounts(s[1..]);
      if ParserBreak(s) == 2 {
        assert s[1..][0] == '\n' && s[1..][1..] == s[2..];
        SplitCounts(s[2..]);
      } else if IsSeparator(s[0]) {
        assert |AddToFirst(s[0], Lines(s[1..]))| == |Lines(s[1..])|;
      }
    }
  }

  /** The parser and the bundler see the same lines if and only if the text holds no U+2028 or U+2029. */
  lemma LinesAgreeIff(s: string)
    ensures Split(s) == Lines(s) <==> Plain(s)
  {
    SplitCounts(s);
    PlainHasNone(s);
  }

  // ---------------------------------------------------------------- diagnostics of a bundle

  function SplitBefore(order: seq<SourceText>, i: nat): nat
    requires i <= |order|
  {
    if i == 0 then 0 else |Split(order[0].text)| + SplitBefore(order[1..], i - 1)
  }

  /** Line `line` that the parser sees in the bundle is line `k` that it sees in file `i`. */
  ghost predicate SeenAt(order: seq<SourceText>, line: int, i: nat, k: nat) {
    && i < |order| && k < |Split(order[i].text)|
    && line == 1 + SplitBefore(order, i) + k
    && 1 <= line <= |Split(Join(Texts(order)))|
    && Split(Join(Texts(order)))[line - 1] == Split(order[i].text)[k]
  }

  ghost predicate Returns(order: seq<SourceText>, segs: seq<BundleSegment>, d: Diagnostic) {
    exists i: nat, k: nat {:trigger SeenAt(order, d.line, i, k)} ::
      SeenAt(order, d.line, i, k) && Remapped(d, segs) == d.(file := order[i].file, line := k + 1)
  }

  ghost predicate AllReturn(order: seq<SourceText>, segs: seq<BundleSegment>) {
    forall d: Diagnostic :: 1 <= d.line <= |Split(Join(Texts(order)))| ==> Returns(order, segs, d)
  }

  ghost predicate AllPlain(order: seq<SourceText>) {
    forall i :: 0 <= i < |order| ==> Plain(order[i].text)
  }

  predicate AllTextsPlain(texts: seq<string>) {
    forall i :: 0 <= i < |texts| ==> Plain(texts[i])
  }

  lemma PlainPair(a: string, b: string)
    ensures Plain(a + b) <==> Plain(a) && Plain(b)
  {
    assert forall c :: c in a + b <==> c in a || c in b;
  }

  lemma {:induction false} JoinPlain(texts: seq<string>)
    ensures Plain(Join(texts)) <==> AllTextsPlain(texts)
  {
    if |texts| > 1 {
      JoinPlain(texts[1..]);
      PlainPair(['\n'], Join(texts[1..]));
      PlainPair(texts[0], ['\n'] + Join(texts[1..]));
      assert AllTextsPlain(texts) <==> Plain(texts[0]) && AllTextsPlain(texts[1..]) by {
        assert texts == [texts[0]] + texts[1..];
      }
    }
  }

  lemma {:induction false} TextAt(order: seq<SourceText>, i: nat)
    requires i < |order|
    ensures Texts(order)[i] == order[i].text
  {
    if i > 0 {
      TextAt(order[1..], i - 1);
    }
  }

  lemma BundlePlain(order: seq<SourceText>)
    ensures Plain(Join(Texts(order))) <==> AllPlain(order)
  {
    JoinPlain(Texts(order));
    forall i | 0 <= i < |order| ensures Texts(order)[i] == order[i].text {
      TextAt(order, i);
    }
  }

  lemma {:induction false} SplitBeforePlain(order: seq<SourceText>, i: nat)
    requires i <= |order| && AllPlain(order)
    ensures SplitBefore(order, i) == LinesBefore(order, i)
  {
    if i > 0 {
      LinesAgreeIff(order[0].text);
      SplitBeforePlain(order[1..], i - 1);
    }
  }

  /** A name that no file of the bundle has. */
  lemma {:induction false} FreshName(order: seq<SourceText>) returns (name: string)
    ensures forall i :: 0 <= i < |order| ==> |order[i].file| < |name|
  {
    if order == [] {
      name := "";
    } else {
      var n := FreshName(order[1..]);
      name := ['x'] + (order[0].file + n);
      forall i | 0 <= i < |order| ensures |order[i].file| < |name| {
        assert i > 0 ==> order[i] == order[1..][i - 1];
      }
    }
  }

  /** Every diagnostic of the bundle returns to the file and line it belongs to, as the parser numbers them,
      if and only if no file holds U+2028 or U+2029. */
  lemma AllReturnIff(order: seq<SourceText>, segs: seq<BundleSegment>)
    requires order != [] && Tiles(order, segs) && forall t :: t in Texts(order) ==> Normalized(t)
    ensures AllReturn(order, segs) <==> AllPlain(order)
  {
    BundlePlain(order);
    LinesAgreeIff(Join(Texts(order)));
    SplitCounts(Join(Texts(order)));
    PlainHasNone(Join(Texts(order)));
    if AllPlain(order) {
      forall d: Diagnostic | 1 <= d.line <= |Split(Join(Texts(order)))| ensures Returns(order, segs, d) {
        PlainReturns(order, segs, d);
      }
    } else {
      var name := FreshName(order);
      var d := Diagnostic(name, CountLines(Join(Texts(order))) + 1, 1, "");
      RemapInvertsBundle(order, segs, d);
      assert Remapped(d, segs) == d && !Returns(order, segs, d);
    }
  }

  lemma PlainReturns(order: seq<SourceText>, segs: seq<BundleSegment>, d: Diagnostic)
    requires order != [] && Tiles(order, segs) && forall t :: t in Texts(order) ==> Normalized(t)
    requires AllPlain(order) && 1 <= d.line <= |Split(Join(Texts(order)))|
    ensures Returns(order, segs, d)
  {
    BundlePlain(order);
    LinesAgreeIff(Join(Texts(order)));
    RemapInvertsBundle(order, segs, d);
    var i: nat, k: nat :| Origin(order, d.line, i, k) && Remapped(d, segs) == d.(file := order[i].file, line := k + 1);
    LinesAgreeIff(order[i].text);
    SplitBeforePlain(order, i);
    assert SeenAt(order, d.line, i, k);
  }
}
