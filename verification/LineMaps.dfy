/** How the bundler keeps line numbers: end-of-line normalization, blanking of import statements, the
    concatenation of the files with its segment table, and the way back for diagnostics. */
module LineMaps {
  predicate IsBreak(c: char) {
    c == '\n' || c == '\r'
  }

  /** Length of the line break at the start of `s`: `\r\n` counts as one. */
  function BreakLength(s: string): (n: nat)
    ensures n <= |s|
  {
    if s == "" || !IsBreak(s[0]) then 0
    else if s[0] == '\r' && |s| > 1 && s[1] == '\n' then 2
    else 1
  }

  /** `s.split(/\r\n|\r|\n/)` */
  function Lines(s: string): (ls: seq<string>)
    ensures |ls| >= 1
    decreases |s|
  {
    if s == "" then [""]
    else if BreakLength(s) > 0 then [""] + Lines(s[BreakLength(s)..])
    else AddToFirst(s[0], Lines(s[1..]))
  }

  function AddToFirst(c: char, ls: seq<string>): seq<string>
    requires |ls| >= 1
  {
    [[c] + ls[0]] + ls[1..]
  }

  function CountLines(s: string): nat {
    |Lines(s)|
  }

  predicate Normalized(s: string) {
    '\r' !in s
  }

  // ---------------------------------------------------------------- end-of-line normalization

  /** `s.replace(/\r\n?/g, '\n')` */
  function NormalizeEol(s: string): string
    decreases |s|
  {
    if s == "" then ""
    else if s[0] == '\r' then "\n" + NormalizeEol(s[BreakLength(s)..])
    else [s[0]] + NormalizeEol(s[1..])
  }

  /** Normalizing leaves no carriage return and changes no line. */
  lemma {:induction false} NormalizeKeepsLines(s: string)
    ensures Normalized(NormalizeEol(s)) && Lines(NormalizeEol(s)) == Lines(s)
    decreases |s|
  {
    if s != "" {
      var r := NormalizeEol(s);
      var rest := if s[0] == '\r' then s[BreakLength(s)..] else s[1..];
      NormalizeKeepsLines(rest);
      assert r[1..] == NormalizeEol(rest);
      assert r == [r[0]] + r[1..];
    }
  }

  // ---------------------------------------------------------------- blanking

  /** `r` is `text` with the characters in [start, end) that are no line breaks replaced by spaces. */
  ghost predicate Blanked(text: string, start: nat, end: nat, r: string) {
    && |r| == |text|
    && forall i :: 0 <= i < |text| ==>
         r[i] == if start <= i < end && text[i] != '\n' && text[i] != '\r' then ' ' else text[i]
  }

  method BlankSpan(text: string, start: nat, end: nat) returns (r: string)
    requires start <= end <= |text|
    ensures Blanked(text, start, end, r)
  {
    var mid := "";
    for i := start to end
      invariant |mid| == i - start
      invariant forall k :: 0 <= k < |mid| ==>
                  mid[k] == if text[start + k] != '\n' && text[start + k] != '\r' then ' ' else text[start + k]
    {
      var ch := text[i];
      mid := mid + if ch == '\n' || ch == '\r' then [ch] else " ";
    }
    r := text[..start] + mid + text[end..];
  }

  /** The two texts have the same layout: equal lengths, and breaks at the same places. */
  ghost predicate SameLayout(a: string, b: string) {
    |a| == |b| && forall i :: 0 <= i < |a| && (IsBreak(a[i]) || IsBreak(b[i])) ==> a[i] == b[i]
  }

  lemma BlankedKeepsLayout(text: string, start: nat, end: nat, r: string)
    requires Blanked(text, start, end, r)
    ensures SameLayout(text, r)
  { }

  /** Texts of the same layout have the same number of lines, and line by line the same length. */
  lemma {:induction false} LayoutKeepsLines(a: string, b: string)
    requires SameLayout(a, b)
    ensures |Lines(a)| == |Lines(b)| && forall k :: 0 <= k < |Lines(a)| ==> |Lines(a)[k]| == |Lines(b)[k]|
    decreases |a|
  {
    if a != "" {
      assert BreakLength(a) == BreakLength(b);
      var n := if BreakLength(a) > 0 then BreakLength(a) else 1;
      LayoutKeepsLines(a[n..], b[n..]);
    }
  }

  /** From original to bundle: normalizing a text and then blanking spans of it, any number of times, keeps
      every line's number and length, and leaves a text that can be joined safely. */
  lemma BundledKeepsLines(original: string, text: string)
    requires Edited(NormalizeEol(original), text)
    ensures Normalized(text) && |Lines(text)| == |Lines(original)|
    ensures forall k :: 0 <= k < |Lines(text)| ==> |Lines(text)[k]| == |Lines(original)[k]|
  {
    NormalizeKeepsLines(original);
    var edits :| EditsTo(NormalizeEol(original), edits, text);
    EditsKeepLayout(NormalizeEol(original), edits, text);
    LayoutKeepsLines(NormalizeEol(original), text);
  }

  /** `edits` lists the texts after each call of `blankSpan`, ending with `r`. */
  ghost predicate EditsTo(text: string, edits: seq<string>, r: string)
    decreases |edits|
  {
    if edits == [] then r == text
    else (exists start, end :: Blanked(text, start, end, edits[0])) && EditsTo(edits[0], edits[1..], r)
  }

  ghost predicate Edited(text: string, r: string) {
    exists edits :: EditsTo(text, edits, r)
  }

  lemma {:induction false} EditsKeepLayout(text: string, edits: seq<string>, r: string)
    requires EditsTo(text, edits, r)
    ensures SameLayout(text, r)
    decreases |edits|
  {
    if edits != [] {
      var start, end :| Blanked(text, start, end, edits[0]);
      BlankedKeepsLayout(text, start, end, edits[0]);
      EditsKeepLayout(edits[0], edits[1..], r);
    }
  }

  // ---------------------------------------------------------------- joining

  function Join(texts: seq<string>): string {
    if texts == [] then ""
    else if |texts| == 1 then texts[0]
    else texts[0] + (['\n'] + Join(texts[1..]))
  }

  function AllLines(texts: seq<string>): seq<string> {
    if texts == [] then [] else Lines(texts[0]) + AllLines(texts[1..])
  }

  /** Two texts put below each other: the first one's lines, then the second one's. */
  lemma {:induction false} LinesConcat(a: string, b: string)
    requires Normalized(a)
    ensures Lines(a + (['\n'] + b)) == Lines(a) + Lines(b)
    decreases |a|
  {
    var s := a + (['\n'] + b);
    if a == "" {
      assert s == ['\n'] + b;
      assert s[1..] == b;
    } else {
      assert s == [a[0]] + (a[1..] + (['\n'] + b));
      assert s[1..] == a[1..] + (['\n'] + b);
      assert a[0] in a && a[0] != '\r';
      LinesConcat(a[1..], b);
    }
  }

  lemma {:induction false} LinesOfJoin(texts: seq<string>)
    requires texts != [] && forall t :: t in texts ==> Normalized(t)
    ensures Lines(Join(texts)) == AllLines(texts)
  {
    if |texts| == 1 {
      assert AllLines(texts[1..]) == [];
    } else {
      LinesOfJoin(texts[1..]);
      LinesConcat(texts[0], Join(texts[1..]));
    }
  }

  lemma JoinAdds(c: char, ls: seq<string>)
    requires ls != []
    ensures Join(AddToFirst(c, ls)) == [c] + Join(ls)
  {
    var more := AddToFirst(c, ls);
    assert more[1..] == ls[1..];
    if |ls| > 1 {
      assert ([c] + ls[0]) + (['\n'] + Join(ls[1..])) == [c] + (ls[0] + (['\n'] + Join(ls[1..])));
    }
  }

  /** The lines of a normalized text are what stands between its line feeds. */
  lemma {:induction false} LinesJoin(s: string)
    requires Normalized(s)
    ensures Join(Lines(s)) == s && forall l :: l in Lines(s) ==> '\n' !in l && '\r' !in l
    decreases |s|
  {
    if s != "" {
      var ls := Lines(s[1..]);
      LinesJoin(s[1..]);
      assert s == [s[0]] + s[1..] && s[0] in s;
      if s[0] == '\n' {
        assert Lines(s)[1..] == ls && "" + (['\n'] + Join(ls)) == s;
      } else {
        JoinAdds(s[0], ls);
        forall l | l in Lines(s) ensures '\n' !in l && '\r' !in l {
          assert l == [s[0]] + ls[0] || l in ls[1..];
          assert ls[0] in ls;
        }
      }
    }
  }

  // ---------------------------------------------------------------- segments

  datatype SourceText = SourceText(file: string, text: string)
  datatype BundleSegment = BundleSegment(file: string, startLine: nat, lineCount: nat)

  function Texts(order: seq<SourceText>): (ts: seq<string>)
    ensures |ts| == |order|
  {
    if order == [] then [] else [order[0].text] + Texts(order[1..])
  }

  /** Lines of the bundle above file `i`. */
  function LinesBefore(order: seq<SourceText>, i: nat): nat
    requires i <= |order|
  {
    if i == 0 then 0 else CountLines(order[0].text) + LinesBefore(order[1..], i - 1)
  }

  lemma {:induction false} LinesBeforeNext(order: seq<SourceText>, i: nat)
    requires i < |order|
    ensures LinesBefore(order, i + 1) == LinesBefore(order, i) + CountLines(order[i].text)
  {
    if i > 0 {
      LinesBeforeNext(order[1..], i - 1);
    }
  }

  ghost predicate SegmentOk(order: seq<SourceText>, segs: seq<BundleSegment>, i: nat) {
    i < |order| == |segs| ==>
      segs[i] == BundleSegment(order[i].file, 1 + LinesBefore(order, i), CountLines(order[i].text))
  }

  /** The segments tile the bundle's lines: each starts where its predecessor ends. */
  ghost predicate Tiles(order: seq<SourceText>, segs: seq<BundleSegment>) {
    |segs| == |order| && forall i :: SegmentOk(order, segs, i)
  }

  method EmitBundle(order: seq<SourceText>) returns (text: string, segments: seq<BundleSegment>)
    ensures text == Join(Texts(order))
    ensures Tiles(order, segments)
  {
    segments := [];
    var line: nat := 1;
    var parts: seq<string> := [];
    for i := 0 to |order|
      invariant |segments| == i && line == 1 + LinesBefore(order, i)
      invariant forall k :: 0 <= k < i ==>
                  segments[k] == BundleSegment(order[k].file, 1 + LinesBefore(order, k), CountLines(order[k].text))
      invariant parts + Texts(order[i..]) == Texts(order)
    {
      var SourceText(file, t) := order[i];
      var lines := CountLines(t);
      LinesBeforeNext(order, i);
      segments := segments + [BundleSegment(file, line, lines)];
      parts := parts + [t];
      line := line + lines;
    }
    text := Join(parts);
    assert parts + [] == parts;
  }

  lemma AllLinesStep(order: seq<SourceText>)
    requires order != []
    ensures AllLines(Texts(order)) == Lines(order[0].text) + AllLines(Texts(order[1..]))
  {
    assert Texts(order)[1..] == Texts(order[1..]);
  }

  /** Line `startLine + k` of the bundle is line `k` of the file's own text. */
  lemma {:induction false} BundleLine(order: seq<SourceText>, i: nat, k: nat)
    requires i < |order| && k < CountLines(order[i].text)
    ensures LinesBefore(order, i) + k < |AllLines(Texts(order))|
    ensures AllLines(Texts(order))[LinesBefore(order, i) + k] == Lines(order[i].text)[k]
  {
    hide Lines, AllLines, Texts;
    AllLinesStep(order);
    if i > 0 {
      BundleLine(order[1..], i - 1, k);
    }
  }

  lemma NoLines()
    ensures AllLines(Texts([])) == []
  { }

  /** Every line of the bundle belongs to some file. */
  lemma {:induction false} LineBelongs(order: seq<SourceText>, n: nat) returns (i: nat, k: nat)
    requires n < |AllLines(Texts(order))|
    ensures i < |order| && k < CountLines(order[i].text) && n == LinesBefore(order, i) + k
  {
    NoLines();
    hide Lines, AllLines, Texts;
    AllLinesStep(order);
    if n < CountLines(order[0].text) {
      i, k := 0, n;
    } else {
      i, k := LineBelongs(order[1..], n - CountLines(order[0].text));
      i := i + 1;
    }
  }

  // ---------------------------------------------------------------- the way back

  datatype Diagnostic = Diagnostic(file: string, line: int, column: int, message: string)

  predicate Covers(seg: BundleSegment, line: int) {
    seg.startLine <= line < seg.startLine + seg.lineCount
  }

  /** The diagnostic moved to the first segment that covers its line. */
  function Remapped(d: Diagnostic, segs: seq<BundleSegment>): Diagnostic {
    if segs == [] then d
    else if Covers(segs[0], d.line) then d.(file := segs[0].file, line := d.line - segs[0].startLine + 1)
    else Remapped(d, segs[1..])
  }

  method RemapDiagnostics(items: array<Diagnostic>, segments: seq<BundleSegment>)
    modifies items
    ensures forall i :: 0 <= i < items.Length ==> items[i] == Remapped(old(items[i]), segments)
  {
    for i := 0 to items.Length
      invariant forall k :: 0 <= k < i ==> items[k] == Remapped(old(items[k]), segments)
      invariant forall k :: i <= k < items.Length ==> items[k] == old(items[k])
    {
      for j := 0 to |segments|
        invariant forall k :: 0 <= k < i ==> items[k] == Remapped(old(items[k]), segments)
        invariant forall k :: i <= k < items.Length ==> items[k] == old(items[k])
        invariant Remapped(items[i], segments) == Remapped(items[i], segments[j..])
      {
        var d, seg := items[i], segments[j];
        if d.line >= seg.startLine && d.line < seg.startLine + seg.lineCount {
          items[i] := d.(file := seg.file, line := d.line - seg.startLine + 1);
          break;
        }
      }
    }
  }

  /** The first covering segment decides. */
  lemma {:induction false} RemappedAt(d: Diagnostic, segs: seq<BundleSegment>, i: nat)
    requires i < |segs| && Covers(segs[i], d.line)
    requires forall j :: 0 <= j < i ==> !Covers(segs[j], d.line)
    ensures Remapped(d, segs) == d.(file := segs[i].file, line := d.line - segs[i].startLine + 1)
  {
    if i > 0 {
      RemappedAt(d, segs[1..], i - 1);
    }
  }

  lemma {:induction false} LinesBeforeMonotone(order: seq<SourceText>, i: nat, j: nat)
    requires i <= j <= |order|
    ensures LinesBefore(order, i) <= LinesBefore(order, j)
    decreases j
  {
    if i < j {
      LinesBeforeMonotone(order, i, j - 1);
      LinesBeforeNext(order, j - 1);
    }
  }

  /** The round trip: a diagnostic on any line of the bundle goes back to the one file and line that
      line was taken from, with its column; one outside the bundle is left alone. */
  lemma RemapInvertsBundle(order: seq<SourceText>, segs: seq<BundleSegment>, d: Diagnostic)
    requires order != [] && Tiles(order, segs) && forall t :: t in Texts(order) ==> Normalized(t)
    ensures 1 <= d.line <= CountLines(Join(Texts(order))) ==>
              exists i: nat, k: nat {:trigger Origin(order, d.line, i, k)} ::
                Origin(order, d.line, i, k) && Remapped(d, segs) == d.(file := order[i].file, line := k + 1)
    ensures !(1 <= d.line <= CountLines(Join(Texts(order)))) ==> Remapped(d, segs) == d
  {
    hide Lines, AllLines, Join, Texts, LinesBefore, Remapped;
    LinesOfJoin(Texts(order));
    if 1 <= d.line <= CountLines(Join(Texts(order))) {
      var i, k := LineBelongs(order, d.line - 1);
      BundleLine(order, i, k);
      assert SegmentOk(order, segs, i);
      forall j: nat | j < i ensures !Covers(segs[j], d.line) {
        assert SegmentOk(order, segs, j);
        LinesBeforeNext(order, j);
        LinesBeforeMonotone(order, j + 1, i);
      }
      RemappedAt(d, segs, i);
      assert Origin(order, d.line, i, k);
    } else {
      AllLinesLength(order);
      forall j: nat | j < |segs| ensures !Covers(segs[j], d.line) {
        assert SegmentOk(order, segs, j);
        LinesBeforeNext(order, j);
        LinesBeforeMonotone(order, j + 1, |order|);
      }
      RemappedNowhere(d, segs);
    }
  }

  /** Line `line` of the bundle is line `k` of file `i`, counting that file's lines from 0. */
  ghost predicate Origin(order: seq<SourceText>, line: int, i: nat, k: nat) {
    && i < |order| && k < CountLines(order[i].text)
    && line == 1 + LinesBefore(order, i) + k
    && 1 <= line <= CountLines(Join(Texts(order)))
    && Lines(Join(Texts(order)))[line - 1] == Lines(order[i].text)[k]
  }

  /** That file and line are unique. */
  lemma OriginUnique(order: seq<SourceText>, line: int, i: nat, k: nat, i': nat, k': nat)
    requires Origin(order, line, i, k) && Origin(order, line, i', k')
    ensures i == i' && k == k'
  {
    LinesBeforeNext(order, i);
    LinesBeforeNext(order, i');
    if i < i' {
      LinesBeforeMonotone(order, i + 1, i');
    } else if i' < i {
      LinesBeforeMonotone(order, i' + 1, i);
    }
  }

  lemma {:induction false} AllLinesLength(order: seq<SourceText>)
    ensures |AllLines(Texts(order))| == LinesBefore(order, |order|)
  {
    if order != [] {
      AllLinesLength(order[1..]);
    }
  }

  lemma {:induction false} RemappedNowhere(d: Diagnostic, segs: seq<BundleSegment>)
    requires forall j :: 0 <= j < |segs| ==> !Covers(segs[j], d.line)
    ensures Remapped(d, segs) == d
  {
    if segs != [] {
      RemappedNowhere(d, segs[1..]);
    }
  }
}
