/** Moving enums out of class bodies (`hoistInClassEnums` in `src/parser.ts`).

    The source scans character by character and recognizes words by looking at their neighbours; it is
    shown to find what `EnumReader` reads token by token. */
module Hoister {
  import opened Wrappers
  import opened EnumReader
  import opened EnumPlacement
  import opened ParserLines
  import LineMaps

  // ---------------------------------------------------------------- the scanner

  /** Position `i` lies inside a word, not at a token boundary. */
  predicate Mid(text: string, i: nat) {
    0 < i < |text| && IsWord(text[i - 1]) && IsWord(text[i])
  }

  /** What is still to be found when the scanner stands at `i`. */
  function Rest(text: string, i: nat, ctx: Context): seq<Finding> {
    if Mid(text, i) then Scan(text, RunEnd(text, i), ctx, Raw) else Scan(text, i, ctx, Raw)
  }

  predicate StartsWith(text: string, word: string, i: nat) {
    i + |word| <= |text| && text[i..i + |word|] == word
  }

  /** The source's neighbour test finds exactly the token boundaries where the word stands. */
  lemma KeywordAt(text: string, i: nat, word: string)
    requires i < |text| && word != "" && forall k :: 0 <= k < |word| ==> IsWord(word[k])
    ensures StartsWith(text, word, i) && !WordCharAt(text, i - 1) && !WordCharAt(text, i + |word|) <==>
            !Mid(text, i) && WordAt(text, i) == word
    ensures WordAt(text, i) == word ==> RunEnd(text, i) == i + |word|
  {
    var e := RunEnd(text, i);
    if StartsWith(text, word, i) && !WordCharAt(text, i + |word|) {
      RunCovers(text, i, i + |word|);
    }
    if WordAt(text, i) == word {
      assert text[i] == word[0];
    }
  }

  /** Reading a token leads from boundary to boundary. */
  lemma TokenStep(text: string, i: nat, ctx: Context)
    requires i < |text| && !Mid(text, i)
    ensures var m := Read(text, i, ctx, Raw);
            !Mid(text, m.end) && Rest(text, i, ctx) == Listed(m.found) + Rest(text, m.end, m.ctx)
  {
    ReadEndsToken(text, i, ctx);
    hide Read;
    var m := Read(text, i, ctx, Raw);
    assert Scan(text, i, ctx, Raw) == Listed(m.found) + Scan(text, m.end, m.ctx, Raw);
  }

  lemma ReadEndsToken(text: string, i: nat, ctx: Context)
    requires i < |text| && !Mid(text, i)
    ensures !Mid(text, Read(text, i, ctx, Raw).end)
  {
    if IsWord(text[i]) {
      WordEndsToken(text, i, ctx);
    }
  }

  lemma WordEndsToken(text: string, i: nat, ctx: Context)
    requires i < |text| && IsWord(text[i])
    ensures !Mid(text, ReadWord(text, i, ctx, Raw).end)
  {
    var e := RunEnd(text, i);
    assert !Mid(text, e);
    var k := EnumEnd(text, e, Raw);
    assert k.Some? ==> !Mid(text, k.value);
  }

  lemma ModifiersAreWords(w: string)
    requires IsModifier(w)
    ensures w != "" && IsLetter(w[0])
  { }

  /** A character of a word that is passed over one by one. */
  lemma CharStep(text: string, i: nat, ctx: Context)
    requires i < |text| && IsWord(text[i])
    requires if Mid(text, i) then ctx.mods.None?
             else WordAt(text, i) != "class" && (ctx.InClassBody() ==> !IsLetter(text[i]))
    ensures Rest(text, i, ctx) == Rest(text, i + 1, ctx.Quiet())
  {
    if !Mid(text, i) {
      var w := WordAt(text, i);
      assert w[0] == text[i];
      if IsModifier(w) {
        ModifiersAreWords(w);
      }
      assert Read(text, i, ctx, Raw) == ReadWord(text, i, ctx, Raw) == Move(RunEnd(text, i), ctx.Quiet(), None);
      TokenStep(text, i, ctx);
    }
  }

  // ---------------------------------------------------------------- the scanner's inner loops

  method SkipString(text: string, from: nat, q: char) returns (i: nat)
    ensures i == StringEnd(text, from, q)
  {
    i := from;
    while i < |text|
      invariant StringEnd(text, i, q) == StringEnd(text, from, q)
      decreases |text| - i
    {
      if text[i] == '\\' {
        i := i + 2;
        continue;
      }
      if text[i] == q {
        i := i + 1;
        return;
      }
      i := i + 1;
    }
  }

  method SkipLine(text: string, from: nat) returns (i: nat)
    requires from <= |text|
    ensures i == LineEnd(text, from, Raw)
  {
    i := from;
    while i < |text| && text[i] != '\n'
      invariant i <= |text| && LineEnd(text, i, Raw) == LineEnd(text, from, Raw)
    {
      i := i + 1;
    }
  }

  method SkipBlock(text: string, from: nat) returns (i: nat)
    requires from <= |text|
    ensures i == BlockEnd(text, from)
  {
    i := from;
    while i < |text| && !(text[i] == '*' && i + 1 < |text| && text[i + 1] == '/')
      invariant i <= |text| && BlockEnd(text, i) == BlockEnd(text, from)
    {
      i := i + 1;
    }
    i := i + 2;
  }

  method SkipWord(text: string, from: nat) returns (e: nat)
    requires from < |text| && IsWord(text[from])
    ensures e == RunEnd(text, from)
  {
    e := from + 1;
    while e < |text| && IsWord(text[e])
      invariant e <= |text| && RunEnd(text, e) == RunEnd(text, from)
    {
      e := e + 1;
    }
  }

  method SkipHead(text: string, from: nat) returns (j: nat)
    requires from <= |text|
    ensures j == HeadEnd(text, from, Raw)
  {
    j := from;
    while j < |text| && text[j] != '{' && text[j] != '}' && text[j] != ';'
      invariant j <= |text| && HeadEnd(text, j, Raw) == HeadEnd(text, from, Raw)
    {
      j := j + 1;
    }
  }

  method SkipBody(text: string, from: nat) returns (k: nat)
    requires from < |text| && text[from] == '{'
    ensures k == BodyEnd(text, from, 0, Raw)
  {
    var d2 := 0;
    k := from;
    while k < |text|
      invariant k <= |text| && BodyEnd(text, k, d2, Raw) == BodyEnd(text, from, 0, Raw)
    {
      if text[k] == '{' {
        d2 := d2 + 1;
      } else if text[k] == '}' {
        d2 := d2 - 1;
        if d2 == 0 {
          k := k + 1;
          return;
        }
      }
      k := k + 1;
    }
  }

  // ---------------------------------------------------------------- the scanner's loop

  /** One pass through the body of the scanner's loop. */
  method Advance(text: string, i: nat, ctx: Context) returns (i': nat, ctx': Context, found: Option<Finding>)
    requires i < |text| && (Mid(text, i) ==> ctx.mods.None?)
    ensures i < i'
    ensures Rest(text, i, ctx) == Listed(found) + Rest(text, i', ctx')
    ensures Mid(text, i') ==> ctx'.mods.None?
  {
    var c := text[i];
    found := None;
    if IsWord(c) {
      i', ctx', found := AdvanceWord(text, i, ctx);
      return;
    }
    TokenStep(text, i, ctx);
    if c == '"' || c == '\'' || c == '`' {
      i' := SkipString(text, i + 1, c);
      return i', ctx.Quiet(), None;
    }
    if c == '/' && i + 1 < |text| && text[i + 1] == '/' {
      i' := SkipLine(text, i + 2);
      return i', ctx, None;
    }
    if c == '/' && i + 1 < |text| && text[i + 1] == '*' {
      i' := SkipBlock(text, i + 2);
      return i', ctx, None;
    }
    if c == '{' {
      return i + 1, ctx.Opened(i, Raw), None;
    }
    if c == '}' {
      return i + 1, ctx.Closed(), None;
    }
    if ctx.mods.Some? && !IsSpace(c) {
      return i + 1, ctx.Quiet(), None;
    }
    return i + 1, ctx, None;
  }

  /** The branches that a word character can take. */
  method AdvanceWord(text: string, i: nat, ctx: Context) returns (i': nat, ctx': Context, found: Option<Finding>)
    requires i < |text| && IsWord(text[i]) && (Mid(text, i) ==> ctx.mods.None?)
    ensures i < i'
    ensures Rest(text, i, ctx) == Listed(found) + Rest(text, i', ctx')
    ensures Mid(text, i') ==> ctx'.mods.None?
  {
    hide Rest, Scan, Read, ReadWord, IsModifier, StartsWith;
    var c := text[i];
    Keywords(text, i);
    if c == 'c' && StartsWith(text, "class", i) && !WordCharAt(text, i - 1) && !WordCharAt(text, i + 5) {
      WordStep(text, i, ctx);
      return i + 5, ctx.Quiet().(pendingClass := true), None;
    }
    if
      && ctx.InClassBody() && c == 'e' && StartsWith(text, "enum", i)
      && !WordCharAt(text, i - 1) && !WordCharAt(text, i + 4)
    {
      WordStep(text, i, ctx);
      i', ctx', found := AdvanceEnum(text, i, ctx);
      return;
    }
    if ctx.InClassBody() && IsLetter(c) && !WordCharAt(text, i - 1) {
      WordStep(text, i, ctx);
      var e := SkipWord(text, i);
      var word := text[i..e];
      if IsModifier(word) {
        return e, ctx.Modified(i, word), None;
      }
      return e, ctx.Quiet(), None;
    }
    CharStep(text, i, ctx);
    return i + 1, ctx.Quiet(), None;
  }

  /** The enum branch: hoist it, record it as misplaced behind modifiers, or leave a malformed one. */
  method AdvanceEnum(text: string, i: nat, ctx: Context) returns (i': nat, ctx': Context, found: Option<Finding>)
    requires i < |text| && IsWord(text[i]) && ctx.InClassBody() && WordAt(text, i) == "enum" && RunEnd(text, i) == i + 4
    ensures Move(i', ctx', found) == ReadWord(text, i, ctx, Raw)
  {
    var j := SkipHead(text, i + 4);
    if j < |text| && text[j] == '{' {
      var k := SkipBody(text, j);
      if ctx.mods.Some? {
        var Modifiers(start, words) := ctx.mods.value;
        return k, ctx.Quiet(), Some(Misplaced(i, start, k, words, EnumName(text, i + 4)));
      }
      return k, ctx, Some(Hoist(i, k));
    }
    return i + 4, ctx.Quiet(), None;
  }

  lemma Keywords(text: string, i: nat)
    requires i < |text| && IsWord(text[i])
    ensures text[i] == 'c' && StartsWith(text, "class", i) && !WordCharAt(text, i - 1) && !WordCharAt(text, i + 5) <==>
            !Mid(text, i) && WordAt(text, i) == "class"
    ensures text[i] == 'e' && StartsWith(text, "enum", i) && !WordCharAt(text, i - 1) && !WordCharAt(text, i + 4) <==>
            !Mid(text, i) && WordAt(text, i) == "enum"
    ensures WordAt(text, i) == "class" ==> RunEnd(text, i) == i + 5
    ensures WordAt(text, i) == "enum" ==> RunEnd(text, i) == i + 4
    ensures !WordCharAt(text, i - 1) <==> !Mid(text, i)
  {
    KeywordAt(text, i, "class");
    KeywordAt(text, i, "enum");
    assert StartsWith(text, "class", i) ==> text[i] == "class"[0];
    assert StartsWith(text, "enum", i) ==> text[i] == "enum"[0];
  }

  /** What reading a word at a token boundary comes to. */
  lemma WordStep(text: string, i: nat, ctx: Context)
    requires i < |text| && IsWord(text[i]) && !Mid(text, i)
    ensures var m := ReadWord(text, i, ctx, Raw);
            && !Mid(text, m.end) && Rest(text, i, ctx) == Listed(m.found) + Rest(text, m.end, m.ctx)
            && (WordAt(text, i) == "class" ==> m == Move(RunEnd(text, i), ctx.Quiet().(pendingClass := true), None))
            && (WordAt(text, i) != "class" && WordAt(text, i) != "enum" && ctx.InClassBody() ==>
                  m == Move(RunEnd(text, i),
                            if IsModifier(WordAt(text, i)) then ctx.Modified(i, WordAt(text, i)) else ctx.Quiet(),
                            None))
  {
    TokenStep(text, i, ctx);
    assert Read(text, i, ctx, Raw) == ReadWord(text, i, ctx, Raw);
  }

  // ---------------------------------------------------------------- moving the text

  datatype Span = Span(start: nat, end: nat)

  function Hoists(fs: seq<Finding>): seq<Span> {
    if fs == [] then []
    else match fs[0]
      case Hoist(start, end) => [Span(start, end)] + Hoists(fs[1..])
      case Misplaced(_, _, _, _, _) => Hoists(fs[1..])
  }

  function Errors(fs: seq<Finding>): seq<Finding> {
    if fs == [] then [] else if fs[0].Misplaced? then [fs[0]] + Errors(fs[1..]) else Errors(fs[1..])
  }

  ghost predicate SpansInOrder(spans: seq<Span>, lo: nat, n: nat) {
    spans == [] || (lo <= spans[0].start < spans[0].end <= n && SpansInOrder(spans[1..], spans[0].end, n))
  }

  lemma {:induction false} HoistsInOrder(fs: seq<Finding>, lo: nat, lo': nat, n: nat)
    requires InOrder(fs, lo', n) && lo <= lo'
    ensures SpansInOrder(Hoists(fs), lo, n)
  {
    if fs != [] {
      HoistsInOrder(fs[1..], if fs[0].Hoist? then fs[0].end else lo, fs[0].end, n);
    }
  }

  function BlankOut(c: char): char {
    if c == '\n' then c else ' '
  }

  function BlankText(s: string): (r: string)
    ensures |r| == |s|
  {
    if s == "" then "" else [BlankOut(s[0])] + BlankText(s[1..])
  }

  /** The text from `cursor` on, with the spans blanked. */
  function Blanked(text: string, spans: seq<Span>, cursor: nat): string
    requires cursor <= |text| && SpansInOrder(spans, cursor, |text|)
  {
    if spans == [] then text[cursor..]
    else
      var Span(s, e) := spans[0];
      text[cursor..s] + (BlankText(text[s..e]) + Blanked(text, spans[1..], e))
  }

  function Moved(text: string, spans: seq<Span>, lo: nat): (m: seq<string>)
    requires lo <= |text| && SpansInOrder(spans, lo, |text|)
    ensures |m| == |spans|
  {
    if spans == [] then [] else [text[spans[0].start..spans[0].end]] + Moved(text, spans[1..], spans[0].end)
  }

  /** The rewritten text: blanked in place, the enums appended. */
  function Output(text: string, spans: seq<Span>): string
    requires SpansInOrder(spans, 0, |text|)
  {
    if spans == [] then text
    else Blanked(text, spans, 0) + (['\n'] + (LineMaps.Join(Moved(text, spans, 0)) + ['\n']))
  }

  predicate InSpan(spans: seq<Span>, p: nat) {
    spans != [] && (spans[0].start <= p < spans[0].end || InSpan(spans[1..], p))
  }

  lemma {:induction false} BlankTextAt(s: string, i: nat)
    requires i < |s|
    ensures BlankText(s)[i] == BlankOut(s[i])
  {
    if i > 0 {
      BlankTextAt(s[1..], i - 1);
    }
  }

  /** Every offset stays where it was: a character inside a hoisted span becomes a space unless it is a
      newline, every other character is kept. */
  lemma {:induction false} BlankedAt(text: string, spans: seq<Span>, cursor: nat, p: nat)
    requires cursor <= |text| && SpansInOrder(spans, cursor, |text|)
    ensures |Blanked(text, spans, cursor)| == |text| - cursor
    ensures cursor <= p < |text| ==>
              Blanked(text, spans, cursor)[p - cursor] ==
              if InSpan(spans, p) && text[p] != '\n' then ' ' else text[p]
  {
    if spans != [] {
      var Span(s, e) := spans[0];
      BlankedAt(text, spans[1..], e, p);
      if s <= p < e {
        BlankTextAt(text[s..e], p - s);
      }
      if p < e {
        NotInLaterSpans(spans[1..], e, |text|, p);
      }
    }
  }

  lemma {:induction false} NotInLaterSpans(spans: seq<Span>, lo: nat, n: nat, p: nat)
    requires SpansInOrder(spans, lo, n) && p < lo
    ensures !InSpan(spans, p)
  {
    if spans != [] {
      NotInLaterSpans(spans[1..], spans[0].end, n, p);
    }
  }

  // ---------------------------------------------------------------- line numbers

  /** In a hoisted span, a line end that is no line feed: a carriage return without one behind it, or one of
      the separators U+2028 and U+2029. */
  ghost predicate LostEnd(text: string, spans: seq<Span>, i: nat) {
    EndsLine(text, i) && text[i] != '\n' && InSpan(spans, i)
  }

  /** Moving the enums keeps the number of every line and every line start that the parser sees if and only if
      no hoisted span holds a lone carriage return, U+2028 or U+2029. */
  lemma LinesKeptIff(text: string, spans: seq<Span>)
    requires SpansInOrder(spans, 0, |text|)
    ensures |Split(Blanked(text, spans, 0))| == |Split(text)| <==> forall i :: !LostEnd(text, spans, i)
    ensures EndsKept(text, Blanked(text, spans, 0)) <==> forall i :: !LostEnd(text, spans, i)
  {
    var blanked := Blanked(text, spans, 0);
    LinesCountEnds(text);
    LinesCountEnds(blanked);
    BlankedAt(text, spans, 0, 0);
    forall i: nat ensures EndsLine(blanked, i) <==> EndsLine(text, i) && !LostEnd(text, spans, i) {
      BlankedEnds(text, spans, i);
    }
    FewerEnds(text, blanked);
  }

  lemma BlankedEnds(text: string, spans: seq<Span>, i: nat)
    requires SpansInOrder(spans, 0, |text|)
    ensures EndsLine(Blanked(text, spans, 0), i) <==> EndsLine(text, i) && !LostEnd(text, spans, i)
  {
    BlankedAt(text, spans, 0, i);
    BlankedAt(text, spans, 0, i + 1);
  }

  // ---------------------------------------------------------------- nothing is lost

  /** The moved pieces, each closed by a newline. */
  function Tail(pieces: seq<string>): string {
    if pieces == [] then "" else pieces[0] + (['\n'] + Tail(pieces[1..]))
  }

  lemma {:induction false} JoinedIsTail(ls: seq<string>)
    requires ls != []
    ensures LineMaps.Join(ls) + ['\n'] == Tail(ls)
  {
    if |ls| == 1 {
      assert ls[1..] == [];
    } else {
      JoinedIsTail(ls[1..]);
      assert LineMaps.Join(ls) + ['\n'] == ls[0] + (['\n'] + (LineMaps.Join(ls[1..]) + ['\n']));
    }
  }

  /** Put the moved pieces back: `tail` is where the next one starts behind the blanked text. */
  function Restore(out: string, spans: seq<Span>, cursor: nat, n: nat, tail: nat): string
    requires cursor <= n <= |out| && SpansInOrder(spans, cursor, n)
  {
    if spans == [] then out[cursor..n]
    else
      var Span(s, e) := spans[0];
      var behind := tail + (e - s);
      out[cursor..s] + ((if behind <= |out| then out[tail..behind] else "")
                        + Restore(out, spans[1..], e, n, behind + 1))
  }

  ghost predicate AgreesAt(text: string, out: string, spans: seq<Span>, p: nat) {
    p < |text| <= |out| && !InSpan(spans, p) ==> out[p] == text[p]
  }

  ghost predicate AgreesFrom(text: string, out: string, spans: seq<Span>, lo: nat) {
    forall p: nat :: lo <= p ==> AgreesAt(text, out, spans, p)
  }

  ghost predicate HoldsAt(out: string, at: nat, s: string) {
    at + |s| <= |out| && out[at..at + |s|] == s
  }

  lemma HoldsSplit(out: string, at: nat, a: string, b: string)
    requires HoldsAt(out, at, a + b)
    ensures HoldsAt(out, at, a) && HoldsAt(out, at + |a|, b)
  {
    var ab := out[at..at + |a + b|];
    assert ab[..|a|] == a && ab[|a|..] == b;
  }

  /** Before the first span the texts agree. */
  lemma SameUpTo(text: string, out: string, spans: seq<Span>, cursor: nat, s: nat)
    requires cursor <= s <= |text| <= |out| && SpansInOrder(spans, s, |text|)
    requires AgreesFrom(text, out, spans, cursor)
    ensures out[cursor..s] == text[cursor..s]
  {
    forall p: nat | cursor <= p < s ensures out[p] == text[p] {
      NotInLaterSpans(spans, s, |text|, p);
      assert AgreesAt(text, out, spans, p);
    }
  }

  lemma TailSpansAgree(text: string, out: string, spans: seq<Span>, lo: nat)
    requires spans != [] && SpansInOrder(spans, lo, |text|)
    requires AgreesFrom(text, out, spans, lo)
    ensures AgreesFrom(text, out, spans[1..], spans[0].end)
  {
    forall p: nat | spans[0].end <= p ensures AgreesAt(text, out, spans[1..], p) {
      assert AgreesAt(text, out, spans, p);
    }
  }

  lemma {:induction false} RestoreFrom(text: string, out: string, spans: seq<Span>, cursor: nat, tail: nat)
    requires cursor <= |text| <= |out| && SpansInOrder(spans, cursor, |text|)
    requires AgreesFrom(text, out, spans, cursor)
    requires HoldsAt(out, tail, Tail(Moved(text, spans, cursor)))
    ensures Restore(out, spans, cursor, |text|, tail) == text[cursor..]
  {
    hide AgreesFrom, InSpan, HoldsAt, Moved, Tail, Restore, SpansInOrder;
    if spans == [] {
      SameUpTo(text, out, spans, cursor, |text|);
      RestoreUnfolds(out, spans, cursor, |text|, tail);
    } else {
      RestoreOne(text, out, spans, cursor, tail);
      TailSpansAgree(text, out, spans, cursor);
      RestoreFrom(text, out, spans[1..], spans[0].end, tail + (spans[0].end - spans[0].start) + 1);
      RestoreGlue(text, out, spans, cursor, tail);
    }
  }

  lemma RestoreGlue(text: string, out: string, spans: seq<Span>, cursor: nat, tail: nat)
    requires cursor <= |text| <= |out| && SpansInOrder(spans, cursor, |text|) && spans != []
    requires var Span(s, e) := spans[0];
             && out[cursor..s] == text[cursor..s]
             && tail + (e - s) <= |out| && out[tail..tail + (e - s)] == text[s..e]
             && Restore(out, spans[1..], e, |text|, tail + (e - s) + 1) == text[e..]
    ensures Restore(out, spans, cursor, |text|, tail) == text[cursor..]
  {
    RestoreUnfolds(out, spans, cursor, |text|, tail);
    hide Restore;
    Rejoin(text, cursor, spans[0].start, spans[0].end);
  }

  lemma RestoreUnfolds(out: string, spans: seq<Span>, cursor: nat, n: nat, tail: nat)
    requires cursor <= n <= |out| && SpansInOrder(spans, cursor, n)
    ensures spans == [] ==> Restore(out, spans, cursor, n, tail) == out[cursor..n]
    ensures spans != [] ==>
              var Span(s, e) := spans[0];
              var behind := tail + (e - s);
              behind <= |out| ==>
                Restore(out, spans, cursor, n, tail) ==
                out[cursor..s] + (out[tail..behind] + Restore(out, spans[1..], e, n, behind + 1))
  { }

  lemma Rejoin(text: string, cursor: nat, s: nat, e: nat)
    requires cursor <= s <= e <= |text|
    ensures text[cursor..s] + (text[s..e] + text[e..]) == text[cursor..]
  {
    assert text[s..e] + text[e..] == text[s..];
  }

  /** The first span's part. */
  lemma RestoreOne(text: string, out: string, spans: seq<Span>, cursor: nat, tail: nat)
    requires cursor <= |text| <= |out| && SpansInOrder(spans, cursor, |text|) && spans != []
    requires AgreesFrom(text, out, spans, cursor)
    requires HoldsAt(out, tail, Tail(Moved(text, spans, cursor)))
    ensures var Span(s, e) := spans[0];
            && cursor <= s < e <= |text| && SpansInOrder(spans[1..], e, |text|)
            && out[cursor..s] == text[cursor..s]
            && tail + (e - s) <= |out| && out[tail..tail + (e - s)] == text[s..e]
            && HoldsAt(out, tail + (e - s) + 1, Tail(Moved(text, spans[1..], e)))
  {
    hide AgreesFrom, InSpan, Restore;
    var Span(s, e) := spans[0];
    var piece, rest := text[s..e], Moved(text, spans[1..], e);
    SameUpTo(text, out, spans, cursor, s);
    PiecesHold(out, tail, piece, rest);
  }

  lemma PiecesHold(out: string, tail: nat, piece: string, rest: seq<string>)
    requires HoldsAt(out, tail, Tail([piece] + rest))
    ensures HoldsAt(out, tail, piece) && HoldsAt(out, tail + |piece| + 1, Tail(rest))
  {
    hide HoldsAt;
    assert ([piece] + rest)[1..] == rest;
    HoldsSplit(out, tail, piece, ['\n'] + Tail(rest));
    HoldsSplit(out, tail + |piece|, ['\n'], Tail(rest));
  }

  /** The original is recovered from the output and the spans: nothing is lost. */
  lemma OriginalRecovered(text: string, spans: seq<Span>)
    requires SpansInOrder(spans, 0, |text|)
    ensures |text| <= |Output(text, spans)|
    ensures Restore(Output(text, spans), spans, 0, |text|, |text| + 1) == text
  {
    hide AgreesFrom, InSpan, HoldsAt, Moved, Tail, Blanked, LineMaps.Join, Restore;
    var out := Output(text, spans);
    if spans == [] {
      RestoreUnfolds(out, spans, 0, |text|, |text| + 1);
      assert out[0..|text|] == text;
    } else {
      OutputParts(text, spans);
      RestoreFrom(text, out, spans, 0, |text| + 1);
      assert text[0..] == text;
    }
  }

  lemma OutputParts(text: string, spans: seq<Span>)
    requires SpansInOrder(spans, 0, |text|) && spans != []
    ensures var out := Output(text, spans);
            && |text| <= |out| && AgreesFrom(text, out, spans, 0)
            && HoldsAt(out, |text| + 1, Tail(Moved(text, spans, 0)))
  {
    hide Blanked, Moved, Tail, LineMaps.Join, InSpan, BlankOut;
    var out, blanked, moved := Output(text, spans), Blanked(text, spans, 0), Moved(text, spans, 0);
    BlankedAt(text, spans, 0, 0);
    JoinedIsTail(moved);
    assert out == (blanked + ['\n']) + Tail(moved);
    assert out[|text| + 1..] == Tail(moved);
    forall p: nat ensures AgreesAt(text, out, spans, p) {
      BlankedAt(text, spans, 0, p);
    }
  }

  // ---------------------------------------------------------------- the operation

  lemma {:induction false} HoistsSplit(fs: seq<Finding>, gs: seq<Finding>)
    ensures Hoists(fs + gs) == Hoists(fs) + Hoists(gs)
  {
    if fs == [] {
      assert fs + gs == gs;
    } else {
      var rest := fs[1..] + gs;
      HoistsSplit(fs[1..], gs);
      assert (fs + gs)[0] == fs[0] && (fs + gs)[1..] == rest;
    }
  }

  lemma {:induction false} ErrorsSplit(fs: seq<Finding>, gs: seq<Finding>)
    ensures Errors(fs + gs) == Errors(fs) + Errors(gs)
  {
    if fs == [] {
      assert fs + gs == gs;
    } else {
      var rest := fs[1..] + gs;
      ErrorsSplit(fs[1..], gs);
      assert (fs + gs)[0] == fs[0] && (fs + gs)[1..] == rest;
    }
  }

  lemma {:induction false} HoistsIff(fs: seq<Finding>, x: Finding)
    ensures x.Hoist? ==> (Span(x.start, x.end) in Hoists(fs) <==> x in fs)
    ensures x in Errors(fs) <==> x in fs && x.Misplaced?
  {
    if fs != [] {
      HoistsIff(fs[1..], x);
      assert fs == [fs[0]] + fs[1..];
    }
  }

  lemma {:induction false} InSpanIff(spans: seq<Span>, p: nat)
    ensures InSpan(spans, p) <==> exists x :: x in spans && x.start <= p < x.end
  {
    if spans != [] {
      InSpanIff(spans[1..], p);
      assert spans == [spans[0]] + spans[1..];
    }
  }

  /** Every moved piece stands behind the original text. */
  lemma {:induction false} MovedStands(text: string, spans: seq<Span>, cursor: nat, out: string, at: nat, x: Span)
    returns (p: nat)
    requires cursor <= |text| && SpansInOrder(spans, cursor, |text|) && x in spans
    requires HoldsAt(out, at, Tail(Moved(text, spans, cursor)))
    ensures x.start <= x.end <= |text| && p >= at && HoldsAt(out, p, text[x.start..x.end])
  {
    hide HoldsAt;
    var Span(s, e) := spans[0];
    PiecesHold(out, at, text[s..e], Moved(text, spans[1..], e));
    if x == spans[0] {
      p := at;
    } else {
      p := MovedStands(text, spans[1..], e, out, at + (e - s) + 1, x);
    }
  }

  /** A reading moves the enum at [s, e). */
  ghost predicate Moves(text: string, how: Lexing, s: nat, e: nat) {
    Hoist(s, e) in Scan(text, 0, START, how)
  }

  /** The rewritten text, character by character: every enum moved is blanked where it stood and stands again
      behind the text, and nothing else changes. */
  ghost predicate RewrittenAs(text: string, how: Lexing, out: string) {
    && |out| >= |text|
    && (forall p: nat :: p < |text| ==> PlaceKept(text, how, out, p))
    && (forall s, e :: Moves(text, how, s, e) ==> Appended(text, out, s, e))
    && ((forall s, e :: !Moves(text, how, s, e)) ==> out == text)
  }

  ghost predicate PlaceKept(text: string, how: Lexing, out: string, p: nat)
    requires p < |text| <= |out|
  {
    out[p] == if text[p] != '\n' && InMoved(text, how, p) then ' ' else text[p]
  }

  ghost predicate InMoved(text: string, how: Lexing, p: nat) {
    exists s: nat, e: nat :: Moves(text, how, s, e) && s <= p < e
  }

  ghost predicate Appended(text: string, out: string, s: nat, e: nat) {
    s <= e <= |text| && exists at: nat :: at > |text| && HoldsAt(out, at, text[s..e])
  }

  lemma RewrittenMeaning(text: string, how: Lexing)
    ensures RewrittenAs(text, how, Rewritten(text, how))
  {
    FoundSpans(text, how);
    hide Scan, Hoists, SpansInOrder, PlaceKept, Appended, Output;
    var spans, out := Hoists(Scan(text, 0, START, how)), Rewritten(text, how);
    MovesIff(text, how);
    LongEnough(text, spans);
    forall p: nat | p < |text| ensures PlaceKept(text, how, out, p) {
      KeptAt(text, how, p);
    }
    forall s, e | Moves(text, how, s, e) ensures Appended(text, out, s, e) {
      MovedIsAppended(text, spans, s, e);
    }
    if spans == [] {
      assert Output(text, spans) == text by { NothingMoved(text); }
    } else {
      assert spans[0] == Span(spans[0].start, spans[0].end) && spans[0] in spans;
    }
  }

  lemma NothingMoved(text: string)
    ensures SpansInOrder([], 0, |text|) && Output(text, []) == text
  { }

  lemma MovesIff(text: string, how: Lexing)
    ensures forall s: nat, e: nat :: Moves(text, how, s, e) <==> Span(s, e) in Hoists(Scan(text, 0, START, how))
  {
    hide Scan, Hoists;
    forall s: nat, e: nat ensures Moves(text, how, s, e) <==> Span(s, e) in Hoists(Scan(text, 0, START, how)) {
      HoistsIff(Scan(text, 0, START, how), Hoist(s, e));
    }
  }

  lemma LongEnough(text: string, spans: seq<Span>)
    requires SpansInOrder(spans, 0, |text|)
    ensures |Output(text, spans)| >= |text|
  {
    BlankedAt(text, spans, 0, 0);
  }

  lemma KeptAt(text: string, how: Lexing, p: nat)
    requires p < |text|
    ensures p < |Rewritten(text, how)| && |text| <= |Rewritten(text, how)|
    ensures PlaceKept(text, how, Rewritten(text, how), p)
  {
    var spans := Hoists(Scan(text, 0, START, how));
    FoundSpans(text, how);
    MovesIff(text, how);
    InSpanIff(spans, p);
    LongEnough(text, spans);
    BlankedAt(text, spans, 0, p);
    OutputAt(text, spans, p);
    hide Scan, Hoists, SpansInOrder, InSpan, Blanked, Output, Moves;
    if InSpan(spans, p) {
      var x :| x in spans && x.start <= p < x.end;
      assert Moves(text, how, x.start, x.end);
    }
  }

  lemma MovedIsAppended(text: string, spans: seq<Span>, s: nat, e: nat)
    requires SpansInOrder(spans, 0, |text|) && Span(s, e) in spans
    ensures Appended(text, Output(text, spans), s, e)
  {
    OutputParts(text, spans);
    hide SpansInOrder, HoldsAt, AgreesFrom, Moved, Tail, Output;
    var at := MovedStands(text, spans, 0, Output(text, spans), |text| + 1, Span(s, e));
  }

  lemma OutputAt(text: string, spans: seq<Span>, p: nat)
    requires SpansInOrder(spans, 0, |text|) && p < |text|
    ensures |Blanked(text, spans, 0)| == |text| <= |Output(text, spans)|
    ensures Output(text, spans)[p] == Blanked(text, spans, 0)[p]
  {
    BlankedAt(text, spans, 0, p);
    hide Blanked, Moved, LineMaps.Join, SpansInOrder;
  }

  lemma FoundSpans(text: string, how: Lexing)
    ensures SpansInOrder(Hoists(Scan(text, 0, START, how)), 0, |text|)
  {
    hide Scan, Read, InOrder, SpansInOrder, Hoists;
    ScanInOrder(text, 0, START, how);
    HoistsInOrder(Scan(text, 0, START, how), 0, 0, |text|);
  }

  /** What a reading of the text makes of it. */
  function Rewritten(text: string, how: Lexing): string {
    FoundSpans(text, how);
    Output(text, Hoists(Scan(text, 0, START, how)))
  }

  /** The source's whole operation: the character scanner finds what the token reader finds, and the text
      is rewritten by one pass over the spans. If the words `enum` are judged as the language does, the enums
      are those declared directly inside class bodies. */
  method HoistInClassEnums(text: string) returns (out: string, errors: seq<Finding>)
    ensures errors == Errors(Scan(text, 0, START, Raw))
    ensures forall x :: x in errors <==> x in Scan(text, 0, START, Raw) && x.Misplaced?
    ensures out == Rewritten(text, Raw) && RewrittenAs(text, Raw, out)
    ensures WellPlaced(text) ==>
              out == Rewritten(text, Lexed) && errors == Errors(Scan(text, 0, START, Lexed))
  {
    var spans: seq<Span> := [];
    spans, errors := FindEnums(text);
    FoundSpans(text, Raw);
    SameFindingsIff(text);
    RewrittenMeaning(text, Raw);
    forall x ensures x in errors <==> x in Scan(text, 0, START, Raw) && x.Misplaced? {
      HoistsIff(Scan(text, 0, START, Raw), x);
    }
    hide Scan, Hoists, Errors, WellPlaced, RewrittenAs;
    if spans == [] {
      return text, errors;
    }
    out := MoveSpans(text, spans);
  }

  method FindEnums(text: string) returns (spans: seq<Span>, errors: seq<Finding>)
    ensures spans == Hoists(Scan(text, 0, START, Raw)) && errors == Errors(Scan(text, 0, START, Raw))
  {
    hide Scan, Rest, Mid, Hoists, Errors;
    spans, errors := [], [];
    var i, ctx := 0, START;
    assert Rest(text, 0, START) == Scan(text, 0, START, Raw) by { RestAtStart(text); }
    assert !Mid(text, 0) by { RestAtStart(text); }
    while i < |text|
      invariant Mid(text, i) ==> ctx.mods.None?
      invariant Hoists(Scan(text, 0, START, Raw)) == spans + Hoists(Rest(text, i, ctx))
      invariant Errors(Scan(text, 0, START, Raw)) == errors + Errors(Rest(text, i, ctx))
      decreases |text| - i
    {
      var i', ctx', found := Advance(text, i, ctx);
      HoistsSplit(Listed(found), Rest(text, i', ctx'));
      ErrorsSplit(Listed(found), Rest(text, i', ctx'));
      HoistsOfOne(found);
      match found {
        case Some(Hoist(start, end)) => spans := spans + [Span(start, end)];
        case Some(Misplaced(_, _, _, _, _)) => errors := errors + [found.value];
        case None =>
      }
      i, ctx := i', ctx';
    }
    NothingBehindTheEnd(text, i, ctx);
  }

  lemma RestAtStart(text: string)
    ensures Rest(text, 0, START) == Scan(text, 0, START, Raw) && !Mid(text, 0)
  { }

  lemma NothingBehindTheEnd(text: string, i: nat, ctx: Context)
    requires i >= |text|
    ensures Hoists(Rest(text, i, ctx)) == [] && Errors(Rest(text, i, ctx)) == []
  { }

  lemma HoistsOfOne(found: Option<Finding>)
    ensures Hoists(Listed(found)) ==
            if found.Some? && found.value.Hoist? then [Span(found.value.start, found.value.end)] else []
    ensures Errors(Listed(found)) == if found.Some? && found.value.Misplaced? then [found.value] else []
  { }

  /** One turn of the assembly loop. */
  lemma MoveStep(text: string, rest: seq<Span>, cursor: nat, out: string, moved: seq<string>)
    requires rest != [] && cursor <= |text| && SpansInOrder(rest, cursor, |text|)
    ensures var Span(s, e) := rest[0];
            && cursor <= s < e <= |text| && SpansInOrder(rest[1..], e, |text|)
            && out + Blanked(text, rest, cursor) ==
               ((out + text[cursor..s]) + BlankText(text[s..e])) + Blanked(text, rest[1..], e)
            && moved + Moved(text, rest, cursor) == (moved + [text[s..e]]) + Moved(text, rest[1..], e)
  {
    var Span(s, e) := rest[0];
    var behind, later := Blanked(text, rest[1..], e), Moved(text, rest[1..], e);
    Regroup(out, text[cursor..s], BlankText(text[s..e]), behind);
    assert moved + ([text[s..e]] + later) == (moved + [text[s..e]]) + later;
  }

  lemma Regroup(a: string, b: string, c: string, d: string)
    ensures a + (b + (c + d)) == ((a + b) + c) + d
  { }

  method MoveSpans(text: string, spans: seq<Span>) returns (out: string)
    requires spans != [] && SpansInOrder(spans, 0, |text|)
    ensures out == Output(text, spans)
  {
    hide BlankText, LineMaps.Join;
    out := "";
    var cursor: nat, moved: seq<string>, k := 0, [], 0;
    ghost var blanked, pieces := Blanked(text, spans, 0), Moved(text, spans, 0);
    assert spans[0..] == spans && "" + blanked == blanked && [] + pieces == pieces;
    while k < |spans|
      invariant k <= |spans| && cursor <= |text| && SpansInOrder(spans[k..], cursor, |text|)
      invariant out + Blanked(text, spans[k..], cursor) == blanked
      invariant moved + Moved(text, spans[k..], cursor) == pieces
    {
      hide Blanked, Moved, SpansInOrder, Output;
      MoveStep(text, spans[k..], cursor, out, moved);
      assert spans[k..][1..] == spans[k + 1..];
      var s := spans[k];
      out := out + text[cursor..s.start];
      var body := text[s.start..s.end];
      moved := moved + [body];
      out := out + BlankText(body);
      cursor := s.end;
      k := k + 1;
    }
    assert spans[k..] == [];
    assert moved + [] == moved;
    out := out + text[cursor..];
    out := ((out + ['\n']) + LineMaps.Join(moved)) + ['\n'];
    Regroup("", blanked, ['\n'], LineMaps.Join(moved) + ['\n']);
    assert out == blanked + (['\n'] + (LineMaps.Join(pieces) + ['\n']));
  }
}
