/** Braces inside the strings and comments of an enum. The source counts them when it looks for the enum's
    end; the lexed reading does not. Here is exactly when they find the same end. */
module QuotedBraces {
  import opened Wrappers
  import opened EnumReader

  // ---------------------------------------------------------------- braces in strings and comments

  function Weight(c: char): int {
    if c == '{' then 1 else if c == '}' then -1 else 0
  }

  /** Opening less closing braces in [k, p). */
  function Level(text: string, k: nat, p: nat): int
    requires p <= |text|
    decreases p - k
  {
    if k >= p then 0 else Weight(text[k]) + Level(text, k + 1, p)
  }

  /** The same for the braces outside strings and comments, */
  function OpenBraces(text: string, k: nat, p: nat): int
    requires p <= |text|
    decreases p - k
  {
    if k >= p then 0
    else if Quoting(text, k) then OpenBraces(text, LexemeEnd(text, k), p)
    else Weight(text[k]) + OpenBraces(text, k + 1, p)
  }

  /** and for those inside. */
  function QuotedBraces(text: string, k: nat, p: nat): int
    requires p <= |text|
    decreases p - k
  {
    if k >= p then 0
    else if Quoting(text, k) then
      var e := LexemeEnd(text, k);
      Level(text, k, if e < p then e else p) + QuotedBraces(text, e, p)
    else QuotedBraces(text, k + 1, p)
  }

  lemma {:induction false} LevelSplits(text: string, k: nat, m: nat, p: nat)
    requires k <= m <= p <= |text|
    ensures Level(text, k, p) == Level(text, k, m) + Level(text, m, p)
    decreases m - k
  {
    if k < m {
      LevelSplits(text, k + 1, m, p);
    }
  }

  lemma {:induction false} LevelIsSum(text: string, k: nat, p: nat)
    requires p <= |text|
    ensures Level(text, k, p) == OpenBraces(text, k, p) + QuotedBraces(text, k, p)
    decreases p - k
  {
    if k < p {
      if Quoting(text, k) {
        var e := LexemeEnd(text, k);
        LevelIsSum(text, e, p);
        LevelSplits(text, k, if e < p then e else p, p);
      } else {
        LevelIsSum(text, k + 1, p);
      }
    }
  }

  /** The count of all braces first comes back to zero at `e`, or never and `e` is the end of the text. */
  ghost predicate Closes(text: string, k: nat, depth: int, e: nat) {
    && k <= e <= |text|
    && (forall p: nat :: k < p < e ==> depth + Level(text, k, p) > 0)
    && (e == |text| || (k < e && depth + Level(text, k, e) == 0))
  }

  lemma {:induction false} RawBodyIff(text: string, k: nat, depth: int, e: nat)
    requires k <= |text| && depth >= 1
    ensures BodyEnd(text, k, depth, Raw) == e <==> Closes(text, k, depth, e)
    decreases |text| - k
  {
    if k < |text| {
      var depth' := depth + Weight(text[k]);
      assert forall p :: k < p <= |text| ==> Level(text, k, p) == Weight(text[k]) + Level(text, k + 1, p);
      if depth' == 0 {
        assert depth + Level(text, k, k + 1) == 0;
      } else {
        RawBodyIff(text, k + 1, depth', e);
        ClosesStep(text, k, depth, e);
      }
    }
  }

  lemma ClosesStep(text: string, k: nat, depth: int, e: nat)
    requires k < |text| && depth + Weight(text[k]) > 0
    ensures Closes(text, k, depth, e) <==> Closes(text, k + 1, depth + Weight(text[k]), e)
  {
    var depth' := depth + Weight(text[k]);
    assert forall p :: k < p <= |text| ==> Level(text, k, p) == Weight(text[k]) + Level(text, k + 1, p);
    if Closes(text, k + 1, depth', e) {
      forall p: nat | k < p < e ensures depth + Level(text, k, p) > 0 {
        assert p == k + 1 || depth' + Level(text, k + 1, p) > 0;
      }
    }
    if Closes(text, k, depth, e) {
      var k' := k + 1;
      forall p: nat | k' < p < e ensures depth' + Level(text, k', p) > 0 {
        assert depth + Level(text, k, p) > 0;
      }
      assert e == k + 1 ==> depth + Level(text, k, k + 1) == depth';
    }
  }

  /** No brace counts in front of the head's end. */
  lemma {:induction false} HeadIsLevel(text: string, j: nat, p: nat, how: Lexing)
    requires j <= |text| && HeadEnd(text, j, how) <= p <= |text|
    ensures how.Raw? ==> Level(text, j, p) == Level(text, HeadEnd(text, j, how), p)
    ensures how.Lexed? ==> OpenBraces(text, j, p) == OpenBraces(text, HeadEnd(text, j, how), p)
    decreases |text| - j
  {
    if j < |text| {
      if how.Lexed? && Quoting(text, j) {
        HeadIsLevel(text, LexemeEnd(text, j), p, how);
      } else if !IsDelimiter(text[j]) {
        HeadIsLevel(text, j + 1, p, how);
      }
    }
  }

  /** The lexed body ends where its own braces are balanced. */
  lemma {:induction false} LexedBodyBalanced(text: string, k: nat, depth: int)
    requires k <= |text|
    ensures var e := BodyEnd(text, k, depth, Lexed); e < |text| ==> depth + OpenBraces(text, k, e) == 0
    decreases |text| - k
  {
    if k < |text| {
      if Quoting(text, k) {
        LexedBodyBalanced(text, LexemeEnd(text, k), depth);
      } else if !(text[k] == '}' && depth == 1) {
        LexedBodyBalanced(text, k + 1, depth + Weight(text[k]));
      }
    }
  }

  /** The raw head end is never behind the lexed one. */
  lemma {:induction false} RawHeadFirst(text: string, j: nat)
    requires j <= |text|
    ensures HeadEnd(text, j, Raw) <= HeadEnd(text, j, Lexed)
    ensures forall q :: j <= q < HeadEnd(text, j, Raw) ==> !IsDelimiter(text[q])
    decreases |text| - j
  {
    RawHeadIsFirst(text, j, HeadEnd(text, j, Lexed));
  }

  lemma {:induction false} RawHeadIsFirst(text: string, j: nat, h: nat)
    requires j <= h <= |text| && (h < |text| ==> IsDelimiter(text[h]))
    ensures HeadEnd(text, j, Raw) <= h
    ensures forall q :: j <= q < HeadEnd(text, j, Raw) ==> !IsDelimiter(text[q])
    decreases |text| - j
  {
    if j < h && !IsDelimiter(text[j]) {
      RawHeadIsFirst(text, j + 1, h);
    }
  }

  /** What the delimiters inside the strings and comments of the enum behind `j` may do: the first delimiter
      of all opens a brace exactly if the head's end does; and inside the enum the quoted braces never bring
      the count to zero, and cancel out at its end. */
  ghost predicate Harmless(text: string, j: nat)
    requires j <= |text|
  {
    var h := HeadEnd(text, j, Raw);
    var opens := h < |text| && text[h] == '{';
    match EnumEnd(text, j, Lexed)
    case None => !opens
    case Some(e) =>
      && opens
      && StaysOpen(text, j, h, e)
      && (e == |text| || QuotedBraces(text, j, e) == 0)
  }

  /** Between `h` and `e` the open and the quoted braces together never come to zero. */
  ghost predicate StaysOpen(text: string, j: nat, h: nat, e: nat)
    requires e <= |text|
  {
    forall p: nat :: h < p < e ==> OpenBraces(text, j, p) + QuotedBraces(text, j, p) > 0
  }

  lemma ClosesFromHead(text: string, j: nat, e: nat)
    requires j <= |text|
    requires var h := HeadEnd(text, j, Raw); h < e <= |text| && text[h] == '{'
    ensures var h := HeadEnd(text, j, Raw);
            Closes(text, h + 1, 1, e) <==>
            StaysOpen(text, j, h, e) && (e == |text| || OpenBraces(text, j, e) + QuotedBraces(text, j, e) == 0)
  {
    var h := HeadEnd(text, j, Raw);
    var k := h + 1;
    forall p: nat | h < p <= e ensures SumAt(text, j, k, p) {
      HeadIsLevel(text, j, p, Raw);
      LevelIsSum(text, j, p);
    }
    assert SumAt(text, j, k, k) && Level(text, k, k) == 0;
    assert SumAt(text, j, k, e);
    if StaysOpen(text, j, h, e) {
      forall p: nat | k < p < e ensures 1 + Level(text, k, p) > 0 {
        assert SumAt(text, j, k, p) && OpenBraces(text, j, p) + QuotedBraces(text, j, p) > 0;
      }
    }
    if Closes(text, k, 1, e) {
      forall p: nat | h < p < e ensures OpenBraces(text, j, p) + QuotedBraces(text, j, p) > 0 {
        assert SumAt(text, j, k, p);
      }
    }
  }

  /** Behind an opening brace in front of `k`, the count of all braces is that of open and quoted ones. */
  ghost predicate SumAt(text: string, j: nat, k: nat, p: nat)
    requires p <= |text|
  {
    1 + Level(text, k, p) == OpenBraces(text, j, p) + QuotedBraces(text, j, p)
  }

  /** The two readings of an enum's end agree if and only if the delimiters inside its strings and comments
      are harmless. */
  lemma EnumEndsAgreeIff(text: string, j: nat)
    requires j <= |text|
    ensures EnumEnd(text, j, Raw) == EnumEnd(text, j, Lexed) <==> Harmless(text, j)
  {
    hide Closes, OpenBraces, QuotedBraces, BodyEnd;
    RawHeadFirst(text, j);
    var h, h' := HeadEnd(text, j, Raw), HeadEnd(text, j, Lexed);
    if h < |text| && text[h] == '{' && EnumEnd(text, j, Lexed).Some? {
      var e := EnumEnd(text, j, Lexed).value;
      FirstBrace(text, h);
      FirstBrace(text, h');
      RawBodyIff(text, h + 1, 1, e);
      ClosesFromHead(text, j, e);
      if e < |text| {
        HeadIsLevel(text, j, e, Lexed);
        LexedBodyBalanced(text, h', 0);
      }
    }
  }

  lemma FirstBrace(text: string, h: nat)
    requires h < |text| && text[h] == '{'
    ensures BodyEnd(text, h, 0, Raw) == BodyEnd(text, h + 1, 1, Raw)
    ensures h < BodyEnd(text, h, 0, Lexed)
  { }

  /** The first brace or semicolon of all, at `h`, opens a body. */
  predicate OpensAt(text: string, j: nat, h: nat) {
    && j <= h < |text| && text[h] == '{'
    && forall q :: j <= q < h ==> text[q] != '{' && text[q] != '}' && text[q] != ';'
  }

  /** To the source, an enum opens at the first brace or semicolon behind its keyword, if that is an opening
      brace, and ends where the braces from there on first cancel out, or with the text. */
  lemma RawEnumEndIff(text: string, j: nat, e: nat)
    requires j <= |text|
    ensures EnumEnd(text, j, Raw) == Some(e) <==> exists h: nat :: OpensAt(text, j, h) && Closes(text, h + 1, 1, e)
  {
    var h := HeadEnd(text, j, Raw);
    RawHeadFirst(text, j);
    if h < |text| && text[h] == '{' {
      FirstBrace(text, h);
      RawBodyIff(text, h + 1, 1, e);
      assert OpensAt(text, j, h);
    }
    forall h': nat | OpensAt(text, j, h') ensures h' == h {
      RawHeadIsFirst(text, j, h');
    }
  }

  // ---------------------------------------------------------------- a simple case

  /** No string or comment that begins in [i, e) holds a brace or semicolon. */
  ghost predicate NothingQuoted(text: string, i: nat, e: nat)
    requires i <= |text|
    decreases |text| - i
  {
    i < e && i < |text| ==>
      && (Quoting(text, i) ==> forall q :: i <= q < LexemeEnd(text, i) ==> !IsDelimiter(text[q]))
      && NothingQuoted(text, if Quoting(text, i) then LexemeEnd(text, i) else i + 1, e)
  }

  lemma NothingQuotedIsHarmless(text: string, j: nat)
    requires j <= |text|
    requires NothingQuoted(text, j, match EnumEnd(text, j, Lexed)
                                    case Some(e) => e
                                    case None => HeadEnd(text, j, Lexed))
    ensures Harmless(text, j)
  {
    var h := HeadEnd(text, j, Lexed);
    if EnumEnd(text, j, Lexed).Some? {
      var e := EnumEnd(text, j, Lexed).value;
      SameHead(text, j, e);
      SameBody(text, h, 0, e);
    } else {
      SameHead(text, j, h);
    }
    EnumEndsAgreeIff(text, j);
  }

  lemma {:induction false} SkipsQuoted(text: string, j: nat, e: nat)
    requires j <= e <= |text| && forall q :: j <= q < e ==> !IsDelimiter(text[q])
    ensures HeadEnd(text, j, Raw) == HeadEnd(text, e, Raw)
    ensures forall depth: int :: BodyEnd(text, j, depth, Raw) == BodyEnd(text, e, depth, Raw)
    decreases e - j
  {
    if j < e {
      SkipsQuoted(text, j + 1, e);
    }
  }

  lemma {:induction false} SameHead(text: string, j: nat, e: nat)
    requires j <= |text| && HeadEnd(text, j, Lexed) <= e && NothingQuoted(text, j, e)
    ensures HeadEnd(text, j, Raw) == HeadEnd(text, j, Lexed)
    ensures NothingQuoted(text, HeadEnd(text, j, Lexed), e)
    decreases |text| - j
  {
    if j < |text| && j < e {
      if Quoting(text, j) {
        SkipsQuoted(text, j, LexemeEnd(text, j));
        SameHead(text, LexemeEnd(text, j), e);
      } else if !IsDelimiter(text[j]) {
        SameHead(text, j + 1, e);
      }
    }
  }

  lemma {:induction false} SameBody(text: string, k: nat, depth: int, e: nat)
    requires k <= |text| && e == BodyEnd(text, k, depth, Lexed) && NothingQuoted(text, k, e)
    ensures BodyEnd(text, k, depth, Raw) == e
    decreases |text| - k
  {
    if k < |text| {
      if Quoting(text, k) {
        SkipsQuoted(text, k, LexemeEnd(text, k));
        SameBody(text, LexemeEnd(text, k), depth, e);
      } else if !(text[k] == '}' && depth == 1) {
        SameBody(text, k + 1, depth + Weight(text[k]), e);
      }
    }
  }
}
