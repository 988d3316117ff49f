/** Where the source's reading of enums in class bodies is right. The two readings of a text are followed side
    by side; they find the same enums and errors exactly if they judge every word `enum` alike, and they do
    so in particular if the words `class` and `enum` are used as keywords only. `EnumWitnesses` holds texts
    on which they differ. */
module EnumPlacement {
  import opened Wrappers
  import opened EnumReader
  import opened QuotedBraces

  // ---------------------------------------------------------------- one word `enum`

  predicate AtEnum(text: string, i: nat) {
    i < |text| && IsWord(text[i]) && WordAt(text, i) == "enum"
  }

  /** What the reader makes of the word `enum` at `i`. */
  function Verdict(text: string, i: nat, c: Context, how: Lexing): Option<Finding>
    requires AtEnum(text, i)
  {
    var e := RunEnd(text, i);
    if !c.InClassBody() || (how.Lexed? && Glued(text, i, e)) then None
    else
      match EnumAt(text, e, c, how)
      case None => None
      case Some(k) =>
        match c.mods
        case None => Some(Hoist(i, k))
        case Some(Modifiers(start, words)) => Some(Misplaced(i, start, k, words, EnumName(text, e)))
  }

  lemma ReadIsVerdict(text: string, i: nat, c: Context, how: Lexing)
    requires AtEnum(text, i)
    ensures var m, v := Read(text, i, c, how), Verdict(text, i, c, how);
            && m.found == v
            && (v.None? ==> m.end == RunEnd(text, i) && m.ctx.mods.None?)
            && (v.Some? ==> m.end == v.value.end)
  {
    assert Read(text, i, c, how) == ReadWord(text, i, c, how);
    hide Read, EnumAt, EnumName, IsModifier, Glued, Announced, RunEnd;
  }

  /** The word `enum` at `i` is judged alike. If it declares an enum directly inside a class body, the source
      must take the innermost brace for a class body too, the same modifiers must be pending, and the
      delimiters in the enum's strings and comments must be harmless. If not, the source must take the
      innermost brace for another one, or see no brace behind the word. */
  ghost predicate Placed(text: string, i: nat, ctx: Context, pl: Context)
    requires AtEnum(text, i)
  {
    var e := RunEnd(text, i);
    if pl.InClassBody() && !Glued(text, i, e) && EnumAt(text, e, pl, Lexed).Some? then
      ctx.InClassBody() && ctx.mods == pl.mods && Harmless(text, e)
    else
      !ctx.InClassBody() || EnumEnd(text, e, Raw).None?
  }

  lemma VerdictsAgreeIff(text: string, i: nat, ctx: Context, pl: Context)
    requires AtEnum(text, i)
    ensures Verdict(text, i, ctx, Raw) == Verdict(text, i, pl, Lexed) <==> Placed(text, i, ctx, pl)
  {
    hide Harmless, Declares, EnumEnd, EnumName;
    EnumEndsAgreeIff(text, RunEnd(text, i));
  }

  // ---------------------------------------------------------------- the whole text

  /** Both readings followed through the text, the source's from `r` and the lexed one from `i`, always moving
      the one that is behind. Where both stand at a word `enum` they judge it alike. Where one stands alone,
      behind a line comment whose end they do not agree on, it finds nothing. */
  ghost predicate AllPlaced(text: string, r: nat, ctx: Context, i: nat, pl: Context)
    decreases Remaining(text, r) + Remaining(text, i)
  {
    if r < i then
      r < |text| ==>
        var m := Read(text, r, ctx, Raw); m.found.None? && AllPlaced(text, m.end, m.ctx, i, pl)
    else
      i < |text| ==>
        var m' := Read(text, i, pl, Lexed);
        if i < r then m'.found.None? && AllPlaced(text, r, ctx, m'.end, m'.ctx)
        else
          && (AtEnum(text, i) ==> Placed(text, i, ctx, pl))
          && AllPlaced(text, Read(text, i, ctx, Raw).end, Read(text, i, ctx, Raw).ctx, m'.end, m'.ctx)
  }

  function Remaining(text: string, i: nat): nat {
    if i < |text| then |text| - i else 0
  }

  lemma ScanStep(text: string, i: nat, c: Context, how: Lexing)
    requires i < |text|
    ensures var m := Read(text, i, c, how); Scan(text, i, c, how) == Listed(m.found) + Scan(text, m.end, m.ctx, how)
  { }

  /** What is found from `i` on stands there or behind. */
  ghost predicate From(fs: seq<Finding>, i: nat) {
    fs == [] || i <= fs[0].Keyword()
  }

  lemma KeywordHere(text: string, i: nat, c: Context, how: Lexing)
    requires i < |text|
    ensures var m := Read(text, i, c, how); m.found.Some? ==> m.found.value.Keyword() == i && AtEnum(text, i)
  {
    hide EnumAt, Announced, EnumName, IsModifier, Glued;
  }

  lemma {:induction false} ScanFrom(text: string, i: nat, c: Context, how: Lexing)
    ensures From(Scan(text, i, c, how), i)
    decreases Remaining(text, i)
  {
    hide Read;
    if i < |text| {
      var m := Read(text, i, c, how);
      KeywordHere(text, i, c, how);
      ScanStep(text, i, c, how);
      ScanFrom(text, m.end, m.ctx, how);
      var rest := Scan(text, m.end, m.ctx, how);
      assert m.found.Some? ==> (Listed(m.found) + rest)[0] == m.found.value;
      assert [] + rest == rest;
    }
  }

  /** A finding in front of all others is none of them. */
  lemma Differ(f: Option<Finding>, rest: seq<Finding>, other: seq<Finding>, i: nat)
    requires (f.Some? ==> f.value.Keyword() == i) && From(other, i + 1)
    ensures Listed(f) + rest == other <==> f.None? && rest == other
  {
    if f.Some? {
      assert (Listed(f) + rest)[0] == f.value;
    } else {
      assert Listed(f) + rest == rest;
    }
  }

  /** Two findings at one place, with more behind them. */
  lemma Compare(f: Option<Finding>, rest: seq<Finding>, g: Option<Finding>, other: seq<Finding>, i: nat)
    requires (f.Some? ==> f.value.Keyword() == i) && (g.Some? ==> g.value.Keyword() == i)
    requires From(rest, i + 1) && From(other, i + 1)
    ensures Listed(f) + rest == Listed(g) + other <==> f == g && rest == other
  {
    if f.None? {
      Differ(g, other, rest, i);
      assert Listed(f) + rest == rest;
    } else if g.None? {
      Differ(f, rest, other, i);
      assert Listed(g) + other == other;
    } else {
      var a, b := Listed(f) + rest, Listed(g) + other;
      assert a[0] == f.value && b[0] == g.value && a[1..] == rest && b[1..] == other;
    }
  }

  /** Where both stand at `i` they find the same there exactly if it is not a word `enum` judged differently. */
  lemma SameFound(text: string, i: nat, ctx: Context, pl: Context)
    requires i < |text|
    ensures Read(text, i, ctx, Raw).found == Read(text, i, pl, Lexed).found <==>
            (AtEnum(text, i) ==> Placed(text, i, ctx, pl))
  {
    KeywordHere(text, i, ctx, Raw);
    KeywordHere(text, i, pl, Lexed);
    hide Read, Placed;
    if AtEnum(text, i) {
      VerdictsAgreeIff(text, i, ctx, pl);
      ReadIsVerdict(text, i, ctx, Raw);
      ReadIsVerdict(text, i, pl, Lexed);
    }
  }

  /** The source finds the enums and errors of the lexed reading if and only if the two judge every word
      `enum` alike. */
  lemma {:induction false} ReadingsAgreeIff(text: string, r: nat, ctx: Context, i: nat, pl: Context)
    ensures Scan(text, r, ctx, Raw) == Scan(text, i, pl, Lexed) <==> AllPlaced(text, r, ctx, i, pl)
    decreases Remaining(text, r) + Remaining(text, i)
  {
    hide Read, Placed, AtEnum, From;
    var raw, lexed := Scan(text, r, ctx, Raw), Scan(text, i, pl, Lexed);
    if r < i && r < |text| {
      var m := Read(text, r, ctx, Raw);
      ReadingsAgreeIff(text, m.end, m.ctx, i, pl);
      ScanFrom(text, i, pl, Lexed);
      StepAlone(text, r, ctx, Raw, i, lexed);
    } else if i < r && i < |text| {
      var m' := Read(text, i, pl, Lexed);
      ReadingsAgreeIff(text, r, ctx, m'.end, m'.ctx);
      ScanFrom(text, r, ctx, Raw);
      StepAlone(text, i, pl, Lexed, r, raw);
    } else if i < |text| {
      var m, m' := Read(text, i, ctx, Raw), Read(text, i, pl, Lexed);
      ReadingsAgreeIff(text, m.end, m.ctx, m'.end, m'.ctx);
      SameFound(text, i, ctx, pl);
      StepTogether(text, i, ctx, pl);
    }
  }

  lemma StepAlone(text: string, i: nat, c: Context, how: Lexing, r: nat, other: seq<Finding>)
    requires i < |text| && i < r && From(other, r)
    ensures var m := Read(text, i, c, how);
            Scan(text, i, c, how) == other <==> m.found.None? && Scan(text, m.end, m.ctx, how) == other
  {
    KeywordHere(text, i, c, how);
    ScanStep(text, i, c, how);
    hide Read, Scan;
    var m := Read(text, i, c, how);
    Differ(m.found, Scan(text, m.end, m.ctx, how), other, i);
  }

  lemma StepTogether(text: string, i: nat, ctx: Context, pl: Context)
    requires i < |text|
    ensures var m, m' := Read(text, i, ctx, Raw), Read(text, i, pl, Lexed);
            Scan(text, i, ctx, Raw) == Scan(text, i, pl, Lexed) <==>
            m.found == m'.found && Scan(text, m.end, m.ctx, Raw) == Scan(text, m'.end, m'.ctx, Lexed)
  {
    KeywordHere(text, i, ctx, Raw);
    KeywordHere(text, i, pl, Lexed);
    ScanStep(text, i, ctx, Raw);
    ScanStep(text, i, pl, Lexed);
    hide Read, Scan;
    var m, m' := Read(text, i, ctx, Raw), Read(text, i, pl, Lexed);
    ScanFrom(text, m.end, m.ctx, Raw);
    ScanFrom(text, m'.end, m'.ctx, Lexed);
    Compare(m.found, Scan(text, m.end, m.ctx, Raw), m'.found, Scan(text, m'.end, m'.ctx, Lexed), i);
  }

  ghost predicate WellPlaced(text: string) {
    AllPlaced(text, 0, START, 0, START)
  }

  lemma SameFindingsIff(text: string)
    ensures Scan(text, 0, START, Raw) == Scan(text, 0, START, Lexed) <==> WellPlaced(text)
  {
    hide Scan, AllPlaced;
    ReadingsAgreeIff(text, 0, START, 0, START);
  }

  /** In a text whose enums are judged alike, the source hoists exactly what the lexed reading finds: an enum
      declared directly inside a class body with no modifier pending, up to the brace that closes it. */
  lemma HoistedIff(text: string, s: nat, e: nat)
    requires WellPlaced(text)
    ensures Hoist(s, e) in Scan(text, 0, START, Raw) <==> exists c :: HoistsAt(text, c, s, e, Lexed)
  {
    SameFindingsIff(text);
    HoistedAs(text, s, e, Lexed);
  }

  lemma MisplacedIff(text: string, x: Finding)
    requires WellPlaced(text) && x.Misplaced?
    ensures x in Scan(text, 0, START, Raw) <==> exists c :: ReportsAt(text, c, x, Lexed)
  {
    SameFindingsIff(text);
    MisplacedAs(text, x, Lexed);
  }

  // ---------------------------------------------------------------- keywords used as keywords

  /** The first opening brace outside strings and comments from `i` on. */
  function NextOpen(text: string, i: nat): Option<nat>
    decreases if i < |text| then |text| - i else 0
  {
    if i >= |text| then None
    else if Quoting(text, i) then NextOpen(text, LexemeEnd(text, i))
    else if text[i] == '{' then Some(i)
    else NextOpen(text, i + 1)
  }

  /** The next opening brace is one that opens a class body. */
  predicate ClassOpensNext(text: string, i: nat, pl: Context) {
    NextOpen(text, i).Some? && NextOpen(text, i).value in pl.bodies
  }

  /** A word stands for itself; `class` is the keyword, with no brace between it and the class body; and
      `enum` in a class body declares an enum that is harmless and lies in no class head. */
  ghost predicate PlainWord(text: string, i: nat, pl: Context)
    requires i < |text| && IsWord(text[i])
  {
    var e, word := RunEnd(text, i), WordAt(text, i);
    && !Glued(text, i, e)
    && (word == "class" ==> NextOpen(text, e).Some? && ClassBody(text, e, pl) == NextOpen(text, e))
    && (word == "enum" && pl.InClassBody() ==>
          EnumAt(text, e, pl, Lexed).Some? && Harmless(text, e) && !ClassOpensNext(text, i, pl))
  }

  predicate LineComment(text: string, i: nat) {
    i + 1 < |text| && text[i] == '/' && text[i + 1] == '/'
  }

  /** All words that the lexed reading meets are plain, and all line comments end with a line feed. */
  ghost predicate PlainFrom(text: string, i: nat, pl: Context)
    decreases if i < |text| then |text| - i else 0
  {
    i < |text| ==>
      && (IsWord(text[i]) ==> PlainWord(text, i, pl))
      && (LineComment(text, i) ==> LineEnd(text, i + 2, Raw) == LineEnd(text, i + 2, Lexed))
      && PlainFrom(text, Read(text, i, pl, Lexed).end, Read(text, i, pl, Lexed).ctx)
  }

  /** The two readings know the same. */
  ghost predicate Alike(text: string, i: nat, ctx: Context, pl: Context) {
    && ctx.braces == pl.braces && ctx.mods == pl.mods
    && (ctx.pendingClass <==> ClassOpensNext(text, i, pl))
    && forall b :: b in pl.bodies && b >= i ==> NextOpen(text, i) == Some(b)
  }

  lemma {:induction false} NextOpenBehindWord(text: string, i: nat)
    requires i <= |text|
    ensures NextOpen(text, i) == NextOpen(text, RunEnd(text, i))
    decreases |text| - i
  {
    if i < |text| && IsWord(text[i]) {
      NextOpenBehindWord(text, i + 1);
    }
  }

  lemma AlikeWord(text: string, i: nat, ctx: Context, pl: Context)
    requires i < |text| && IsWord(text[i]) && PlainWord(text, i, pl) && Alike(text, i, ctx, pl)
    ensures AtEnum(text, i) ==> Placed(text, i, ctx, pl)
    ensures var m, m' := Read(text, i, ctx, Raw), Read(text, i, pl, Lexed);
            m.end == m'.end && Alike(text, m.end, m.ctx, m'.ctx)
  {
    assert Read(text, i, ctx, Raw) == ReadWord(text, i, ctx, Raw);
    assert Read(text, i, pl, Lexed) == ReadWord(text, i, pl, Lexed);
    NextOpenBehindWord(text, i);
    hide Read, ReadWord, NextOpen, Alike, Placed, PlainWord;
    if AtEnum(text, i) {
      AlikeEnum(text, i, ctx, pl);
    } else {
      AlikeOther(text, i, ctx, pl);
    }
  }

  lemma AlikeEnum(text: string, i: nat, ctx: Context, pl: Context)
    requires AtEnum(text, i) && PlainWord(text, i, pl) && Alike(text, i, ctx, pl)
    requires NextOpen(text, i) == NextOpen(text, RunEnd(text, i))
    ensures Placed(text, i, ctx, pl)
    ensures var m, m' := ReadWord(text, i, ctx, Raw), ReadWord(text, i, pl, Lexed);
            m.end == m'.end && Alike(text, m.end, m.ctx, m'.ctx)
  {
    hide NextOpen, Harmless, EnumName, IsModifier, Announced, Declares, EnumEnd, Glued;
    var e := RunEnd(text, i);
    EnumEndsAgreeIff(text, e);
    if pl.InClassBody() {
      NotAnnouncedLater(text, i, EnumAt(text, e, pl, Lexed).value, pl);
    }
  }

  lemma AlikeOther(text: string, i: nat, ctx: Context, pl: Context)
    requires i < |text| && IsWord(text[i]) && !AtEnum(text, i) && PlainWord(text, i, pl) && Alike(text, i, ctx, pl)
    requires NextOpen(text, i) == NextOpen(text, RunEnd(text, i))
    ensures var m, m' := ReadWord(text, i, ctx, Raw), ReadWord(text, i, pl, Lexed);
            m.end == m'.end && Alike(text, m.end, m.ctx, m'.ctx)
  {
    hide NextOpen, Harmless, EnumName, IsModifier, IsClassKeyword, EnumAt, Glued, ClassBody, RunEnd;
  }

  /** Behind an enum that lies in no class head, no announced body is left. */
  lemma NotAnnouncedLater(text: string, i: nat, k: nat, pl: Context)
    requires i <= k && !ClassOpensNext(text, i, pl)
    requires forall b :: b in pl.bodies && b >= i ==> NextOpen(text, i) == Some(b)
    ensures !ClassOpensNext(text, k, pl) && forall b :: b in pl.bodies ==> b < i
  {
    NextOpenFrom(text, k);
  }

  lemma {:induction false} NextOpenFrom(text: string, k: nat)
    ensures NextOpen(text, k).Some? ==> k <= NextOpen(text, k).value
    decreases if k < |text| then |text| - k else 0
  {
    if k < |text| {
      NextOpenFrom(text, if Quoting(text, k) then LexemeEnd(text, k) else k + 1);
    }
  }

  lemma AlikeChar(text: string, i: nat, ctx: Context, pl: Context)
    requires i < |text| && !IsWord(text[i]) && Alike(text, i, ctx, pl)
    requires LineComment(text, i) ==> LineEnd(text, i + 2, Raw) == LineEnd(text, i + 2, Lexed)
    ensures var m, m' := Read(text, i, ctx, Raw), Read(text, i, pl, Lexed);
            m.end == m'.end && Alike(text, m.end, m.ctx, m'.ctx)
  {
    var m, m' := Read(text, i, ctx, Raw), Read(text, i, pl, Lexed);
    if text[i] == '{' {
      NextOpenFrom(text, i + 1);
      assert NextOpen(text, i) == Some(i);
    } else {
      NextOpenBehind(text, i, pl);
      hide NextOpen, StringEnd, LineEnd, BlockEnd;
      assert m.end == m'.end && m.ctx.pendingClass == ctx.pendingClass && m'.ctx.bodies == pl.bodies;
    }
  }

  lemma NextOpenBehind(text: string, i: nat, pl: Context)
    requires i < |text| && !IsWord(text[i]) && text[i] != '{'
    ensures NextOpen(text, Read(text, i, pl, Lexed).end) == NextOpen(text, i)
  {
    hide StringEnd, LineEnd, BlockEnd;
    if Quoting(text, i) {
      var end := Read(text, i, pl, Lexed).end;
      assert LexemeEnd(text, i) == if end <= |text| then end else |text|;
      assert NextOpen(text, |text|) == None;
    }
  }

  lemma {:induction false} PlainIsPlaced(text: string, i: nat, ctx: Context, pl: Context)
    requires PlainFrom(text, i, pl) && Alike(text, i, ctx, pl)
    ensures AllPlaced(text, i, ctx, i, pl)
    decreases Remaining(text, i)
  {
    hide Read, Alike, Placed, PlainWord, AtEnum, LineComment, LineEnd;
    if i < |text| {
      if IsWord(text[i]) {
        AlikeWord(text, i, ctx, pl);
      } else {
        NoEnumHere(text, i);
        AlikeChar(text, i, ctx, pl);
      }
      PlainIsPlaced(text, Read(text, i, pl, Lexed).end, Read(text, i, ctx, Raw).ctx, Read(text, i, pl, Lexed).ctx);
    }
  }

  lemma NoEnumHere(text: string, i: nat)
    requires i < |text| && !IsWord(text[i])
    ensures !AtEnum(text, i)
  { }

  /** If every word `class` is the keyword and no brace stands between it and its body, every `enum` in a
      class body declares a harmless enum, and line comments end with line feeds, the source's reading is the
      lexed one. */
  lemma PlainTextIsWellPlaced(text: string)
    requires PlainFrom(text, 0, START)
    ensures WellPlaced(text)
  {
    PlainIsPlaced(text, 0, START, START);
  }
}
