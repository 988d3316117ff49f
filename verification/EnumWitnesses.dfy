/** Texts of which the source moves something else than the enums declared directly inside class bodies. Each
    is read token by token in both readings. */
module EnumWitnesses {
  import opened Wrappers
  import opened EnumReader
  import opened QuotedBraces
  import opened EnumPlacement

  // ---------------------------------------------------------------- single steps

  /** Behind `i` the reader finds `rest`. */
  ghost predicate Finds(text: string, i: nat, c: Context, how: Lexing, rest: seq<Finding>) {
    Scan(text, i, c, how) == rest
  }

  /** The reader has found `fs` and stands at `i` in context `c`. */
  ghost predicate Reads(text: string, fs: seq<Finding>, i: nat, c: Context, how: Lexing) {
    c.mods.None? && exists rest {:trigger Finds(text, i, c, how, rest)} ::
      Finds(text, i, c, how, rest) && Scan(text, 0, START, how) == fs + rest
  }

  lemma ReadsStart(text: string, how: Lexing)
    ensures Reads(text, [], 0, START, how)
  {
    var all := Scan(text, 0, START, how);
    assert Finds(text, 0, START, how, all) && all == [] + all;
  }

  lemma ReadsEnd(text: string, fs: seq<Finding>, c: Context, how: Lexing)
    requires Reads(text, fs, |text|, c, how)
    ensures Scan(text, 0, START, how) == fs
  {
    assert Finds(text, |text|, c, how, []) && fs + [] == fs;
  }

  lemma Step(text: string, fs: seq<Finding>, i: nat, c: Context, how: Lexing, m: Move)
    requires Reads(text, fs, i, c, how) && i < |text| && Read(text, i, c, how) == m && m.ctx.mods.None?
    ensures Reads(text, fs + Listed(m.found), m.end, m.ctx, how)
  {
    ScanStep(text, i, c, how);
    hide Read, Scan;
    var rest := Scan(text, m.end, m.ctx, how);
    assert Finds(text, m.end, m.ctx, how, rest);
    assert fs + (Listed(m.found) + rest) == (fs + Listed(m.found)) + rest;
  }

  /** A step that finds nothing. */
  lemma QuietStep(text: string, fs: seq<Finding>, i: nat, c: Context, how: Lexing, j: nat, d: Context)
    requires Reads(text, fs, i, c, how) && i < |text| && Read(text, i, c, how) == Move(j, d, None) && d.mods.None?
    ensures Reads(text, fs, j, d, how)
  {
    Step(text, fs, i, c, how, Move(j, d, None));
    assert fs + [] == fs;
  }

  predicate IsPoint(ch: char) {
    ch == ':' || ch == ';' || ch == '(' || ch == ')' || ch == '<' || ch == '>' || ch == '*'
  }

  lemma PointIs(ch: char)
    requires IsPoint(ch)
    ensures !IsWord(ch) && !IsQuote(ch) && !IsSpace(ch) && ch != '/' && ch != '{' && ch != '}'
  { }

  lemma PointRead(text: string, i: nat, c: Context, how: Lexing)
    requires i < |text| && IsPoint(text[i]) && c.mods.None?
    ensures Read(text, i, c, how) == Move(i + 1, c.Behind(text[i], how), None)
  {
    PointIs(text[i]);
    hide IsWord, IsQuote, IsSpace, ReadWord, StringEnd, LineEnd, BlockEnd, IsPoint;
    assert c.Quiet() == c;
  }

  lemma PointStep(text: string, fs: seq<Finding>, i: nat, c: Context, how: Lexing)
    requires Reads(text, fs, i, c, how) && i < |text| && IsPoint(text[i])
    ensures Reads(text, fs, i + 1, c.Behind(text[i], how), how)
  {
    assert c.mods.None?;
    hide *;
    PointRead(text, i, c, how);
    QuietStep(text, fs, i, c, how, i + 1, c.Behind(text[i], how));
  }

  /** A slash that begins no comment. */
  lemma SlashStep(text: string, fs: seq<Finding>, i: nat, c: Context, how: Lexing)
    requires Reads(text, fs, i, c, how) && i + 1 < |text| && text[i] == '/' && text[i + 1] == '}'
    ensures Reads(text, fs, i + 1, c.Behind('/', how), how)
  {
    assert c.Quiet() == c;
    assert Read(text, i, c, how) == Move(i + 1, c.Behind('/', how), None) by {
      hide ReadWord, StringEnd, LineEnd, BlockEnd, Reads;
    }
    hide *;
    QuietStep(text, fs, i, c, how, i + 1, c.Behind('/', how));
  }

  predicate IsBlank(ch: char) {
    ch == ' ' || ch == '\n' || ch == '\r'
  }

  lemma BlankIs(ch: char)
    requires IsBlank(ch)
    ensures !IsWord(ch) && !IsQuote(ch) && IsSpace(ch) && ch != '/' && ch != '{' && ch != '}'
  { }

  lemma BlankRead(text: string, i: nat, c: Context, how: Lexing)
    requires i < |text| && IsBlank(text[i])
    ensures Read(text, i, c, how) == Move(i + 1, c, None)
  {
    BlankIs(text[i]);
    hide IsWord, IsQuote, IsSpace, ReadWord, StringEnd, LineEnd, BlockEnd, IsBlank;
  }

  lemma SpaceStep(text: string, fs: seq<Finding>, i: nat, c: Context, how: Lexing)
    requires Reads(text, fs, i, c, how) && i < |text| && IsBlank(text[i])
    ensures Reads(text, fs, i + 1, c, how)
  {
    assert c.mods.None?;
    hide *;
    BlankRead(text, i, c, how);
    QuietStep(text, fs, i, c, how, i + 1, c);
  }

  lemma OpenStep(text: string, fs: seq<Finding>, i: nat, c: Context, how: Lexing, d: Context)
    requires Reads(text, fs, i, c, how) && i < |text| && text[i] == '{' && d == c.Opened(i, how).Behind('{', how)
    ensures Reads(text, fs, i + 1, d, how)
  {
    assert Read(text, i, c, how) == Move(i + 1, d, None) by {
      hide ReadWord, StringEnd, LineEnd, BlockEnd, Reads;
    }
    hide *;
    QuietStep(text, fs, i, c, how, i + 1, d);
  }

  lemma CloseStep(text: string, fs: seq<Finding>, i: nat, c: Context, how: Lexing, d: Context)
    requires Reads(text, fs, i, c, how) && i < |text| && text[i] == '}' && d == c.Closed().Behind('}', how)
    ensures Reads(text, fs, i + 1, d, how)
  {
    assert Read(text, i, c, how) == Move(i + 1, d, None) by {
      hide ReadWord, StringEnd, LineEnd, BlockEnd, Reads;
    }
    hide *;
    QuietStep(text, fs, i, c, how, i + 1, d);
  }

  predicate IsRun(text: string, i: nat, e: nat) {
    i < e < |text| && (forall k :: i <= k < e ==> IsWord(text[k])) && !IsWord(text[e])
  }

  /** The word stands at `i` as a token of its own. */
  predicate WordIs(text: string, i: nat, word: string) {
    IsRun(text, i, i + |word|) && text[i..i + |word|] == word && !Glued(text, i, i + |word|)
  }

  lemma RunIs(text: string, i: nat, word: string)
    requires WordIs(text, i, word)
    ensures IsWord(text[i]) && RunEnd(text, i) == i + |word| && WordAt(text, i) == word
  {
    RunCovers(text, i, i + |word|);
  }

  /** A word that means nothing where it stands. */
  lemma NameStep(text: string, fs: seq<Finding>, i: nat, word: string, c: Context, how: Lexing)
    requires Reads(text, fs, i, c, how) && WordIs(text, i, word) && word != "class"
    requires c.InClassBody() ==> |word| <= 2
    ensures Reads(text, fs, i + |word|, c.Behind(text[i + |word| - 1], how), how)
  {
    var d := c.Behind(text[i + |word| - 1], how);
    NameRead(text, i, word, c, how);
    assert c.Quiet() == c && d.mods.None?;
    hide *;
    QuietStep(text, fs, i, c, how, i + |word|, d);
  }

  lemma NameRead(text: string, i: nat, word: string, c: Context, how: Lexing)
    requires WordIs(text, i, word) && word != "class" && (c.InClassBody() ==> |word| <= 2)
    ensures i < |text| && i + |word| - 1 < |text|
    ensures var d := c.Quiet().Behind(text[i + |word| - 1], how);
            Read(text, i, c, how) == Move(i + |word|, d, None)
  {
    RunIs(text, i, word);
    ShortMeansNothing(word);
    assert Read(text, i, c, how) == ReadWord(text, i, c, how);
    hide Read, IsModifier, EnumAt, RunEnd, Glued, WordAt, IsRun;
  }

  lemma ShortMeansNothing(word: string)
    ensures |word| <= 2 ==> !IsModifier(word) && word != "enum"
  { }

  lemma ClassStep(text: string, fs: seq<Finding>, i: nat, c: Context, how: Lexing, d: Context)
    requires Reads(text, fs, i, c, how) && WordIs(text, i, "class") && d == Announced(text, i + 5, c, how)
    ensures Reads(text, fs, i + 5, d, how)
  {
    RunIs(text, i, "class");
    assert Read(text, i, c, how) == ReadWord(text, i, c, how) == Move(i + 5, d, None) by {
      hide IsModifier, EnumAt, RunEnd, Announced;
    }
    hide Read;
    QuietStep(text, fs, i, c, how, i + 5, d);
  }

  lemma EnumStep(text: string, fs: seq<Finding>, i: nat, c: Context, how: Lexing, k: nat)
    requires Reads(text, fs, i, c, how) && WordIs(text, i, "enum") && c.InClassBody()
    requires EnumAt(text, i + 4, c, how) == Some(k)
    ensures Reads(text, fs + [Hoist(i, k)], k, c.Behind('}', how), how)
  {
    var m := Move(k, c.Behind('}', how), Some(Hoist(i, k)));
    assert i < |text| && c.mods.None? && Listed(m.found) == [Hoist(i, k)] && m.ctx.mods.None?;
    EnumRead(text, i, c, how, k);
    hide *;
    Step(text, fs, i, c, how, m);
  }

  lemma EnumRead(text: string, i: nat, c: Context, how: Lexing, k: nat)
    requires WordIs(text, i, "enum") && c.InClassBody() && c.mods.None? && EnumAt(text, i + 4, c, how) == Some(k)
    ensures i < |text| && Read(text, i, c, how) == Move(k, c.Behind('}', how), Some(Hoist(i, k)))
  {
    RunIs(text, i, "enum");
    assert Read(text, i, c, how) == ReadWord(text, i, c, how);
    hide Read, IsModifier, EnumAt, RunEnd, Glued, WordAt, IsRun;
  }

  lemma NoEnumStep(text: string, fs: seq<Finding>, i: nat, c: Context, how: Lexing)
    requires Reads(text, fs, i, c, how) && WordIs(text, i, "enum") && EnumAt(text, i + 4, c, how) == None
    ensures Reads(text, fs, i + 4, c.Behind(text[i + 3], how), how)
  {
    RunIs(text, i, "enum");
    var d := c.Behind(text[i + 3], how);
    assert c.Quiet() == c;
    assert Read(text, i, c, how) == ReadWord(text, i, c, how) == Move(i + 4, d, None) by {
      hide IsModifier, EnumAt, RunEnd, Glued;
    }
    hide Read;
    QuietStep(text, fs, i, c, how, i + 4, d);
  }

  // ---------------------------------------------------------------- steps in either reading

  /** What the lexed reading knows, */
  function Known(braces: seq<bool>, bodies: set<nat>, last: char): Context {
    Context(braces, false, None, bodies, last)
  }

  /** and the raw one, `pending` behind a word `class`. */
  function Flags(braces: seq<bool>, pending: bool): Context {
    Context(braces, pending, None, {}, ';')
  }

  predicate Top(braces: seq<bool>) {
    braces != [] && braces[|braces| - 1]
  }

  /** A name of at most two characters, or, outside class bodies, of any length. */
  predicate NameRun(t: string, i: nat, e: nat) {
    i < e < |t| && WordIs(t, i, t[i..e]) && t[i..e] != "class"
  }

  lemma RawName(t: string, fs: seq<Finding>, i: nat, e: nat, braces: seq<bool>, pending: bool)
    requires Reads(t, fs, i, Flags(braces, pending), Raw) && NameRun(t, i, e) && (Top(braces) ==> e <= i + 2)
    ensures Reads(t, fs, e, Flags(braces, pending), Raw)
  {
    hide Reads, WordIs;
    NameStep(t, fs, i, t[i..e], Flags(braces, pending), Raw);
  }

  lemma LexedName(t: string, fs: seq<Finding>, i: nat, e: nat, braces: seq<bool>, bodies: set<nat>, a: char, b: char)
    requires Reads(t, fs, i, Known(braces, bodies, a), Lexed) && NameRun(t, i, e) && (Top(braces) ==> e <= i + 2)
    requires 0 < e <= |t| && t[e - 1] == b
    ensures Reads(t, fs, e, Known(braces, bodies, b), Lexed)
  {
    hide Reads, WordIs;
    NameStep(t, fs, i, t[i..e], Known(braces, bodies, a), Lexed);
  }

  lemma RawPoint(t: string, fs: seq<Finding>, i: nat, braces: seq<bool>, pending: bool)
    requires Reads(t, fs, i, Flags(braces, pending), Raw) && i < |t| && IsPoint(t[i])
    ensures Reads(t, fs, i + 1, Flags(braces, pending), Raw)
  {
    PointStep(t, fs, i, Flags(braces, pending), Raw);
  }

  lemma LexedPoint(t: string, fs: seq<Finding>, i: nat, braces: seq<bool>, bodies: set<nat>, a: char, b: char)
    requires Reads(t, fs, i, Known(braces, bodies, a), Lexed) && i < |t| && t[i] == b && IsPoint(b)
    ensures Reads(t, fs, i + 1, Known(braces, bodies, b), Lexed)
  {
    PointStep(t, fs, i, Known(braces, bodies, a), Lexed);
  }

  lemma RawOpen(t: string, fs: seq<Finding>, i: nat, braces: seq<bool>, pending: bool)
    requires Reads(t, fs, i, Flags(braces, pending), Raw) && i < |t| && t[i] == '{'
    ensures Reads(t, fs, i + 1, Flags(braces + [pending], false), Raw)
  {
    OpenStep(t, fs, i, Flags(braces, pending), Raw, Flags(braces + [pending], false));
  }

  lemma LexedOpen(t: string, fs: seq<Finding>, i: nat, braces: seq<bool>, bodies: set<nat>, a: char)
    requires Reads(t, fs, i, Known(braces, bodies, a), Lexed) && i < |t| && t[i] == '{'
    ensures Reads(t, fs, i + 1, Known(braces + [i in bodies], bodies, '{'), Lexed)
  {
    OpenStep(t, fs, i, Known(braces, bodies, a), Lexed, Known(braces + [i in bodies], bodies, '{'));
  }

  lemma RawClose(t: string, fs: seq<Finding>, i: nat, braces: seq<bool>, b: bool)
    requires Reads(t, fs, i, Flags(braces + [b], false), Raw) && i < |t| && t[i] == '}'
    ensures Reads(t, fs, i + 1, Flags(braces, false), Raw)
  {
    assert (braces + [b])[..|braces|] == braces;
    CloseStep(t, fs, i, Flags(braces + [b], false), Raw, Flags(braces, false));
  }

  lemma LexedClose(t: string, fs: seq<Finding>, i: nat, braces: seq<bool>, b: bool, bodies: set<nat>, a: char)
    requires Reads(t, fs, i, Known(braces + [b], bodies, a), Lexed) && i < |t| && t[i] == '}'
    ensures Reads(t, fs, i + 1, Known(braces, bodies, '}'), Lexed)
  {
    assert (braces + [b])[..|braces|] == braces;
    CloseStep(t, fs, i, Known(braces + [b], bodies, a), Lexed, Known(braces, bodies, '}'));
  }

  lemma RawClass(t: string, fs: seq<Finding>, i: nat, braces: seq<bool>)
    requires Reads(t, fs, i, Flags(braces, false), Raw) && WordIs(t, i, "class")
    ensures Reads(t, fs, i + 5, Flags(braces, true), Raw)
  {
    ClassStep(t, fs, i, Flags(braces, false), Raw, Flags(braces, true));
  }

  /** `class X{` opens a class body, */
  lemma LexedClass(t: string, fs: seq<Finding>, i: nat, braces: seq<bool>, bodies: set<nat>, a: char)
    requires Reads(t, fs, i, Known(braces, bodies, a), Lexed) && ClassHere(t, i)
    requires !Top(braces) && (a == '{' || a == ';')
    ensures Reads(t, fs, i + 5, Known(braces, bodies + {i + 7}, 's'), Lexed)
  {
    ShortClass(t, i + 5, Known(braces, bodies, a));
    hide Reads, WordIs, ClassBody;
    ClassStep(t, fs, i, Known(braces, bodies, a), Lexed, Known(braces, bodies + {i + 7}, 's'));
  }

  predicate ClassHere(t: string, i: nat) {
    && i + 8 < |t| && WordIs(t, i, "class") && t[i + 5] == ' ' && NameRun(t, i + 6, i + 7)
    && IsLetter(t[i + 6]) && t[i + 7] == '{'
  }

  /** and a member named `class` opens none. */
  lemma LexedMember(t: string, fs: seq<Finding>, i: nat, braces: seq<bool>, bodies: set<nat>)
    requires Reads(t, fs, i, Known(braces, bodies, '{'), Lexed) && WordIs(t, i, "class") && Top(braces)
    ensures Reads(t, fs, i + 5, Known(braces, bodies, 's'), Lexed)
  {
    hide Reads, WordIs;
    ClassStep(t, fs, i, Known(braces, bodies, '{'), Lexed, Known(braces, bodies, 's'));
  }

  /** `class X{`: the keyword, with its body at the brace. */
  lemma ShortClass(text: string, e: nat, c: Context)
    requires e + 2 < |text| && text[e] == ' ' && IsLetter(text[e + 1]) && text[e + 2] == '{'
    requires !c.NameFollows() && !c.AtMember()
    ensures ClassBody(text, e, c) == Some(e + 2)
  {
    assert SkipTrivia(text, e + 1) == e + 1;
    assert BodyBrace(text, e + 2, 0, 0) == Some(e + 2);
    assert BodyBrace(text, e + 1, 0, 0) == Some(e + 2);
  }

  /** `enum X{}`, in either reading. */
  lemma ShortEnum(text: string, e: nat, c: Context, how: Lexing)
    requires e + 3 < |text| && text[e] == ' ' && IsLetter(text[e + 1]) && text[e + 2] == '{' && text[e + 3] == '}'
    requires !c.NameFollows()
    ensures EnumAt(text, e, c, how) == Some(e + 4)
  {
    assert SkipTrivia(text, e + 1) == e + 1;
    assert NameEnd(text, e + 2) == e + 2 && NameEnd(text, e + 1) == e + 2;
    assert SkipTrivia(text, e + 2) == e + 2;
    assert HeadEnd(text, e + 1, how) == e + 2;
    assert HeadEnd(text, e, how) == e + 2;
    assert BodyEnd(text, e + 3, 1, how) == e + 4;
  }

  // ---------------------------------------------------------------- pieces of text

  lemma RawHead(t: string, fs: seq<Finding>, i: nat, braces: seq<bool>)
    requires Reads(t, fs, i, Flags(braces, false), Raw) && ClassHere(t, i)
    ensures Reads(t, fs, i + 8, Flags(braces + [true], false), Raw)
  {
    hide Reads, WordIs, NameRun, Flags;
    RawClass(t, fs, i, braces);
    SpaceStep(t, fs, i + 5, Flags(braces, true), Raw);
    RawName(t, fs, i + 6, i + 7, braces, true);
    RawOpen(t, fs, i + 7, braces, true);
  }

  lemma LexedHead(t: string, fs: seq<Finding>, i: nat, braces: seq<bool>, bodies: set<nat>, a: char)
    requires Reads(t, fs, i, Known(braces, bodies, a), Lexed) && ClassHere(t, i)
    requires !Top(braces) && (a == '{' || a == ';')
    ensures Reads(t, fs, i + 8, Known(braces + [true], bodies + {i + 7}, '{'), Lexed)
  {
    hide Reads, WordIs, NameRun, Known;
    var more := bodies + {i + 7};
    assert i + 7 in more;
    LexedClass(t, fs, i, braces, bodies, a);
    SpaceStep(t, fs, i + 5, Known(braces, more, 's'), Lexed);
    LexedName(t, fs, i + 6, i + 7, braces, more, 's', t[i + 6]);
    LexedOpen(t, fs, i + 7, braces, more, t[i + 6]);
  }

  /** `f(){` */
  predicate MethodHere(t: string, i: nat) {
    i + 4 < |t| && NameRun(t, i, i + 1) && t[i + 1] == '(' && t[i + 2] == ')' && t[i + 3] == '{'
  }

  lemma RawMethod(t: string, fs: seq<Finding>, i: nat, braces: seq<bool>, pending: bool)
    requires Reads(t, fs, i, Flags(braces, pending), Raw) && MethodHere(t, i)
    ensures Reads(t, fs, i + 4, Flags(braces + [pending], false), Raw)
  {
    hide Reads, NameRun, Flags;
    RawName(t, fs, i, i + 1, braces, pending);
    RawPoint(t, fs, i + 1, braces, pending);
    RawPoint(t, fs, i + 2, braces, pending);
    RawOpen(t, fs, i + 3, braces, pending);
  }

  lemma LexedMethod(t: string, fs: seq<Finding>, i: nat, braces: seq<bool>, bodies: set<nat>, a: char)
    requires Reads(t, fs, i, Known(braces, bodies, a), Lexed) && MethodHere(t, i) && i + 3 !in bodies
    ensures Reads(t, fs, i + 4, Known(braces + [false], bodies, '{'), Lexed)
  {
    hide Reads, NameRun, Known;
    LexedName(t, fs, i, i + 1, braces, bodies, a, t[i]);
    LexedPoint(t, fs, i + 1, braces, bodies, t[i], '(');
    LexedPoint(t, fs, i + 2, braces, bodies, '(', ')');
    LexedOpen(t, fs, i + 3, braces, bodies, ')');
  }

  /** `enum X{}` */
  predicate EnumHere(t: string, i: nat) {
    && i + 8 < |t| && WordIs(t, i, "enum") && NameRun(t, i, i + 4) && t[i + 4] == ' '
    && NameRun(t, i + 5, i + 6) && IsLetter(t[i + 5]) && t[i + 6] == '{' && t[i + 7] == '}'
  }

  /** Outside class bodies it is passed over, */
  lemma LexedPasses(t: string, fs: seq<Finding>, i: nat, braces: seq<bool>, bodies: set<nat>, a: char)
    requires Reads(t, fs, i, Known(braces, bodies, a), Lexed) && EnumHere(t, i) && !Top(braces) && i + 6 !in bodies
    ensures Reads(t, fs, i + 8, Known(braces, bodies, '}'), Lexed)
  {
    hide Reads, NameRun, Known, WordIs;
    LexedName(t, fs, i, i + 4, braces, bodies, a, t[i + 3]);
    SpaceStep(t, fs, i + 4, Known(braces, bodies, t[i + 3]), Lexed);
    LexedName(t, fs, i + 5, i + 6, braces, bodies, t[i + 3], t[i + 5]);
    LexedOpen(t, fs, i + 6, braces, bodies, t[i + 5]);
    LexedClose(t, fs, i + 7, braces, false, bodies, '{');
  }

  /** and in what is taken for a class body it is moved. */
  lemma RawMoves(t: string, fs: seq<Finding>, i: nat, braces: seq<bool>)
    requires Reads(t, fs, i, Flags(braces, false), Raw) && EnumHere(t, i) && Top(braces)
    ensures Hoist(i, i + 8) in Scan(t, 0, START, Raw)
  {
    ShortEnum(t, i + 4, Flags(braces, false), Raw);
    hide EnumAt, WordIs, Reads, Scan, NameRun;
    EnumStep(t, fs, i, Flags(braces, false), Raw, i + 8);
    FoundLast(t, fs, Hoist(i, i + 8), i + 8, Flags(braces, false).Behind('}', Raw));
  }

  lemma FoundLast(t: string, fs: seq<Finding>, x: Finding, i: nat, c: Context)
    requires Reads(t, fs + [x], i, c, Raw)
    ensures x in Scan(t, 0, START, Raw)
  {
    assert (fs + [x])[|fs|] == x;
  }

  /** The end of a method and of a class end the text. */
  lemma LexedEnds(t: string, fs: seq<Finding>, i: nat, bodies: set<nat>, a: char)
    requires i + 2 == |t| && t[i] == '}' && t[i + 1] == '}'
    requires Reads(t, fs, i, Known([] + [true] + [false], bodies, a), Lexed)
    ensures Scan(t, 0, START, Lexed) == fs
  {
    hide Reads, Scan, Known;
    var inC := [] + [true];
    LexedClose(t, fs, i, inC, false, bodies, a);
    LexedClose(t, fs, i + 1, [], true, bodies, '}');
    ReadsEnd(t, fs, Known([], bodies, '}'), Lexed);
  }

  lemma StartRaw(t: string, fs: seq<Finding>, none: seq<bool>)
    requires ClassHere(t, 0) && fs == [] && none == []
    ensures Reads(t, fs, 8, Flags(none + [true], false), Raw)
  {
    hide Reads;
    ReadsStart(t, Raw);
    assert START == Flags(none, false);
    hide *;
    RawHead(t, fs, 0, none);
  }

  lemma StartLexed(t: string, fs: seq<Finding>, none: seq<bool>, bodies: set<nat>)
    requires ClassHere(t, 0) && fs == [] && none == [] && bodies == {7}
    ensures Reads(t, fs, 8, Known(none + [true], bodies, '{'), Lexed)
  {
    hide Reads, ClassHere;
    ReadsStart(t, Lexed);
    var unknown: set<nat> := {};
    assert START == Known(none, unknown, ';') && !Top(none) && unknown + {7} == bodies;
    hide *;
    LexedHead(t, fs, 0, none, unknown, ';');
  }

  lemma WordHere(t: string, i: nat, word: string)
    requires word != "" && i + |word| < |t| && t[i..i + |word|] == word
    requires forall k :: 0 <= k < |word| ==> IsWord(word[k])
    requires !NamePart(t[i + |word|]) && (i > 0 ==> !NamePart(t[i - 1]))
    ensures WordIs(t, i, word)
  {
    forall k | i <= k < i + |word| ensures IsWord(t[k]) {
      assert t[i..i + |word|][k - i] == t[k];
    }
  }

  lemma NameHere(t: string, i: nat, e: nat, word: string)
    requires WordIs(t, i, word) && e == i + |word| && word != "" && word != "class"
    ensures NameRun(t, i, e)
  { }

  lemma LetterHere(t: string, i: nat)
    requires 0 < i && i + 1 < |t| && IsLetter(t[i]) && !NamePart(t[i - 1]) && !NamePart(t[i + 1])
    ensures NameRun(t, i, i + 1)
  {
    assert t[i..i + 1] == [t[i]];
    WordHere(t, i, [t[i]]);
  }

  // ---------------------------------------------------------------- a field named class

  /** `class C{class:u8;f(){enum E{}}}` */
  function FieldNamedClass(): string {
    "class" + (" C{" + ("class" + (":u8;" + ("f(){" + ("enum" + (" E{" + "}}}"))))))
  }

  predicate IsField(t: string) {
    && |t| == 31 && ClassHere(t, 0) && WordIs(t, 8, "class") && t[13] == ':' && NameRun(t, 14, 16) && t[15] == '8'
    && t[16] == ';' && MethodHere(t, 17) && EnumHere(t, 21) && t[29] == '}' && t[30] == '}'
  }

  lemma FieldChars()
    ensures var t := FieldNamedClass();
            && |t| == 31 && t[0..5] == "class" && t[8..13] == "class" && t[14..16] == "u8" && t[21..25] == "enum"
            && t[5] == ' ' && t[6] == 'C' && t[7] == '{' && t[13] == ':' && t[15] == '8' && t[16] == ';'
            && t[17] == 'f' && t[18] == '(' && t[19] == ')' && t[20] == '{'
            && t[25] == ' ' && t[26] == 'E' && t[27] == '{' && t[28] == '}' && t[29] == '}' && t[30] == '}'
  { }

  lemma FieldIs()
    ensures IsField(FieldNamedClass())
  {
    var t := FieldNamedClass();
    FieldChars();
    hide FieldNamedClass;
    WordHere(t, 0, "class");
    WordHere(t, 8, "class");
    WordHere(t, 14, "u8");
    WordHere(t, 21, "enum");
    hide WordIs, NameRun;
    NameHere(t, 14, 16, "u8");
    NameHere(t, 21, 25, "enum");
    LetterHere(t, 6);
    LetterHere(t, 17);
    LetterHere(t, 26);
  }

  /** The source takes the method's body for a class body, */
  lemma FieldRaw(t: string, fs: seq<Finding>, inC: seq<bool>)
    requires IsField(t) && Reads(t, fs, 8, Flags(inC, false), Raw)
    ensures Reads(t, fs, 21, Flags(inC + [true], false), Raw)
  {
    hide Reads, Flags, ClassHere, WordIs, NameRun, MethodHere, EnumHere;
    RawClass(t, fs, 8, inC);
    RawPoint(t, fs, 13, inC, true);
    RawName(t, fs, 14, 16, inC, true);
    RawPoint(t, fs, 16, inC, true);
    RawMethod(t, fs, 17, inC, true);
  }

  /** which the lexed reading does not. */
  lemma FieldLexed(t: string, fs: seq<Finding>, inC: seq<bool>, bodies: set<nat>)
    requires IsField(t) && Reads(t, fs, 8, Known(inC, bodies, '{'), Lexed) && Top(inC) && 20 !in bodies
    ensures Reads(t, fs, 21, Known(inC + [false], bodies, '{'), Lexed)
  {
    hide Reads, Known, ClassHere, WordIs, NameRun, MethodHere, EnumHere, Top;
    LexedMember(t, fs, 8, inC, bodies);
    LexedPoint(t, fs, 13, inC, bodies, 's', ':');
    LexedName(t, fs, 14, 16, inC, bodies, ':', '8');
    LexedPoint(t, fs, 16, inC, bodies, '8', ';');
    LexedMethod(t, fs, 17, inC, bodies, ';');
  }

  lemma FieldReadLexed(t: string, fs: seq<Finding>, bodies: set<nat>)
    requires IsField(t) && fs == [] && bodies == {7}
    ensures Scan(t, 0, START, Lexed) == fs
  {
    var inC := [] + [true];
    var inF := inC + [false];
    assert Top(inC) && !Top(inF) && 20 !in bodies && 27 !in bodies;
    hide Reads, Known, ClassHere, WordIs, NameRun, MethodHere, EnumHere, Top, Scan;
    StartLexed(t, fs, [], bodies);
    FieldLexed(t, fs, inC, bodies);
    LexedPasses(t, fs, 21, inF, bodies, '{');
    LexedEnds(t, fs, 29, bodies, '}');
  }

  lemma FieldReadRaw(t: string)
    requires IsField(t)
    ensures Hoist(21, 29) in Scan(t, 0, START, Raw)
  {
    var inC := [] + [true];
    assert Top(inC + [true]);
    hide Reads, Flags, ClassHere, WordIs, NameRun, MethodHere, EnumHere, Top, Scan;
    StartRaw(t, [], []);
    FieldRaw(t, [], inC);
    RawMoves(t, [], 21, inC + [true]);
  }

  /** A field named `class` makes the source move an enum out of a method's body. */
  lemma FieldNamedClassMovesEnum()
    ensures var t := FieldNamedClass();
            Hoist(21, 29) in Scan(t, 0, START, Raw) && Scan(t, 0, START, Lexed) == [] && !WellPlaced(t)
  {
    hide FieldNamedClass, Scan, WellPlaced, IsField;
    var t := FieldNamedClass();
    FieldIs();
    FieldReadRaw(t);
    FieldReadLexed(t, [], {7});
    SameFindingsIff(t);
  }

  // ---------------------------------------------------------------- a method named enum

  /** `class C{enum(){}}` */
  function MethodNamedEnum(): string {
    "class" + (" C{" + ("enum" + "(){}}"))
  }

  predicate IsEnumMethod(t: string) {
    && |t| == 17 && ClassHere(t, 0) && WordIs(t, 8, "enum") && t[11] == 'm'
    && t[12] == '(' && t[13] == ')' && t[14] == '{' && t[15] == '}' && t[16] == '}'
  }

  lemma EnumMethodIs()
    ensures IsEnumMethod(MethodNamedEnum())
  {
    var t := MethodNamedEnum();
    assert t[0..5] == "class" && t[8..12] == "enum";
    WordHere(t, 0, "class");
    WordHere(t, 8, "enum");
    LetterHere(t, 6);
    hide WordIs, NameRun;
  }

  lemma EnumMethodEnds(t: string, c: Context, pl: Context)
    requires IsEnumMethod(t)
    ensures EnumAt(t, 12, c, Raw) == Some(16) && EnumAt(t, 12, pl, Lexed) == None
  {
    hide WordIs, ClassHere;
    assert HeadEnd(t, 13, Raw) == 14;
    assert HeadEnd(t, 12, Raw) == 14;
    assert BodyEnd(t, 15, 1, Raw) == 16;
    assert SkipTrivia(t, 12) == 12;
  }

  lemma EnumMethodLexed(t: string, fs: seq<Finding>, inC: seq<bool>, bodies: set<nat>)
    requires IsEnumMethod(t) && Reads(t, fs, 8, Known(inC, bodies, '{'), Lexed) && 14 !in bodies
    ensures Reads(t, fs, 16, Known(inC, bodies, '}'), Lexed)
  {
    EnumMethodEnds(t, START, Known(inC, bodies, '{'));
    assert Known(inC, bodies, '{').Behind('m', Lexed) == Known(inC, bodies, 'm');
    hide Reads, Known, WordIs, ClassHere, EnumAt;
    NoEnumStep(t, fs, 8, Known(inC, bodies, '{'), Lexed);
    LexedPoint(t, fs, 12, inC, bodies, 'm', '(');
    LexedPoint(t, fs, 13, inC, bodies, '(', ')');
    LexedOpen(t, fs, 14, inC, bodies, ')');
    LexedClose(t, fs, 15, inC, false, bodies, '{');
  }

  lemma EnumMethodReadLexed(t: string)
    requires IsEnumMethod(t)
    ensures Scan(t, 0, START, Lexed) == []
  {
    assert 14 !in {7};
    hide Reads, Known, WordIs, ClassHere, Scan;
    StartLexed(t, [], [], {7});
    EnumMethodLexed(t, [], [] + [true], {7});
    LexedClose(t, [], 16, [], true, {7}, '}');
    ReadsEnd(t, [], Known([], {7}, '}'), Lexed);
  }

  lemma EnumMethodRaw(t: string, fs: seq<Finding>, inC: seq<bool>)
    requires IsEnumMethod(t) && Reads(t, fs, 8, Flags(inC, false), Raw) && Top(inC)
    ensures Hoist(8, 16) in Scan(t, 0, START, Raw)
  {
    var c := Flags(inC, false);
    EnumMethodEnds(t, c, START);
    assert c.InClassBody();
    hide Reads, Flags, WordIs, ClassHere, EnumAt, Scan;
    EnumStep(t, fs, 8, c, Raw, 16);
    FoundLast(t, fs, Hoist(8, 16), 16, c.Behind('}', Raw));
  }

  /** The source takes a method named `enum` for an enum. */
  lemma MethodNamedEnumIsMoved()
    ensures var t := MethodNamedEnum();
            Hoist(8, 16) in Scan(t, 0, START, Raw) && Scan(t, 0, START, Lexed) == [] && !WellPlaced(t)
  {
    hide MethodNamedEnum, Scan, WellPlaced, Reads, Flags, ClassHere, WordIs;
    var t := MethodNamedEnum();
    EnumMethodIs();
    EnumMethodReadLexed(t);
    StartRaw(t, [], []);
    EnumMethodRaw(t, [], [] + [true]);
    SameFindingsIff(t);
  }

  // ---------------------------------------------------------------- a type literal in a heritage clause

  /** `class C extends D<{}>{enum E{}}` */
  function HeritageLiteral(): string {
    "class" + (" C " + ("extends" + (" D<{}>{" + ("enum" + " E{}}"))))
  }

  predicate IsHeritage(t: string) {
    && |t| == 31 && WordIs(t, 0, "class") && t[5] == ' ' && NameRun(t, 6, 7) && t[6] == 'C' && t[7] == ' '
    && NameRun(t, 8, 15) && t[8..15] == "extends" && t[15] == ' ' && NameRun(t, 16, 17) && t[16] == 'D'
    && t[17] == '<' && t[18] == '{' && t[19] == '}' && t[20] == '>' && t[21] == '{'
    && EnumHere(t, 22) && t[30] == '}'
  }

  lemma HeritageChars()
    ensures var t := HeritageLiteral();
            && |t| == 31 && t[0..5] == "class" && t[5] == ' ' && t[6] == 'C' && t[7] == ' ' && t[8..15] == "extends"
            && t[15] == ' ' && t[16] == 'D' && t[17] == '<' && t[18] == '{' && t[19] == '}' && t[20] == '>'
            && t[21] == '{' && t[22..26] == "enum" && t[26] == ' ' && t[27] == 'E' && t[28] == '{' && t[29] == '}'
            && t[30] == '}'
  { }

  lemma HeritageIs()
    ensures IsHeritage(HeritageLiteral())
  {
    var t := HeritageLiteral();
    HeritageChars();
    hide HeritageLiteral;
    WordHere(t, 0, "class");
    WordHere(t, 8, "extends");
    WordHere(t, 22, "enum");
    hide WordIs, NameRun;
    NameHere(t, 8, 15, "extends");
    NameHere(t, 22, 26, "enum");
    LetterHere(t, 6);
    LetterHere(t, 16);
    LetterHere(t, 27);
  }

  lemma {:induction false} PlainHead(t: string, j: nat, e: nat)
    requires j <= e <= |t| && forall k :: j <= k < e ==> t[k] == ' ' || IsLetter(t[k])
    ensures BodyBrace(t, j, 0, 0) == BodyBrace(t, e, 0, 0)
    decreases e - j
  {
    if j < e {
      PlainHead(t, j + 1, e);
    }
  }

  lemma HeritageBody(t: string, c: Context)
    requires IsHeritage(t) && !c.NameFollows() && !c.AtMember()
    ensures ClassBody(t, 5, c) == Some(21)
  {
    forall k | 5 <= k < 17 ensures t[k] == ' ' || IsLetter(t[k]) {
      if 8 <= k < 15 {
        assert t[8..15][k - 8] == t[k];
      }
    }
    hide WordIs, NameRun, EnumHere;
    assert BodyBrace(t, 20, 0, 1) == BodyBrace(t, 21, 0, 0) == Some(21);
    assert BodyBrace(t, 18, 0, 1) == BodyBrace(t, 19, 1, 1) == BodyBrace(t, 20, 0, 1);
    assert BodyBrace(t, 17, 0, 0) == BodyBrace(t, 18, 0, 1);
    PlainHead(t, 5, 17);
    assert SkipTrivia(t, 6) == 6;
  }

  /** The source gives the type literal the place of the class body, so that of the class is none to it. */
  lemma HeritageRaw(t: string, fs: seq<Finding>, none: seq<bool>)
    requires IsHeritage(t) && Reads(t, fs, 0, Flags(none, false), Raw) && !Top(none) && !Top(none + [false])
    ensures Reads(t, fs, |t|, Flags(none, false), Raw)
  {
    hide Reads, Flags, WordIs, NameRun, EnumHere, Top;
    RawClass(t, fs, 0, none);
    SpaceStep(t, fs, 5, Flags(none, true), Raw);
    RawName(t, fs, 6, 7, none, true);
    SpaceStep(t, fs, 7, Flags(none, true), Raw);
    RawName(t, fs, 8, 15, none, true);
    SpaceStep(t, fs, 15, Flags(none, true), Raw);
    RawName(t, fs, 16, 17, none, true);
    RawPoint(t, fs, 17, none, true);
    RawOpen(t, fs, 18, none, true);
    RawClose(t, fs, 19, none, true);
    RawPoint(t, fs, 20, none, false);
    RawOpen(t, fs, 21, none, false);
    RawPasses(t, fs, 22, none + [false]);
    RawClose(t, fs, 30, none, false);
  }

  lemma HeritageReadRaw(t: string, fs: seq<Finding>, none: seq<bool>)
    requires IsHeritage(t) && fs == [] && none == []
    ensures Scan(t, 0, START, Raw) == fs
  {
    assert START == Flags(none, false) && !Top(none) && !Top(none + [false]);
    ReadsStart(t, Raw);
    hide Reads, Flags, IsHeritage, Top, Scan;
    HeritageRaw(t, fs, none);
    ReadsEnd(t, fs, Flags(none, false), Raw);
  }

  lemma RawPasses(t: string, fs: seq<Finding>, i: nat, braces: seq<bool>)
    requires Reads(t, fs, i, Flags(braces, false), Raw) && EnumHere(t, i) && !Top(braces)
    ensures Reads(t, fs, i + 8, Flags(braces, false), Raw)
  {
    hide Reads, NameRun, Flags, WordIs;
    RawName(t, fs, i, i + 4, braces, false);
    SpaceStep(t, fs, i + 4, Flags(braces, false), Raw);
    RawName(t, fs, i + 5, i + 6, braces, false);
    RawOpen(t, fs, i + 6, braces, false);
    RawClose(t, fs, i + 7, braces, false);
  }

  lemma HeritageKeyword(t: string, fs: seq<Finding>, none: seq<bool>, bodies: set<nat>)
    requires IsHeritage(t) && fs == [] && none == [] && bodies == {21}
    ensures Reads(t, fs, 5, Known(none, bodies, 's'), Lexed)
  {
    hide Reads, Scan, WordIs, NameRun, EnumHere, ClassBody;
    HeritageBody(t, START);
    ReadsStart(t, Lexed);
    assert Announced(t, 5, START, Lexed) == Known(none, bodies, 's');
    assert WordIs(t, 0, "class") && Reads(t, fs, 0, START, Lexed);
    hide *;
    ClassStep(t, fs, 0, START, Lexed, Known(none, bodies, 's'));
  }

  lemma HeritageLexed(t: string, fs: seq<Finding>, none: seq<bool>, bodies: set<nat>)
    requires IsHeritage(t) && Reads(t, fs, 5, Known(none, bodies, 's'), Lexed) && !Top(none)
    requires 18 !in bodies && 21 in bodies
    ensures Reads(t, fs, 22, Known(none + [true], bodies, '{'), Lexed)
  {
    var s := t[14];
    hide Reads, Known, WordIs, NameRun, EnumHere, Top;
    SpaceStep(t, fs, 5, Known(none, bodies, 's'), Lexed);
    LexedName(t, fs, 6, 7, none, bodies, 's', 'C');
    SpaceStep(t, fs, 7, Known(none, bodies, 'C'), Lexed);
    LexedName(t, fs, 8, 15, none, bodies, 'C', s);
    SpaceStep(t, fs, 15, Known(none, bodies, s), Lexed);
    LexedName(t, fs, 16, 17, none, bodies, s, 'D');
    LexedPoint(t, fs, 17, none, bodies, 'D', '<');
    LexedOpen(t, fs, 18, none, bodies, '<');
    LexedClose(t, fs, 19, none, false, bodies, '{');
    LexedPoint(t, fs, 20, none, bodies, '}', '>');
    LexedOpen(t, fs, 21, none, bodies, '>');
  }

  lemma HeritageEnum(t: string, fs: seq<Finding>, found: seq<Finding>, none: seq<bool>, bodies: set<nat>)
    requires IsHeritage(t) && Reads(t, fs, 22, Known(none + [true], bodies, '{'), Lexed)
    requires found == fs + [Hoist(22, 30)]
    ensures Reads(t, found, |t|, Known(none, bodies, '}'), Lexed)
  {
    hide Reads, Scan, WordIs, NameRun, EnumAt;
    var c := Known(none + [true], bodies, '{');
    ShortEnum(t, 26, c, Lexed);
    assert c.InClassBody() && c.Behind('}', Lexed) == Known(none + [true], bodies, '}');
    assert WordIs(t, 22, "enum") && |t| == 31 && t[30] == '}';
    hide *;
    EnumStep(t, fs, 22, c, Lexed, 30);
    LexedClose(t, found, 30, none, true, bodies, '}');
  }

  lemma HeritageReadLexed(t: string, fs: seq<Finding>, found: seq<Finding>, none: seq<bool>, bodies: set<nat>)
    requires IsHeritage(t) && fs == [] && none == [] && bodies == {21} && found == [Hoist(22, 30)]
    ensures Scan(t, 0, START, Lexed) == found
  {
    assert !Top(none) && 18 !in bodies && 21 in bodies && found == fs + [Hoist(22, 30)];
    hide Reads, Known, IsHeritage, Top, Scan;
    HeritageKeyword(t, fs, none, bodies);
    HeritageLexed(t, fs, none, bodies);
    HeritageEnum(t, fs, found, none, bodies);
    ReadsEnd(t, found, Known(none, bodies, '}'), Lexed);
  }

  /** A type literal in a class's heritage clause makes the source leave an enum in the class body. */
  lemma HeritageLiteralKeepsEnum()
    ensures var t := HeritageLiteral();
            Scan(t, 0, START, Raw) == [] && Scan(t, 0, START, Lexed) == [Hoist(22, 30)] && !WellPlaced(t)
  {
    hide HeritageLiteral, Scan, WellPlaced, IsHeritage;
    var t := HeritageLiteral();
    HeritageIs();
    HeritageReadRaw(t, [], []);
    HeritageReadLexed(t, [], [Hoist(22, 30)], [], {21});
    SameFindingsIff(t);
  }

  // ---------------------------------------------------------------- a carriage return behind a comment

  /** `class C{//`, a carriage return, `enum E{}`, a line feed, `}` */
  function ReturnInComment(): string {
    "class" + (" C{" + ("//\r" + ("enum" + " E{}\n}")))
  }

  predicate IsReturn(t: string) {
    && |t| == 21 && ClassHere(t, 0) && t[8] == '/' && t[9] == '/' && t[10] == '\r'
    && EnumHere(t, 11) && t[19] == '\n' && t[20] == '}' && forall k :: 10 <= k < 19 ==> t[k] != '\n'
  }

  lemma ReturnChars()
    ensures var t := ReturnInComment();
            && |t| == 21 && t[0..5] == "class" && t[5] == ' ' && t[6] == 'C' && t[7] == '{' && t[8] == '/'
            && t[9] == '/' && t[10] == '\r' && t[11..15] == "enum"
            && t[11] == 'e' && t[12] == 'n' && t[13] == 'u' && t[14] == 'm'
            && t[15] == ' ' && t[16] == 'E' && t[17] == '{' && t[18] == '}' && t[19] == '\n' && t[20] == '}'
  { }

  lemma ReturnIs()
    ensures IsReturn(ReturnInComment())
  {
    var t := ReturnInComment();
    ReturnChars();
    hide ReturnInComment;
    WordHere(t, 0, "class");
    WordHere(t, 11, "enum");
    hide WordIs, NameRun;
    NameHere(t, 11, 15, "enum");
    LetterHere(t, 6);
    LetterHere(t, 16);
  }

  lemma CommentStep(text: string, fs: seq<Finding>, i: nat, c: Context, how: Lexing, e: nat)
    requires Reads(text, fs, i, c, how) && i + 1 < |text| && text[i] == '/' && text[i + 1] == '/'
    requires LineEnd(text, i + 2, how) == e
    ensures Reads(text, fs, e, c, how)
  {
    assert c.mods.None?;
    assert Read(text, i, c, how) == Move(e, c, None) by {
      hide ReadWord, StringEnd, LineEnd, BlockEnd, Reads;
    }
    hide *;
    QuietStep(text, fs, i, c, how, e, c);
  }

  lemma {:induction false} EndsAtFeed(t: string, i: nat, e: nat)
    requires i <= e < |t| && t[e] == '\n' && forall k :: i <= k < e ==> t[k] != '\n'
    ensures LineEnd(t, i, Raw) == e
    decreases e - i
  {
    if i < e {
      EndsAtFeed(t, i + 1, e);
    }
  }

  lemma ReturnRaw(t: string, fs: seq<Finding>, none: seq<bool>)
    requires IsReturn(t) && Reads(t, fs, 8, Flags(none + [true], false), Raw)
    ensures Reads(t, fs, |t|, Flags(none, false), Raw)
  {
    EndsAtFeed(t, 10, 19);
    hide Reads, Flags, ClassHere, EnumHere;
    CommentStep(t, fs, 8, Flags(none + [true], false), Raw, 19);
    SpaceStep(t, fs, 19, Flags(none + [true], false), Raw);
    RawClose(t, fs, 20, none, true);
  }

  lemma ReturnLexed(t: string, fs: seq<Finding>, found: seq<Finding>, none: seq<bool>, bodies: set<nat>)
    requires IsReturn(t) && Reads(t, fs, 8, Known(none + [true], bodies, '{'), Lexed)
    requires found == fs + [Hoist(11, 19)]
    ensures Reads(t, found, |t|, Known(none, bodies, '}'), Lexed)
  {
    hide Reads, Scan, WordIs, NameRun, EnumAt, ClassHere;
    var c := Known(none + [true], bodies, '{');
    var d := Known(none + [true], bodies, '}');
    ShortEnum(t, 15, c, Lexed);
    assert c.InClassBody() && c.Behind('}', Lexed) == d;
    assert LineEnd(t, 10, Lexed) == 10;
    assert WordIs(t, 11, "enum") && |t| == 21 && t[8] == t[9] == '/' && t[20] == '}';
    assert IsBlank(t[10]) && IsBlank(t[19]);
    hide *;
    CommentStep(t, fs, 8, c, Lexed, 10);
    SpaceStep(t, fs, 10, c, Lexed);
    EnumStep(t, fs, 11, c, Lexed, 19);
    SpaceStep(t, found, 19, d, Lexed);
    LexedClose(t, found, 20, none, true, bodies, '}');
  }

  lemma ReturnReads(t: string, found: seq<Finding>)
    requires IsReturn(t) && found == [Hoist(11, 19)]
    ensures Scan(t, 0, START, Raw) == [] && Scan(t, 0, START, Lexed) == found
  {
    assert found == [] + [Hoist(11, 19)];
    hide Reads, Flags, Known, ClassHere, Scan, EnumHere;
    StartRaw(t, [], []);
    ReturnRaw(t, [], []);
    ReadsEnd(t, [], Flags([], false), Raw);
    StartLexed(t, [], [], {7});
    ReturnLexed(t, [], found, [], {7});
    ReadsEnd(t, found, Known([], {7}, '}'), Lexed);
  }

  /** A line comment that ends with a carriage return makes the source leave the enum behind it. */
  lemma ReturnInCommentKeepsEnum()
    ensures var t := ReturnInComment();
            Scan(t, 0, START, Raw) == [] && Scan(t, 0, START, Lexed) == [Hoist(11, 19)] && !WellPlaced(t)
  {
    hide ReturnInComment, Scan, WellPlaced, IsReturn;
    var t := ReturnInComment();
    ReturnIs();
    ReturnReads(t, [Hoist(11, 19)]);
    SameFindingsIff(t);
  }

  // ---------------------------------------------------------------- a brace in a comment

  /** `class C{f(){class D{enum A{/*}*/}}enum B{}}}` */
  function CommentBrace(): string {
    CommentHead() + CommentTail()
  }

  function CommentHead(): string {
    "class" + (" C{" + ("f(){" + ("class" + (" D{" + ("enum" + " A{")))))
  }

  function CommentTail(): string {
    "/*}*/" + ("}}" + ("enum" + (" B{" + "}}}")))
  }

  predicate IsComment(t: string) {
    && |t| == 44 && ClassHere(t, 0) && MethodHere(t, 8) && ClassHere(t, 12) && IsEnumA(t)
    && EnumHere(t, 34) && t[42] == '}' && t[43] == '}'
  }

  predicate IsEnumA(t: string) {
    && |t| == 44 && WordIs(t, 20, "enum") && t[24] == ' ' && t[25] == 'A' && t[26] == '{' && t[27] == '/'
    && t[28] == '*' && t[29] == '}' && t[30] == '*' && t[31] == '/' && t[32] == '}' && t[33] == '}'
  }

  lemma HeadChars()
    ensures var t := CommentHead();
            && |t| == 27
            && t[0..5] == "class" && t[5] == ' ' && t[6] == 'C' && t[7] == '{' && t[8] == 'f' && t[9] == '('
            && t[10] == ')' && t[11] == '{' && t[12..17] == "class" && t[17] == ' ' && t[18] == 'D' && t[19] == '{'
            && t[20..24] == "enum" && t[24] == ' ' && t[25] == 'A' && t[26] == '{'
  { }

  lemma TailChars()
    ensures var t := CommentTail();
            && |t| == 17 && t[0] == '/' && t[1] == '*' && t[2] == '}' && t[3] == '*' && t[4] == '/' && t[5] == '}'
            && t[6] == '}' && t[7..11] == "enum" && t[11] == ' ' && t[12] == 'B' && t[13] == '{'
            && t[14] == '}' && t[15] == '}' && t[16] == '}'
  { }

  lemma CommentChars()
    ensures var t := CommentBrace();
            && |t| == 44
            && t[0..5] == "class" && t[5] == ' ' && t[6] == 'C' && t[7] == '{' && t[8] == 'f' && t[9] == '('
            && t[10] == ')' && t[11] == '{' && t[12..17] == "class" && t[17] == ' ' && t[18] == 'D' && t[19] == '{'
            && t[20..24] == "enum" && t[24] == ' ' && t[25] == 'A' && t[26] == '{'
            && t[27] == '/' && t[28] == '*' && t[29] == '}' && t[30] == '*' && t[31] == '/' && t[32] == '}'
            && t[33] == '}' && t[34..38] == "enum" && t[38] == ' ' && t[39] == 'B' && t[40] == '{'
            && t[41] == '}' && t[42] == '}' && t[43] == '}'
  {
    var t, h, e := CommentBrace(), CommentHead(), CommentTail();
    HeadChars();
    TailChars();
    assert t == h + e;
    hide CommentBrace, CommentHead, CommentTail;
    assert t[0..5] == h[0..5] && t[12..17] == h[12..17] && t[20..24] == h[20..24] && t[34..38] == e[7..11];
  }

  lemma CommentWords(t: string)
    requires |t| == 44 && t[0..5] == "class" && t[12..17] == "class" && t[20..24] == "enum" && t[34..38] == "enum"
    requires t[5] == ' ' && t[11] == '{' && t[17] == ' ' && t[19] == '{' && t[24] == ' ' && t[33] == '}' && t[38] == ' '
    ensures WordIs(t, 0, "class") && WordIs(t, 12, "class") && WordIs(t, 20, "enum") && WordIs(t, 34, "enum")
  {
    WordHere(t, 0, "class");
    WordHere(t, 12, "class");
    WordHere(t, 20, "enum");
    WordHere(t, 34, "enum");
  }

  lemma CommentLetters(t: string)
    requires |t| == 44 && t[5] == ' ' && t[6] == 'C' && t[7] == '{' && t[8] == 'f' && t[9] == '('
    requires t[17] == ' ' && t[18] == 'D' && t[19] == '{' && t[38] == ' ' && t[39] == 'B' && t[40] == '{'
    ensures NameRun(t, 6, 7) && NameRun(t, 8, 9) && NameRun(t, 18, 19) && NameRun(t, 39, 40)
  {
    LetterHere(t, 6);
    LetterHere(t, 8);
    LetterHere(t, 18);
    LetterHere(t, 39);
  }

  lemma CommentIs()
    ensures IsComment(CommentBrace())
  {
    var t := CommentBrace();
    CommentChars();
    hide CommentBrace, WordIs, NameRun;
    CommentWords(t);
    CommentLetters(t);
    NameHere(t, 34, 38, "enum");
  }

  lemma EnumAEnds(t: string, c: Context, pl: Context)
    requires IsEnumA(t) && !pl.NameFollows()
    ensures EnumAt(t, 24, c, Raw) == Some(30) && EnumAt(t, 24, pl, Lexed) == Some(33)
  {
    hide WordIs;
    assert SkipTrivia(t, 25) == 25 && SkipTrivia(t, 24) == 25;
    assert NameEnd(t, 26) == 26 && NameEnd(t, 25) == 26 && SkipTrivia(t, 26) == 26;
    forall how: Lexing ensures HeadEnd(t, 24, how) == 26 {
      assert HeadEnd(t, 25, how) == 26;
    }
    assert BodyEnd(t, 29, 1, Raw) == 30;
    assert BodyEnd(t, 27, 1, Raw) == BodyEnd(t, 28, 1, Raw) == 30;
    assert LexemeEnd(t, 27) == BlockEnd(t, 29) == BlockEnd(t, 30) == 32;
    assert BodyEnd(t, 27, 1, Lexed) == BodyEnd(t, 32, 1, Lexed) == 33;
  }

  /** Behind what the source takes for the first enum, it closes D and f, and stands in C. */
  lemma CommentRaw(t: string, fs: seq<Finding>, inC: seq<bool>)
    requires IsEnumA(t) && Reads(t, fs, 20, Flags(inC + [false] + [true], false), Raw)
    ensures Reads(t, fs + [Hoist(20, 30)], 34, Flags(inC, false), Raw)
  {
    var inF := inC + [false];
    var c := Flags(inF + [true], false);
    var fs' := fs + [Hoist(20, 30)];
    EnumAEnds(t, c, START);
    assert c.InClassBody() && c.Behind('}', Raw) == c && c.Behind('/', Raw) == c;
    hide Reads, Flags, WordIs, EnumAt;
    EnumStep(t, fs, 20, c, Raw, 30);
    RawPoint(t, fs', 30, inF + [true], false);
    SlashStep(t, fs', 31, c, Raw);
    RawClose(t, fs', 32, inF, true);
    RawClose(t, fs', 33, inC, false);
  }

  lemma CommentReadRaw(t: string)
    requires IsComment(t)
    ensures Hoist(34, 42) in Scan(t, 0, START, Raw)
  {
    var inC := [] + [true];
    assert Top(inC);
    hide Reads, Flags, ClassHere, MethodHere, EnumHere, IsEnumA, Scan, Top;
    StartRaw(t, [], []);
    RawMethod(t, [], 8, inC, false);
    RawHead(t, [], 12, inC + [false]);
    CommentRaw(t, [], inC);
    RawMoves(t, [] + [Hoist(20, 30)], 34, inC);
  }

  lemma CommentLexed(t: string, fs: seq<Finding>, inF: seq<bool>, bodies: set<nat>)
    requires IsEnumA(t) && Reads(t, fs, 20, Known(inF + [true], bodies, '{'), Lexed)
    ensures Reads(t, fs + [Hoist(20, 33)], 34, Known(inF, bodies, '}'), Lexed)
  {
    var c := Known(inF + [true], bodies, '{');
    EnumAEnds(t, START, c);
    assert c.InClassBody() && c.Behind('}', Lexed) == Known(inF + [true], bodies, '}');
    hide Reads, Known, WordIs, EnumAt;
    EnumStep(t, fs, 20, c, Lexed, 33);
    LexedClose(t, fs + [Hoist(20, 33)], 33, inF, true, bodies, '}');
  }

  lemma CommentReadLexed(t: string)
    requires IsComment(t)
    ensures Scan(t, 0, START, Lexed) == [] + [Hoist(20, 33)]
  {
    var inC, bodies := [] + [true], {7} + {19};
    var inF := inC + [false];
    assert !Top(inF) && 11 !in {7} && 40 !in bodies;
    hide Reads, Known, ClassHere, MethodHere, EnumHere, IsEnumA, Scan, Top;
    StartLexed(t, [], [], {7});
    LexedMethod(t, [], 8, inC, {7}, '{');
    LexedHead(t, [], 12, inF, {7}, '{');
    CommentLexed(t, [], inF, bodies);
    LexedPasses(t, [] + [Hoist(20, 33)], 34, inF, bodies, '}');
    LexedEnds(t, [] + [Hoist(20, 33)], 42, bodies, '}');
  }

  /** A brace in a comment makes the source move an enum out of a method's body. */
  lemma CommentBraceMovesEnum()
    ensures var t := CommentBrace();
            && Hoist(34, 42) in Scan(t, 0, START, Raw)
            && Scan(t, 0, START, Lexed) == [Hoist(20, 33)]
            && !WellPlaced(t)
  {
    hide CommentBrace, Scan, WellPlaced, IsComment;
    var t := CommentBrace();
    CommentIs();
    CommentReadRaw(t);
    CommentReadLexed(t);
    SameFindingsIff(t);
  }
}
