/** What `hoistInClassEnums` in `src/parser.ts` looks for, read token by token, a word being a maximal run
    of word characters. There are two readings. `Raw` is the source's: any word `class` makes the next brace
    a class body, any word `enum` with a brace behind it is an enum, and an enum ends where all its braces,
    quoted ones included, are balanced. `Lexed` reads as the language does: keywords are told from names, a
    class body opens behind the heritage clause, strings and comments are passed over, and every line end
    ends a line comment. `EnumPlacement` shows exactly when the two agree. */
module EnumReader {
  import opened Wrappers

  // ---------------------------------------------------------------- characters

  predicate IsLetter(c: char) {
    'a' <= c <= 'z' || 'A' <= c <= 'Z'
  }

  predicate IsWord(c: char) {
    IsLetter(c) || '0' <= c <= '9' || c == '_' || c == '$'
  }

  /** `\s` */
  predicate IsSpace(c: char) {
    || c == ' ' || '\t' <= c <= '\r' || c == '\U{A0}' || c == '\U{1680}' || '\U{2000}' <= c <= '\U{200A}'
    || c == '\U{2028}' || c == '\U{2029}' || c == '\U{202F}' || c == '\U{205F}' || c == '\U{3000}' || c == '\U{FEFF}'
  }

  predicate IsQuote(c: char) {
    c == '"' || c == '\'' || c == '`'
  }

  const MODIFIERS: set<string> := {
    "const", "export", "declare", "static", "abstract", "readonly",
    "override", "public", "private", "protected", "async", "accessor"
  }

  predicate IsModifier(w: string) {
    w in MODIFIERS
  }

  lemma ModifierIff(w: string)
    ensures IsModifier(w) <==>
            || w == "const" || w == "export" || w == "declare" || w == "static" || w == "abstract"
            || w == "readonly" || w == "override" || w == "public" || w == "private" || w == "protected"
            || w == "async" || w == "accessor"
  { }

  // ---------------------------------------------------------------- where things end

  /** Behind a string literal whose opening quote `q` is before `i`; a backslash skips a character. */
  function StringEnd(text: string, i: nat, q: char): (e: nat)
    ensures e >= i
    ensures e >= |text| || (i < e && text[e - 1] == q)
    decreases if i < |text| then |text| - i else 0
  {
    if i >= |text| then i
    else if text[i] == '\\' then StringEnd(text, i + 2, q)
    else if text[i] == q then i + 1
    else StringEnd(text, i + 1, q)
  }

  /** The backslashes directly in front of `p`, counted back to `i`. */
  function Backslashes(text: string, i: nat, p: nat): nat
    requires p <= |text|
  {
    if i < p && text[p - 1] == '\\' then 1 + Backslashes(text, i, p - 1) else 0
  }

  /** At `p` a quote closes the string whose contents begin at `i`: one behind an even number of backslashes. */
  predicate ClosesString(text: string, i: nat, q: char, p: nat) {
    i <= p < |text| && text[p] == q && Backslashes(text, i, p) % 2 == 0
  }

  /** A string ends behind the first quote that closes it, and with the text if there is none. */
  lemma {:induction false} StringEndIs(text: string, i: nat, q: char)
    requires IsQuote(q)
    ensures var e := StringEnd(text, i, q);
            && (forall p: nat :: ClosesString(text, i, q, p) ==> i < e <= p + 1 && ClosesString(text, i, q, e - 1))
            && ((forall p: nat :: !ClosesString(text, i, q, p)) ==> e >= |text|)
    decreases if i < |text| then |text| - i else 0
  {
    if i < |text| && text[i] == q {
      assert ClosesString(text, i, q, i);
    } else if i < |text| {
      hide Backslashes;
      var j := if text[i] == '\\' then i + 2 else i + 1;
      StringEndIs(text, j, q);
      SameClosing(text, i, q, j);
    }
  }

  /** Behind a plain character, and behind an escaped one, the same quotes close the string. */
  lemma SameClosing(text: string, i: nat, q: char, j: nat)
    requires IsQuote(q) && i < |text|
    requires j == if text[i] == '\\' then i + 2 else i + 1
    requires text[i] != q
    ensures forall p: nat :: ClosesString(text, i, q, p) <==> ClosesString(text, j, q, p)
  {
    forall p: nat ensures ClosesString(text, i, q, p) <==> ClosesString(text, j, q, p) {
      if j <= p < |text| {
        SameParity(text, i, j, p);
      } else if p == i + 1 < |text| {
        assert Backslashes(text, i, i) == 0;
        assert text[i] == '\\' ==> Backslashes(text, i, i + 1) == 1;
      }
    }
  }

  lemma {:induction false} SameParity(text: string, i: nat, j: nat, p: nat)
    requires i < |text| && j == (if text[i] == '\\' then i + 2 else i + 1) && j <= p <= |text|
    ensures Backslashes(text, i, p) % 2 == Backslashes(text, j, p) % 2
    decreases p
  {
    if j < p {
      SameParity(text, i, j, p - 1);
    } else {
      assert Backslashes(text, i, i) == 0;
      assert text[i] == '\\' ==> Backslashes(text, i, i + 1) == 1;
    }
  }

  /** Where a line comment ends: for the source at a line feed only, in the language at every line end. */
  predicate EndsComment(c: char, how: Lexing) {
    c == '\n' || (how.Lexed? && (c == '\r' || c == '\U{2028}' || c == '\U{2029}'))
  }

  function LineEnd(text: string, i: nat, how: Lexing): (e: nat)
    requires i <= |text|
    ensures i <= e <= |text| && (e < |text| ==> EndsComment(text[e], how))
    ensures forall k :: i <= k < e ==> !EndsComment(text[k], how)
    decreases |text| - i
  {
    if i == |text| || EndsComment(text[i], how) then i else LineEnd(text, i + 1, how)
  }

  predicate ClosesComment(text: string, i: nat) {
    i + 1 < |text| && text[i] == '*' && text[i + 1] == '/'
  }

  /** Behind a block comment, or past the end if it is never closed. */
  function BlockEnd(text: string, i: nat): (e: nat)
    requires i <= |text|
    ensures i + 2 <= e <= |text| + 2 && (e < |text| + 2 ==> ClosesComment(text, e - 2))
    ensures forall k :: i <= k < e - 2 ==> !ClosesComment(text, k)
    decreases |text| - i
  {
    if i == |text| || ClosesComment(text, i) then i + 2 else BlockEnd(text, i + 1)
  }

  function RunEnd(text: string, i: nat): (e: nat)
    requires i <= |text|
    ensures i <= e <= |text| && (e < |text| ==> !IsWord(text[e]))
    ensures forall k :: i <= k < e ==> IsWord(text[k])
    decreases |text| - i
  {
    if i < |text| && IsWord(text[i]) then RunEnd(text, i + 1) else i
  }

  predicate WordCharAt(text: string, i: int) {
    0 <= i < |text| && IsWord(text[i])
  }

  /** A run reaches as far as all characters are word characters. */
  lemma {:induction false} RunCovers(text: string, i: nat, e: nat)
    requires i <= e <= |text| && forall k :: i <= k < e ==> IsWord(text[k])
    ensures RunEnd(text, i) == RunEnd(text, e)
    ensures !WordCharAt(text, e) ==> RunEnd(text, i) == e
    decreases e - i
  {
    if i < e {
      RunCovers(text, i + 1, e);
    }
  }

  datatype Lexing = Raw | Lexed

  /** A string or comment begins here. */
  predicate Quoting(text: string, i: nat)
    requires i < |text|
  {
    IsQuote(text[i]) || (text[i] == '/' && i + 1 < |text| && (text[i + 1] == '/' || text[i + 1] == '*'))
  }

  /** Behind the string or comment at `i`, or behind the character there. */
  function LexemeEnd(text: string, i: nat): (e: nat)
    requires i < |text|
    ensures i < e <= |text|
  {
    var e :=
      if IsQuote(text[i]) then StringEnd(text, i + 1, text[i])
      else if !Quoting(text, i) then i + 1
      else if text[i + 1] == '/' then LineEnd(text, i + 2, Lexed)
      else BlockEnd(text, i + 2);
    if e <= |text| then e else |text|
  }

  predicate IsDelimiter(c: char) {
    c == '{' || c == '}' || c == ';'
  }

  /** The first brace or semicolon, where an enum's head ends. */
  function HeadEnd(text: string, j: nat, how: Lexing): (e: nat)
    requires j <= |text|
    ensures j <= e <= |text| && (e < |text| ==> IsDelimiter(text[e]))
    decreases |text| - j
  {
    if j == |text| then j
    else if how.Lexed? && Quoting(text, j) then HeadEnd(text, LexemeEnd(text, j), how)
    else if IsDelimiter(text[j]) then j
    else HeadEnd(text, j + 1, how)
  }

  /** Behind the brace that closes the last of `depth` open ones, or the end of the text. */
  function BodyEnd(text: string, k: nat, depth: int, how: Lexing): (e: nat)
    requires k <= |text|
    ensures k <= e <= |text| && (e < |text| ==> k < e && text[e - 1] == '}')
    decreases |text| - k
  {
    if k == |text| then k
    else if how.Lexed? && Quoting(text, k) then BodyEnd(text, LexemeEnd(text, k), depth, how)
    else if text[k] == '{' then BodyEnd(text, k + 1, depth + 1, how)
    else if text[k] == '}' then if depth == 1 then k + 1 else BodyEnd(text, k + 1, depth - 1, how)
    else BodyEnd(text, k + 1, depth, how)
  }

  /** The end of the enum whose keyword ends at `j`, if its body opens at all. */
  function EnumEnd(text: string, j: nat, how: Lexing): (e: Option<nat>)
    requires j <= |text|
    ensures e.Some? ==> j < e.value <= |text| && (e.value < |text| ==> text[e.value - 1] == '}')
  {
    var h := HeadEnd(text, j, how);
    if h < |text| && text[h] == '{' then Some(BodyEnd(text, h, 0, how)) else None
  }

  // ---------------------------------------------------------------- keywords and names

  /** Behind the white space character or comment at `i`, if there is one. */
  function TriviaEnd(text: string, i: nat, how: Lexing): (e: Option<nat>)
    requires i < |text|
    ensures e.Some? ==> e.value > i
  {
    if IsSpace(text[i]) then Some(i + 1)
    else if text[i] == '/' && i + 1 < |text| && text[i + 1] == '/' then Some(LineEnd(text, i + 2, how))
    else if text[i] == '/' && i + 1 < |text| && text[i + 1] == '*' then Some(BlockEnd(text, i + 2))
    else None
  }

  /** Behind all white space and comments at `i`. */
  function SkipTrivia(text: string, i: nat): (e: nat)
    ensures e >= i
    decreases if i < |text| then |text| - i else 0
  {
    if i < |text| && TriviaEnd(text, i, Lexed).Some? then SkipTrivia(text, TriviaEnd(text, i, Lexed).value) else i
  }

  /** Names may hold letters beyond ASCII and escapes, which the source does not count as word characters. */
  predicate NamePart(c: char) {
    IsWord(c) || c == '\\' || (c > '\U{7F}' && !IsSpace(c))
  }

  predicate NameAt(text: string, i: nat) {
    i < |text| && NamePart(text[i]) && !('0' <= text[i] <= '9')
  }

  function NameEnd(text: string, i: nat): (e: nat)
    ensures e >= i
    decreases if i < |text| then |text| - i else 0
  {
    if i < |text| && NamePart(text[i]) then NameEnd(text, i + 1) else i
  }

  /** The word [i, e) is part of a longer name. */
  predicate Glued(text: string, i: nat, e: nat) {
    (0 < i <= |text| && NamePart(text[i - 1])) || (e < |text| && NamePart(text[e]))
  }

  /** The brace that opens a class body, if the text from `j` on is the rest of a class head: the first one
      outside all brackets. Angle brackets count outside the others only, and not as a part of `=>`. */
  function BodyBrace(text: string, j: nat, round: nat, angle: nat): (b: Option<nat>)
    requires j <= |text|
    ensures b.Some? ==> j <= b.value < |text| && text[b.value] == '{'
    decreases |text| - j
  {
    if j == |text| then None
    else if Quoting(text, j) then BodyBrace(text, LexemeEnd(text, j), round, angle)
    else
      var c := text[j];
      if round == 0 && angle == 0 && c == '{' then Some(j)
      else if c == '(' || c == '[' || c == '{' then BodyBrace(text, j + 1, round + 1, angle)
      else if c == ')' || c == ']' || c == '}' then
        if round == 0 then None else BodyBrace(text, j + 1, round - 1, angle)
      else if round == 0 && angle == 0 && c == ';' then None
      else if round == 0 && c == '<' then BodyBrace(text, j + 1, round, angle + 1)
      else if round == 0 && angle > 0 && c == '>' && !(j > 0 && text[j - 1] == '=') then
        BodyBrace(text, j + 1, round, angle - 1)
      else BodyBrace(text, j + 1, round, angle)
  }

  // ---------------------------------------------------------------- the token-level meaning

  datatype Modifiers = Modifiers(start: nat, words: seq<string>)

  /** What is known at a token boundary: for each open brace whether it opened a class body, and the modifier
      words just seen. The raw reading keeps whether a word `class` was seen since the last opening brace;
      the lexed one keeps which braces open class bodies, and the last character that is no space or comment. */
  datatype Context = Context(
    braces: seq<bool>, pendingClass: bool, mods: Option<Modifiers>, bodies: set<nat>, last: char)
  {
    predicate InClassBody() {
      braces != [] && braces[|braces| - 1]
    }

    function Quiet(): Context {
      this.(mods := None)
    }

    function Opened(i: nat, how: Lexing): Context {
      var isClass := if how.Raw? then pendingClass else i in bodies;
      this.(braces := braces + [isClass], pendingClass := false, mods := None)
    }

    function Closed(): Context {
      this.(braces := if braces == [] then [] else braces[..|braces| - 1], mods := None)
    }

    function Modified(i: nat, word: string): Context {
      this.(mods := Some(if mods.None? then Modifiers(i, [word]) else mods.value.(words := mods.value.words + [word])))
    }

    function Behind(c: char, how: Lexing): Context {
      if how.Raw? then this else this.(last := c)
    }

    /** A word here is a name: of a property, a private member or a decorator. */
    predicate NameFollows() {
      last == '.' || last == '#' || last == '@'
    }

    /** A member of a class begins here. */
    predicate AtMember() {
      InClassBody() && (mods.Some? || last == '{' || last == '}' || last == ';')
    }
  }

  const START := Context([], false, None, {}, ';')

  /** The word `class` that ends at `e` is the keyword: it names no property or member, and a name or a class
      head follows. */
  predicate IsClassKeyword(text: string, e: nat, ctx: Context) {
    && !ctx.NameFollows() && !ctx.AtMember()
    && var s := SkipTrivia(text, e);
       NameAt(text, s) || (s < |text| && text[s] == '{')
  }

  /** Where the class body opens behind the word `class` that ends at `e`. */
  function ClassBody(text: string, e: nat, ctx: Context): Option<nat>
    requires e <= |text|
  {
    if IsClassKeyword(text, e, ctx) then BodyBrace(text, e, 0, 0) else None
  }

  /** Behind a word `class`. */
  function Announced(text: string, e: nat, ctx: Context, how: Lexing): (c: Context)
    requires e <= |text|
    ensures c.mods == None && c.braces == ctx.braces
  {
    if how.Raw? then ctx.Quiet().(pendingClass := true)
    else
      var body := match ClassBody(text, e, ctx) case Some(b) => {b} case None => {};
      ctx.Quiet().(last := 's', bodies := ctx.bodies + body)
  }

  /** The word `enum` that ends at `e` declares an enum: a name follows, and then its body. */
  predicate Declares(text: string, e: nat, ctx: Context) {
    && !ctx.NameFollows()
    && var s := SkipTrivia(text, e);
       && NameAt(text, s)
       && var b := SkipTrivia(text, NameEnd(text, s));
          b < |text| && text[b] == '{'
  }

  /** The end of the enum whose keyword ends at `e`, if there is one. */
  function EnumAt(text: string, e: nat, ctx: Context, how: Lexing): (k: Option<nat>)
    requires e <= |text|
    ensures k.Some? ==> e < k.value <= |text| && (k.value < |text| ==> text[k.value - 1] == '}')
  {
    if how.Lexed? && !Declares(text, e, ctx) then None else EnumEnd(text, e, how)
  }

  /** An enum to move, or one that modifiers forbid to move, with where its keyword stands. */
  datatype Finding =
    | Hoist(start: nat, end: nat)
    | Misplaced(at: nat, start: nat, end: nat, words: seq<string>, name: string)
  {
    function Keyword(): nat {
      if Hoist? then start else at
    }
  }

  datatype Move = Move(end: nat, ctx: Context, found: Option<Finding>)

  /** The word at `i`. */
  function WordAt(text: string, i: nat): string
    requires i <= |text|
  {
    text[i..RunEnd(text, i)]
  }

  /** Read one word. */
  function ReadWord(text: string, i: nat, ctx: Context, how: Lexing): (m: Move)
    requires i < |text| && IsWord(text[i])
    ensures i < m.end
  {
    var e, word := RunEnd(text, i), WordAt(text, i);
    var quiet := ctx.Quiet().Behind(text[e - 1], how);
    if how.Lexed? && Glued(text, i, e) then Move(e, quiet, None)
    else if word == "class" then Move(e, Announced(text, e, ctx, how), None)
    else if !ctx.InClassBody() then Move(e, quiet, None)
    else if word == "enum" then
      match EnumAt(text, e, ctx, how)
      case None => Move(e, quiet, None)
      case Some(k) =>
        match ctx.mods
        case None => Move(k, ctx.Behind('}', how), Some(Hoist(i, k)))
        case Some(Modifiers(start, words)) =>
          Move(k, ctx.Quiet().Behind('}', how), Some(Misplaced(i, start, k, words, EnumName(text, e))))
    else if IsModifier(word) then Move(e, ctx.Modified(i, word).Behind(text[e - 1], how), None)
    else Move(e, quiet, None)
  }

  /** Behind the white space at `i`. */
  function SpaceEnd(text: string, i: nat): (e: nat)
    requires i <= |text|
    ensures i <= e <= |text|
    decreases |text| - i
  {
    if i < |text| && IsSpace(text[i]) then SpaceEnd(text, i + 1) else i
  }

  /** The name behind an `enum` keyword that ends at `j`, or nothing. */
  function EnumName(text: string, j: nat): string
    requires j <= |text|
  {
    var s := SpaceEnd(text, j);
    if s > j && s < |text| && IsWord(text[s]) && !('0' <= text[s] <= '9') then text[s..RunEnd(text, s)] else ""
  }

  predicate BeginsName(c: char) {
    IsLetter(c) || c == '_' || c == '$'
  }

  /** The name stands behind white space at [p, e), and the word there is no longer. */
  ghost predicate NameStands(text: string, j: nat, p: nat, e: nat, name: string) {
    && j < p < e <= |text| && (forall k :: j <= k < p ==> IsSpace(text[k])) && BeginsName(text[p])
    && (forall k :: p <= k < e ==> IsWord(text[k])) && !WordCharAt(text, e) && text[p..e] == name
  }

  /** The name that stands there, or nothing if none does. */
  ghost predicate NamedBehind(text: string, j: nat, name: string) {
    if name == "" then forall p, e, n :: !NameStands(text, j, p, e, n)
    else exists p, e :: NameStands(text, j, p, e, name)
  }

  /** The name read behind an `enum` keyword is the one that stands there. */
  lemma EnumNameIs(text: string, j: nat)
    requires j <= |text|
    ensures NamedBehind(text, j, EnumName(text, j))
  {
    SpacesCover(text, j);
    var s := SpaceEnd(text, j);
    if EnumName(text, j) != "" {
      assert NameStands(text, j, s, RunEnd(text, s), EnumName(text, j));
    }
    forall p, e, n | NameStands(text, j, p, e, n) ensures EnumName(text, j) != "" {
      SpacesEnd(text, j, p);
    }
  }

  lemma {:induction false} SpacesCover(text: string, j: nat)
    requires j <= |text|
    ensures forall k :: j <= k < SpaceEnd(text, j) ==> IsSpace(text[k])
    decreases |text| - j
  {
    if j < |text| && IsSpace(text[j]) {
      SpacesCover(text, j + 1);
    }
  }

  lemma {:induction false} SpacesEnd(text: string, j: nat, p: nat)
    requires j <= p < |text| && (forall k :: j <= k < p ==> IsSpace(text[k])) && !IsSpace(text[p])
    ensures SpaceEnd(text, j) == p
    decreases p - j
  {
    if j < p {
      SpacesEnd(text, j + 1, p);
    }
  }

  /** Read one token. */
  function Read(text: string, i: nat, ctx: Context, how: Lexing): (m: Move)
    requires i < |text|
    ensures i < m.end
  {
    var c := text[i];
    if IsQuote(c) then Move(StringEnd(text, i + 1, c), ctx.Quiet().Behind(c, how), None)
    else if c == '/' && i + 1 < |text| && text[i + 1] == '/' then Move(LineEnd(text, i + 2, how), ctx, None)
    else if c == '/' && i + 1 < |text| && text[i + 1] == '*' then Move(BlockEnd(text, i + 2), ctx, None)
    else if c == '{' then Move(i + 1, ctx.Opened(i, how).Behind(c, how), None)
    else if c == '}' then Move(i + 1, ctx.Closed().Behind(c, how), None)
    else if IsWord(c) then ReadWord(text, i, ctx, how)
    else if IsSpace(c) then Move(i + 1, ctx, None)
    else Move(i + 1, ctx.Quiet().Behind(c, how), None)
  }

  function Listed(f: Option<Finding>): seq<Finding> {
    match f case Some(x) => [x] case None => []
  }

  /** All findings from a token boundary on. */
  function Scan(text: string, i: nat, ctx: Context, how: Lexing): seq<Finding>
    decreases if i < |text| then |text| - i else 0
  {
    if i >= |text| then []
    else
      var m := Read(text, i, ctx, how);
      Listed(m.found) + Scan(text, m.end, m.ctx, how)
  }

  /** At `i` the reader recognizes an enum that ends at `e`. */
  predicate IsEnumAt(text: string, i: nat, ctx: Context, how: Lexing, e: nat)
    requires i < |text|
  {
    && WordAt(text, i) == "enum" && !(how.Lexed? && Glued(text, i, RunEnd(text, i)))
    && EnumAt(text, RunEnd(text, i), ctx, how) == Some(e)
  }

  // ---------------------------------------------------------------- what is found

  /** The findings are within [lo, n), increasing and disjoint. */
  ghost predicate InOrder(fs: seq<Finding>, lo: nat, n: nat) {
    fs == [] || (lo <= fs[0].start < fs[0].end <= n && InOrder(fs[1..], fs[0].end, n))
  }

  function Earliest(i: nat, ctx: Context): nat {
    if ctx.mods.Some? then ctx.mods.value.start else i
  }

  lemma ReadInOrder(text: string, i: nat, ctx: Context, how: Lexing)
    requires i < |text| && Earliest(i, ctx) <= i
    ensures var m := Read(text, i, ctx, how);
            && Earliest(m.end, m.ctx) <= m.end && Earliest(i, ctx) <= Earliest(m.end, m.ctx)
            && (m.found.Some? ==> Earliest(i, ctx) <= m.found.value.start < m.found.value.end == Earliest(m.end, m.ctx))
            && (m.found.Some? ==> m.end <= |text|)
  {
    if IsWord(text[i]) {
      WordInOrder(text, i, ctx, how);
    } else {
      hide ReadWord;
    }
  }

  lemma WordInOrder(text: string, i: nat, ctx: Context, how: Lexing)
    requires i < |text| && IsWord(text[i]) && Earliest(i, ctx) <= i
    ensures var m := ReadWord(text, i, ctx, how);
            && Read(text, i, ctx, how) == m
            && Earliest(m.end, m.ctx) <= m.end && Earliest(i, ctx) <= Earliest(m.end, m.ctx)
            && (m.found.Some? ==> Earliest(i, ctx) <= m.found.value.start < m.found.value.end == Earliest(m.end, m.ctx))
            && (m.found.Some? ==> m.end <= |text|)
  {
    hide EnumAt, IsModifier, EnumName, Glued, Announced;
  }

  lemma {:induction false} ScanInOrder(text: string, i: nat, ctx: Context, how: Lexing)
    requires Earliest(i, ctx) <= i
    ensures InOrder(Scan(text, i, ctx, how), Earliest(i, ctx), |text|)
    decreases if i < |text| then |text| - i else 0
  {
    hide Read;
    if i < |text| {
      var m := Read(text, i, ctx, how);
      ReadInOrder(text, i, ctx, how);
      ScanInOrder(text, m.end, m.ctx, how);
      var rest := Scan(text, m.end, m.ctx, how);
      if m.found.Some? {
        assert Scan(text, i, ctx, how) == [m.found.value] + rest;
      } else {
        assert Scan(text, i, ctx, how) == rest;
      }
    }
  }

  /** Reading token by token from (i, ctx) leads to position `p` in context `c`. */
  ghost predicate Arrives(text: string, i: nat, ctx: Context, p: nat, c: Context, how: Lexing)
    decreases if i < |text| then |text| - i else 0
  {
    && i < |text|
    && ((i == p && ctx == c) || Arrives(text, Read(text, i, ctx, how).end, Read(text, i, ctx, how).ctx, p, c, how))
  }

  ghost predicate FoundAt(text: string, i: nat, ctx: Context, p: nat, c: Context, x: Finding, how: Lexing) {
    Arrives(text, i, ctx, p, c, how) && p < |text| && Read(text, p, c, how).found == Some(x)
  }

  lemma {:induction false} FoundIff(text: string, i: nat, ctx: Context, x: Finding, how: Lexing)
    ensures x in Scan(text, i, ctx, how) <==> exists p, c :: FoundAt(text, i, ctx, p, c, x, how)
    decreases if i < |text| then |text| - i else 0
  {
    hide Read;
    if i < |text| {
      var m := Read(text, i, ctx, how);
      FoundIff(text, m.end, m.ctx, x, how);
      if x in Scan(text, i, ctx, how) {
        if m.found == Some(x) {
          assert FoundAt(text, i, ctx, i, ctx, x, how);
        } else {
          var p, c :| FoundAt(text, m.end, m.ctx, p, c, x, how);
          assert FoundAt(text, i, ctx, p, c, x, how);
        }
      }
      if p, c :| FoundAt(text, i, ctx, p, c, x, how) {
        if !(i == p && ctx == c) {
          assert FoundAt(text, m.end, m.ctx, p, c, x, how);
        }
      }
    }
  }

  /** An enum is hoisted exactly where the token reader stands at the word `enum` directly inside a class
      body with no modifier pending, and its body opens; it then reaches to the end of that body. */
  ghost predicate HoistsAt(text: string, c: Context, s: nat, e: nat, how: Lexing) {
    && s < |text| && Arrives(text, 0, START, s, c, how)
    && c.InClassBody() && c.mods.None?
    && IsEnumAt(text, s, c, how, e)
  }

  lemma HoistedAs(text: string, s: nat, e: nat, how: Lexing)
    ensures Hoist(s, e) in Scan(text, 0, START, how) <==> exists c :: HoistsAt(text, c, s, e, how)
  {
    FoundIff(text, 0, START, Hoist(s, e), how);
    if Hoist(s, e) in Scan(text, 0, START, how) {
      var p, c :| FoundAt(text, 0, START, p, c, Hoist(s, e), how);
      ReadHoist(text, p, c, s, e, how);
      assert HoistsAt(text, c, s, e, how);
    }
    if c :| HoistsAt(text, c, s, e, how) {
      ReadHoist(text, s, c, s, e, how);
      assert FoundAt(text, 0, START, s, c, Hoist(s, e), how);
    }
  }

  lemma ReadHoist(text: string, p: nat, c: Context, s: nat, e: nat, how: Lexing)
    requires p < |text|
    ensures Read(text, p, c, how).found == Some(Hoist(s, e)) <==>
            && p == s && c.InClassBody() && c.mods.None?
            && IsEnumAt(text, s, c, how, e)
  {
    hide EnumAt, EnumName, Announced, IsModifier, Glued, StringEnd, LineEnd, BlockEnd;
    if p == s && WordAt(text, s) == "enum" {
      assert text[s] == "enum"[0];
    }
  }

  /** An enum is reported exactly where it would be hoisted but for pending modifiers. */
  ghost predicate ReportsAt(text: string, c: Context, x: Finding, how: Lexing) {
    && x.Misplaced? && x.at < |text| && Arrives(text, 0, START, x.at, c, how)
    && c.InClassBody() && c.mods == Some(Modifiers(x.start, x.words))
    && IsEnumAt(text, x.at, c, how, x.end)
    && x.name == EnumName(text, RunEnd(text, x.at))
  }

  lemma ReadReport(text: string, p: nat, c: Context, x: Finding, how: Lexing)
    requires p < |text| && x.Misplaced?
    ensures Read(text, p, c, how).found == Some(x) <==>
            && c.InClassBody() && c.mods == Some(Modifiers(x.start, x.words))
            && IsEnumAt(text, p, c, how, x.end)
            && x.at == p && x.name == EnumName(text, RunEnd(text, p))
  {
    hide EnumAt, EnumName, Announced, IsModifier, Glued, StringEnd, LineEnd, BlockEnd;
    if WordAt(text, p) == "enum" {
      assert text[p] == "enum"[0];
    }
  }

  lemma MisplacedAs(text: string, x: Finding, how: Lexing)
    requires x.Misplaced?
    ensures x in Scan(text, 0, START, how) <==> exists c :: ReportsAt(text, c, x, how)
  {
    hide Read, Scan;
    FoundIff(text, 0, START, x, how);
    if x in Scan(text, 0, START, how) {
      var p, c :| FoundAt(text, 0, START, p, c, x, how);
      ReadReport(text, p, c, x, how);
      assert ReportsAt(text, c, x, how);
    }
    if c :| ReportsAt(text, c, x, how) {
      ReadReport(text, x.at, c, x, how);
      assert FoundAt(text, 0, START, x.at, c, x, how);
    }
  }

  /** From `i` to `p` stand exactly these modifier words, with nothing but white space and comments between. */
  ghost predicate ModifierRun(text: string, i: nat, p: nat, words: seq<string>, how: Lexing)
    decreases p - i
  {
    if i >= p || i >= |text| then i == p && words == []
    else if TriviaEnd(text, i, how).Some? then ModifierRun(text, TriviaEnd(text, i, how).value, p, words, how)
    else
      && IsWord(text[i]) && words != [] && words[0] == WordAt(text, i) && IsModifier(words[0])
      && ModifierRun(text, RunEnd(text, i), p, words[1..], how)
  }

  lemma {:induction false} RunOverTrivia(text: string, i: nat, p: nat, words: seq<string>, how: Lexing)
    requires ModifierRun(text, i, p, words, how) && p < |text| && TriviaEnd(text, p, how).Some?
    ensures ModifierRun(text, i, TriviaEnd(text, p, how).value, words, how)
    decreases p - i
  {
    if i < p {
      if TriviaEnd(text, i, how).Some? {
        RunOverTrivia(text, TriviaEnd(text, i, how).value, p, words, how);
      } else {
        RunOverTrivia(text, RunEnd(text, i), p, words[1..], how);
      }
    }
  }

  lemma {:induction false} RunOverWord(text: string, i: nat, p: nat, words: seq<string>, how: Lexing)
    requires ModifierRun(text, i, p, words, how) && p < |text| && IsWord(text[p]) && IsModifier(WordAt(text, p))
    ensures ModifierRun(text, i, RunEnd(text, p), words + [WordAt(text, p)], how)
    decreases p - i
  {
    var more := words + [WordAt(text, p)];
    if i < p {
      if TriviaEnd(text, i, how).Some? {
        RunOverWord(text, TriviaEnd(text, i, how).value, p, words, how);
      } else {
        RunOverWord(text, RunEnd(text, i), p, words[1..], how);
        assert more[0] == words[0] && more[1..] == words[1..] + [WordAt(text, p)];
      }
    } else {
      assert more[1..] == [];
    }
  }

  /** The pending modifiers are those between where their run starts and here. */
  ghost predicate PendingOk(text: string, i: nat, ctx: Context, how: Lexing) {
    ctx.mods.Some? ==>
      var Modifiers(start, words) := ctx.mods.value;
      words != [] && start < i && ModifierRun(text, start, i, words, how)
  }

  lemma ReadKeepsPending(text: string, i: nat, ctx: Context, how: Lexing)
    requires i < |text| && PendingOk(text, i, ctx, how)
    ensures PendingOk(text, Read(text, i, ctx, how).end, Read(text, i, ctx, how).ctx, how)
  {
    hide ModifierRun, EnumAt, EnumName, Glued, StringEnd, LineEnd, BlockEnd;
    var m := Read(text, i, ctx, how);
    if m.ctx.mods.Some? {
      if TriviaEnd(text, i, how).Some? {
        RunOverTrivia(text, ctx.mods.value.start, i, ctx.mods.value.words, how);
      } else {
        assert IsWord(text[i]) && m.ctx.mods == ctx.Modified(i, WordAt(text, i)).mods && IsModifier(WordAt(text, i));
        if ctx.mods.Some? {
          RunOverWord(text, ctx.mods.value.start, i, ctx.mods.value.words, how);
        } else {
          EmptyRun(text, i, how);
          RunOverWord(text, i, i, [], how);
          assert [] + [WordAt(text, i)] == [WordAt(text, i)];
        }
      }
    }
  }

  lemma EmptyRun(text: string, i: nat, how: Lexing)
    ensures ModifierRun(text, i, i, [], how)
  { }

  lemma {:induction false} ArrivalKeepsPending(text: string, i: nat, ctx: Context, p: nat, c: Context, how: Lexing)
    requires PendingOk(text, i, ctx, how) && Arrives(text, i, ctx, p, c, how)
    ensures PendingOk(text, p, c, how)
    decreases if i < |text| then |text| - i else 0
  {
    hide Read, PendingOk;
    if !(i == p && ctx == c) {
      ReadKeepsPending(text, i, ctx, how);
      ArrivalKeepsPending(text, Read(text, i, ctx, how).end, Read(text, i, ctx, how).ctx, p, c, how);
    }
  }

  /** What an error reports: from its start stand exactly its modifiers, and then the `enum` keyword of an
      enum that opens and ends where the error does and has its name. */
  lemma MisplacedMeaning(text: string, x: Finding, how: Lexing)
    requires x.Misplaced? && x in Scan(text, 0, START, how)
    ensures x.words != [] && exists c :: EnumBehindModifiers(text, x, c, how)
  {
    hide Read, Scan;
    MisplacedAs(text, x, how);
    var c :| ReportsAt(text, c, x, how);
    ArrivalKeepsPending(text, 0, START, x.at, c, how);
    EnumNameIs(text, RunEnd(text, x.at));
    assert EnumBehindModifiers(text, x, c, how);
  }

  ghost predicate EnumBehindModifiers(text: string, x: Finding, c: Context, how: Lexing)
    requires x.Misplaced?
  {
    && x.start < x.at < |text| && ModifierRun(text, x.start, x.at, x.words, how)
    && IsEnumAt(text, x.at, c, how, x.end) && NamedBehind(text, RunEnd(text, x.at), x.name)
  }

  // ---------------------------------------------------------------- behind a modifier

  /** White space and comments change nothing. */
  lemma {:induction false} TriviaKeeps(text: string, i: nat, c: Context, p: nat, how: Lexing)
    requires ModifierRun(text, i, p, [], how) && p < |text|
    ensures Arrives(text, i, c, p, c, how)
    decreases p - i
  {
    if i < p {
      assert Read(text, i, c, how) == Move(TriviaEnd(text, i, how).value, c, None);
      TriviaKeeps(text, TriviaEnd(text, i, how).value, c, p, how);
    }
  }

  lemma {:induction false} ArrivesOn(text: string, i: nat, c: Context, j: nat, d: Context, p: nat, e: Context,
                                     how: Lexing)
    requires Arrives(text, i, c, j, d, how) && Arrives(text, j, d, p, e, how)
    ensures Arrives(text, i, c, p, e, how)
    decreases if i < |text| then |text| - i else 0
  {
    hide Read;
    if !(i == j && c == d) {
      ArrivesOn(text, Read(text, i, c, how).end, Read(text, i, c, how).ctx, j, d, p, e, how);
    }
  }

  /** The reader stands at a modifier word directly inside what it takes for a class body. */
  ghost predicate AtModifier(text: string, i: nat, c: Context, how: Lexing) {
    && Arrives(text, 0, START, i, c, how) && i < |text| && c.InClassBody()
    && IsWord(text[i]) && IsModifier(WordAt(text, i)) && !(how.Lexed? && Glued(text, i, RunEnd(text, i)))
  }

  lemma ReadModifier(text: string, i: nat, c: Context, how: Lexing)
    requires AtModifier(text, i, c, how)
    ensures var e := RunEnd(text, i);
            && i < e
            && Read(text, i, c, how) == Move(e, c.Modified(i, WordAt(text, i)).Behind(text[e - 1], how), None)
  {
    ModifierIff(WordAt(text, i));
    assert Read(text, i, c, how) == ReadWord(text, i, c, how);
    hide Read, IsModifier, EnumAt, Announced, Arrives;
  }

  /** Between a modifier and an enum that the reader sees at `p` stand only white space and comments. */
  ghost predicate EnumBehind(text: string, i: nat, c: Context, p: nat, k: nat, how: Lexing) {
    && AtModifier(text, i, c, how) && ModifierRun(text, RunEnd(text, i), p, [], how) && p < |text|
    && IsEnumAt(text, p, Read(text, i, c, how).ctx, how, k)
  }

  ghost predicate ReportedAt(text: string, x: Finding, p: nat, k: nat, word: string, how: Lexing) {
    && x in Scan(text, 0, START, how) && x.Misplaced? && x.at == p && x.end == k
    && x.words != [] && x.words[|x.words| - 1] == word
  }

  /** What follows the token at `i` follows `i`. */
  lemma ArrivesByStep(text: string, i: nat, c: Context, p: nat, d: Context, how: Lexing)
    requires i < |text| && Arrives(text, Read(text, i, c, how).end, Read(text, i, c, how).ctx, p, d, how)
    ensures Arrives(text, i, c, p, d, how)
  {
    hide Read;
  }

  lemma BehindModifier(text: string, i: nat, c: Context, how: Lexing)
    requires AtModifier(text, i, c, how)
    ensures var m := Read(text, i, c, how);
            && i < m.end == RunEnd(text, i)
            && m.ctx.InClassBody() && m.ctx.mods.Some? && m.ctx.mods.value.words != []
            && m.ctx.mods.value.words[|m.ctx.mods.value.words| - 1] == WordAt(text, i)
  {
    ReadModifier(text, i, c, how);
    assert c.InClassBody();
    hide Read, AtModifier, RunEnd, WordAt, Arrives;
  }

  lemma ArrivesBehind(text: string, i: nat, c: Context, p: nat, k: nat, how: Lexing)
    requires EnumBehind(text, i, c, p, k, how)
    ensures Arrives(text, 0, START, p, Read(text, i, c, how).ctx, how)
  {
    BehindModifier(text, i, c, how);
    assert Arrives(text, 0, START, i, c, how) && i < |text|;
    assert ModifierRun(text, RunEnd(text, i), p, [], how) && p < |text|;
    hide *;
    var m := Read(text, i, c, how);
    TriviaKeeps(text, m.end, m.ctx, p, how);
    ArrivesByStep(text, i, c, p, m.ctx, how);
    ArrivesOn(text, 0, START, i, c, p, m.ctx, how);
  }

  /** No enum behind a modifier is moved: it is reported, the modifier being the last of its words. */
  lemma ModifiedEnumIsReported(text: string, i: nat, c: Context, p: nat, k: nat, how: Lexing)
    requires EnumBehind(text, i, c, p, k, how)
    ensures exists x :: ReportedAt(text, x, p, k, WordAt(text, i), how)
  {
    ArrivesBehind(text, i, c, p, k, how);
    BehindModifier(text, i, c, how);
    hide Read, Scan, ModifierRun, IsEnumAt, RunEnd, WordAt, EnumName, Arrives, AtModifier;
    var d := Read(text, i, c, how).ctx;
    var Modifiers(start, words) := d.mods.value;
    var x := Misplaced(p, start, k, words, EnumName(text, RunEnd(text, p)));
    assert ReportsAt(text, d, x, how);
    MisplacedAs(text, x, how);
    assert ReportedAt(text, x, p, k, WordAt(text, i), how);
  }
}
