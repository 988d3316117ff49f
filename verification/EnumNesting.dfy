/** What a reader of `EnumReader` takes for a class body: the innermost brace that is open decides, and the
    source takes a brace for a class body's if a word `class` stands between it and the opening brace before. */
module EnumNesting {
  import opened Wrappers
  import opened EnumReader

  /** From `i` the reader comes to `p`, closing all braces it meets on the way and `depth` more. */
  ghost predicate Balanced(text: string, i: nat, ctx: Context, p: nat, how: Lexing, depth: nat)
    decreases p - i
  {
    if i >= p || i >= |text| then i == p && depth == 0
    else
      var m := Read(text, i, ctx, how);
      if text[i] == '{' then Balanced(text, m.end, m.ctx, p, how, depth + 1)
      else if text[i] == '}' then depth > 0 && Balanced(text, m.end, m.ctx, p, how, depth - 1)
      else Balanced(text, m.end, m.ctx, p, how, depth)
  }

  lemma ReadBraces(text: string, i: nat, ctx: Context, how: Lexing)
    requires i < |text|
    ensures var m := Read(text, i, ctx, how);
            if text[i] == '{' then
              m.ctx.braces == ctx.braces + [if how.Raw? then ctx.pendingClass else i in ctx.bodies]
            else if text[i] == '}' then
              m.ctx.braces == if ctx.braces == [] then [] else ctx.braces[..|ctx.braces| - 1]
            else m.ctx.braces == ctx.braces
  {
    hide IsModifier, EnumAt, EnumName, Glued, ClassBody, StringEnd, LineEnd, BlockEnd;
  }

  lemma {:induction false} BalancedArrives(text: string, i: nat, ctx: Context, p: nat, how: Lexing, depth: nat)
    returns (c: Context)
    requires Balanced(text, i, ctx, p, how, depth) && p < |text| && depth <= |ctx.braces|
    ensures Arrives(text, i, ctx, p, c, how) && c.braces == ctx.braces[..|ctx.braces| - depth]
    decreases p - i
  {
    c := ctx;
    if i < p {
      hide Read;
      var m := Read(text, i, ctx, how);
      ReadBraces(text, i, ctx, how);
      if text[i] == '{' {
        c := BalancedArrives(text, m.end, m.ctx, p, how, depth + 1);
      } else if text[i] == '}' {
        c := BalancedArrives(text, m.end, m.ctx, p, how, depth - 1);
      } else {
        c := BalancedArrives(text, m.end, m.ctx, p, how, depth);
      }
    }
  }

  /** The innermost open brace decides: what stands at `p`, with all braces behind `b` closed again, is directly
      in a class body exactly if the brace at `b` opens one. */
  lemma InnermostBrace(text: string, b: nat, cb: Context, p: nat, how: Lexing) returns (c: Context)
    requires Arrives(text, 0, START, b, cb, how) && b < |text| && text[b] == '{' && p < |text|
    requires Balanced(text, b + 1, Read(text, b, cb, how).ctx, p, how, 0)
    ensures Arrives(text, 0, START, p, c, how)
    ensures c.InClassBody() <==> if how.Raw? then cb.pendingClass else b in cb.bodies
  {
    ReadBraces(text, b, cb, how);
    BraceEnds(text, b, cb, how);
    hide Read, Balanced;
    var m := Read(text, b, cb, how);
    c := BalancedArrives(text, b + 1, m.ctx, p, how, 0);
    ArrivesOn(text, b, cb, b + 1, m.ctx, p, c, how);
    ArrivesOn(text, 0, START, b, cb, p, c, how);
  }

  lemma BraceEnds(text: string, b: nat, cb: Context, how: Lexing)
    requires b < |text| && text[b] == '{'
    ensures Read(text, b, cb, how).end == b + 1
    ensures b + 1 < |text| ==> Arrives(text, b, cb, b + 1, Read(text, b, cb, how).ctx, how)
  { }

  /** What stands outside all braces is in no class body. */
  lemma OutsideBraces(text: string, p: nat, how: Lexing) returns (c: Context)
    requires Balanced(text, 0, START, p, how, 0) && p < |text|
    ensures Arrives(text, 0, START, p, c, how) && !c.InClassBody()
  {
    c := BalancedArrives(text, 0, START, p, how, 0);
  }

  // ---------------------------------------------------------------- which braces the source takes for class bodies

  /** From `i` the reader comes to `p` over tokens of which none is an opening brace. */
  ghost predicate NoBrace(text: string, i: nat, ctx: Context, p: nat)
    decreases p - i
  {
    if i >= p || i >= |text| then i == p
    else text[i] != '{' && NoBrace(text, Read(text, i, ctx, Raw).end, Read(text, i, ctx, Raw).ctx, p)
  }

  /** And over none that is the word `class`. */
  ghost predicate NoClass(text: string, i: nat, ctx: Context, p: nat)
    decreases p - i
  {
    if i >= p || i >= |text| then i == p
    else
      && !(IsWord(text[i]) && WordAt(text, i) == "class")
      && NoClass(text, Read(text, i, ctx, Raw).end, Read(text, i, ctx, Raw).ctx, p)
  }

  lemma ReadPending(text: string, i: nat, ctx: Context)
    requires i < |text|
    ensures Read(text, i, ctx, Raw).ctx.pendingClass <==>
            (IsWord(text[i]) && WordAt(text, i) == "class") || (ctx.pendingClass && text[i] != '{')
  {
    hide IsModifier, EnumAt, EnumName, StringEnd, LineEnd, BlockEnd, WordAt;
  }

  lemma {:induction false} PendingStays(text: string, i: nat, ctx: Context, p: nat) returns (c: Context)
    requires NoBrace(text, i, ctx, p) && p < |text| && ctx.pendingClass
    ensures Arrives(text, i, ctx, p, c, Raw) && c.pendingClass
    decreases p - i
  {
    c := ctx;
    if i < p {
      hide Read;
      ReadPending(text, i, ctx);
      c := PendingStays(text, Read(text, i, ctx, Raw).end, Read(text, i, ctx, Raw).ctx, p);
    }
  }

  lemma {:induction false} NothingPending(text: string, i: nat, ctx: Context, p: nat) returns (c: Context)
    requires NoClass(text, i, ctx, p) && p < |text| && !ctx.pendingClass
    ensures Arrives(text, i, ctx, p, c, Raw) && !c.pendingClass
    decreases p - i
  {
    c := ctx;
    if i < p {
      hide Read;
      ReadPending(text, i, ctx);
      c := NothingPending(text, Read(text, i, ctx, Raw).end, Read(text, i, ctx, Raw).ctx, p);
    }
  }

  /** To the source, the next opening brace behind a word `class` opens a class body. */
  lemma ClassBehindWord(text: string, i: nat, ctx: Context, b: nat) returns (c: Context)
    requires Arrives(text, 0, START, i, ctx, Raw) && i < |text| && IsWord(text[i]) && WordAt(text, i) == "class"
    requires NoBrace(text, RunEnd(text, i), Read(text, i, ctx, Raw).ctx, b) && b < |text| && text[b] == '{'
    ensures Arrives(text, 0, START, b, c, Raw) && c.pendingClass
  {
    ReadPending(text, i, ctx);
    assert Read(text, i, ctx, Raw).end == RunEnd(text, i) by {
      hide IsModifier, EnumAt, EnumName;
    }
    hide Read;
    c := PendingStays(text, RunEnd(text, i), Read(text, i, ctx, Raw).ctx, b);
    ArrivesOn(text, i, ctx, RunEnd(text, i), Read(text, i, ctx, Raw).ctx, b, c, Raw);
    ArrivesOn(text, 0, START, i, ctx, b, c, Raw);
  }

  /** And one with no word `class` between it and the opening brace before opens none. */
  lemma NoneWithoutWord(text: string, a: nat, ctx: Context, b: nat) returns (c: Context)
    requires Arrives(text, 0, START, a, ctx, Raw) && a < |text| && text[a] == '{'
    requires NoClass(text, a + 1, Read(text, a, ctx, Raw).ctx, b) && b < |text| && text[b] == '{'
    ensures Arrives(text, 0, START, b, c, Raw) && !c.pendingClass
  {
    ReadPending(text, a, ctx);
    BraceEnds(text, a, ctx, Raw);
    hide Read, NoClass;
    c := NothingPending(text, a + 1, Read(text, a, ctx, Raw).ctx, b);
    ArrivesOn(text, a, ctx, a + 1, Read(text, a, ctx, Raw).ctx, b, c, Raw);
    ArrivesOn(text, 0, START, a, ctx, b, c, Raw);
  }
}
