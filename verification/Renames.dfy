/** Per-file scoping: every dependency's top-level declarations are renamed to `$m<N>$<name>`, imports
    are bound to the renamed declarations, and `demangleModuleName` strips the scope again. */
module Renames {
  import opened Wrappers
  import opened Decimals
  import opened Strings
  import opened Imports

  /** The internal name of declaration `name` of the dependency with index `n`. */
  function Scoped(n: nat, name: string): string {
    ['$'] + (['m'] + (Decimal(n) + (['$'] + name)))
  }

  // ---------------------------------------------------------------- demangling

  function DigitRun(s: string): (n: nat)
    ensures n <= |s|
  {
    if s != "" && IsDigit(s[0]) then 1 + DigitRun(s[1..]) else 0
  }

  /** Length of a match of `\$m\d+\$` at the start of `s`, 0 if there is none. */
  function BlockLength(s: string): (n: nat)
    ensures n <= |s|
  {
    if |s| >= 2 && s[0] == '$' && s[1] == 'm' then
      var d := DigitRun(s[2..]);
      if d > 0 && d + 2 < |s| && s[d + 2] == '$' then d + 3 else 0
    else 0
  }

  /** `$m`, at least one digit, `$` */
  predicate IsBlock(b: string) {
    && |b| >= 4 && b[0] == '$' && b[1] == 'm' && b[|b| - 1] == '$'
    && forall i :: 2 <= i < |b| - 1 ==> '0' <= b[i] <= '9'
  }

  lemma {:induction false} DigitRunIs(s: string, n: nat)
    requires n <= |s|
    ensures (forall i :: 0 <= i < n ==> IsDigit(s[i])) && (n < |s| ==> !IsDigit(s[n])) <==> DigitRun(s) == n
  {
    if s != "" && IsDigit(s[0]) && n > 0 {
      DigitRunIs(s[1..], n - 1);
      assert forall i :: 0 < i < |s| ==> s[i] == s[1..][i - 1];
    }
  }

  /** The match at the start of `s` is the one block that stands there. */
  lemma BlockIs(s: string, n: nat)
    requires 0 < n <= |s|
    ensures BlockLength(s) == n <==> IsBlock(s[..n])
  {
    if |s| >= 2 && s[0] == '$' && s[1] == 'm' {
      var d := DigitRun(s[2..]);
      DigitRunIs(s[2..], d);
      assert forall i :: 0 <= i < |s| - 2 ==> s[2..][i] == s[i + 2];
      if n >= 4 && IsBlock(s[..n]) {
        DigitRunIs(s[2..], n - 3);
      }
    }
  }

  /** Remove the matches from left to right, each search resuming behind the last match. */
  function Demangle(s: string): string
    decreases |s|
  {
    if s == "" then ""
    else if BlockLength(s) > 0 then Demangle(s[BlockLength(s)..])
    else [s[0]] + Demangle(s[1..])
  }

  /** Demangling drops a block at the start, and keeps a character at which none begins. */
  lemma DemangleIs(s: string)
    ensures forall n :: 0 < n <= |s| && IsBlock(s[..n]) ==> Demangle(s) == Demangle(s[n..])
    ensures s != "" && (forall n :: 0 < n <= |s| ==> !IsBlock(s[..n])) ==> Demangle(s) == [s[0]] + Demangle(s[1..])
  {
    forall n | 0 < n <= |s| ensures BlockLength(s) == n <==> IsBlock(s[..n]) {
      BlockIs(s, n);
    }
  }

  /** Some `$m<digits>$` block occurs in `s`. */
  predicate HasBlock(s: string) {
    s != "" && (BlockLength(s) > 0 || HasBlock(s[1..]))
  }

  /** The check on user-written names: a block at the very start. */
  predicate IsReserved(s: string) {
    BlockLength(s) > 0
  }

  lemma {:induction false} DigitRunConcat(digits: string, rest: string)
    requires AllDigits(digits) && (rest == "" || !IsDigit(rest[0]))
    ensures DigitRun(digits + rest) == |digits|
  {
    if digits == "" {
      assert digits + rest == rest;
    } else {
      assert digits + rest == [digits[0]] + (digits[1..] + rest);
      assert digits[0] in digits;
      DigitRunConcat(digits[1..], rest);
    }
  }

  lemma ScopedBlock(n: nat, name: string)
    ensures BlockLength(Scoped(n, name)) > 0
    ensures Scoped(n, name)[BlockLength(Scoped(n, name))..] == name
  {
    var s, d := Scoped(n, name), Decimal(n);
    assert s[2..] == d + (['$'] + name);
    DigitRunConcat(d, ['$'] + name);
    assert s[|d| + 2] == '$';
  }

  /** A demangled string is never longer, and is shorter exactly when a block occurs. */
  lemma {:induction false} DemangleShrinks(s: string)
    ensures if HasBlock(s) then |Demangle(s)| < |s| else Demangle(s) == s
    decreases |s|
  {
    if s != "" {
      if BlockLength(s) > 0 {
        DemangleShrinks(s[BlockLength(s)..]);
      } else {
        DemangleShrinks(s[1..]);
      }
    }
  }

  /** Demangling a scoped name gives back the source name exactly when that name contains no block
      itself: then and only then the user and the chain see the source spelling. */
  lemma DemangleRestores(n: nat, name: string)
    ensures Demangle(Scoped(n, name)) == Demangle(name)
    ensures Demangle(Scoped(n, name)) == name <==> !HasBlock(name)
  {
    ScopedBlock(n, name);
    DemangleShrinks(name);
  }

  /** A name the reserved-prefix check admits although demangling loses part of it. */
  lemma DemangleLosesInnerBlock()
    ensures !IsReserved("A$m1$B") && Demangle(Scoped(0, "A$m1$B")) == "AB"
  {
    ScopedBlock(0, "A$m1$B");
    var s := "$m1$B";
    assert "A$m1$B"[1..] == s;
    assert s[2..] == "1" + "$B";
    DigitRunConcat("1", "$B");
    assert s[4..] == "B";
    assert "B"[1..] == "";
    assert Demangle("B") == "B";
    assert Demangle(s) == "B";
    assert Demangle("A$m1$B") == "AB";
  }

  /** No name the reserved-prefix check admits equals a scoped name. */
  lemma ScopedIsReserved(n: nat, name: string)
    ensures IsReserved(Scoped(n, name))
  {
    ScopedBlock(n, name);
  }

  lemma ScopedInjective(m: nat, a: string, n: nat, b: string)
    requires Scoped(m, a) == Scoped(n, b)
    ensures m == n && a == b
  {
    Cancel('$', ['m'] + (Decimal(m) + (['$'] + a)), '$', ['m'] + (Decimal(n) + (['$'] + b)));
    Cancel('m', Decimal(m) + (['$'] + a), 'm', Decimal(n) + (['$'] + b));
    WordsSplit(Decimal(m), Decimal(n), ['$'] + a, ['$'] + b);
    Cancel('$', a, '$', b);
    DecimalInjective(m, n);
  }

  // ---------------------------------------------------------------- the rename maps

  /** The facts about a finished search that naming relies on. */
  ghost predicate Finished(pr: Project, s: Search) {
    s.Valid(pr) && pr.entryKey in s.visited
  }

  /** `exportedNames` collects top-level declarations only. */
  ghost predicate ExportsAreTopLevel(pr: Project) {
    forall k :: pr.IsFile(k) ==> forall nm :: nm in pr.FileOf(k).exported ==> nm in pr.FileOf(k).topLevel
  }

  function OwnNames(pr: Project, depIndex: map<Key, nat>, k: Key): map<string, string>
    requires pr.IsFile(k)
  {
    if k in depIndex then map nm | nm in pr.FileOf(k).topLevel :: Scoped(depIndex[k], nm) else map[]
  }

  function ImportedNames(depIndex: map<Key, nat>, b: Bindings): map<string, string>
    requires forall local :: local in b ==> b[local].target in depIndex
  {
    map local | local in b :: Scoped(depIndex[b[local].target], b[local].original)
  }

  /** What a binding of a finished file refers to: a dependency that is finished too, and a top-level
      declaration it exports. */
  lemma BindingRefers(pr: Project, s: Search, k: Key, local: string)
    requires Finished(pr, s) && ExportsAreTopLevel(pr) && k in s.order
    requires k in s.bindings && local in s.bindings[k]
    ensures var b := s.bindings[k][local];
            && b.target in s.order && b.target != pr.entryKey && b.target in s.depIndex && b.target in s.bindings
            && pr.IsFile(b.target) && b.original in pr.FileOf(b.target).topLevel
            && b.original !in s.bindings[b.target]
  {
    DoneMeaning(pr, s);
    FinishedFile(pr, s, k);
    var f, b := pr.FileOf(k), s.bindings[k][local];
    BindAllStems(map[], f.imports, local);
    var imp :| imp in f.imports && StemsFrom(b, local, imp);
    var i :| 0 <= i < |f.imports| && f.imports[i] == imp;
    assert pr.ImportOk(f.imports[i]);
    assert pr.Imports(k, b.target);
    pr.ReachableStep(k, b.target);
    if b.target == pr.entryKey {
      pr.EntryImportCloses(k);
    }
    FinishedFile(pr, s, b.target);
  }

  lemma FinishedFile(pr: Project, s: Search, k: Key)
    requires Finished(pr, s) && k in s.order
    ensures pr.IsFile(k) && pr.Reachable(k) && pr.FileOk(k)
    ensures k in s.bindings && BindAll(map[], pr.FileOf(k).imports) == Some(s.bindings[k])
    ensures k != pr.entryKey ==> k in s.depIndex && s.depIndex[k] < |s.order| && s.order[s.depIndex[k]] == k
  {
    var i: nat :| i < |s.order| && s.order[i] == k;
    assert s.DoneOk(pr, i);
  }

  ghost predicate BindingsResolve(s: Search, k: Key) {
    k in s.bindings && forall local :: local in s.bindings[k] ==> s.bindings[k][local].target in s.depIndex
  }

  lemma FinishedResolves(pr: Project, s: Search, k: Key)
    requires Finished(pr, s) && ExportsAreTopLevel(pr) && k in s.order
    ensures BindingsResolve(s, k)
  {
    FinishedFile(pr, s, k);
    forall local | local in s.bindings[k] ensures s.bindings[k][local].target in s.depIndex {
      BindingRefers(pr, s, k, local);
    }
  }

  /** The rename map of one file. */
  function RenamesOf(pr: Project, s: Search, k: Key): map<string, string>
    requires pr.IsFile(k) && k in s.bindings
    requires forall local :: local in s.bindings[k] ==> s.bindings[k][local].target in s.depIndex
  {
    OwnNames(pr, s.depIndex, k) + ImportedNames(s.depIndex, s.bindings[k])
  }

  /** A correct linker: a binding is renamed to exactly the name its target file gives the declaration
      it was exported as. */
  lemma BindingsLink(pr: Project, s: Search, k: Key, local: string)
    requires Finished(pr, s) && ExportsAreTopLevel(pr) && k in s.order
    requires k in s.bindings && local in s.bindings[k]
    ensures var b := s.bindings[k][local];
            && pr.IsFile(k) && BindingsResolve(s, k) && local in RenamesOf(pr, s, k)
            && pr.IsFile(b.target) && BindingsResolve(s, b.target) && b.original in RenamesOf(pr, s, b.target)
            && RenamesOf(pr, s, k)[local] == RenamesOf(pr, s, b.target)[b.original]
  {
    BindingRefers(pr, s, k, local);
    FinishedFile(pr, s, k);
    FinishedResolves(pr, s, k);
    FinishedResolves(pr, s, s.bindings[k][local].target);
  }

  /** A declaration of a dependency keeps its own scoped name: no binding of the file overwrites it. */
  lemma OwnNamesKept(pr: Project, s: Search, k: Key, nm: string)
    requires Finished(pr, s) && ExportsAreTopLevel(pr) && k in s.order && k != pr.entryKey
    requires pr.IsFile(k) && nm in pr.FileOf(k).topLevel
    ensures k in s.depIndex && BindingsResolve(s, k)
    ensures nm in RenamesOf(pr, s, k) && RenamesOf(pr, s, k)[nm] == Scoped(s.depIndex[k], nm)
  {
    FinishedFile(pr, s, k);
    FinishedResolves(pr, s, k);
  }

  /** Two declarations of finished dependencies share a scoped name only if they are the same one. */
  lemma ScopedNamesDistinct(pr: Project, s: Search, k: Key, a: string, j: Key, b: string)
    requires Finished(pr, s) && k in s.order && j in s.order && k != pr.entryKey && j != pr.entryKey
    requires k in s.depIndex && j in s.depIndex && Scoped(s.depIndex[k], a) == Scoped(s.depIndex[j], b)
    ensures k == j && a == b
  {
    FinishedFile(pr, s, k);
    FinishedFile(pr, s, j);
    ScopedInjective(s.depIndex[k], a, s.depIndex[j], b);
  }

  /** The rewrite renames spellings wherever they occur, so none it renames is that of a nested declaration, a
      parameter or a local of the file; and an import is none of the file's own declarations. */
  lemma RenamedNamesAreFree(pr: Project, s: Search, k: Key, nm: string)
    requires Finished(pr, s) && ExportsAreTopLevel(pr) && k in s.order
    requires pr.IsFile(k) && BindingsResolve(s, k) && nm in RenamesOf(pr, s, k)
    ensures nm !in pr.FileOf(k).nested && nm !in pr.FileOf(k).shadows
    ensures nm in s.bindings[k] ==> nm !in pr.FileOf(k).topLevel
    ensures nm in s.bindings[k] || (k != pr.entryKey && nm in pr.FileOf(k).topLevel)
  {
    FinishedFile(pr, s, k);
  }

  /** The entry's own declarations are never renamed: its map holds its import bindings only. */
  lemma EntryKeepsNames(pr: Project, s: Search)
    requires Finished(pr, s) && ExportsAreTopLevel(pr)
    ensures pr.entryKey in s.order && BindingsResolve(s, pr.entryKey)
    ensures RenamesOf(pr, s, pr.entryKey).Keys == s.bindings[pr.entryKey].Keys
    ensures forall nm :: nm in pr.entry.topLevel ==> nm !in RenamesOf(pr, s, pr.entryKey)
  {
    FinishedFile(pr, s, pr.entryKey);
    FinishedResolves(pr, s, pr.entryKey);
  }

  /** The loop over a file's own declarations. */
  method AddOwnNames(own: seq<string>, n: nat) returns (m: map<string, string>)
    ensures m == map nm | nm in own :: Scoped(n, nm)
  {
    hide Scoped;
    m := map[];
    for i := 0 to |own|
      invariant forall nm :: nm in m <==> nm in own[..i]
      invariant forall nm :: nm in m ==> m[nm] == Scoped(n, nm)
    {
      m := m[own[i] := Scoped(n, own[i])];
    }
    assert own[..|own|] == own;
  }

  lemma PutOver(own: map<string, string>, done: map<string, string>, local: string, name: string)
    ensures (own + done)[local := name] == own + done[local := name]
  { }

  /** The loop over a file's import bindings, which overwrite. */
  method AddImportedNames(own: map<string, string>, depIndex: map<Key, nat>, b: Bindings)
    returns (m: map<string, string>)
    requires forall local :: local in b ==> b[local].target in depIndex
    ensures m == own + ImportedNames(depIndex, b)
  {
    hide Scoped;
    m := own;
    ghost var done: map<string, string> := map[];
    var rest := b.Keys;
    while rest != {}
      invariant rest <= b.Keys && m == own + done && done.Keys == b.Keys - rest
      invariant forall l :: l in done ==> done[l] == Scoped(depIndex[b[l].target], b[l].original)
      decreases rest
    {
      var local :| local in rest;
      var name := Scoped(depIndex[b[local].target], b[local].original);
      PutOver(own, done, local, name);
      rest, m, done := rest - {local}, m[local := name], done[local := name];
    }
    assert done == ImportedNames(depIndex, b);
  }

  /** The loops that fill one file's map. */
  method BuildRenames(pr: Project, s: Search, k: Key) returns (m: map<string, string>)
    requires pr.IsFile(k) && k in s.bindings
    requires forall local :: local in s.bindings[k] ==> s.bindings[k][local].target in s.depIndex
    ensures m == RenamesOf(pr, s, k)
  {
    m := map[];
    if k in s.depIndex {
      m := AddOwnNames(pr.FileOf(k).topLevel, s.depIndex[k]);
    }
    m := AddImportedNames(m, s.depIndex, s.bindings[k]);
  }
}
