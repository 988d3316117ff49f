/** The import bundler of `src/imports.ts`: a depth-first search over the import graph with cycle
    detection, which orders every dependency before its importers.

    A file is its declared names, its import statements with resolved target keys, and the verdicts
    of the checks that look only at its syntax. */
module Imports {
  import opened Sequences
  import opened Wrappers

  type Key = string

  /** `import { original as local }`; `aliasOk` is false for an alias that takes a reserved name. */
  datatype Specifier = Specifier(original: string, local: string, aliasOk: bool)

  /** One import statement; `formOk` is false for a default, namespace, side-effect or non-relative one. */
  datatype Import = Import(target: Key, formOk: bool, specifiers: seq<Specifier>)

  datatype File = File(
    headerOk: bool,          // parses, carries no retired pragma, and declares no contract if a dependency
    namesOk: bool,           // no top-level name shadows a builtin (dependencies only)
    imports: seq<Import>,
    topLevel: seq<string>,   // top-level declarations
    exported: set<string>,   // those marked `export`
    nested: set<string>,     // declarations below top level
    shadows: set<string>)    // parameters, variables, binding elements and type parameters

  datatype Binding = Binding(target: Key, original: string)
  type Bindings = map<string, Binding>

  datatype BundleError =
    | Cycle(path: seq<Key>)
    | Unresolved(importer: Key, target: Key)
    | CheckFailed(file: Key)

  // ---------------------------------------------------------------- the checks on one file

  /** Bind each specifier's local name; two edges may share one only if they name the same declaration. */
  function Bind(acc: Bindings, target: Key, specs: seq<Specifier>): Option<Bindings>
    decreases |specs|
  {
    if specs == [] then Some(acc)
    else
      var Specifier(original, local, aliasOk) := specs[0];
      if !aliasOk || (local in acc && acc[local] != Binding(target, original)) then None
      else Bind(acc[local := Binding(target, original)], target, specs[1..])
  }

  function BindAll(acc: Bindings, imports: seq<Import>): Option<Bindings>
    decreases |imports|
  {
    if imports == [] then Some(acc)
    else
      match Bind(acc, imports[0].target, imports[0].specifiers)
      case Some(acc') => BindAll(acc', imports[1..])
      case None => None
  }

  /** No renamed name may share its spelling with a name the rename could capture. */
  predicate NoHazard(f: File, b: Bindings, isEntry: bool) {
    && (forall local :: local in b ==> local !in f.topLevel && local !in f.nested && local !in f.shadows)
    && (isEntry || (f.namesOk && forall nm :: nm in f.topLevel ==> nm !in f.shadows && nm !in f.nested))
  }

  // ---------------------------------------------------------------- what the import lists promise

  /** The binding stems from a specifier of the import statement. */
  ghost predicate StemsFrom(b: Binding, local: string, imp: Import) {
    b.target == imp.target && exists sp :: sp in imp.specifiers && sp.local == local && sp.original == b.original
  }

  ghost predicate Stems(b: Binding, local: string, imports: seq<Import>) {
    exists imp :: imp in imports && StemsFrom(b, local, imp)
  }

  lemma {:induction false} BindStems(acc: Bindings, imp: Import, specs: seq<Specifier>, local: string)
    requires Bind(acc, imp.target, specs).Some? && local in Bind(acc, imp.target, specs).value
    requires forall sp :: sp in specs ==> sp in imp.specifiers
    ensures var b := Bind(acc, imp.target, specs).value[local];
            (local in acc && acc[local] == b) || StemsFrom(b, local, imp)
    decreases |specs|
  {
    if specs != [] {
      var acc' := acc[specs[0].local := Binding(imp.target, specs[0].original)];
      BindStems(acc', imp, specs[1..], local);
      if local == specs[0].local && acc'[local] == Bind(acc, imp.target, specs).value[local] {
        assert specs[0] in imp.specifiers;
        assert StemsFrom(acc'[local], local, imp);
      }
    }
  }

  lemma {:induction false} BindAllStems(acc: Bindings, imports: seq<Import>, local: string)
    requires BindAll(acc, imports).Some? && local in BindAll(acc, imports).value
    ensures var b := BindAll(acc, imports).value[local];
            (local in acc && acc[local] == b) || Stems(b, local, imports)
    decreases |imports|
  {
    if imports != [] {
      var imp := imports[0];
      var acc' := Bind(acc, imp.target, imp.specifiers).value;
      var b := BindAll(acc, imports).value[local];
      BindAllStems(acc', imports[1..], local);
      if Stems(b, local, imports[1..]) {
        var i :| i in imports[1..] && StemsFrom(b, local, i);
        assert i in imports;
      } else {
        BindStems(acc, imp, imp.specifiers, local);
        if StemsFrom(b, local, imp) {
          assert imp in imports;
        }
      }
    }
  }

  /** Two specifiers with the same local name import the same declaration. */
  ghost predicate Agree(target: Key, sp: Specifier, target': Key, sp': Specifier) {
    sp.local == sp'.local ==> target == target' && sp.original == sp'.original
  }

  ghost predicate Compatible(imports: seq<Import>) {
    && (forall i, sp :: i in imports && sp in i.specifiers ==> sp.aliasOk)
    && (forall i, i', sp, sp' :: i in imports && i' in imports && sp in i.specifiers && sp' in i'.specifiers ==>
          Agree(i.target, sp, i'.target, sp'))
  }

  ghost predicate BoundAs(acc: Bindings, target: Key, sp: Specifier) {
    sp.local in acc && acc[sp.local] == Binding(target, sp.original)
  }

  /** What is bound stays bound, and each specifier gets bound. */
  lemma {:induction false} BindBinds(acc: Bindings, target: Key, specs: seq<Specifier>, t: Key, sp: Specifier)
    requires Bind(acc, target, specs).Some?
    ensures BoundAs(acc, t, sp) ==> BoundAs(Bind(acc, target, specs).value, t, sp)
    ensures sp in specs ==> sp.aliasOk && BoundAs(Bind(acc, target, specs).value, target, sp)
    decreases |specs|
  {
    if specs != [] {
      var acc' := acc[specs[0].local := Binding(target, specs[0].original)];
      BindBinds(acc', target, specs[1..], t, sp);
      BindBinds(acc', target, specs[1..], target, sp);
    }
  }

  lemma {:induction false} BindAllBinds(acc: Bindings, imports: seq<Import>, i: Import, sp: Specifier)
    requires BindAll(acc, imports).Some?
    ensures BoundAs(acc, i.target, sp) ==> BoundAs(BindAll(acc, imports).value, i.target, sp)
    ensures i in imports && sp in i.specifiers ==> sp.aliasOk && BoundAs(BindAll(acc, imports).value, i.target, sp)
    decreases |imports|
  {
    if imports != [] {
      var imp := imports[0];
      var acc' := Bind(acc, imp.target, imp.specifiers).value;
      BindBinds(acc, imp.target, imp.specifiers, i.target, sp);
      BindAllBinds(acc', imports[1..], i, sp);
    }
  }

  lemma {:induction false} BindSucceeds(acc: Bindings, target: Key, specs: seq<Specifier>)
    requires forall sp :: sp in specs ==> sp.aliasOk && (sp.local in acc ==> BoundAs(acc, target, sp))
    requires forall sp, sp' :: sp in specs && sp' in specs ==> Agree(target, sp, target, sp')
    ensures Bind(acc, target, specs).Some?
    decreases |specs|
  {
    if specs != [] {
      var acc' := acc[specs[0].local := Binding(target, specs[0].original)];
      forall sp | sp in specs[1..] && sp.local in acc' ensures BoundAs(acc', target, sp) {
        assert Agree(target, sp, target, specs[0]);
      }
      BindSucceeds(acc', target, specs[1..]);
    }
  }

  lemma {:induction false} BindAllSucceeds(acc: Bindings, imports: seq<Import>)
    requires Compatible(imports)
    requires forall i, sp :: i in imports && sp in i.specifiers && sp.local in acc ==> BoundAs(acc, i.target, sp)
    ensures BindAll(acc, imports).Some?
    decreases |imports|
  {
    if imports != [] {
      var imp, rest := imports[0], imports[1..];
      BindSucceeds(acc, imp.target, imp.specifiers);
      var acc' := Bind(acc, imp.target, imp.specifiers).value;
      forall i, sp | i in rest && sp in i.specifiers && sp.local in acc' ensures BoundAs(acc', i.target, sp) {
        BindStems(acc, imp, imp.specifiers, sp.local);
        if StemsFrom(acc'[sp.local], sp.local, imp) {
          var sp' :|
            sp' in imp.specifiers && sp'.local == sp.local && acc'[sp.local] == Binding(imp.target, sp'.original);
          assert Agree(i.target, sp, imp.target, sp');
        }
      }
      BindAllSucceeds(acc', rest);
    }
  }

  /** A file's import lists are accepted iff no alias is reserved and no local name is bound to two different
      declarations; every specifier is then bound to the declaration it names. */
  lemma ImportsBindIff(imports: seq<Import>)
    ensures BindAll(map[], imports).Some? <==> Compatible(imports)
    ensures BindAll(map[], imports).Some? ==>
              forall i, sp :: i in imports && sp in i.specifiers ==>
                                BoundAs(BindAll(map[], imports).value, i.target, sp)
  {
    if BindAll(map[], imports).Some? {
      var b := BindAll(map[], imports).value;
      forall i, sp | i in imports && sp in i.specifiers ensures sp.aliasOk && BoundAs(b, i.target, sp) {
        BindAllBinds(map[], imports, i, sp);
      }
    }
    if Compatible(imports) {
      BindAllSucceeds(map[], imports);
    }
  }

  /** The input of one run: the entry file and the other sources by normalized path. The entry is
      never read from the sources. */
  datatype Project = Project(entryKey: Key, entry: File, sources: map<Key, File>) {
    predicate IsFile(k: Key) {
      k == entryKey || k in sources
    }

    function FileOf(k: Key): File
      requires IsFile(k)
    {
      if k == entryKey then entry else sources[k]
    }

    predicate Imports(k: Key, t: Key) {
      IsFile(k) && exists i :: 0 <= i < |FileOf(k).imports| && FileOf(k).imports[i].target == t
    }

    predicate NamesExported(imp: Import) {
      imp.target in sources ==> forall s :: s in imp.specifiers ==> s.original in sources[imp.target].exported
    }

    predicate ImportOk(imp: Import) {
      imp.formOk && NamesExported(imp)
    }

    /** Everything a file is checked for besides resolving its imports. */
    predicate FileOk(k: Key)
      requires IsFile(k)
    {
      var f := FileOf(k);
      && f.headerOk
      && (forall i :: 0 <= i < |f.imports| ==> ImportOk(f.imports[i]))
      && BindAll(map[], f.imports).Some?
      && NoHazard(f, BindAll(map[], f.imports).value, k == entryKey)
    }

    // ------------------------------------------------------------ paths

    ghost predicate Edge(p: seq<Key>, i: nat) {
      i + 1 < |p| ==> Imports(p[i], p[i + 1])
    }

    ghost predicate IsPath(p: seq<Key>) {
      p != [] && forall i :: Edge(p, i)
    }

    ghost predicate Reaches(p: seq<Key>, k: Key) {
      IsPath(p) && p[0] == entryKey && p[|p| - 1] == k
    }

    ghost predicate Reachable(k: Key) {
      exists p :: Reaches(p, k)
    }

    ghost predicate IsCycle(p: seq<Key>) {
      |p| >= 2 && IsPath(p) && p[0] == p[|p| - 1]
    }

    /** Every import of a reachable file names one of the sources. */
    ghost predicate AllResolve() {
      forall k, t :: Reachable(k) && Imports(k, t) ==> t in sources
    }

    ghost predicate Acyclic() {
      forall p :: IsCycle(p) ==> !Reachable(p[0])
    }

    ghost predicate AllFilesOk() {
      forall k :: Reachable(k) && IsFile(k) ==> FileOk(k)
    }

    lemma PathSnoc(p: seq<Key>, k: Key, t: Key)
      requires Reaches(p, k) && Imports(k, t)
      ensures Reaches(p + [t], t)
    {
      var q := p + [t];
      forall i: nat ensures Edge(q, i) {
        assert Edge(p, i);
      }
    }

    lemma ReachableStep(k: Key, t: Key)
      requires Reachable(k) && Imports(k, t)
      ensures Reachable(t)
    {
      var p :| Reaches(p, k);
      PathSnoc(p, k, t);
    }

    /** Every file on a path from the entry is reachable. */
    lemma OnPathReachable(p: seq<Key>, k: Key, i: nat)
      requires Reaches(p, k) && i < |p|
      ensures Reachable(p[i])
    {
      var q := p[..i + 1];
      forall j: nat ensures Edge(q, j) {
        assert Edge(p, j);
      }
      assert Reaches(q, p[i]);
    }

    /** Returning to a file on the path closes a cycle. */
    lemma ClosesCycle(p: seq<Key>, k: Key, i: nat, t: Key)
      requires Reaches(p, k) && i < |p| && p[i] == t && Imports(k, t)
      ensures IsCycle(p[i..] + [t]) && Reachable(t)
    {
      OnPathReachable(p, k, i);
      var q := p[i..] + [t];
      forall j: nat ensures Edge(q, j) {
        assert Edge(p, i + j);
      }
    }

    /** Importing the entry closes a cycle. */
    lemma EntryImportCloses(k: Key)
      requires Reachable(k) && Imports(k, entryKey)
      ensures !Acyclic()
    {
      var p :| Reaches(p, k);
      ClosesCycle(p, k, 0, entryKey);
      assert (p[0..] + [entryKey])[0] == entryKey;
    }

    lemma EntryReachable()
      ensures Reachable(entryKey)
    {
      assert Reaches([entryKey], entryKey);
    }

    // ------------------------------------------------------------ topological orders

    /** Every import of the file at position `i` lies at an earlier position. */
    ghost predicate Closed(order: seq<Key>, i: nat) {
      i < |order| ==> IsFile(order[i]) && forall t :: Imports(order[i], t) ==> t in order[..i]
    }

    ghost predicate Topological(order: seq<Key>) {
      forall i :: Closed(order, i)
    }

    /** Along a path inside a topological order, positions only go down. */
    lemma {:induction false} PathDescends(order: seq<Key>, p: seq<Key>, n: nat, at: nat) returns (end: nat)
      requires Topological(order) && IsPath(p) && n < |p| && at < |order| && order[at] == p[0]
      ensures end < |order| && order[end] == p[n] && end + n <= at
    {
      if n == 0 {
        end := at;
      } else {
        var e := PathDescends(order, p, n - 1, at);
        assert Edge(p, n - 1) && Closed(order, e);
        assert p[n] in order[..e];
        end :| 0 <= end < e && order[..e][end] == p[n];
      }
    }

    /** A topological order that holds the entry holds every reachable file, and no cycle is reachable. */
    lemma TopologicalMeaning(order: seq<Key>)
      requires Topological(order) && entryKey in order
      requires Distinct(order)
      ensures forall k :: Reachable(k) ==> k in order
      ensures Acyclic()
    {
      var at: nat :| at < |order| && order[at] == entryKey;
      forall k | Reachable(k) ensures k in order {
        var p :| Reaches(p, k);
        var _ := PathDescends(order, p, |p| - 1, at);
      }
      forall p | IsCycle(p) ensures !Reachable(p[0]) {
        if Reachable(p[0]) {
          var i: nat :| i < |order| && order[i] == p[0];
          var j := PathDescends(order, p, |p| - 1, i);
        }
      }
    }
  }

  // ---------------------------------------------------------------- what is demanded of the files

  /** An imported name is one that its target file marks `export`; its local name is free in this file. */
  ghost predicate SpecifierRules(pr: Project, f: File, imp: Import, sp: Specifier) {
    && sp.aliasOk && imp.target in pr.sources && sp.original in pr.sources[imp.target].exported
    && sp.local !in f.topLevel && sp.local !in f.nested && sp.local !in f.shadows
  }

  /** An import statement has a supported form, and its target is one of the sources. */
  ghost predicate ImportRules(pr: Project, f: File, imp: Import) {
    imp.formOk && imp.target in pr.sources && forall sp :: sp in imp.specifiers ==> SpecifierRules(pr, f, imp, sp)
  }

  /** A dependency's own names, which are renamed, are free too. */
  ghost predicate OwnRules(f: File) {
    f.namesOk && forall nm :: nm in f.topLevel ==> nm !in f.nested && nm !in f.shadows
  }

  /** All that is demanded of one file, by its fields alone. */
  ghost predicate FileRules(pr: Project, k: Key) {
    pr.IsFile(k) &&
    var f := pr.FileOf(k);
    && f.headerOk
    && (forall imp :: imp in f.imports ==> ImportRules(pr, f, imp))
    && Compatible(f.imports)
    && (k != pr.entryKey ==> OwnRules(f))
  }

  /** A bundle exists exactly if no import cycle is reachable and every reachable file keeps the rules. */
  ghost predicate Bundles(pr: Project) {
    pr.Acyclic() && forall k :: pr.Reachable(k) ==> FileRules(pr, k)
  }

  /** A file that imports existing files only passes its checks exactly if it keeps the rules. */
  lemma FileOkIff(pr: Project, k: Key)
    requires pr.IsFile(k) && forall t :: pr.Imports(k, t) ==> t in pr.sources
    ensures pr.FileOk(k) <==> FileRules(pr, k)
  {
    hide BindAll, Project.Reachable;
    var f := pr.FileOf(k);
    ImportsBindIff(f.imports);
    forall imp | imp in f.imports ensures pr.Imports(k, imp.target) && imp.target in pr.sources {
      var i :| 0 <= i < |f.imports| && f.imports[i] == imp;
    }
    if pr.FileOk(k) {
      BoundNames(f.imports);
      forall imp | imp in f.imports ensures ImportRules(pr, f, imp) {
        var i :| 0 <= i < |f.imports| && f.imports[i] == imp;
        assert pr.ImportOk(f.imports[i]);
        forall sp | sp in imp.specifiers ensures SpecifierRules(pr, f, imp, sp) {
          assert sp.local in BindAll(map[], f.imports).value;
        }
      }
    }
    if FileRules(pr, k) {
      BoundNames(f.imports);
      forall i | 0 <= i < |f.imports| ensures pr.ImportOk(f.imports[i]) {
        assert ImportRules(pr, f, f.imports[i]);
      }
      var b := BindAll(map[], f.imports).value;
      forall local | local in b ensures local !in f.topLevel && local !in f.nested && local !in f.shadows {
        var imp, sp :| imp in f.imports && sp in imp.specifiers && sp.local == local;
        assert ImportRules(pr, f, imp) && SpecifierRules(pr, f, imp, sp);
      }
    }
  }

  /** The names bound are the local names of the specifiers. */
  lemma BoundNames(imports: seq<Import>)
    requires BindAll(map[], imports).Some?
    ensures forall local :: local in BindAll(map[], imports).value <==>
              exists imp, sp :: imp in imports && sp in imp.specifiers && sp.local == local
  {
    var b := BindAll(map[], imports).value;
    ImportsBindIff(imports);
    forall local | local in b ensures exists imp, sp :: imp in imports && sp in imp.specifiers && sp.local == local {
      BindAllStems(map[], imports, local);
      var imp :| imp in imports && StemsFrom(b[local], local, imp);
    }
    forall imp, sp | imp in imports && sp in imp.specifiers ensures sp.local in b {
      assert BoundAs(b, imp.target, sp);
    }
  }

  lemma BundlesIff(pr: Project)
    ensures pr.AllResolve() && pr.Acyclic() && pr.AllFilesOk() <==> Bundles(pr)
  {
    hide Project.FileOk, Project.Acyclic, Project.Reachable;
    if pr.AllResolve() && pr.AllFilesOk() {
      forall k | pr.Reachable(k) ensures FileRules(pr, k) {
        ReachableIsFile(pr, k);
        FileOkIff(pr, k);
      }
    }
    if Bundles(pr) {
      forall k, t | pr.Reachable(k) && pr.Imports(k, t) ensures t in pr.sources {
        assert FileRules(pr, k);
        var i :| 0 <= i < |pr.FileOf(k).imports| && pr.FileOf(k).imports[i].target == t;
        assert pr.FileOf(k).imports[i] in pr.FileOf(k).imports;
      }
      forall k | pr.Reachable(k) && pr.IsFile(k) ensures pr.FileOk(k) {
        assert FileRules(pr, k);
        FileOkIff(pr, k);
      }
    }
  }

  lemma ReachableIsFile(pr: Project, k: Key)
    requires pr.AllResolve() && pr.Reachable(k)
    ensures pr.IsFile(k)
  {
    var p :| pr.Reaches(p, k);
    if |p| > 1 {
      var n := |p| - 2;
      pr.OnPathReachable(p, k, n);
      assert pr.Edge(p, n);
    }
  }

  // ---------------------------------------------------------------- the order that results

  ghost function Files(pr: Project): set<Key> {
    pr.sources.Keys + {pr.entryKey}
  }

  /** Depth-first post-order by import statement: `done` extended by the file `k` and what it imports, each
      file behind its imports and where it is first met. */
  ghost function PostOrder(pr: Project, stack: seq<Key>, done: seq<Key>, k: Key): seq<Key>
    decreases Files(pr) - Elements(stack), 0
  {
    if !pr.IsFile(k) || k in done || k in stack then done
    else
      ElementsSnoc(stack, k);
      PostOrderOf(pr, stack + [k], done, pr.FileOf(k).imports) + [k]
  }

  lemma PostOrderUnfolds(pr: Project, stack: seq<Key>, done: seq<Key>, k: Key)
    ensures PostOrder(pr, stack, done, k) ==
            if !pr.IsFile(k) || k in done || k in stack then done
            else PostOrderOf(pr, stack + [k], done, pr.FileOf(k).imports) + [k]
  { }

  ghost function PostOrderOf(pr: Project, stack: seq<Key>, done: seq<Key>, imports: seq<Import>): seq<Key>
    decreases Files(pr) - Elements(stack), 1, |imports|
  {
    if imports == [] then done
    else PostOrderOf(pr, stack, PostOrder(pr, stack, done, imports[0].target), imports[1..])
  }

  // ---------------------------------------------------------------- the search

  /** What the error says is true of the project. */
  ghost predicate Justified(pr: Project, e: BundleError) {
    match e
    case Cycle(path) => pr.IsCycle(path) && pr.Reachable(path[0])
    case Unresolved(k, t) => pr.Reachable(k) && pr.Imports(k, t) && t !in pr.sources
    case CheckFailed(k) => pr.Reachable(k) && pr.IsFile(k) && !pr.FileOk(k)
  }

  lemma FailedIsJustified(pr: Project, k: Key)
    requires pr.Reachable(k) && pr.IsFile(k) && !pr.FileOk(k)
    ensures Justified(pr, CheckFailed(k))
  { }

  /** A snapshot of the search. */
  datatype Search = Search(
    stack: seq<Key>, visited: set<Key>, order: seq<Key>, depIndex: map<Key, nat>, bindings: map<Key, Bindings>)
  {
    /** The stack is a path from the entry without repetition. */
    ghost predicate StackOk(pr: Project) {
      && (stack != [] ==> pr.Reaches(stack, stack[|stack| - 1]))
      && (forall k :: k in stack ==> pr.IsFile(k) && k !in visited)
      && Distinct(stack)
    }

    /** A finished file is reachable, checked and bound; a dependency knows its position. */
    ghost predicate DoneOk(pr: Project, i: nat) {
      i < |order| ==>
        var k := order[i];
        && pr.IsFile(k) && pr.Reachable(k) && pr.FileOk(k)
        && k in bindings && BindAll(map[], pr.FileOf(k).imports) == Some(bindings[k])
        && (k != pr.entryKey ==> k in depIndex && depIndex[k] == i)
    }

    /** Until the entry finishes, the next free index is the length of the order. */
    ghost predicate IndexOk(pr: Project) {
      && (forall k :: k in depIndex ==> k in visited && k != pr.entryKey)
      && (pr.entryKey !in visited ==> |depIndex| == |order|)
    }

    ghost predicate OrderOk(pr: Project) {
      && Distinct(order)
      && (forall k :: k in order <==> k in visited)
      && pr.Topological(order)
      && (forall i :: DoneOk(pr, i))
    }

    ghost predicate Valid(pr: Project) {
      StackOk(pr) && OrderOk(pr) && IndexOk(pr)
    }

    function Pushed(k: Key): Search {
      this.(stack := stack + [k])
    }

    /** The top of the stack is done. */
    function Finished(k: Key, here: Bindings, isEntry: bool): Search
      requires stack != []
    {
      Search(stack[..|stack| - 1], visited + {k}, order + [k],
             if isEntry then depIndex else depIndex[k := |depIndex|], bindings[k := here])
    }

    /** `k` may be searched next. */
    ghost predicate MayVisit(pr: Project, k: Key) {
      pr.IsFile(k) && if stack == [] then k == pr.entryKey else pr.Imports(stack[|stack| - 1], k)
    }

    lemma PushKeeps(pr: Project, k: Key)
      requires Valid(pr) && MayVisit(pr, k) && k !in stack && k !in visited
      ensures Pushed(k).Valid(pr) && pr.Reachable(k)
    {
      hide pr.FileOk, pr.Topological, BindAll;
      if stack == [] {
        pr.EntryReachable();
        assert pr.Reaches([k], k);
        assert stack + [k] == [k];
      } else {
        pr.PathSnoc(stack, stack[|stack| - 1], k);
      }
      var s := Pushed(k);
      forall i: nat ensures s.DoneOk(pr, i) { assert DoneOk(pr, i); }
    }

    lemma StackShrinks(pr: Project)
      requires StackOk(pr) && stack != []
      ensures var s := stack[..|stack| - 1]; s != [] ==> pr.Reaches(s, s[|s| - 1])
    {
      var s := stack[..|stack| - 1];
      if s != [] {
        forall i: nat ensures pr.Edge(s, i) {
          assert pr.Edge(stack, i);
        }
      }
    }

    lemma TopologicalSnoc(pr: Project, k: Key)
      requires pr.Topological(order) && pr.IsFile(k) && forall t :: pr.Imports(k, t) ==> t in order
      ensures pr.Topological(order + [k])
    {
      forall i: nat ensures pr.Closed(order + [k], i) {
        assert pr.Closed(order, i);
        if i < |order| {
          assert (order + [k])[..i] == order[..i];
        } else if i == |order| {
          assert (order + [k])[..i] == order;
        }
      }
    }

    lemma FinishOrder(pr: Project, k: Key, here: Bindings)
      requires OrderOk(pr) && stack != [] && k !in visited && pr.IsFile(k) && pr.Reachable(k)
      requires pr.entryKey !in visited && |depIndex| == |order|
      requires pr.FileOk(k) && BindAll(map[], pr.FileOf(k).imports) == Some(here)
      requires forall t :: pr.Imports(k, t) ==> t in visited
      ensures Finished(k, here, k == pr.entryKey).OrderOk(pr)
    {
      hide pr.FileOk, pr.Imports, pr.Topological, pr.Reachable, BindAll;
      var s := Finished(k, here, k == pr.entryKey);
      TopologicalSnoc(pr, k);
      forall i: nat ensures s.DoneOk(pr, i) {
        assert DoneOk(pr, i);
        if i < |order| {
          assert order[i] in order && s.order[i] == order[i];
        }
      }
    }

    lemma FinishKeeps(pr: Project, k: Key, here: Bindings)
      requires Valid(pr) && stack != [] && stack[|stack| - 1] == k && pr.Reachable(k) && pr.IsFile(k)
      requires pr.FileOk(k) && BindAll(map[], pr.FileOf(k).imports) == Some(here)
      requires forall t :: pr.Imports(k, t) ==> t in visited
      ensures Finished(k, here, k == pr.entryKey).Valid(pr)
    {
      hide pr.FileOk, pr.Topological, pr.Reachable, BindAll;
      var s := Finished(k, here, k == pr.entryKey);
      assert k in stack;
      EntryNotDone(pr, k);
      FinishOrder(pr, k, here);
      StackShrinks(pr);
      forall j | j in s.stack ensures pr.IsFile(j) && j !in s.visited {
        assert j in stack;
      }
    }

    lemma VisitedIsOrdered(pr: Project)
      requires Valid(pr)
      ensures forall k :: k in visited <==> k in order
    { }

    /** The entry stays at the bottom of the stack until it finishes. */
    lemma EntryNotDone(pr: Project, k: Key)
      requires Valid(pr) && stack != [] && stack[|stack| - 1] == k
      ensures pr.entryKey !in visited && |depIndex| == |order|
    {
      assert stack[0] == pr.entryKey && stack[0] in stack;
    }
  }

  /** `bundleImports` up to the emission of the bundle: the closure's mutable state and `visit`. */
  class Bundler {
    const pr: Project
    var inStack: seq<Key>
    var visited: set<Key>
    var order: seq<Key>
    var depIndex: map<Key, nat>
    var bindings: map<Key, Bindings>

    constructor (pr: Project)
      ensures this.pr == pr && State() == Search([], {}, [], map[], map[]) && State().Valid(pr)
    {
      this.pr := pr;
      inStack, visited, order, depIndex, bindings := [], {}, [], map[], map[];
    }

    ghost function State(): Search
      reads this
    {
      Search(inStack, visited, order, depIndex, bindings)
    }

    method Visit(key: Key) returns (e: Option<BundleError>)
      requires State().Valid(pr) && State().MayVisit(pr, key)
      modifies this`inStack, this`visited, this`order, this`depIndex, this`bindings
      ensures e.Some? ==> Justified(pr, e.value)
      ensures e.None? ==>
                && State().Valid(pr) && inStack == old(inStack)
                && key in visited && old(visited) <= visited
                && order == PostOrder(pr, inStack, old(order), key)
      decreases Files(pr) - Elements(inStack), 1
    {
      PostOrderUnfolds(pr, inStack, order, key);
      State().VisitedIsOrdered(pr);
      hide Search.Valid, PostOrder, PostOrderOf, Elements;
      if key in inStack {
        var i: nat :| i < |inStack| && inStack[i] == key;
        StackCycle(State(), key, i);
        return Some(Cycle(inStack[i..] + [key]));
      }
      if key in visited {
        return None;
      }
      e := VisitNew(key);
    }

    /** The rest of `visit`, for a file met for the first time. */
    method VisitNew(key: Key) returns (e: Option<BundleError>)
      requires State().Valid(pr) && State().MayVisit(pr, key) && key !in inStack && key !in visited && pr.IsFile(key)
      modifies this`inStack, this`visited, this`order, this`depIndex, this`bindings
      ensures e.Some? ==> Justified(pr, e.value)
      ensures e.None? ==>
                && State().Valid(pr) && inStack == old(inStack)
                && key in visited && old(visited) <= visited
                && order == PostOrderOf(pr, inStack + [key], old(order), pr.FileOf(key).imports) + [key]
      decreases Files(pr) - Elements(inStack), 0
    {
      hide Search.Valid, Project.Topological, Project.Reachable, Project.FileOk, Project.Imports, BindAll, NoHazard;
      hide PostOrder, PostOrderOf, Justified;
      State().PushKeeps(pr, key);
      ElementsSnoc(inStack, key);
      inStack := inStack + [key];
      var here;
      here, e := VisitImports(key);
      if e.Some? {
        return;
      }
      if !NoHazard(pr.FileOf(key), here, key == pr.entryKey) {
        FailedIsJustified(pr, key);
        return Some(CheckFailed(key));
      }
      State().FinishKeeps(pr, key, here);
      Finish(key, here);
    }

    /** The end of `visit`: the file at the top of the stack is done. */
    method Finish(key: Key, here: Bindings)
      requires inStack != [] && inStack[|inStack| - 1] == key
      modifies this`inStack, this`visited, this`order, this`depIndex, this`bindings
      ensures State() == old(State()).Finished(key, here, key == pr.entryKey)
    {
      inStack := inStack[..|inStack| - 1];
      visited := visited + {key};
      if key != pr.entryKey {
        depIndex := depIndex[key := |depIndex|];
      }
      order := order + [key];
      bindings := bindings[key := here];
    }

    /** The file's own checks and the walk over its import statements. */
    method VisitImports(key: Key) returns (here: Bindings, e: Option<BundleError>)
      requires State().Valid(pr) && inStack != [] && inStack[|inStack| - 1] == key
      requires pr.IsFile(key) && pr.Reachable(key)
      modifies this`inStack, this`visited, this`order, this`depIndex, this`bindings
      ensures e.Some? ==> Justified(pr, e.value)
      ensures e.None? ==>
                && State().Valid(pr) && inStack == old(inStack) && old(visited) <= visited
                && (forall t :: pr.Imports(key, t) ==> t in visited)
                && BindAll(map[], pr.FileOf(key).imports) == Some(here)
                && (NoHazard(pr.FileOf(key), here, key == pr.entryKey) <==> pr.FileOk(key))
                && order == PostOrderOf(pr, inStack, old(order), pr.FileOf(key).imports)
      decreases Files(pr) - Elements(inStack), 2
    {
      hide Search.Valid, Project.Reachable;
      var f := pr.FileOf(key);
      here, e := map[], None;
      if !f.headerOk {
        return here, Some(CheckFailed(key));
      }
      for i := 0 to |f.imports|
        invariant State().Valid(pr) && inStack == old(inStack) && old(visited) <= visited
        invariant e.None?
        invariant forall j :: 0 <= j < i ==> f.imports[j].target in visited && pr.ImportOk(f.imports[j])
        invariant BindAll(map[], f.imports) == BindAll(here, f.imports[i..])
        invariant PostOrderOf(pr, inStack, old(order), f.imports) == PostOrderOf(pr, inStack, order, f.imports[i..])
      {
        var imp := f.imports[i];
        if !imp.formOk {
          return here, Some(CheckFailed(key));
        }
        assert pr.Imports(key, imp.target);
        if imp.target !in pr.sources {
          return here, Some(Unresolved(key, imp.target));
        }
        e := Visit(imp.target);
        if e.Some? {
          return;
        }
        if !pr.NamesExported(imp) {
          return here, Some(CheckFailed(key));
        }
        var b := Bind(here, imp.target, imp.specifiers);
        if b.None? {
          return here, Some(CheckFailed(key));
        }
        here := b.value;
      }
    }

    lemma StackCycle(s: Search, key: Key, i: nat)
      requires s.Valid(pr) && s.MayVisit(pr, key) && i < |s.stack| && s.stack[i] == key
      ensures Justified(pr, Cycle(s.stack[i..] + [key]))
    {
      pr.ClosesCycle(s.stack, s.stack[|s.stack| - 1], i, key);
    }
  }

  /** The whole search: it succeeds exactly when no import cycle is reachable and every reachable file keeps the
      rules, so that every imported name is exported by its target. The order is then the depth-first
      post-order; it holds exactly the reachable files, each once, every file behind all it imports,
      the entry last. A failure names a cycle, an unresolved import or a failing file that really is
      there. */
  method Bundle(pr: Project) returns (r: Result<seq<Key>, BundleError>, ghost s: Search)
    ensures r.Success? <==> Bundles(pr)
    ensures r.Success? ==>
              && Distinct(r.value)
              && (forall k :: k in r.value <==> pr.Reachable(k))
              && pr.Topological(r.value)
              && r.value == PostOrder(pr, [], [], pr.entryKey)
              && r.value != [] && r.value[|r.value| - 1] == pr.entryKey
              && s.Valid(pr) && s.order == r.value
    ensures r.Failure? ==> Justified(pr, r.error)
  {
    BundlesIff(pr);
    var b := new Bundler(pr);
    var e := b.Visit(pr.entryKey);
    s := b.State();
    if e.Some? {
      JustifiedMeaning(pr, e.value);
      return Failure(e.value), s;
    }
    DoneMeaning(pr, s);
    return Success(b.order), s;
  }

  lemma JustifiedMeaning(pr: Project, e: BundleError)
    requires Justified(pr, e)
    ensures !Bundles(pr)
  {
    BundlesIff(pr);
  }

  lemma DoneMeaning(pr: Project, s: Search)
    requires s.Valid(pr) && pr.entryKey in s.visited
    ensures forall k :: k in s.order <==> pr.Reachable(k)
    ensures pr.AllResolve() && pr.Acyclic() && pr.AllFilesOk()
  {
    pr.TopologicalMeaning(s.order);
    forall k ensures k in s.order <==> pr.Reachable(k) {
      if k in s.order {
        DoneFile(pr, s, k);
      }
    }
    forall k | pr.Reachable(k) && pr.IsFile(k) ensures pr.FileOk(k) {
      DoneFile(pr, s, k);
    }
    forall k, t | pr.Reachable(k) && pr.Imports(k, t) ensures t in pr.sources {
      pr.ReachableStep(k, t);
      DoneFile(pr, s, t);
      if t == pr.entryKey {
        pr.EntryImportCloses(k);
      }
    }
  }

  lemma DoneFile(pr: Project, s: Search, k: Key)
    requires s.Valid(pr) && k in s.order
    ensures pr.IsFile(k) && pr.Reachable(k) && pr.FileOk(k)
  {
    var i: nat :| i < |s.order| && s.order[i] == k;
    assert s.DoneOk(pr, i);
  }
}
