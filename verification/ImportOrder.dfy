/** In which order a bundle lists its files: import statement by import statement, each with all it needs. */
module ImportOrder {
  import opened Sequences
  import opened Wrappers
  import opened Imports

  ghost predicate Connects(pr: Project, p: seq<Key>, a: Key, b: Key) {
    pr.IsPath(p) && p[0] == a && p[|p| - 1] == b
  }

  /** `a` imports `b`, directly or through other files, or is it. */
  ghost predicate Needs(pr: Project, a: Key, b: Key) {
    exists p :: Connects(pr, p, a, b)
  }

  lemma NeedsItself(pr: Project, a: Key)
    ensures Needs(pr, a, a)
  {
    assert Connects(pr, [a], a, a);
  }

  lemma NeedsThrough(pr: Project, a: Key, m: Key, b: Key)
    requires pr.Imports(a, m) && Needs(pr, m, b)
    ensures Needs(pr, a, b)
  {
    var p :| Connects(pr, p, m, b);
    var q := [a] + p;
    forall i: nat ensures pr.Edge(q, i) {
      assert i > 0 ==> pr.Edge(p, i - 1);
    }
    assert Connects(pr, q, a, b);
  }

  lemma ImportsTarget(pr: Project, k: Key, i: nat)
    requires pr.IsFile(k) && i < |pr.FileOf(k).imports|
    ensures pr.Imports(k, pr.FileOf(k).imports[i].target)
  { }

  ghost predicate NeededBy(pr: Project, imports: seq<Import>, b: Key) {
    exists i :: 0 <= i < |imports| && Needs(pr, imports[i].target, b)
  }

  /** A file met extends the order by files that it needs, itself included unless it is on the stack. */
  lemma {:induction false} VisitExtends(pr: Project, stack: seq<Key>, done: seq<Key>, k: Key)
    ensures var r := PostOrder(pr, stack, done, k);
            && done <= r
            && (forall b :: b in r ==> b in done || Needs(pr, k, b))
            && (pr.IsFile(k) && k !in stack ==> k in r)
    decreases Files(pr) - Elements(stack), 0
  {
    PostOrderUnfolds(pr, stack, done, k);
    if pr.IsFile(k) && k !in done && k !in stack {
      ElementsSnoc(stack, k);
      var imports := pr.FileOf(k).imports;
      ImportsExtend(pr, stack + [k], done, imports);
      NeedsItself(pr, k);
      forall b | NeededBy(pr, imports, b) ensures Needs(pr, k, b) {
        var i :| 0 <= i < |imports| && Needs(pr, imports[i].target, b);
        ImportsTarget(pr, k, i);
        NeedsThrough(pr, k, imports[i].target, b);
      }
    }
  }

  lemma {:induction false} ImportsExtend(pr: Project, stack: seq<Key>, done: seq<Key>, imports: seq<Import>)
    ensures var r := PostOrderOf(pr, stack, done, imports);
            && done <= r
            && (forall b :: b in r ==> b in done || NeededBy(pr, imports, b))
            && (forall i :: 0 <= i < |imports| && pr.IsFile(imports[i].target) && imports[i].target !in stack ==>
                  imports[i].target in r)
    decreases Files(pr) - Elements(stack), 1, |imports|
  {
    if imports != [] {
      hide PostOrder, Needs;
      var done' := PostOrder(pr, stack, done, imports[0].target);
      VisitExtends(pr, stack, done, imports[0].target);
      ImportsExtend(pr, stack, done', imports[1..]);
      forall b | NeededBy(pr, imports[1..], b) ensures NeededBy(pr, imports, b) {
        var i :| 0 <= i < |imports[1..]| && Needs(pr, imports[1..][i].target, b);
        assert imports[i + 1] == imports[1..][i];
      }
      var r := PostOrderOf(pr, stack, done, imports);
      forall i | 0 <= i < |imports| && pr.IsFile(imports[i].target) && imports[i].target !in stack
        ensures imports[i].target in r
      {
        if i == 0 {
          assert imports[0].target in done';
        } else {
          assert imports[1..][i - 1] == imports[i];
        }
      }
    }
  }

  lemma {:induction false} OrderSplits(pr: Project, stack: seq<Key>, done: seq<Key>, a: seq<Import>, b: seq<Import>)
    ensures PostOrderOf(pr, stack, done, a + b) == PostOrderOf(pr, stack, PostOrderOf(pr, stack, done, a), b)
    decreases |a|
  {
    hide PostOrder;
    if a == [] {
      assert a + b == b;
    } else {
      assert (a + b)[0] == a[0] && (a + b)[1..] == a[1..] + b;
      OrderSplits(pr, stack, PostOrder(pr, stack, done, a[0].target), a[1..], b);
    }
  }

  /** The bundle's order follows the entry's import statements: what the first `n` need stands in front of
      everything that they do not need. */
  lemma ImportsInOrder(pr: Project, n: nat, a: nat, b: nat)
    requires Bundles(pr) && n <= |pr.entry.imports|
    requires var order := PostOrder(pr, [], [], pr.entryKey);
             a < |order| && b < |order|
             && (exists i :: 0 <= i < n && pr.entry.imports[i].target == order[a])
             && !NeededBy(pr, pr.entry.imports[..n], order[b])
    ensures a < b
  {
    var imports, order := pr.entry.imports, PostOrder(pr, [], [], pr.entryKey);
    var i :| 0 <= i < n && imports[i].target == order[a];
    pr.EntryReachable();
    PostOrderUnfolds(pr, [], [], pr.entryKey);
    hide PostOrder, PostOrderOf, Needs, Project.Acyclic, Project.Reachable, FileRules, Distinct, Elements;
    var stack := [] + [pr.entryKey];
    OrderSplits(pr, stack, [], imports[..n], imports[n..]);
    assert imports[..n] + imports[n..] == imports;
    var first := PostOrderOf(pr, stack, [], imports[..n]);
    ImportsExtend(pr, stack, [], imports[..n]);
    ImportsExtend(pr, stack, first, imports[n..]);
    ImportsTarget(pr, pr.entryKey, i);
    if order[a] == pr.entryKey {
      pr.EntryImportCloses(pr.entryKey);
    }
    assert imports[..n][i] == imports[i];
    TargetIsFile(pr, imports[i]);
    assert first <= order && order[a] in first && order[b] !in first;
    EachOnce(pr);
    hide *;
    InPrefix(order, first, a, b);
  }

  lemma InPrefix(order: seq<Key>, first: seq<Key>, a: nat, b: nat)
    requires Distinct(order) && first <= order && a < |order| && b < |order|
    requires order[a] in first && order[b] !in first
    ensures a < b
  {
    var j :| 0 <= j < |first| && first[j] == order[a];
    assert order[j] == order[a];
  }

  lemma TargetIsFile(pr: Project, imp: Import)
    requires Bundles(pr) && imp in pr.entry.imports
    ensures pr.IsFile(imp.target)
  {
    pr.EntryReachable();
    assert FileRules(pr, pr.entryKey) && ImportRules(pr, pr.entry, imp);
  }

  lemma EachOnce(pr: Project)
    ensures Distinct(PostOrder(pr, [], [], pr.entryKey))
  {
    VisitIsDistinct(pr, [], [], pr.entryKey);
  }

  lemma {:induction false} VisitIsDistinct(pr: Project, stack: seq<Key>, done: seq<Key>, k: Key)
    requires Distinct(done) && forall x :: x in stack ==> x !in done
    ensures var r := PostOrder(pr, stack, done, k); Distinct(r) && forall x :: x in stack ==> x !in r
    decreases Files(pr) - Elements(stack), 0
  {
    PostOrderUnfolds(pr, stack, done, k);
    if pr.IsFile(k) && k !in done && k !in stack {
      ElementsSnoc(stack, k);
      ImportsAreDistinct(pr, stack + [k], done, pr.FileOf(k).imports);
      assert k in stack + [k];
    }
  }

  lemma {:induction false} ImportsAreDistinct(pr: Project, stack: seq<Key>, done: seq<Key>, imports: seq<Import>)
    requires Distinct(done) && forall x :: x in stack ==> x !in done
    ensures var r := PostOrderOf(pr, stack, done, imports); Distinct(r) && forall x :: x in stack ==> x !in r
    decreases Files(pr) - Elements(stack), 1, |imports|
  {
    if imports != [] {
      hide PostOrder;
      VisitIsDistinct(pr, stack, done, imports[0].target);
      ImportsAreDistinct(pr, stack, PostOrder(pr, stack, done, imports[0].target), imports[1..]);
    }
  }
}
