/**
 lsp/config.go: in which order loadLSPConfigRecursive reads the files, which decides
 whose settings win, and what its errors mean.
 */
module ImportOrder {
  import opened Collections
  import opened ConfigMerge
  import opened ConfigImports
  import G = DependencyGraph

  // ---------------------------------------------------------------- the order is the preorder

  ghost predicate InFrontOf(order: seq<string>, x: string, y: string) {
    exists a, b :: 0 <= a < b < |order| && order[a] == x && order[b] == y
  }

  lemma InFrontInBoth(a: seq<string>, b: seq<string>, x: string, y: string)
    ensures InFrontOf(a, x, y) ==> InFrontOf(a + b, x, y)
    ensures InFrontOf(b, x, y) ==> InFrontOf(a + b, x, y)
    ensures x in a && y in b ==> InFrontOf(a + b, x, y)
  {
    var c := a + b;
    if InFrontOf(a, x, y) {
      var i, j :| 0 <= i < j < |a| && a[i] == x && a[j] == y;
      assert c[i] == x && c[j] == y;
    }
    if InFrontOf(b, x, y) {
      var i, j :| 0 <= i < j < |b| && b[i] == x && b[j] == y;
      assert c[|a| + i] == x && c[|a| + j] == y;
    }
    if x in a && y in b {
      var i :| 0 <= i < |a| && a[i] == x;
      var j :| 0 <= j < |b| && b[j] == y;
      assert c[i] == x && c[|a| + j] == y;
    }
  }

  // A walk visits whatever is reached from where it starts.
  lemma WalkHoldsReached(fs: FileSystem, path: string, visited: set<string>, x: string)
    requires WalkFile(fs, path, visited).Done? && Reaches(fs, path, x)
    ensures x in WalkFile(fs, path, visited).order
  {
    var order := WalkFile(fs, path, visited).order;
    WalkIsTree(fs, path, visited);
    assert path in [path];
    ClosedFiles(fs, [path], Elems(order), path, x);
  }

  lemma ImportsHoldReached(fs: FileSystem, imports: seq<string>, visited: set<string>, k: nat, x: string)
    requires WalkImports(fs, imports, visited).Done? && k < |imports| && Reaches(fs, imports[k], x)
    ensures x in WalkImports(fs, imports, visited).order
  {
    var order := WalkImports(fs, imports, visited).order;
    WalkIsForest(fs, imports, visited);
    assert imports[k] in Elems(imports);
    ClosedFiles(fs, imports, Elems(order), imports[k], x);
  }

  // What the earlier of two imports leads to is visited first.
  lemma {:induction false} ImportsInOrder(
      fs: FileSystem, imports: seq<string>, visited: set<string>, i: nat, j: nat, x: string, y: string)
    requires WalkImports(fs, imports, visited).Done? && i < j < |imports|
    requires Reaches(fs, imports[i], x) && Reaches(fs, imports[j], y)
    ensures InFrontOf(WalkImports(fs, imports, visited).order, x, y)
    decreases |imports|
  {
    var first := WalkFile(fs, imports[0], visited).order;
    var rest := WalkImports(fs, imports[1..], visited + Elems(first)).order;
    if i == 0 {
      WalkHoldsReached(fs, imports[0], visited, x);
      ImportsHoldReached(fs, imports[1..], visited + Elems(first), j - 1, y);
    } else {
      ImportsInOrder(fs, imports[1..], visited + Elems(first), i - 1, j - 1, x, y);
    }
    InFrontInBoth(first, rest, x, y);
  }

  // Every file comes in front of what its imports lead to, and what an earlier
  // import leads to in front of what a later one leads to. In a tree this orders any
  // two files: it is the preorder, and so decides which file is the first to define
  // a setting.
  lemma {:induction false} WalkIsPreorder(
      fs: FileSystem, path: string, visited: set<string>, f: string, i: nat, j: nat, x: string, y: string)
    requires WalkFile(fs, path, visited).Done? && f in WalkFile(fs, path, visited).order
    requires IsSlot(fs, f, i) && Reaches(fs, Target(fs, f, i), x)
    ensures InFrontOf(WalkFile(fs, path, visited).order, f, x)
    ensures i < j && IsSlot(fs, f, j) && Reaches(fs, Target(fs, f, j), y) ==>
              InFrontOf(WalkFile(fs, path, visited).order, x, y)
    decreases fs.Keys - visited, 0
  {
    var imports := fs[path].imports;
    var rest := WalkImports(fs, imports, visited + {path}).order;
    InFrontInBoth([path], rest, f, x);
    InFrontInBoth([path], rest, x, y);
    if f == path {
      ImportsHoldReached(fs, imports, visited + {path}, i, x);
      if i < j && IsSlot(fs, f, j) && Reaches(fs, Target(fs, f, j), y) {
        ImportsInOrder(fs, imports, visited + {path}, i, j, x, y);
      }
    } else {
      ImportsArePreorder(fs, imports, visited + {path}, f, i, j, x, y);
    }
  }

  lemma {:induction false} ImportsArePreorder(
      fs: FileSystem, imports: seq<string>, visited: set<string>, f: string, i: nat, j: nat, x: string, y: string)
    requires WalkImports(fs, imports, visited).Done? && f in WalkImports(fs, imports, visited).order
    requires IsSlot(fs, f, i) && Reaches(fs, Target(fs, f, i), x)
    ensures InFrontOf(WalkImports(fs, imports, visited).order, f, x)
    ensures i < j && IsSlot(fs, f, j) && Reaches(fs, Target(fs, f, j), y) ==>
              InFrontOf(WalkImports(fs, imports, visited).order, x, y)
    decreases fs.Keys - visited, 1 + |imports|
  {
    var first := WalkFile(fs, imports[0], visited).order;
    var rest := WalkImports(fs, imports[1..], visited + Elems(first)).order;
    InFrontInBoth(first, rest, f, x);
    InFrontInBoth(first, rest, x, y);
    if f in first {
      WalkIsPreorder(fs, imports[0], visited, f, i, j, x, y);
    } else {
      ImportsArePreorder(fs, imports[1..], visited + Elems(first), f, i, j, x, y);
    }
  }

  // ---------------------------------------------------------------- what the errors mean

  // A load that fails on a file has reached one that cannot be loaded.
  lemma {:induction false} UnloadableIsMissing(fs: FileSystem, path: string, visited: set<string>) returns (f: string)
    requires WalkFile(fs, path, visited) == Failed(Unloadable)
    ensures Reaches(fs, path, f) && f !in fs
    decreases fs.Keys - visited, 0
  {
    if path !in fs {
      G.TrivialPath(ImportGraph(fs), path);
      f := path;
    } else {
      var k;
      f, k := ImportIsMissing(fs, fs[path].imports, visited + {path});
      G.StepBackward(ImportGraph(fs), path, fs[path].imports[k], f);
    }
  }

  lemma {:induction false} ImportIsMissing(fs: FileSystem, imports: seq<string>, visited: set<string>)
    returns (f: string, k: nat)
    requires WalkImports(fs, imports, visited) == Failed(Unloadable)
    ensures k < |imports| && Reaches(fs, imports[k], f) && f !in fs
    decreases fs.Keys - visited, 1 + |imports|
  {
    var w := WalkFile(fs, imports[0], visited);
    if w.Failed? {
      f := UnloadableIsMissing(fs, imports[0], visited);
      k := 0;
    } else {
      f, k := ImportIsMissing(fs, imports[1..], visited + Elems(w.order));
      k := k + 1;
    }
  }

  // The same files, and an empty one for each that is imported and missing.
  function Completed(fs: FileSystem, root: string): FileSystem {
    var named := {root} + set f, i | f in fs && 0 <= i < |fs[f].imports| :: fs[f].imports[i];
    var empty := File([], Config(map[], map[], map[], None, None, ""));
    (map f | f in named :: empty) + fs
  }

  lemma CompletedReaches(fs: FileSystem, root: string, a: string, b: string)
    ensures Reaches(Completed(fs, root), a, b) <==> Reaches(fs, a, b)
  {
    var g, h := ImportGraph(fs), ImportGraph(Completed(fs, root));
    assert forall n :: G.Neighbors(g, n) == G.Neighbors(h, n);
    if G.Reach(g, a, b) {
      var p :| G.IsPath(g, p, a, b);
      assert G.IsPath(h, p, a, b);
    }
    if G.Reach(h, a, b) {
      var p :| G.IsPath(h, p, a, b);
      assert G.IsPath(g, p, a, b);
    }
  }

  lemma CompletedIsTree(fs: FileSystem, root: string)
    requires ImportedOnce(fs, root)
    ensures TreeShaped(Completed(fs, root), root)
  {
    var all := Completed(fs, root);
    forall a, b
      ensures Reaches(all, a, b) <==> Reaches(fs, a, b)
    {
      CompletedReaches(fs, root, a, b);
    }
    assert forall f, i :: IsSlot(all, f, i) ==> IsSlot(fs, f, i) && Target(all, f, i) == Target(fs, f, i);
    forall f | Reaches(all, root, f)
      ensures f in all
    {
      StaysIn(all, all.Keys, root, f);
    }
  }

  // With the missing files supplied, the walk differs only by going on.
  lemma {:induction false} CompletedWalk(fs: FileSystem, root: string, path: string, visited: set<string>)
    requires WalkFile(Completed(fs, root), path, visited).Done?
    ensures var w := WalkFile(fs, path, visited);
            w == Failed(Unloadable) || w == WalkFile(Completed(fs, root), path, visited)
    decreases Completed(fs, root).Keys - visited, 0
  {
    if path in fs {
      CompletedImports(fs, root, fs[path].imports, visited + {path});
    }
  }

  lemma {:induction false} CompletedImports(fs: FileSystem, root: string, imports: seq<string>, visited: set<string>)
    requires WalkImports(Completed(fs, root), imports, visited).Done?
    ensures var w := WalkImports(fs, imports, visited);
            w == Failed(Unloadable) || w == WalkImports(Completed(fs, root), imports, visited)
    decreases Completed(fs, root).Keys - visited, 1 + |imports|
  {
    if imports != [] {
      var w := WalkFile(Completed(fs, root), imports[0], visited);
      CompletedWalk(fs, root, imports[0], visited);
      CompletedImports(fs, root, imports[1..], visited + Elems(w.order));
    }
  }

  // "Circular" means that a file is imported twice, or the root at all; so while
  // every file is there, it means that and nothing else.
  lemma CircularMeansImportedAgain(fs: FileSystem, root: string)
    ensures WalkFile(fs, root, {}) == Failed(CircularImport) ==> !ImportedOnce(fs, root)
    ensures (forall f :: Reaches(fs, root, f) ==> f in fs) ==>
              (WalkFile(fs, root, {}) == Failed(CircularImport) <==> !ImportedOnce(fs, root))
  {
    WalkSucceedsExactlyOnTrees(fs, root);
    if ImportedOnce(fs, root) {
      CompletedIsTree(fs, root);
      WalkSucceedsExactlyOnTrees(Completed(fs, root), root);
      CompletedWalk(fs, root, root, {});
    }
    if WalkFile(fs, root, {}) == Failed(Unloadable) {
      var f := UnloadableIsMissing(fs, root, {});
      assert !(forall x :: Reaches(fs, root, x) ==> x in fs);
    }
    WalkErrors(fs, root, {});
  }

  // The walk has no other errors.
  lemma {:induction false} WalkErrors(fs: FileSystem, path: string, visited: set<string>)
    ensures var w := WalkFile(fs, path, visited); w.Done? || w.error.CircularImport? || w.error.Unloadable?
    decreases fs.Keys - visited, 0
  {
    if path in fs && path !in visited {
      ImportErrors(fs, fs[path].imports, visited + {path});
    }
  }

  lemma {:induction false} ImportErrors(fs: FileSystem, imports: seq<string>, visited: set<string>)
    ensures var w := WalkImports(fs, imports, visited); w.Done? || w.error.CircularImport? || w.error.Unloadable?
    decreases fs.Keys - visited, 1 + |imports|
  {
    if imports != [] {
      var w := WalkFile(fs, imports[0], visited);
      WalkErrors(fs, imports[0], visited);
      if w.Done? {
        ImportErrors(fs, imports[1..], visited + Elems(w.order));
      }
    }
  }
}
