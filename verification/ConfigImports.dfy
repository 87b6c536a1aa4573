/**
 lsp/config.go: loadLSPConfigRecursive and validateConfig.

 The file system is a finite map from resolved path to parsed file, its import
 paths already resolved. A path that cannot be validated, read, substituted or
 parsed is not in the map.
 */
module ConfigImports {
  import opened Collections
  import opened ConfigMerge
  import G = DependencyGraph

  datatype File = File(imports: seq<string>, config: Config)

  type FileSystem = map<string, File>

  datatype LoadError = CircularImport | Unloadable | InvalidRoot

  // ---------------------------------------------------------------- the walk

  // Which files a load visits, in preorder, or how it fails.
  datatype Walk = Failed(error: LoadError) | Done(order: seq<string>)

  // A path is refused when it has been visited before, on whatever branch:
  // nothing ever leaves the visited set.
  function WalkFile(fs: FileSystem, path: string, visited: set<string>): (w: Walk)
    ensures w.Done? ==> w.order != [] && w.order[0] == path
    ensures w.Done? ==> Elems(w.order) <= fs.Keys && Elems(w.order) !! visited && NoDuplicates(w.order)
    decreases fs.Keys - visited, 0
  {
    if path in visited then Failed(CircularImport)
    else if path !in fs then Failed(Unloadable)
    else
      match WalkImports(fs, fs[path].imports, visited + {path})
      case Failed(error) => Failed(error)
      case Done(rest) =>
        assert path !in Elems(rest);
        Done([path] + rest)
  }

  function WalkImports(fs: FileSystem, imports: seq<string>, visited: set<string>): (w: Walk)
    ensures w.Done? ==> Elems(w.order) <= fs.Keys && Elems(w.order) !! visited && NoDuplicates(w.order)
    decreases fs.Keys - visited, 1 + |imports|
  {
    if imports == [] then Done([])
    else
      match WalkFile(fs, imports[0], visited)
      case Failed(error) => Failed(error)
      case Done(first) =>
        match WalkImports(fs, imports[1..], visited + Elems(first))
        case Failed(error) => Failed(error)
        case Done(rest) =>
          Disjoint(first, rest);
          Done(first + rest)
  }

  lemma Disjoint(a: seq<string>, b: seq<string>)
    requires NoDuplicates(a) && NoDuplicates(b) && Elems(a) !! Elems(b)
    ensures NoDuplicates(a + b) && Elems(a + b) == Elems(a) + Elems(b)
  {
    var c := a + b;
    forall i, j | 0 <= i < j < |c|
      ensures c[i] != c[j]
    {
      if i < |a| <= j {
        assert c[i] in Elems(a) && c[j] in Elems(b);
      }
    }
  }

  // ---------------------------------------------------------------- when it succeeds

  ghost function ImportGraph(fs: FileSystem): G.Graph {
    map p | p in fs :: fs[p].imports
  }

  ghost predicate Reaches(fs: FileSystem, a: string, b: string) {
    G.Reach(ImportGraph(fs), a, b)
  }

  predicate IsSlot(fs: FileSystem, f: string, i: int) {
    f in fs && 0 <= i < |fs[f].imports|
  }

  // The i-th import of a file.
  function Target(fs: FileSystem, f: string, i: int): string
    requires IsSlot(fs, f, i)
  {
    fs[f].imports[i]
  }

  // Seen from the root, every reached file loads, and no file is imported twice,
  // the root not at all.
  ghost predicate TreeShaped(fs: FileSystem, root: string) {
    (forall f :: Reaches(fs, root, f) ==> f in fs) && ImportedOnce(fs, root)
  }

  ghost predicate ImportedOnce(fs: FileSystem, root: string) {
    && (forall f, i :: Reaches(fs, root, f) && IsSlot(fs, f, i) ==> Target(fs, f, i) != root)
    && (forall f, i, g, j ::
          (Reaches(fs, root, f) && Reaches(fs, root, g) && IsSlot(fs, f, i) && IsSlot(fs, g, j)
           && Target(fs, f, i) == Target(fs, g, j)) ==> f == g && i == j)
  }

  // A set of files that is a forest with the given roots.
  ghost predicate Forest(fs: FileSystem, roots: seq<string>, files: set<string>) {
    && files <= fs.Keys
    && Elems(roots) <= files
    && NoDuplicates(roots)
    && (forall f, i :: f in files && IsSlot(fs, f, i) ==> Target(fs, f, i) in files && Target(fs, f, i) !in roots)
    && (forall f, i, g, j ::
          (f in files && g in files && IsSlot(fs, f, i) && IsSlot(fs, g, j)
           && Target(fs, f, i) == Target(fs, g, j)) ==> f == g && i == j)
  }

  ghost predicate ImportedBy(fs: FileSystem, files: set<string>, x: string) {
    exists f, i :: f in files && IsSlot(fs, f, i) && Target(fs, f, i) == x
  }

  lemma {:induction false} WalkIsTree(fs: FileSystem, path: string, visited: set<string>)
    requires WalkFile(fs, path, visited).Done?
    ensures Forest(fs, [path], Elems(WalkFile(fs, path, visited).order))
    decreases fs.Keys - visited, 0
  {
    var imports := fs[path].imports;
    WalkIsForest(fs, imports, visited + {path});
    var rest := WalkImports(fs, imports, visited + {path}).order;
    var files := Elems([path] + rest);
    assert files == {path} + Elems(rest);
    forall f, i | f in files && IsSlot(fs, f, i)
      ensures Target(fs, f, i) in files && Target(fs, f, i) != path
    {
      assert f == path ==> Target(fs, f, i) in Elems(imports);
    }
    forall f, i, g, j | f in files && g in files && IsSlot(fs, f, i) && IsSlot(fs, g, j) && (f != g || i != j)
      ensures Target(fs, f, i) != Target(fs, g, j)
    {
      assert f == path ==> Target(fs, f, i) in imports;
      assert g == path ==> Target(fs, g, j) in imports;
    }
  }

  lemma {:induction false} WalkIsForest(fs: FileSystem, imports: seq<string>, visited: set<string>)
    requires WalkImports(fs, imports, visited).Done?
    ensures Forest(fs, imports, Elems(WalkImports(fs, imports, visited).order))
    decreases fs.Keys - visited, 1 + |imports|
  {
    if imports != [] {
      var first := WalkFile(fs, imports[0], visited).order;
      var rest := WalkImports(fs, imports[1..], visited + Elems(first)).order;
      WalkIsTree(fs, imports[0], visited);
      WalkIsForest(fs, imports[1..], visited + Elems(first));
      Disjoint(first, rest);
      ForestUnion(fs, imports[0], imports[1..], Elems(first), Elems(rest));
      assert [imports[0]] + imports[1..] == imports;
    }
  }

  lemma ForestUnion(fs: FileSystem, root: string, roots: seq<string>, a: set<string>, b: set<string>)
    requires Forest(fs, [root], a) && Forest(fs, roots, b) && a !! b
    ensures Forest(fs, [root] + roots, a + b)
  {
    var all := [root] + roots;
    assert root in Elems([root]);
    assert forall r :: r in roots ==> r in Elems(roots);
    assert forall r :: r in all <==> r == root || r in roots;
  }

  // Every visited file but the first is imported by a visited file, and reached.
  lemma {:induction false} WalkIsReached(fs: FileSystem, path: string, visited: set<string>, x: string)
    requires WalkFile(fs, path, visited).Done? && x in WalkFile(fs, path, visited).order
    ensures x == path || ImportedBy(fs, Elems(WalkFile(fs, path, visited).order), x)
    ensures Reaches(fs, path, x)
    decreases fs.Keys - visited, 0
  {
    G.TrivialPath(ImportGraph(fs), path);
    if x != path {
      var imports := fs[path].imports;
      var rest := WalkImports(fs, imports, visited + {path}).order;
      var k := ImportsAreReached(fs, imports, visited + {path}, x);
      G.StepBackward(ImportGraph(fs), path, imports[k], x);
      var files := Elems([path] + rest);
      assert files == {path} + Elems(rest);
      if x == imports[k] {
        assert path in files && IsSlot(fs, path, k) && Target(fs, path, k) == x;
      } else {
        var f, i :| f in Elems(rest) && IsSlot(fs, f, i) && Target(fs, f, i) == x;
        assert f in files;
      }
    }
  }

  lemma {:induction false} ImportsAreReached(fs: FileSystem, imports: seq<string>, visited: set<string>, x: string)
    returns (k: nat)
    requires WalkImports(fs, imports, visited).Done? && x in WalkImports(fs, imports, visited).order
    ensures k < |imports| && Reaches(fs, imports[k], x)
    ensures x == imports[k] || ImportedBy(fs, Elems(WalkImports(fs, imports, visited).order), x)
    decreases fs.Keys - visited, 1 + |imports|
  {
    var first := WalkFile(fs, imports[0], visited).order;
    var rest := WalkImports(fs, imports[1..], visited + Elems(first)).order;
    Disjoint(first, rest);
    if x in first {
      WalkIsReached(fs, imports[0], visited, x);
      k := 0;
      ImportedByMore(fs, Elems(first), Elems(first + rest), x);
    } else {
      var l := ImportsAreReached(fs, imports[1..], visited + Elems(first), x);
      k := l + 1;
      ImportedByMore(fs, Elems(rest), Elems(first + rest), x);
    }
  }

  lemma ImportedByMore(fs: FileSystem, a: set<string>, b: set<string>, x: string)
    requires a <= b
    ensures ImportedBy(fs, a, x) ==> ImportedBy(fs, b, x)
  {
    if ImportedBy(fs, a, x) {
      var f, i :| f in a && IsSlot(fs, f, i) && Target(fs, f, i) == x;
      assert f in b;
    }
  }

  // What has been visited so far hangs together: each visited file is the root,
  // or is imported by a visited file.
  ghost predicate Grown(fs: FileSystem, root: string, visited: set<string>) {
    forall x :: x in visited ==> x == root || ImportedBy(fs, visited, x)
  }

  ghost predicate Enterable(fs: FileSystem, root: string, visited: set<string>, x: string) {
    x !in visited && (x == root || ImportedBy(fs, visited, x))
  }

  // In a tree no visited file is met again, so the walk cannot fail.
  lemma {:induction false} TreeWalks(
      fs: FileSystem, root: string, files: set<string>, path: string, visited: set<string>)
    requires Forest(fs, [root], files) && path in files && visited <= files
    requires Grown(fs, root, visited) && Enterable(fs, root, visited, path)
    ensures WalkFile(fs, path, visited).Done?
    decreases fs.Keys - visited, 0
  {
    var imports := fs[path].imports;
    forall k | 0 <= k < |imports|
      ensures imports[k] !in visited + {path}
    {
      FreshImport(fs, root, files, visited, path, k);
    }
    GrownByOne(fs, root, visited, path);
    ForestWalks(fs, root, files, path, 0, visited + {path});
    assert imports[0..] == imports;
  }

  lemma GrownByOne(fs: FileSystem, root: string, visited: set<string>, x: string)
    requires Grown(fs, root, visited) && Enterable(fs, root, visited, x)
    ensures Grown(fs, root, visited + {x})
  {
    forall y | y in visited + {x} && y != root
      ensures ImportedBy(fs, visited + {x}, y)
    {
      ImportedByMore(fs, visited, visited + {x}, y);
    }
  }

  // An import that was visited before has an importer that was visited before;
  // by uniqueness that is the file at hand, which was not.
  lemma FreshImport(fs: FileSystem, root: string, files: set<string>, visited: set<string>, f: string, k: nat)
    requires Forest(fs, [root], files) && visited <= files && f in files && IsSlot(fs, f, k)
    requires Grown(fs, root, visited) && Enterable(fs, root, visited, f)
    ensures Target(fs, f, k) !in visited + {f}
  {
    assert root in [root];
  }

  // The imports of f from the k-th on.
  lemma {:induction false} ForestWalks(
      fs: FileSystem, root: string, files: set<string>, f: string, k: nat, visited: set<string>)
    requires Forest(fs, [root], files) && visited <= files && Grown(fs, root, visited)
    requires f in visited && k <= |fs[f].imports|
    requires forall j :: k <= j < |fs[f].imports| ==> fs[f].imports[j] !in visited
    ensures WalkImports(fs, fs[f].imports[k..], visited).Done?
    decreases fs.Keys - visited, 1 + |fs[f].imports| - k
  {
    var imports := fs[f].imports;
    if k < |imports| {
      assert IsSlot(fs, f, k) && Target(fs, f, k) == imports[k];
      TreeWalks(fs, root, files, imports[k], visited);
      var order := WalkFile(fs, imports[k], visited).order;
      assert order[0] in Elems(order);
      AfterImport(fs, root, files, f, k, visited);
      assert imports[k..][1..] == imports[k + 1..];
      ForestWalks(fs, root, files, f, k + 1, visited + Elems(order));
    }
  }

  lemma AfterImport(fs: FileSystem, root: string, files: set<string>, f: string, k: nat, visited: set<string>)
    requires Forest(fs, [root], files) && visited <= files && Grown(fs, root, visited)
    requires f in visited && IsSlot(fs, f, k)
    requires forall j :: k <= j < |fs[f].imports| ==> fs[f].imports[j] !in visited
    requires WalkFile(fs, Target(fs, f, k), visited).Done?
    ensures var visited' := visited + Elems(WalkFile(fs, Target(fs, f, k), visited).order);
            && visited' <= files
            && Grown(fs, root, visited')
            && forall j :: k < j < |fs[f].imports| ==> fs[f].imports[j] !in visited'
  {
    var path := Target(fs, f, k);
    var order := WalkFile(fs, path, visited).order;
    var visited' := visited + Elems(order);
    forall x | x in order
      ensures x in files
    {
      WalkIsReached(fs, path, visited, x);
      ClosedFiles(fs, [root], files, path, x);
    }
    forall x | x in visited' && x != root
      ensures ImportedBy(fs, visited', x)
    {
      if x in order {
        WalkIsReached(fs, path, visited, x);
      }
      ImportedByMore(fs, visited, visited', x);
      ImportedByMore(fs, Elems(order), visited', x);
    }
    forall j | k < j < |fs[f].imports|
      ensures fs[f].imports[j] !in order
    {
      NotVisitedThere(fs, root, files, f, k, j, visited);
    }
  }

  lemma NotVisitedThere(
      fs: FileSystem, root: string, files: set<string>, f: string, k: nat, j: nat, visited: set<string>)
    requires Forest(fs, [root], files) && f in files && f in visited && IsSlot(fs, f, k) && IsSlot(fs, f, j) && k != j
    requires WalkFile(fs, Target(fs, f, k), visited).Done?
    requires Elems(WalkFile(fs, Target(fs, f, k), visited).order) <= files
    ensures Target(fs, f, j) !in WalkFile(fs, Target(fs, f, k), visited).order
  {
    var path, x := Target(fs, f, k), Target(fs, f, j);
    if x in WalkFile(fs, path, visited).order {
      WalkIsReached(fs, path, visited, x);
    }
  }

  lemma ClosedFiles(fs: FileSystem, roots: seq<string>, files: set<string>, a: string, b: string)
    requires Forest(fs, roots, files) && a in files && Reaches(fs, a, b)
    ensures b in files
  {
    StaysIn(fs, files, a, b);
  }

  // Loading succeeds if and only if the import structure below the root is a
  // tree: a file imported twice is refused like a cycle. When it succeeds each
  // reached file is visited exactly once.
  lemma WalkSucceedsExactlyOnTrees(fs: FileSystem, root: string)
    ensures WalkFile(fs, root, {}).Done? <==> TreeShaped(fs, root)
    ensures WalkFile(fs, root, {}).Done? ==>
              forall f :: f in WalkFile(fs, root, {}).order <==> Reaches(fs, root, f)
  {
    G.TrivialPath(ImportGraph(fs), root);
    if WalkFile(fs, root, {}).Done? {
      var order := WalkFile(fs, root, {}).order;
      WalkIsTree(fs, root, {});
      assert root in Elems([root]);
      forall f
        ensures f in order <==> Reaches(fs, root, f)
      {
        if f in order {
          WalkIsReached(fs, root, {}, f);
        }
        if Reaches(fs, root, f) {
          ClosedFiles(fs, [root], Elems(order), root, f);
        }
      }
    }
    if TreeShaped(fs, root) {
      TreeIsForest(fs, root);
      TreeWalks(fs, root, (set f | f in fs && Reaches(fs, root, f)), root, {});
    }
  }

  lemma TreeIsForest(fs: FileSystem, root: string)
    requires TreeShaped(fs, root)
    ensures root in fs && Reaches(fs, root, root)
    ensures Forest(fs, [root], (set f | f in fs && Reaches(fs, root, f)))
  {
    G.TrivialPath(ImportGraph(fs), root);
    forall f, i | Reaches(fs, root, f) && IsSlot(fs, f, i)
      ensures Reaches(fs, root, Target(fs, f, i))
    {
      var n :| G.IsPath(ImportGraph(fs), n, root, f);
      assert G.PathOfLength(ImportGraph(fs), root, f, |n| - 1);
      G.StepForward(ImportGraph(fs), root, f, Target(fs, f, i), |n| - 1);
    }
  }

  // No reached file imports a file that leads back to it.
  ghost predicate Acyclic(fs: FileSystem, root: string) {
    forall f, i :: Reaches(fs, root, f) && IsSlot(fs, f, i) ==> !Reaches(fs, Target(fs, f, i), f)
  }

  // Two imports of one file are enough: no cycle, every file there, and refused.
  lemma DiamondCounterexample(config: Config)
    ensures var fs := map["root" := File(["a", "b"], config), "a" := File(["c"], config),
                          "b" := File(["c"], config), "c" := File([], config)];
            Acyclic(fs, "root") && WalkFile(fs, "root", {}) == Failed(CircularImport)
  {
    var fs := map["root" := File(["a", "b"], config), "a" := File(["c"], config),
                  "b" := File(["c"], config), "c" := File([], config)];
    DiamondIsRefused(fs, "root", "a", "b", "c");
    DiamondIsAcyclic(fs, "root", "a", "b", "c");
  }

  predicate Diamond(fs: FileSystem, root: string, a: string, b: string, c: string) {
    && root !in {a, b, c} && a !in {b, c} && b != c
    && root in fs && fs[root].imports == [a, b]
    && a in fs && fs[a].imports == [c]
    && b in fs && fs[b].imports == [c]
    && c in fs && fs[c].imports == []
  }

  lemma DiamondIsRefused(fs: FileSystem, root: string, a: string, b: string, c: string)
    requires Diamond(fs, root, a, b, c)
    ensures WalkFile(fs, root, {}) == Failed(CircularImport)
  {
    assert {} + {root} == {root};
    OneImport(fs, a, c, {root});
    assert WalkFile(fs, c, {root} + {a}) == Done([c]);
    var order := WalkFile(fs, a, {root}).order;
    assert order == [a] + [c] && order[1] == c && forall x :: x in order ==> x == a || x == c;
    OneImport(fs, b, c, {root} + Elems(order));
    assert [a, b][1..] == [b];
    assert WalkImports(fs, [b], {root} + Elems(order)) == Failed(CircularImport);
  }

  lemma OneImport(fs: FileSystem, path: string, x: string, visited: set<string>)
    requires path in fs && path !in visited && fs[path].imports == [x]
    ensures var w := WalkFile(fs, x, visited + {path});
            WalkFile(fs, path, visited) == if w.Failed? then w else Done([path] + w.order)
  {
    var w := WalkFile(fs, x, visited + {path});
    assert [x][1..] == [];
    if w.Done? {
      assert WalkImports(fs, [], visited + {path} + Elems(w.order)) == Done([]);
      Regroup(w.order, [], []);
      assert WalkImports(fs, [x], visited + {path}) == w;
    } else {
      assert WalkImports(fs, [x], visited + {path}) == w;
    }
  }

  lemma DiamondIsAcyclic(fs: FileSystem, root: string, a: string, b: string, c: string)
    requires Diamond(fs, root, a, b, c)
    ensures Acyclic(fs, root)
  {
    forall f, i | Reaches(fs, root, f) && IsSlot(fs, f, i)
      ensures !Reaches(fs, Target(fs, f, i), f)
    {
      StaysIn(fs, {root, a, b, c}, root, f);
      var files := if f == root then {a, b, c} else {c};
      if Reaches(fs, Target(fs, f, i), f) {
        StaysIn(fs, files, Target(fs, f, i), f);
        assert false;
      }
    }
  }

  // A set of files that imports only itself is never left.
  lemma StaysIn(fs: FileSystem, files: set<string>, x: string, y: string)
    requires forall f, i :: f in files && IsSlot(fs, f, i) ==> Target(fs, f, i) in files
    requires x in files && Reaches(fs, x, y)
    ensures y in files
  {
    var g := ImportGraph(fs);
    forall n, m | n in files && m in G.Neighbors(g, n)
      ensures m in files
    {
      var i :| 0 <= i < |fs[n].imports| && fs[n].imports[i] == m;
      assert IsSlot(fs, n, i) && Target(fs, n, i) == m;
    }
    var p :| G.IsPath(g, p, x, y);
    G.ClosedSetHoldsPath(g, files, p, x, y);
  }

  // ---------------------------------------------------------------- the load

  function Configs(fs: FileSystem, order: seq<string>): (configs: seq<Config>)
    requires Elems(order) <= fs.Keys
    ensures |configs| == |order|
  {
    seq(|order|, i requires 0 <= i < |order| => assert order[i] in Elems(order); fs[order[i]].config)
  }

  // validateConfig
  predicate Validates(c: Config) {
    && |c.servers| > 0
    && |c.extensions| > 0
    && |c.languages| > 0
    && c.logOutput in ["", "file", "stderr", "both"]
  }

  // The merge has servers, extensions or language lists if some file has.
  lemma {:induction false} SomeFileDefines(files: seq<Config>)
    requires files != []
    ensures Fold(files).servers != map[] <==> exists i :: 0 <= i < |files| && files[i].servers != map[]
    ensures Fold(files).extensions != map[] <==> exists i :: 0 <= i < |files| && files[i].extensions != map[]
    ensures Fold(files).languages != map[] <==> exists i :: 0 <= i < |files| && files[i].languages != map[]
    ensures Fold(files).logOutput == files[0].logOutput
    decreases files
  {
    hide *;
    FirstOrLater(files);
    if |files| > 1 {
      FoldFirst(files);
      SomeFileDefines(files[1..]);
      MergeDefines(files[0], Fold(files[1..]));
      MergeKeepsOutput(files[0], Fold(files[1..]));
    } else {
      FoldOne(files);
    }
  }

  lemma FirstOrLater(files: seq<Config>)
    requires files != []
    ensures (exists i :: 0 <= i < |files| && files[i].servers != map[]) <==>
            files[0].servers != map[] || exists i :: 0 <= i < |files[1..]| && files[1..][i].servers != map[]
    ensures (exists i :: 0 <= i < |files| && files[i].extensions != map[]) <==>
            files[0].extensions != map[] || exists i :: 0 <= i < |files[1..]| && files[1..][i].extensions != map[]
    ensures (exists i :: 0 <= i < |files| && files[i].languages != map[]) <==>
            files[0].languages != map[] || exists i :: 0 <= i < |files[1..]| && files[1..][i].languages != map[]
  {
    assert forall i :: 1 <= i < |files| ==> files[i] == files[1..][i - 1];
    assert forall i :: 0 <= i < |files[1..]| ==> files[1..][i] == files[i + 1];
  }

  lemma FoldOne(files: seq<Config>)
    requires |files| == 1
    ensures Fold(files) == files[0]
  {
  }

  lemma MergeKeepsOutput(base: Config, imported: Config)
    ensures Merge(base, imported).logOutput == base.logOutput
  {
  }

  lemma MergeDefines(base: Config, imported: Config)
    ensures Merge(base, imported).servers != map[] <==> base.servers != map[] || imported.servers != map[]
    ensures Merge(base, imported).extensions != map[] <==> base.extensions != map[] || imported.extensions != map[]
    ensures Merge(base, imported).languages != map[] <==> base.languages != map[] || imported.languages != map[]
  {
    Keyless(base.servers, imported.servers);
    Keyless(base.extensions, imported.extensions);
    var merged := MergeLanguages(base.languages, imported.languages);
    assert merged.Keys == base.languages.Keys + imported.languages.Keys;
    assert merged == map[] <==> merged.Keys == {};
    assert base.languages == map[] <==> base.languages.Keys == {};
    assert imported.languages == map[] <==> imported.languages.Keys == {};
  }

  lemma Keyless(a: map<string, string>, b: map<string, string>)
    ensures b + a != map[] <==> a != map[] || b != map[]
  {
    assert (b + a).Keys == a.Keys + b.Keys;
    assert b + a == map[] <==> (b + a).Keys == {};
    assert a == map[] <==> a.Keys == {};
    assert b == map[] <==> b.Keys == {};
  }

  // When a root loads, said of the files: the imports form a tree, some reached
  // file has a server, some an extension and some a language list, and the root
  // itself has a proper log output.
  lemma RootLoadsExactlyWhen(fs: FileSystem, root: string)
    ensures (WalkFile(fs, root, {}).Done? && Validates(Fold(Configs(fs, WalkFile(fs, root, {}).order)))) <==>
            && TreeShaped(fs, root)
            && (exists f :: f in fs && Reaches(fs, root, f) && fs[f].config.servers != map[])
            && (exists f :: f in fs && Reaches(fs, root, f) && fs[f].config.extensions != map[])
            && (exists f :: f in fs && Reaches(fs, root, f) && fs[f].config.languages != map[])
            && root in fs && fs[root].config.logOutput in ["", "file", "stderr", "both"]
  {
    WalkSucceedsExactlyOnTrees(fs, root);
    if WalkFile(fs, root, {}).Done? {
      var order := WalkFile(fs, root, {}).order;
      assert order[0] in Elems(order) && Configs(fs, order)[0] == fs[root].config;
      ReachedFilesDefine(fs, root, order);
      hide TreeShaped, Reaches, WalkFile, Configs, Fold;
    } else {
      hide *;
    }
  }

  lemma ReachedFilesDefine(fs: FileSystem, root: string, order: seq<string>)
    requires order != [] && Elems(order) <= fs.Keys && forall f :: f in order <==> Reaches(fs, root, f)
    ensures var merged := Fold(Configs(fs, order));
            && (|merged.servers| > 0 <==> exists f :: f in fs && Reaches(fs, root, f) && fs[f].config.servers != map[])
            && (|merged.extensions| > 0 <==>
                exists f :: f in fs && Reaches(fs, root, f) && fs[f].config.extensions != map[])
            && (|merged.languages| > 0 <==>
                exists f :: f in fs && Reaches(fs, root, f) && fs[f].config.languages != map[])
            && merged.logOutput == Configs(fs, order)[0].logOutput
  {
    hide *;
    SomeFileDefines(Configs(fs, order));
    SomeReached(fs, root, order, (c: Config) => c.servers != map[]);
    SomeReached(fs, root, order, (c: Config) => c.extensions != map[]);
    SomeReached(fs, root, order, (c: Config) => c.languages != map[]);
    Inhabited(Fold(Configs(fs, order)).servers);
    Inhabited(Fold(Configs(fs, order)).extensions);
    Inhabited(Fold(Configs(fs, order)).languages);
  }

  lemma Inhabited<V>(m: map<string, V>)
    ensures |m| > 0 <==> m != map[]
  {
  }

  lemma SomeReached(fs: FileSystem, root: string, order: seq<string>, p: Config -> bool)
    requires Elems(order) <= fs.Keys && forall f :: f in order <==> Reaches(fs, root, f)
    ensures (exists i :: 0 <= i < |order| && p(Configs(fs, order)[i])) <==>
            exists f :: f in fs && Reaches(fs, root, f) && p(fs[f].config)
  {
    hide Reaches, Configs;
    if f :| f in fs && Reaches(fs, root, f) && p(fs[f].config) {
      ConfigOf(fs, order, f);
    }
    if i :| 0 <= i < |order| && p(Configs(fs, order)[i]) {
      ConfigAt(fs, order, i);
      assert order[i] in order;
    }
  }

  lemma ConfigAt(fs: FileSystem, order: seq<string>, i: nat)
    requires Elems(order) <= fs.Keys && i < |order|
    ensures order[i] in fs && Configs(fs, order)[i] == fs[order[i]].config
  {
    assert order[i] in Elems(order);
  }

  lemma ConfigOf(fs: FileSystem, order: seq<string>, f: string)
    requires Elems(order) <= fs.Keys && f in order && f in fs
    ensures exists i :: 0 <= i < |order| && Configs(fs, order)[i] == fs[f].config
  {
    var i :| 0 <= i < |order| && order[i] == f;
    ConfigAt(fs, order, i);
  }

  datatype LoadResult = Loaded(config: ServerConfig) | LoadFailed(error: LoadError)

  function Prepend(order: seq<string>, w: Walk): Walk {
    match w
    case Failed(error) => Failed(error)
    case Done(rest) => Done(order + rest)
  }

  lemma WalkOneImport(fs: FileSystem, done: seq<string>, imports: seq<string>, visited: set<string>)
    requires imports != []
    ensures var w := WalkFile(fs, imports[0], visited);
            Prepend(done, WalkImports(fs, imports, visited)) ==
            if w.Failed? then w
            else Prepend(done + w.order, WalkImports(fs, imports[1..], visited + Elems(w.order)))
  {
    var w := WalkFile(fs, imports[0], visited);
    if w.Done? {
      var rest := WalkImports(fs, imports[1..], visited + Elems(w.order));
      assert rest.Done? ==> done + (w.order + rest.order) == done + w.order + rest.order;
    }
  }

  lemma ConfigsConcat(fs: FileSystem, a: seq<string>, b: seq<string>)
    requires Elems(a) <= fs.Keys && Elems(b) <= fs.Keys
    ensures Elems(a + b) == Elems(a) + Elems(b)
    ensures Configs(fs, a + b) == Configs(fs, a) + Configs(fs, b)
  {
  }

  // Merging the k-th import, itself a fold, extends the fold by its files.
  lemma FoldStep(fs: FileSystem, base: Config, done: seq<string>, order: seq<string>)
    requires order != [] && Elems(done) <= fs.Keys && Elems(order) <= fs.Keys
    ensures Elems(done + order) <= fs.Keys
    ensures Merge(FoldFrom(base, Configs(fs, done)), Fold(Configs(fs, order))) ==
            FoldFrom(base, Configs(fs, done + order))
  {
    var a, b := Configs(fs, done), Configs(fs, order);
    ConfigsConcat(fs, done, order);
    FoldAppend(base, a, b);
    MergeOfFold(FoldFrom(base, a), b[0], b[1..]);
  }

  lemma WalkBegins(fs: FileSystem, path: string, visited: set<string>)
    requires path in fs && path !in visited
    ensures WalkFile(fs, path, visited) == Prepend([path], WalkImports(fs, fs[path].imports, visited + {path}))
    ensures Elems<string>([]) == {} && FoldFrom(fs[path].config, Configs(fs, [])) == fs[path].config
    ensures forall w :: Prepend([], w) == w
  {
  }

  lemma WalkEnds(fs: FileSystem, path: string, done: seq<string>, visited: set<string>)
    requires path in fs && Elems(done) <= fs.Keys
    ensures Prepend([path], Prepend(done, WalkImports(fs, [], visited))) == Done([path] + done)
    ensures Elems([path] + done) <= fs.Keys && Elems([path] + done) == {path} + Elems(done)
    ensures Fold(Configs(fs, [path] + done)) == FoldFrom(fs[path].config, Configs(fs, done))
  {
    assert done + [] == done;
    assert Configs(fs, [path] + done)[1..] == Configs(fs, done);
  }

  class Loader {
    const fs: FileSystem
    var visited: set<string>

    constructor (fs: FileSystem)
      ensures this.fs == fs && visited == {}
    {
      this.fs := fs;
      visited := {};
    }

    // The nested load is one left fold of the merge over the preorder.
    method Load(path: string, isRoot: bool) returns (result: LoadResult)
      modifies this
      ensures match WalkFile(fs, path, old(visited))
              case Failed(error) => result == LoadFailed(error)
              case Done(order) =>
                var value := Fold(Configs(fs, order));
                && visited == old(visited) + Elems(order)
                && if isRoot && !Validates(value) then result == LoadFailed(InvalidRoot)
                   else result.Loaded? && fresh(result.config) && result.config.Value() == value
      ensures isRoot && old(visited) == {} ==>
                (result.Loaded? <==>
                   && TreeShaped(fs, path)
                   && (exists f :: f in fs && Reaches(fs, path, f) && fs[f].config.servers != map[])
                   && (exists f :: f in fs && Reaches(fs, path, f) && fs[f].config.extensions != map[])
                   && (exists f :: f in fs && Reaches(fs, path, f) && fs[f].config.languages != map[])
                   && path in fs && fs[path].config.logOutput in ["", "file", "stderr", "both"])
      decreases fs.Keys - visited
    {
      RootLoadsExactlyWhen(fs, path);
      hide TreeShaped, Reaches;
      hide Configs, Fold, FoldFrom, Merge, Validates, WalkImports, Elems, Prepend;
      if path in visited {
        return LoadFailed(CircularImport);
      }
      visited := visited + {path};
      if path !in fs {
        return LoadFailed(Unloadable);
      }
      WalkBegins(fs, path, old(visited));
      var config := new ServerConfig(fs[path].config);
      var imports := fs[path].imports;
      ghost var done: seq<string> := [];
      var i := 0;
      while i < |imports|
        invariant 0 <= i <= |imports|
        invariant Elems(done) <= fs.Keys
        invariant visited == old(visited) + {path} + Elems(done)
        invariant fresh(config)
        invariant config.Value() == FoldFrom(fs[path].config, Configs(fs, done))
        invariant WalkImports(fs, imports, old(visited) + {path}) ==
                  Prepend(done, WalkImports(fs, imports[i..], visited))
      {
        ghost var before := visited;
        WalkOneImport(fs, done, imports[i..], before);
        assert imports[i..][1..] == imports[i + 1..];
        var imported := Load(imports[i], false);
        if imported.LoadFailed? {
          return imported;
        }
        ghost var order := WalkFile(fs, imports[i], before).order;
        FoldStep(fs, fs[path].config, done, order);
        ConfigsConcat(fs, done, order);
        config.MergeFrom(imported.config);
        done := done + order;
        i := i + 1;
      }
      assert imports[i..] == [];
      WalkEnds(fs, path, done, visited);
      if isRoot && !Validates(config.Value()) {
        return LoadFailed(InvalidRoot);
      }
      result := Loaded(config);
    }
  }
}
