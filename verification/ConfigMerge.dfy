/**
 lsp/config.go: mergeConfigs. The merge as a function, its algebra, what a fold of
 merges contains, and the code that merges in place.
 */
module ConfigMerge {
  import opened Collections

  // A language server entry and a workspace value are kept as they were parsed.
  datatype Config = Config(
    servers: map<string, string>,
    languages: map<string, seq<string>>,
    extensions: map<string, string>,
    workspace: Option<map<string, string>>,
    formatters: Option<map<string, string>>,
    logOutput: string)

  // The languages of the list that have not been seen, in list order. A language
  // that the list itself repeats stays repeated.
  function Without(langs: seq<string>, seen: set<string>): seq<string> {
    if langs == [] then []
    else (if langs[0] in seen then [] else [langs[0]]) + Without(langs[1..], seen)
  }

  function MergeLists(existing: seq<string>, langs: seq<string>): seq<string> {
    existing + Without(langs, Elems(existing))
  }

  function MergeLanguages(
      base: map<string, seq<string>>, imported: map<string, seq<string>>): map<string, seq<string>> {
    map s | s in base.Keys + imported.Keys ::
      if s !in base then imported[s] else if s !in imported then base[s] else MergeLists(base[s], imported[s])
  }

  // A nil map stays nil until something is merged into it.
  function MergeOptional(
      base: Option<map<string, string>>, imported: Option<map<string, string>>): Option<map<string, string>> {
    match imported
    case None => base
    case Some(m) => Some(m + if base.Some? then base.value else map[])
  }

  // The base takes precedence; its global settings are never touched.
  function Merge(base: Config, imported: Config): Config {
    Config(
      imported.servers + base.servers,
      MergeLanguages(base.languages, imported.languages),
      imported.extensions + base.extensions,
      MergeOptional(base.workspace, imported.workspace),
      MergeOptional(base.formatters, imported.formatters),
      base.logOutput)
  }

  // ---------------------------------------------------------------- associativity

  lemma {:induction false} WithoutConcat(a: seq<string>, b: seq<string>, seen: set<string>)
    ensures Without(a + b, seen) == Without(a, seen) + Without(b, seen)
  {
    if a == [] {
      assert a + b == b;
    } else {
      assert (a + b)[1..] == a[1..] + b;
      WithoutConcat(a[1..], b, seen);
    }
  }

  lemma {:induction false} WithoutTwice(langs: seq<string>, a: set<string>, b: set<string>)
    ensures Without(Without(langs, a), b) == Without(langs, a + b)
  {
    if langs != [] {
      WithoutTwice(langs[1..], a, b);
      var head := if langs[0] in a then [] else [langs[0]];
      WithoutConcat(head, Without(langs[1..], a), b);
      assert langs[0] !in a ==> head[1..] == [];
    }
  }

  lemma {:induction false} WithoutElems(langs: seq<string>, seen: set<string>)
    ensures Elems(Without(langs, seen)) == Elems(langs) - seen
  {
    if langs != [] {
      WithoutElems(langs[1..], seen);
      assert langs == [langs[0]] + langs[1..];
      assert forall x :: x in Without(langs, seen) <==>
               (x == langs[0] && x !in seen) || x in Elems(Without(langs[1..], seen));
      assert forall x :: x in langs <==> x == langs[0] || x in Elems(langs[1..]);
    }
  }

  lemma MergedElems(a: seq<string>, b: seq<string>)
    ensures Elems(MergeLists(a, b)) == Elems(a) + Elems(b)
  {
    WithoutElems(b, Elems(a));
    assert forall x :: x in MergeLists(a, b) <==> x in Elems(a) || x in Elems(Without(b, Elems(a)));
  }

  lemma MergeListsAssociative(a: seq<string>, b: seq<string>, c: seq<string>)
    ensures MergeLists(MergeLists(a, b), c) == MergeLists(a, MergeLists(b, c))
  {
    MergedElems(a, b);
    WithoutConcat(b, Without(c, Elems(b)), Elems(a));
    WithoutTwice(c, Elems(b), Elems(a));
    assert Elems(a) + Elems(b) == Elems(b) + Elems(a);
  }

  lemma MergeLanguagesAssociative(a: map<string, seq<string>>, b: map<string, seq<string>>, c: map<string, seq<string>>)
    ensures MergeLanguages(MergeLanguages(a, b), c) == MergeLanguages(a, MergeLanguages(b, c))
  {
    hide MergeLists;
    var l, r := MergeLanguages(MergeLanguages(a, b), c), MergeLanguages(a, MergeLanguages(b, c));
    assert l.Keys == r.Keys;
    forall s | s in l
      ensures l[s] == r[s]
    {
      if s in a && s in b && s in c {
        MergeListsAssociative(a[s], b[s], c[s]);
      }
    }
  }

  lemma MergeAssociative(a: Config, b: Config, c: Config)
    ensures Merge(Merge(a, b), c) == Merge(a, Merge(b, c))
  {
    MergeLanguagesAssociative(a.languages, b.languages, c.languages);
    assert c.servers + (b.servers + a.servers) == (c.servers + b.servers) + a.servers;
    assert c.extensions + (b.extensions + a.extensions) == (c.extensions + b.extensions) + a.extensions;
    MergeOptionalAssociative(a.workspace, b.workspace, c.workspace);
    MergeOptionalAssociative(a.formatters, b.formatters, c.formatters);
  }

  lemma MergeOptionalAssociative(
      a: Option<map<string, string>>, b: Option<map<string, string>>, c: Option<map<string, string>>)
    ensures MergeOptional(MergeOptional(a, b), c) == MergeOptional(a, MergeOptional(b, c))
  {
    var m := if a.Some? then a.value else map[];
    if c.Some? {
      assert c.value + map[] == c.value;
      assert b.Some? ==> c.value + (b.value + m) == (c.value + b.value) + m;
    }
  }

  // "Avoiding duplicates" holds of a merged list if and only if it held of the
  // base and of the new languages of the imported list.
  lemma MergedListDuplicates(a: seq<string>, b: seq<string>)
    ensures NoDuplicates(MergeLists(a, b)) <==> NoDuplicates(a) && NoDuplicates(Without(b, Elems(a)))
  {
    var added := Without(b, Elems(a));
    var merged := MergeLists(a, b);
    WithoutElems(b, Elems(a));
    if NoDuplicates(merged) {
      assert forall i :: 0 <= i < |a| ==> merged[i] == a[i];
      assert forall i :: 0 <= i < |added| ==> merged[|a| + i] == added[i];
    }
    assert forall i :: 0 <= i < |added| ==> added[i] in Elems(added);
  }

  // Nothing repeats in the base and only "go" is in it; the new language stays twice.
  lemma RepeatedLanguageCounterexample()
    ensures MergeLists(["go"], ["c", "c"]) == ["go", "c", "c"]
    ensures NoDuplicates(["go"]) && !NoDuplicates(MergeLists(["go"], ["c", "c"]))
  {
    assert ["c", "c"][1..] == ["c"] && ["c"][1..] == [];
    assert Without(["c"], Elems(["go"])) == ["c"];
    var merged := MergeLists(["go"], ["c", "c"]);
    assert merged[1] == merged[2];
  }

  // ---------------------------------------------------------------- folds

  function FoldFrom(base: Config, imported: seq<Config>): Config
    decreases imported
  {
    if imported == [] then base else FoldFrom(Merge(base, imported[0]), imported[1..])
  }

  // One left fold over the files, the first being the base.
  function Fold(files: seq<Config>): Config
    requires files != []
  {
    FoldFrom(files[0], files[1..])
  }

  lemma {:induction false} FoldAppend(base: Config, a: seq<Config>, b: seq<Config>)
    ensures FoldFrom(base, a + b) == FoldFrom(FoldFrom(base, a), b)
    decreases a
  {
    if a == [] {
      assert a + b == b;
    } else {
      assert (a + b)[1..] == a[1..] + b;
      FoldAppend(Merge(base, a[0]), a[1..], b);
    }
  }

  // Merging an already folded import is folding its files one by one.
  lemma {:induction false} MergeOfFold(base: Config, first: Config, rest: seq<Config>)
    ensures Merge(base, FoldFrom(first, rest)) == FoldFrom(Merge(base, first), rest)
    decreases rest
  {
    hide Merge;
    if rest != [] {
      MergeOfFold(base, Merge(first, rest[0]), rest[1..]);
      MergeAssociative(base, first, rest[0]);
    }
  }

  lemma FoldFirst(files: seq<Config>)
    requires |files| > 1
    ensures Fold(files) == Merge(files[0], Fold(files[1..]))
  {
    MergeOfFold(files[0], files[1], files[2..]);
    assert files[1..][1..] == files[2..];
  }

  // ---------------------------------------------------------------- what the fold contains

  function Lookup<V>(m: map<string, V>, key: string): Option<V> {
    if key in m then Some(m[key]) else None
  }

  function OrEmpty(m: Option<map<string, string>>): map<string, string> {
    if m.Some? then m.value else map[]
  }

  // The value of the first map that has the key.
  function FirstOf<V>(maps: seq<map<string, V>>, key: string): Option<V> {
    if maps == [] then None else if key in maps[0] then Some(maps[0][key]) else FirstOf(maps[1..], key)
  }

  ghost function Project<V>(files: seq<Config>, f: Config -> V): seq<V> {
    seq(|files|, i requires 0 <= i < |files| => f(files[i]))
  }

  // Servers, extensions, workspace values and formatters: the first file wins.
  // The global settings are those of the first file alone.
  lemma {:induction false} FirstFileWins(files: seq<Config>, key: string)
    requires files != []
    ensures Lookup(Fold(files).servers, key) == FirstOf(Project(files, (c: Config) => c.servers), key)
    ensures Lookup(Fold(files).extensions, key) == FirstOf(Project(files, (c: Config) => c.extensions), key)
    ensures Lookup(OrEmpty(Fold(files).workspace), key) ==
            FirstOf(Project(files, (c: Config) => OrEmpty(c.workspace)), key)
    ensures Lookup(OrEmpty(Fold(files).formatters), key) ==
            FirstOf(Project(files, (c: Config) => OrEmpty(c.formatters)), key)
    ensures Fold(files).logOutput == files[0].logOutput
    decreases files
  {
    FirstOfProject(files, (c: Config) => c.servers, key);
    FirstOfProject(files, (c: Config) => c.extensions, key);
    FirstOfProject(files, (c: Config) => OrEmpty(c.workspace), key);
    FirstOfProject(files, (c: Config) => OrEmpty(c.formatters), key);
    if |files| > 1 {
      FoldFirst(files);
      FirstFileWins(files[1..], key);
    }
  }

  // An optional part is there if and only if some file has it, empty or not.
  lemma {:induction false} NilStaysNil(files: seq<Config>)
    requires files != []
    ensures Fold(files).workspace.Some? <==> exists i :: 0 <= i < |files| && files[i].workspace.Some?
    ensures Fold(files).formatters.Some? <==> exists i :: 0 <= i < |files| && files[i].formatters.Some?
    decreases files
  {
    if |files| > 1 {
      FoldFirst(files);
      NilStaysNil(files[1..]);
      assert forall i :: 1 <= i < |files| ==> files[i] == files[1..][i - 1];
      assert forall i :: 0 <= i < |files[1..]| ==> files[1..][i] == files[i + 1];
    }
  }

  lemma FirstOfProject<V>(files: seq<Config>, f: Config -> map<string, V>, key: string)
    requires files != []
    ensures FirstOf(Project(files, f), key) ==
            if key in f(files[0]) then Some(f(files[0])[key]) else FirstOf(Project(files[1..], f), key)
    ensures |files| == 1 ==> FirstOf(Project(files[1..], f), key) == None
  {
    assert Project(files, f)[1..] == Project(files[1..], f);
  }

  // The lists that the files give for a server, in file order.
  function ListsFor(files: seq<Config>, server: string): seq<seq<string>> {
    if files == [] then []
    else (if server in files[0].languages then [files[0].languages[server]] else []) + ListsFor(files[1..], server)
  }

  // A language counts in the first list that has it.
  function InOrderUnion(lists: seq<seq<string>>, seen: set<string>): seq<string> {
    if lists == [] then [] else Without(lists[0], seen) + InOrderUnion(lists[1..], seen + Elems(lists[0]))
  }

  lemma {:induction false} WithoutUnion(lists: seq<seq<string>>, a: set<string>, b: set<string>)
    ensures Without(InOrderUnion(lists, a), b) == InOrderUnion(lists, a + b)
    decreases lists
  {
    if lists != [] {
      WithoutConcat(Without(lists[0], a), InOrderUnion(lists[1..], a + Elems(lists[0])), b);
      WithoutTwice(lists[0], a, b);
      WithoutUnion(lists[1..], a + Elems(lists[0]), b);
      assert a + Elems(lists[0]) + b == a + b + Elems(lists[0]);
    }
  }

  lemma {:induction false} WithoutNothing(langs: seq<string>)
    ensures Without(langs, {}) == langs
  {
    if langs != [] {
      WithoutNothing(langs[1..]);
    }
  }

  // A server's language list is the in-order union of the lists that name it.
  lemma {:induction false} LanguagesAreInOrderUnion(files: seq<Config>, server: string)
    requires files != []
    ensures Lookup(Fold(files).languages, server) ==
            var lists := ListsFor(files, server);
            if lists == [] then None else Some(InOrderUnion(lists, {}))
    decreases files
  {
    var lists, rest := ListsFor(files, server), ListsFor(files[1..], server);
    if server in files[0].languages {
      var list := files[0].languages[server];
      assert lists[1..] == rest;
      WithoutNothing(list);
      WithoutUnion(rest, {}, Elems(list));
      assert {} + Elems(list) == Elems(list);
      assert InOrderUnion(lists, {}) == list + InOrderUnion(rest, Elems(list));
      assert rest == [] ==> InOrderUnion(lists, {}) == list;
      assert rest != [] ==> InOrderUnion(lists, {}) == MergeLists(list, InOrderUnion(rest, {}));
    } else {
      assert lists == rest;
    }
    if |files| > 1 {
      FoldFirst(files);
      LanguagesAreInOrderUnion(files[1..], server);
    } else {
      assert rest == [];
    }
  }

  // ---------------------------------------------------------------- the code

  // The parsed configuration that the loader builds and merges into.
  class ServerConfig {
    var servers: map<string, string>
    var languages: map<string, seq<string>>
    var extensions: map<string, string>
    var workspace: Option<map<string, string>>
    var formatters: Option<map<string, string>>
    const logOutput: string

    constructor (c: Config)
      ensures Value() == c
    {
      servers, languages, extensions := c.servers, c.languages, c.extensions;
      workspace, formatters, logOutput := c.workspace, c.formatters, c.logOutput;
    }

    function Value(): Config
      reads this
    {
      Config(servers, languages, extensions, workspace, formatters, logOutput)
    }

    method MergeFrom(imported: ServerConfig)
      requires imported != this
      modifies this
      ensures Value() == Merge(old(Value()), imported.Value())
    {
      servers := AddMissing(servers, imported.servers);
      languages := AddLanguages(languages, imported.languages);
      extensions := AddMissing(extensions, imported.extensions);
      if imported.workspace.Some? {
        if workspace.None? {
          workspace := Some(map[]);
        }
        var added := AddMissing(workspace.value, imported.workspace.value);
        workspace := Some(added);
      }
      if imported.formatters.Some? {
        if formatters.None? {
          formatters := Some(map[]);
        }
        var added := AddMissing(formatters.value, imported.formatters.value);
        formatters := Some(added);
      }
    }
  }

  // The loop that adds the keys which are not there yet, in any order.
  method AddMissing(base: map<string, string>, imported: map<string, string>) returns (merged: map<string, string>)
    ensures merged == imported + base
  {
    merged := base;
    var remaining := imported.Keys;
    while remaining != {}
      invariant remaining <= imported.Keys
      invariant merged.Keys == base.Keys + (imported.Keys - remaining)
      invariant forall k :: k in merged ==> merged[k] == if k in base then base[k] else imported[k]
      decreases remaining
    {
      var key :| key in remaining;
      if key !in merged {
        merged := merged[key := imported[key]];
      }
      remaining := remaining - {key};
    }
  }

  method AppendNew(existing: seq<string>, langs: seq<string>) returns (list: seq<string>)
    ensures list == MergeLists(existing, langs)
  {
    var languageSet: set<string> := {};
    for i := 0 to |existing|
      invariant languageSet == Elems(existing[..i])
    {
      languageSet := languageSet + {existing[i]};
      assert existing[..i + 1] == existing[..i] + [existing[i]];
    }
    assert existing[..|existing|] == existing;
    list := existing;
    for i := 0 to |langs|
      invariant list == existing + Without(langs[..i], languageSet)
    {
      if langs[i] !in languageSet {
        list := list + [langs[i]];
      }
      assert langs[..i + 1] == langs[..i] + [langs[i]];
      WithoutConcat(langs[..i], [langs[i]], languageSet);
      assert [langs[i]][1..] == [];
    }
    assert langs[..|langs|] == langs;
  }

  method AddLanguages(base: map<string, seq<string>>, imported: map<string, seq<string>>)
    returns (merged: map<string, seq<string>>)
    ensures merged == MergeLanguages(base, imported)
  {
    merged := base;
    var remaining := imported.Keys;
    while remaining != {}
      invariant remaining <= imported.Keys
      invariant merged.Keys == base.Keys + (imported.Keys - remaining)
      invariant forall s :: s in merged ==>
                  merged[s] == if s in remaining then base[s] else MergeLanguages(base, imported)[s]
      decreases remaining
    {
      var server :| server in remaining;
      if server in merged {
        var list := AppendNew(merged[server], imported[server]);
        merged := merged[server := list];
      } else {
        merged := merged[server := imported[server]];
      }
      remaining := remaining - {server};
    }
  }
}
