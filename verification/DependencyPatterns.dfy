/**
 analysis/engine.go: havePotentialDependency and detectAdvancedDependencyPatterns,
 on top of the two searches of `DependencyGraph`.
 */
module DependencyPatterns {
  import opened Collections
  import opened DependencyGraph

  datatype Symbol = Symbol(name: string, kind: nat)

  datatype Pattern = Pattern(source: string, target: string, frequency: nat, isCircular: bool, depth: int)

  // Same kind, or one name a prefix of the other.
  predicate HavePotentialDependency(a: Symbol, b: Symbol) {
    a.kind == b.kind || b.name <= a.name || a.name <= b.name
  }

  // ---------------------------------------------------------------- what the graph should hold

  // The pairs of list positions whose symbols depend on each other.
  ghost function DependentPairs(symbols: seq<Symbol>): set<(int, int)> {
    set i, j | 0 <= i < j < |symbols| && HavePotentialDependency(symbols[i], symbols[j]) :: (i, j)
  }

  // The kinds are equal, or one name is the other followed by some text.
  ghost predicate Related(a: Symbol, b: Symbol) {
    a.kind == b.kind || exists t: string :: a.name == b.name + t || b.name == a.name + t
  }

  // Which pairs these are.
  lemma WhichPairs(symbols: seq<Symbol>, i: int, j: int)
    ensures (i, j) in DependentPairs(symbols) <==>
            0 <= i < j < |symbols|
            && Related(symbols[i], symbols[j])
  {
    if 0 <= i < j < |symbols| {
      var a, b := symbols[i].name, symbols[j].name;
      if b <= a {
        assert a == b + a[|b|..];
      }
      if a <= b {
        assert b == a + b[|a|..];
      }
    }
  }

  // n symbols of one kind have all n * (n - 1) / 2 pairs, whatever their names.
  lemma {:induction false} OneKindAllPairs(symbols: seq<Symbol>)
    requires forall i, j :: 0 <= i < j < |symbols| ==> symbols[i].kind == symbols[j].kind
    ensures 2 * |DependentPairs(symbols)| == |symbols| * (|symbols| - 1)
  {
    var n := |symbols|;
    if n == 0 {
      assert DependentPairs(symbols) == {};
    } else {
      OneKindAllPairs(symbols[..n - 1]);
      PairsWithLast(symbols, n - 1);
    }
  }

  lemma {:induction false} PairsWithLast(symbols: seq<Symbol>, n: nat)
    requires n == |symbols| - 1
    requires forall i, j :: 0 <= i < j < |symbols| ==> symbols[i].kind == symbols[j].kind
    ensures |DependentPairs(symbols)| == |DependentPairs(symbols[..n])| + n
  {
    var last := set i | 0 <= i < n :: (i, n);
    forall q: (int, int)
      ensures q in DependentPairs(symbols) <==> q in DependentPairs(symbols[..n]) || q in last
    {
      WhichPairs(symbols, q.0, q.1);
      WhichPairs(symbols[..n], q.0, q.1);
      assert q == (q.0, q.1);
    }
    assert DependentPairs(symbols) == DependentPairs(symbols[..n]) + last;
    assert DependentPairs(symbols[..n]) !! last;
    ColumnSize(n, n);
  }

  lemma {:induction false} ColumnSize(m: nat, n: nat)
    ensures |set i | 0 <= i < m :: (i, n)| == m
  {
    if m > 0 {
      ColumnSize(m - 1, n);
      assert (set i | 0 <= i < m :: (i, n)) == (set i | 0 <= i < m - 1 :: (i, n)) + {(m - 1, n)};
    }
  }

  // Those of the given pairs whose symbols are called a and b, in this order.
  ghost function Named(symbols: seq<Symbol>, pairs: set<(int, int)>, a: string, b: string): set<(int, int)> {
    set q | q in pairs && 0 <= q.0 < |symbols| && 0 <= q.1 < |symbols|
            && symbols[q.0].name == a && symbols[q.1].name == b
  }

  // How often b stands in the list of a.
  ghost function Count(g: Graph, a: string, b: string): nat {
    multiset(Neighbors(g, a))[b]
  }

  ghost function EdgeCount(symbols: seq<Symbol>, pairs: set<(int, int)>, a: string, b: string): nat {
    |Named(symbols, pairs, a, b)| + |Named(symbols, pairs, b, a)|
  }

  // The graph holds each of the given pairs in both directions, and nothing else;
  // `edges` are all its list entries.
  ghost predicate Holds(g: Graph, symbols: seq<Symbol>, pairs: set<(int, int)>, edges: multiset<(string, string)>) {
    && (forall a, b :: Count(g, a, b) == edges[(a, b)])
    && (forall a, b :: edges[(a, b)] == EdgeCount(symbols, pairs, a, b))
    && |edges| == 2 * |pairs|
  }

  function AddEdge(g: Graph, a: string, b: string): Graph {
    g[a := Neighbors(g, a) + [b]]
  }

  lemma AddEdgeCounts(g: Graph, a: string, b: string, x: string, y: string)
    ensures Count(AddEdge(g, a, b), x, y) == Count(g, x, y) + if x == a && y == b then 1 else 0
  {
  }

  lemma NamedGrows(symbols: seq<Symbol>, pairs: set<(int, int)>, q: (int, int), a: string, b: string)
    requires q !in pairs && 0 <= q.0 < |symbols| && 0 <= q.1 < |symbols|
    ensures |Named(symbols, pairs + {q}, a, b)| ==
            |Named(symbols, pairs, a, b)| + if symbols[q.0].name == a && symbols[q.1].name == b then 1 else 0
  {
    var grown := Named(symbols, pairs + {q}, a, b);
    if symbols[q.0].name == a && symbols[q.1].name == b {
      assert grown == Named(symbols, pairs, a, b) + {q};
    } else {
      assert grown == Named(symbols, pairs, a, b);
    }
  }

  lemma {:induction false} AddPair(
      g: Graph, symbols: seq<Symbol>, pairs: set<(int, int)>, edges: multiset<(string, string)>, q: (int, int))
    requires Holds(g, symbols, pairs, edges) && q !in pairs && 0 <= q.0 < |symbols| && 0 <= q.1 < |symbols|
    ensures var a, b := symbols[q.0].name, symbols[q.1].name;
            Holds(AddEdge(AddEdge(g, a, b), b, a), symbols, pairs + {q}, edges + multiset{(a, b), (b, a)})
  {
    hide Named, Count, AddEdge, Neighbors;
    var a, b := symbols[q.0].name, symbols[q.1].name;
    var g' := AddEdge(AddEdge(g, a, b), b, a);
    var edges' := edges + multiset{(a, b), (b, a)};
    forall x, y
      ensures Count(g', x, y) == edges'[(x, y)]
    {
      CountPair(g, edges, a, b, x, y);
    }
    forall x, y
      ensures edges'[(x, y)] == EdgeCount(symbols, pairs + {q}, x, y)
    {
      NamedGrows(symbols, pairs, q, x, y);
      NamedGrows(symbols, pairs, q, y, x);
      PairMultiplicity(a, b, x, y);
    }
    assert |edges'| == |edges| + 2;
  }

  lemma PairMultiplicity(a: string, b: string, x: string, y: string)
    ensures multiset{(a, b), (b, a)}[(x, y)] ==
            (if x == a && y == b then 1 else 0) + (if x == b && y == a then 1 else 0)
  {
  }

  lemma CountPair(g: Graph, edges: multiset<(string, string)>, a: string, b: string, x: string, y: string)
    requires Count(g, x, y) == edges[(x, y)]
    ensures Count(AddEdge(AddEdge(g, a, b), b, a), x, y) == (edges + multiset{(a, b), (b, a)})[(x, y)]
  {
    hide *;
    AddEdgeCounts(g, a, b, x, y);
    AddEdgeCounts(AddEdge(g, a, b), b, a, x, y);
    PairMultiplicity(a, b, x, y);
  }

  // The graph is symmetric as a multigraph.
  lemma BuiltGraphIsSymmetric(
      g: Graph, symbols: seq<Symbol>, pairs: set<(int, int)>, edges: multiset<(string, string)>, a: string, b: string)
    requires Holds(g, symbols, pairs, edges)
    ensures Count(g, a, b) == Count(g, b, a)
    ensures b in Neighbors(g, a) <==> a in Neighbors(g, b)
  {
    assert Count(g, a, b) == EdgeCount(symbols, pairs, a, b) == EdgeCount(symbols, pairs, b, a) == Count(g, b, a);
    assert b in Neighbors(g, a) <==> Count(g, a, b) > 0;
    assert a in Neighbors(g, b) <==> Count(g, b, a) > 0;
  }

  // An edge joins the names of two list positions whose symbols depend on each other.
  lemma EdgeExactlyWhen(g: Graph, symbols: seq<Symbol>, edges: multiset<(string, string)>, a: string, b: string)
    requires Holds(g, symbols, DependentPairs(symbols), edges)
    ensures b in Neighbors(g, a) <==>
            exists i, j :: 0 <= i < |symbols| && 0 <= j < |symbols| && i != j
              && symbols[i].name == a && symbols[j].name == b
              && Related(symbols[i], symbols[j])
  {
    var pairs := DependentPairs(symbols);
    var out, back := Named(symbols, pairs, a, b), Named(symbols, pairs, b, a);
    assert Count(g, a, b) == |out| + |back|;
    if b in Neighbors(g, a) {
      assert out != {} || back != {};
      var q :| q in out || q in back;
      WhichPairs(symbols, q.0, q.1);
      assert q == (q.0, q.1);
      assert q in out ==> symbols[q.0].name == a && symbols[q.1].name == b;
      assert q in back ==> symbols[q.1].name == a && symbols[q.0].name == b;
    }
    forall i, j | 0 <= i < |symbols| && 0 <= j < |symbols| && i != j
      && symbols[i].name == a && symbols[j].name == b && Related(symbols[i], symbols[j])
      ensures b in Neighbors(g, a)
    {
      WhichPairs(symbols, i, j);
      WhichPairs(symbols, j, i);
      assert (i, j) in out || (j, i) in back;
    }
  }

  // ---------------------------------------------------------------- the order of a list of neighbours

  ghost predicate DistinctNames(symbols: seq<Symbol>) {
    forall i, j :: 0 <= i < j < |symbols| ==> symbols[i].name != symbols[j].name
  }

  // The names of the first n symbols that depend on the k-th, in list order.
  ghost function Dependents(symbols: seq<Symbol>, k: nat, n: nat): seq<string>
    requires k < |symbols| && n <= |symbols|
  {
    if n == 0 then []
    else
      Dependents(symbols, k, n - 1)
      + if n - 1 != k && HavePotentialDependency(symbols[k], symbols[n - 1]) then [symbols[n - 1].name] else []
  }

  // How many symbols the loops have put next to the k-th when they stand at (i, j).
  ghost function SeenBy(symbols: seq<Symbol>, i: nat, j: nat, k: nat): nat {
    if k < i then |symbols| else if k == i then j else if k < j then i + 1 else i
  }

  ghost predicate InListOrder(g: Graph, symbols: seq<Symbol>, i: nat, j: nat)
    requires i < j && i <= |symbols| && (j <= |symbols| || i == |symbols|)
  {
    forall k: nat :: k < |symbols| ==> Neighbors(g, symbols[k].name) == Dependents(symbols, k, SeenBy(symbols, i, j, k))
  }

  lemma NothingInListOrder(symbols: seq<Symbol>)
    ensures InListOrder(map[], symbols, 0, 1)
  {
  }

  lemma AllInListOrder(g: Graph, symbols: seq<Symbol>)
    requires InListOrder(g, symbols, |symbols|, |symbols| + 1)
    ensures forall k: nat :: k < |symbols| ==> Neighbors(g, symbols[k].name) == Dependents(symbols, k, |symbols|)
  {
  }

  lemma NextRow(g: Graph, symbols: seq<Symbol>, i: nat)
    requires i < |symbols| && InListOrder(g, symbols, i, |symbols|)
    ensures InListOrder(g, symbols, i + 1, i + 2)
  {
    hide Dependents, Neighbors;
    forall k: nat | k < |symbols|
      ensures Neighbors(g, symbols[k].name) == Dependents(symbols, k, SeenBy(symbols, i + 1, i + 2, k))
    {
      SameInNextRow(symbols, i, k);
    }
  }

  lemma SameInNextRow(symbols: seq<Symbol>, i: nat, k: nat)
    requires i < |symbols| && k < |symbols|
    ensures Dependents(symbols, k, SeenBy(symbols, i + 1, i + 2, k)) ==
            Dependents(symbols, k, SeenBy(symbols, i, |symbols|, k))
  {
    assert k == i + 1 ==> Dependents(symbols, k, k + 1) == Dependents(symbols, k, k) + [];
  }

  lemma SeenNext(symbols: seq<Symbol>, i: nat, j: nat, k: nat)
    requires i < j < |symbols| && k < |symbols|
    ensures Dependents(symbols, k, SeenBy(symbols, i, j + 1, k)) ==
            Dependents(symbols, k, SeenBy(symbols, i, j, k)) +
            if !HavePotentialDependency(symbols[i], symbols[j]) then []
            else if k == i then [symbols[j].name]
            else if k == j then [symbols[i].name]
            else []
  {
  }

  lemma NeighborsAfter(g: Graph, a: string, b: string, x: string)
    requires a != b
    ensures Neighbors(AddEdge(AddEdge(g, a, b), b, a), x) ==
            Neighbors(g, x) + if x == a then [b] else if x == b then [a] else []
  {
  }

  lemma NextInListOrder(g: Graph, symbols: seq<Symbol>, i: nat, j: nat)
    requires i < j < |symbols| && DistinctNames(symbols) && InListOrder(g, symbols, i, j)
    ensures var a, b := symbols[i].name, symbols[j].name;
            InListOrder(if HavePotentialDependency(symbols[i], symbols[j]) then AddEdge(AddEdge(g, a, b), b, a) else g,
                        symbols, i, j + 1)
  {
    var a, b := symbols[i].name, symbols[j].name;
    hide Dependents, Neighbors, AddEdge, SeenBy, HavePotentialDependency;
    forall k: nat | k < |symbols|
      ensures var g' := if HavePotentialDependency(symbols[i], symbols[j]) then AddEdge(AddEdge(g, a, b), b, a) else g;
              Neighbors(g', symbols[k].name) == Dependents(symbols, k, SeenBy(symbols, i, j + 1, k))
    {
      SeenNext(symbols, i, j, k);
      NeighborsAfter(g, a, b, symbols[k].name);
      assert k < i ==> symbols[k].name != a;
      assert i < k ==> symbols[k].name != a;
      assert k < j ==> symbols[k].name != b;
      assert j < k ==> symbols[k].name != b;
    }
  }

  // The pairs the nested loops have looked at when they stand at (i, j).
  ghost function Visited(symbols: seq<Symbol>, i: int, j: int): set<(int, int)> {
    set q | q in DependentPairs(symbols) && (q.0 < i || (q.0 == i && q.1 < j))
  }

  lemma VisitedStep(symbols: seq<Symbol>, i: nat, j: nat)
    requires i < j < |symbols|
    ensures Visited(symbols, i, j + 1) ==
            Visited(symbols, i, j) + if HavePotentialDependency(symbols[i], symbols[j]) then {(i, j)} else {}
    ensures (i, j) !in Visited(symbols, i, j)
  {
    assert HavePotentialDependency(symbols[i], symbols[j]) ==> (i, j) in DependentPairs(symbols);
  }

  lemma VisitedBounds(symbols: seq<Symbol>)
    ensures Visited(symbols, 0, 1) == {}
    ensures forall i :: 0 <= i < |symbols| ==> Visited(symbols, i + 1, i + 2) == Visited(symbols, i, |symbols|)
    ensures Visited(symbols, |symbols|, |symbols| + 1) == DependentPairs(symbols)
  {
  }

  method BuildSymbolGraph(symbols: seq<Symbol>) returns (g: Graph, ghost edges: multiset<(string, string)>)
    ensures Holds(g, symbols, DependentPairs(symbols), edges)
    ensures forall a, b :: Count(g, a, b) == EdgeCount(symbols, DependentPairs(symbols), a, b) == Count(g, b, a)
    ensures DistinctNames(symbols) ==>
              forall k: nat :: k < |symbols| ==>
                Neighbors(g, symbols[k].name) == Dependents(symbols, k, |symbols|)
  {
    hide Holds, Visited, DependentPairs, AddEdge, HavePotentialDependency, InListOrder, DistinctNames;
    g, edges := map[], multiset{};
    EmptyGraph(symbols);
    VisitedBounds(symbols);
    NothingInListOrder(symbols);
    var i := 0;
    while i < |symbols|
      invariant 0 <= i <= |symbols|
      invariant DistinctNames(symbols) ==> InListOrder(g, symbols, i, i + 1)
      invariant Holds(g, symbols, Visited(symbols, i, i + 1), edges)
    {
      var j := i + 1;
      while j < |symbols|
        invariant i < j <= |symbols|
        invariant Holds(g, symbols, Visited(symbols, i, j), edges)
        invariant DistinctNames(symbols) ==> InListOrder(g, symbols, i, j)
      {
        if DistinctNames(symbols) {
          NextInListOrder(g, symbols, i, j);
        }
        var a, b := symbols[i].name, symbols[j].name;
        VisitedStep(symbols, i, j);
        if HavePotentialDependency(symbols[i], symbols[j]) {
          AddPair(g, symbols, Visited(symbols, i, j), edges, (i, j));
          edges := edges + multiset{(a, b), (b, a)};
          g := AddEdge(g, a, b);
          g := AddEdge(g, b, a);
        }
        j := j + 1;
      }
      if DistinctNames(symbols) {
        NextRow(g, symbols, i);
      }
      i := i + 1;
    }
    if DistinctNames(symbols) {
      AllInListOrder(g, symbols);
    }
    HeldCounts(g, symbols, DependentPairs(symbols), edges);
  }

  lemma HeldCounts(g: Graph, symbols: seq<Symbol>, pairs: set<(int, int)>, edges: multiset<(string, string)>)
    requires Holds(g, symbols, pairs, edges)
    ensures forall a, b :: Count(g, a, b) == EdgeCount(symbols, pairs, a, b) == Count(g, b, a)
  {
    assert forall a, b :: EdgeCount(symbols, pairs, a, b) == EdgeCount(symbols, pairs, b, a);
  }

  lemma EmptyGraph(symbols: seq<Symbol>)
    ensures Holds(map[], symbols, {}, multiset{})
  {
    assert forall a, b :: Named(symbols, {}, a, b) == {};
  }

  // ---------------------------------------------------------------- the report

  ghost function Edges(patterns: seq<Pattern>): (edges: multiset<(string, string)>)
    ensures |edges| == |patterns|
  {
    if patterns == [] then multiset{}
    else multiset{(patterns[0].source, patterns[0].target)} + Edges(patterns[1..])
  }

  lemma {:induction false} EdgesConcat(a: seq<Pattern>, b: seq<Pattern>)
    ensures Edges(a + b) == Edges(a) + Edges(b)
  {
    if a == [] {
      assert a + b == b;
    } else {
      assert (a + b)[1..] == a[1..] + b;
      EdgesConcat(a[1..], b);
    }
  }

  // A pattern for each target, in list order.
  ghost predicate Reports(patterns: seq<Pattern>, source: string, targets: seq<string>) {
    && |patterns| == |targets|
    && forall k :: 0 <= k < |patterns| ==> patterns[k].source == source && patterns[k].target == targets[k]
  }

  lemma {:induction false} EdgesOfReport(patterns: seq<Pattern>, source: string, targets: seq<string>)
    requires Reports(patterns, source, targets)
    ensures forall a, b :: Edges(patterns)[(a, b)] == if a == source then multiset(targets)[b] else 0
  {
    if patterns != [] {
      assert targets == [targets[0]] + targets[1..];
      EdgesOfReport(patterns[1..], source, targets[1..]);
    }
  }

  // The targets that are reported for a source, in the order of the report.
  function TargetsOf(patterns: seq<Pattern>, source: string): seq<string> {
    if patterns == [] then []
    else (if patterns[0].source == source then [patterns[0].target] else []) + TargetsOf(patterns[1..], source)
  }

  lemma {:induction false} TargetsConcat(a: seq<Pattern>, b: seq<Pattern>, source: string)
    ensures TargetsOf(a + b, source) == TargetsOf(a, source) + TargetsOf(b, source)
  {
    if a == [] {
      assert a + b == b;
    } else {
      assert (a + b)[1..] == a[1..] + b;
      TargetsConcat(a[1..], b, source);
    }
  }

  lemma {:induction false} TargetsOfReport(patterns: seq<Pattern>, source: string, targets: seq<string>, other: string)
    requires Reports(patterns, source, targets)
    ensures TargetsOf(patterns, other) == if other == source then targets else []
  {
    if patterns != [] {
      TargetsOfReport(patterns[1..], source, targets[1..], other);
      assert targets == [targets[0]] + targets[1..];
    }
  }

  // What is said of one edge: depth 1 between different names, 0 from a name to
  // itself, never circular.
  ghost predicate Described(p: Pattern, g: Graph) {
    && p.target in Neighbors(g, p.source)
    && p.frequency == |Neighbors(g, p.source)|
    && p.depth == (if p.source == p.target then 0 else 1)
    && !p.isCircular
  }

  method DescribeEdge(g: Graph, source: string, target: string) returns (p: Pattern)
    requires target in Neighbors(g, source)
    ensures Described(p, g) && p.source == source && p.target == target
  {
    var circular, entered := IsCircularDependency(g, source, target);
    var depth := CalculateDependencyDepth(g, source, target);
    assert IsPath(g, [source, target], source, target);
    if source == target {
      assert IsPath(g, [source], source, target);
    }
    p := Pattern(source, target, |Neighbors(g, source)|, circular, depth);
  }

  method DescribeTargets(g: Graph, source: string) returns (patterns: seq<Pattern>)
    ensures Reports(patterns, source, Neighbors(g, source))
    ensures forall p :: p in patterns ==> Described(p, g)
  {
    patterns := [];
    var targets := Neighbors(g, source);
    var i := 0;
    while i < |targets|
      invariant 0 <= i <= |targets|
      invariant Reports(patterns, source, targets[..i])
      invariant forall p :: p in patterns ==> Described(p, g)
    {
      var p := DescribeEdge(g, source, targets[i]);
      patterns := patterns + [p];
      i := i + 1;
    }
    assert targets[..i] == targets;
  }

  // What is reported once the given keys are done.
  ghost predicate Complete(patterns: seq<Pattern>, g: Graph, keys: set<string>) {
    && (forall a, b :: Edges(patterns)[(a, b)] == if a in keys then Count(g, a, b) else 0)
    && (forall a :: TargetsOf(patterns, a) == if a in keys then Neighbors(g, a) else [])
    && (forall p :: p in patterns ==> Described(p, g))
  }

  lemma CompleteStep(patterns: seq<Pattern>, more: seq<Pattern>, g: Graph, keys: set<string>, key: string)
    requires Complete(patterns, g, keys) && key !in keys
    requires Reports(more, key, Neighbors(g, key)) && forall p :: p in more ==> Described(p, g)
    ensures Complete(patterns + more, g, keys + {key})
  {
    hide Edges, Described, Reports, TargetsOf;
    EdgesConcat(patterns, more);
    EdgesOfReport(more, key, Neighbors(g, key));
    forall a
      ensures TargetsOf(patterns + more, a) == if a in keys + {key} then Neighbors(g, a) else []
    {
      TargetsConcat(patterns, more, a);
      TargetsOfReport(more, key, Neighbors(g, key), a);
      Regroup(TargetsOf(patterns, a), [], []);
      Regroup([], [], TargetsOf(more, a));
    }
    assert forall p :: p in patterns + more ==> p in patterns || p in more;
  }

  lemma AllReported(patterns: seq<Pattern>, g: Graph, symbols: seq<Symbol>, pairs: set<(int, int)>,
                    edges: multiset<(string, string)>)
    requires Holds(g, symbols, pairs, edges) && Complete(patterns, g, g.Keys)
    ensures Edges(patterns) == edges && |patterns| == 2 * |pairs|
  {
    forall a, b
      ensures Edges(patterns)[(a, b)] == edges[(a, b)]
    {
      assert Count(g, a, b) == edges[(a, b)];
    }
    forall e: (string, string)
      ensures Edges(patterns)[e] == edges[e]
    {
      assert e == (e.0, e.1);
    }
    assert Edges(patterns) == edges;
  }

  // The edge from a to b closes into a cycle.
  ghost predicate OnCycle(g: Graph, a: string, b: string) {
    b in Neighbors(g, a) && Reach(g, b, a)
  }

  // Every edge lies on a cycle, out and back, since the graph is symmetric.
  lemma EveryEdgeIsOnCycle(
      g: Graph, symbols: seq<Symbol>, pairs: set<(int, int)>, edges: multiset<(string, string)>, a: string, b: string)
    requires Holds(g, symbols, pairs, edges) && b in Neighbors(g, a)
    ensures OnCycle(g, a, b)
  {
    BuiltGraphIsSymmetric(g, symbols, pairs, edges, a, b);
    assert IsPath(g, [b, a], b, a);
  }

  // So the circularity flag is wrong for every pattern of a report.
  lemma CircularFlagIsAlwaysWrong(g: Graph, symbols: seq<Symbol>, pairs: set<(int, int)>,
                                  edges: multiset<(string, string)>, patterns: seq<Pattern>)
    requires Holds(g, symbols, pairs, edges) && forall p :: p in patterns ==> Described(p, g)
    ensures forall p :: p in patterns ==> !p.isCircular && OnCycle(g, p.source, p.target)
  {
    hide Holds, OnCycle;
    forall p | p in patterns
      ensures !p.isCircular && OnCycle(g, p.source, p.target)
    {
      EveryEdgeIsOnCycle(g, symbols, pairs, edges, p.source, p.target);
    }
  }

  // The keys of the graph are taken in any order, as Go ranges over a map.
  method DetectAdvancedDependencyPatterns(symbols: seq<Symbol>)
    returns (patterns: seq<Pattern>, ghost g: Graph)
    ensures Holds(g, symbols, DependentPairs(symbols), Edges(patterns))
    ensures |patterns| == 2 * |DependentPairs(symbols)|
    ensures forall p :: p in patterns ==> Described(p, g)
    ensures forall p :: p in patterns ==> !p.isCircular && OnCycle(g, p.source, p.target)
    ensures forall a :: TargetsOf(patterns, a) == Neighbors(g, a)
    ensures forall p :: p in patterns ==> p.frequency == |TargetsOf(patterns, p.source)|
    ensures DistinctNames(symbols) ==>
              forall k: nat :: k < |symbols| ==>
                TargetsOf(patterns, symbols[k].name) == Dependents(symbols, k, |symbols|)
  {
    hide Described, EdgeCount, Holds, Edges, TargetsOf, Dependents;
    var graph;
    ghost var edges;
    graph, edges := BuildSymbolGraph(symbols);
    g := graph;
    patterns := [];
    var remaining := graph.Keys;
    NothingReported(graph);
    while remaining != {}
      invariant remaining <= graph.Keys
      invariant Complete(patterns, graph, graph.Keys - remaining)
      decreases remaining
    {
      var source :| source in remaining;
      var more := DescribeTargets(graph, source);
      CompleteStep(patterns, more, graph, graph.Keys - remaining, source);
      assert graph.Keys - remaining + {source} == graph.Keys - (remaining - {source});
      patterns := patterns + more;
      remaining := remaining - {source};
    }
    assert graph.Keys - remaining == graph.Keys;
    AllReported(patterns, graph, symbols, DependentPairs(symbols), edges);
    CircularFlagIsAlwaysWrong(graph, symbols, DependentPairs(symbols), edges, patterns);
    ReportedInOrder(patterns, graph);
  }

  lemma ReportedInOrder(patterns: seq<Pattern>, g: Graph)
    requires Complete(patterns, g, g.Keys)
    ensures forall a :: TargetsOf(patterns, a) == Neighbors(g, a)
    ensures forall p :: p in patterns ==> p.frequency == |TargetsOf(patterns, p.source)|
  {
  }

  lemma NothingReported(g: Graph)
    ensures Complete([], g, g.Keys - g.Keys)
  {
  }
}
