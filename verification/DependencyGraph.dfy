/**
 analysis/engine.go: calculateDependencyDepth (breadth-first search),
 isCircularDependency (depth-first search).
 */
module DependencyGraph {
  import opened Collections

  // A key that is absent has no neighbours, as for a Go map of slices.
  type Graph = map<string, seq<string>>

  function Neighbors(g: Graph, n: string): seq<string> {
    if n in g then g[n] else []
  }

  function Nodes(g: Graph): set<string> {
    g.Keys + set k, n | k in g && n in g[k] :: n
  }

  // A path lists its nodes; its length is the number of its edges.
  ghost predicate IsPath(g: Graph, p: seq<string>, a: string, b: string) {
    && |p| >= 1 && p[0] == a && p[|p| - 1] == b
    && forall i :: 0 <= i < |p| - 1 ==> p[i + 1] in Neighbors(g, p[i])
  }

  ghost predicate PathOfLength(g: Graph, a: string, b: string, n: nat) {
    exists p :: IsPath(g, p, a, b) && |p| == n + 1
  }

  ghost predicate Reach(g: Graph, a: string, b: string) {
    exists p :: IsPath(g, p, a, b)
  }

  lemma StepForward(g: Graph, a: string, b: string, c: string, n: nat)
    requires PathOfLength(g, a, b, n) && c in Neighbors(g, b)
    ensures PathOfLength(g, a, c, n + 1)
  {
    var p :| IsPath(g, p, a, b) && |p| == n + 1;
    assert IsPath(g, p + [c], a, c);
  }

  lemma StepBackward(g: Graph, a: string, b: string, c: string)
    requires b in Neighbors(g, a) && Reach(g, b, c)
    ensures Reach(g, a, c)
  {
    var p :| IsPath(g, p, b, c);
    assert IsPath(g, [a] + p, a, c);
  }

  lemma TrivialPath(g: Graph, a: string)
    ensures PathOfLength(g, a, a, 0) && Reach(g, a, a)
  {
    assert IsPath(g, [a], a, a);
  }

  // ---------------------------------------------------------------- breadth first

  datatype Entry = Entry(symbol: string, depth: nat)

  // The entries the inner loop appends: unmarked neighbours, in list order.
  function Unmarked(ns: seq<string>, visited: set<string>, depth: nat): (entries: seq<Entry>)
    ensures forall e :: e in entries <==> e.depth == depth && e.symbol in ns && e.symbol !in visited
  {
    if ns == [] then []
    else
      var last := ns[|ns| - 1];
      assert forall n :: n in ns <==> n in ns[..|ns| - 1] || n == last;
      Unmarked(ns[..|ns| - 1], visited, depth) + if last in visited then [] else [Entry(last, depth)]
  }

  // Position of the first unmarked entry; the length of the queue if all are marked.
  ghost function FirstUnmarked(queue: seq<Entry>, visited: set<string>): nat {
    if queue == [] || queue[0].symbol !in visited then 0 else 1 + FirstUnmarked(queue[1..], visited)
  }

  lemma {:induction false} AppendBehindUnmarked(queue: seq<Entry>, more: seq<Entry>, visited: set<string>)
    requires more != [] ==> exists e :: e in queue && e.symbol !in visited
    ensures FirstUnmarked(queue + more, visited) == FirstUnmarked(queue, visited)
  {
    if more == [] {
      assert queue + more == queue;
    } else if queue[0].symbol in visited {
      assert (queue + more)[1..] == queue[1..] + more;
      AppendBehindUnmarked(queue[1..], more, visited);
    }
  }

  // n is marked with level at most d, or waits in the queue at depth at most d.
  ghost predicate Near(level: map<string, nat>, queue: seq<Entry>, n: string, d: nat) {
    (n in level && level[n] <= d) || exists e :: e in queue && e.symbol == n && e.depth <= d
  }

  ghost predicate Sound(g: Graph, start: string, queue: seq<Entry>) {
    forall e :: e in queue ==> PathOfLength(g, start, e.symbol, e.depth)
  }

  ghost predicate Sorted(queue: seq<Entry>) {
    forall i, j :: 0 <= i < j < |queue| ==> queue[i].depth <= queue[j].depth <= queue[0].depth + 1
  }

  ghost predicate Behind(level: map<string, nat>, queue: seq<Entry>) {
    forall v, e :: v in level && e in queue ==> level[v] <= e.depth
  }

  ghost predicate Covered(g: Graph, level: map<string, nat>, queue: seq<Entry>) {
    forall v, w :: v in level && w in Neighbors(g, v) ==> Near(level, queue, w, level[v] + 1)
  }

  // What every iteration keeps. `level` records the depth at which a node was
  // first marked; its keys are the marked nodes.
  ghost predicate Search(g: Graph, start: string, level: map<string, nat>, queue: seq<Entry>) {
    && Sound(g, start, queue)
    && Sorted(queue)
    && Behind(level, queue)
    && Covered(g, level, queue)
    && Near(level, queue, start, 0)
  }

  lemma SearchBegins(g: Graph, start: string)
    ensures Search(g, start, map[], [Entry(start, 0)])
  {
    TrivialPath(g, start);
    assert Entry(start, 0) in [Entry(start, 0)];
  }

  // Every path to an unmarked node runs through the queue.
  lemma {:induction false} PathMeetsQueue(
      g: Graph, start: string, level: map<string, nat>, queue: seq<Entry>, p: seq<string>, i: nat)
    requires Search(g, start, level, queue)
    requires |p| >= 1 && IsPath(g, p, start, p[|p| - 1]) && p[|p| - 1] !in level
    requires i < |p| && Near(level, queue, p[i], i)
    ensures exists e :: e in queue && e.depth <= |p| - 1
    decreases |p| - i
  {
    if p[i] in level && level[p[i]] <= i {
      assert Near(level, queue, p[i + 1], level[p[i]] + 1);
      PathMeetsQueue(g, start, level, queue, p, i + 1);
    }
  }

  lemma NoShorterPath(
      g: Graph, start: string, end: string, level: map<string, nat>, queue: seq<Entry>, p: seq<string>)
    requires Search(g, start, level, queue) && end !in level && IsPath(g, p, start, end)
    ensures queue != [] && queue[0].depth <= |p| - 1
  {
    PathMeetsQueue(g, start, level, queue, p, 0);
  }

  function Mark(level: map<string, nat>, head: Entry): map<string, nat> {
    if head.symbol in level then level else level[head.symbol := head.depth]
  }

  function Expand(g: Graph, level: map<string, nat>, head: Entry): seq<Entry> {
    Unmarked(Neighbors(g, head.symbol), level.Keys, head.depth + 1)
  }

  // One iteration: the head leaves the queue, is marked, and its unmarked
  // neighbours join the queue. The head may have been marked before.
  lemma SearchStep(g: Graph, start: string, level: map<string, nat>, queue: seq<Entry>)
    requires Search(g, start, level, queue) && queue != []
    ensures Search(g, start, Mark(level, queue[0]), queue[1..] + Expand(g, Mark(level, queue[0]), queue[0]))
  {
    var level' := Mark(level, queue[0]);
    var more := Expand(g, level', queue[0]);
    hide Sound, Sorted, Behind, Covered, Near;
    SoundStep(g, start, queue, more);
    OrderStep(level, queue, more);
    CoveredStep(g, level, queue, more);
    NearKept(level, queue, more, start, 0);
  }

  lemma OrderStep(level: map<string, nat>, queue: seq<Entry>, more: seq<Entry>)
    requires queue != [] && Sorted(queue) && Behind(level, queue)
    requires forall e :: e in more ==> e.depth == queue[0].depth + 1
    ensures Sorted(queue[1..] + more) && Behind(Mark(level, queue[0]), queue[1..] + more)
  {
    var queue' := queue[1..] + more;
    forall i | 0 <= i < |queue'|
      ensures queue[0].depth <= queue'[i].depth <= queue[0].depth + 1
    {
      assert i >= |queue| - 1 ==> queue'[i] in more;
    }
    forall i, j | 0 <= i < j < |queue'|
      ensures queue'[i].depth <= queue'[j].depth
    {
      assert j >= |queue| - 1 ==> queue'[j] in more;
    }
    assert queue[0] in queue;
  }

  lemma SoundStep(g: Graph, start: string, queue: seq<Entry>, more: seq<Entry>)
    requires queue != [] && Sound(g, start, queue)
    requires forall e :: e in more ==> e.symbol in Neighbors(g, queue[0].symbol) && e.depth == queue[0].depth + 1
    ensures Sound(g, start, queue[1..] + more)
  {
    assert queue[0] in queue;
    forall e | e in more
      ensures PathOfLength(g, start, e.symbol, e.depth)
    {
      StepForward(g, start, queue[0].symbol, e.symbol, queue[0].depth);
    }
  }

  lemma CoveredStep(g: Graph, level: map<string, nat>, queue: seq<Entry>, more: seq<Entry>)
    requires queue != [] && Covered(g, level, queue) && Behind(level, queue)
    requires more == Expand(g, Mark(level, queue[0]), queue[0])
    ensures Covered(g, Mark(level, queue[0]), queue[1..] + more)
  {
    var level' := Mark(level, queue[0]);
    forall v, w | v in level' && w in Neighbors(g, v)
      ensures Near(level', queue[1..] + more, w, level'[v] + 1)
    {
      if v in level {
        NearKept(level, queue, more, w, level[v] + 1);
      } else if w !in level' {
        assert Entry(w, queue[0].depth + 1) in more;
      }
    }
  }

  lemma NearKept(level: map<string, nat>, queue: seq<Entry>, more: seq<Entry>, n: string, d: nat)
    requires queue != [] && Near(level, queue, n, d) && Behind(level, queue)
    ensures Near(Mark(level, queue[0]), queue[1..] + more, n, d)
  {
    if !(n in level && level[n] <= d) {
      var e :| e in queue && e.symbol == n && e.depth <= d;
      if e != queue[0] {
        assert e in queue[1..] + more;
      }
    }
  }

  // An already marked head brings no unmarked neighbour that is not queued
  // behind it, so expanding it again moves the first unmarked entry forward.
  lemma RevisitProgress(g: Graph, level: map<string, nat>, queue: seq<Entry>)
    requires queue != [] && queue[0].symbol in level && Covered(g, level, queue)
    ensures FirstUnmarked(queue[1..] + Expand(g, level, queue[0]), level.Keys) < FirstUnmarked(queue, level.Keys)
  {
    var more := Expand(g, level, queue[0]);
    if more != [] {
      var w := more[0].symbol;
      assert more[0] in more;
      assert Near(level, queue, w, level[queue[0].symbol] + 1);
      var e :| e in queue && e.symbol == w;
      assert e in queue[1..];
    }
    AppendBehindUnmarked(queue[1..], more, level.Keys);
  }

  ghost predicate Within(queue: seq<Entry>, universe: set<string>) {
    forall e :: e in queue ==> e.symbol in universe
  }

  lemma NeighborIsNode(g: Graph, n: string, m: string)
    requires m in Neighbors(g, n)
    ensures m in Nodes(g)
  {
  }

  lemma StaysWithin(g: Graph, start: string, level: map<string, nat>, queue: seq<Entry>)
    requires queue != [] && Within(queue, Nodes(g) + {start})
    ensures queue[0].symbol in Nodes(g) + {start}
    ensures Within(queue[1..] + Expand(g, level, queue[0]), Nodes(g) + {start})
  {
    assert queue[0] in queue;
    forall e | e in Expand(g, level, queue[0])
      ensures e.symbol in Nodes(g)
    {
      NeighborIsNode(g, queue[0].symbol, e.symbol);
    }
    assert forall e :: e in queue[1..] ==> e in queue;
  }

  lemma HeadIsReached(g: Graph, start: string, level: map<string, nat>, queue: seq<Entry>)
    requires Search(g, start, level, queue) && queue != []
    ensures PathOfLength(g, start, queue[0].symbol, queue[0].depth) && Reach(g, start, queue[0].symbol)
  {
    assert queue[0] in queue;
  }

  // The inner loop over the neighbours.
  method EnqueueUnmarked(queue: seq<Entry>, neighbors: seq<string>, visited: set<string>, depth: nat)
    returns (longer: seq<Entry>)
    ensures longer == queue + Unmarked(neighbors, visited, depth)
  {
    longer := queue;
    var i := 0;
    while i < |neighbors|
      invariant 0 <= i <= |neighbors|
      invariant longer == queue + Unmarked(neighbors[..i], visited, depth)
    {
      assert neighbors[..i + 1][..i] == neighbors[..i];
      if neighbors[i] !in visited {
        longer := longer + [Entry(neighbors[i], depth)];
      }
      i := i + 1;
    }
    assert neighbors[..|neighbors|] == neighbors;
  }

  method CalculateDependencyDepth(graph: Graph, start: string, end: string) returns (depth: int)
    ensures depth >= -1
    ensures depth == -1 <==> !Reach(graph, start, end)
    ensures depth >= 0 ==> PathOfLength(graph, start, end, depth)
    ensures forall p :: IsPath(graph, p, start, end) ==> depth <= |p| - 1
  {
    hide Near, Sound, Sorted, Behind, Covered, IsPath, Unmarked, FirstUnmarked;
    var queue := [Entry(start, 0)];
    var visited: set<string> := {};
    ghost var level: map<string, nat> := map[];
    ghost var universe := Nodes(graph) + {start};
    SearchBegins(graph, start);
    while |queue| > 0
      invariant Search(graph, start, level, queue)
      invariant visited == level.Keys && visited <= universe && end !in visited
      invariant Within(queue, universe)
      decreases universe - visited, FirstUnmarked(queue, visited)
    {
      ghost var before := queue;
      var current := queue[0];
      queue := queue[1..];
      if current.symbol == end {
        HeadIsReached(graph, start, level, before);
        forall p | IsPath(graph, p, start, end)
          ensures current.depth <= |p| - 1
        {
          NoShorterPath(graph, start, end, level, before, p);
        }
        return current.depth;
      }
      SearchStep(graph, start, level, before);
      if current.symbol in level {
        RevisitProgress(graph, level, before);
      }
      level := Mark(level, current);
      StaysWithin(graph, start, level, before);
      ghost var marked := visited;
      visited := visited + {current.symbol};
      assert current.symbol in marked ==> visited == marked;
      assert visited == level.Keys;
      queue := EnqueueUnmarked(queue, Neighbors(graph, current.symbol), visited, current.depth + 1);
    }
    forall p | IsPath(graph, p, start, end)
      ensures false
    {
      NoShorterPath(graph, start, end, level, queue, p);
    }
    depth := -1;
  }

  // ---------------------------------------------------------------- depth first

  // The closure `dfs` with the map `visited` that all its activations share.
  class DepthFirstSearch {
    const graph: Graph
    const start: string
    var visited: set<string>
    ghost var entered: seq<string>  // the nodes entered so far, in order

    constructor (graph: Graph, start: string)
      ensures this.graph == graph && this.start == start && visited == {} && entered == []
    {
      this.graph, this.start := graph, start;
      visited, entered := {}, [];
    }

    ghost function Universe(): set<string> {
      Nodes(graph) + {start}
    }

    ghost predicate Valid()
      reads this
    {
      && visited <= Universe()
      && NoDuplicates(entered)
      && forall n :: n in entered <==> n in visited
    }

    // Marks exactly what the result says; never answers true, because it is
    // entered for unmarked nodes only.
    method Visit(current: string, target: string) returns (found: bool)
      requires Valid() && current in Universe() && current !in visited
      modifies this
      ensures Valid() && !found
      ensures old(visited) + {current} <= visited
      ensures old(entered) + [current] <= entered
      ensures forall n :: n in visited && n !in old(visited) ==> Reach(graph, current, n)
      ensures forall n, m :: n in visited && n !in old(visited) && m in Neighbors(graph, n) ==> m in visited
      decreases Universe() - visited
    {
      if current == target && current in visited {
        return true;
      }
      visited := visited + {current};
      entered := entered + [current];
      TrivialPath(graph, current);
      var neighbors := Neighbors(graph, current);
      var i := 0;
      while i < |neighbors|
        invariant 0 <= i <= |neighbors|
        invariant Valid()
        invariant old(visited) + {current} <= visited && old(entered) + [current] <= entered
        invariant forall n :: n in visited && n !in old(visited) ==> Reach(graph, current, n)
        invariant forall n, m :: n in visited && n !in old(visited) && n != current && m in Neighbors(graph, n)
                    ==> m in visited
        invariant forall k :: 0 <= k < i ==> neighbors[k] in visited
      {
        if neighbors[i] !in visited {
          ghost var marked := visited;
          NeighborIsNode(graph, current, neighbors[i]);
          found := Visit(neighbors[i], target);
          forall n | n in visited && n !in marked
            ensures Reach(graph, current, n)
          {
            StepBackward(graph, current, neighbors[i], n);
          }
          if found {
            return true;
          }
        }
        i := i + 1;
      }
      found := false;
    }
  }

  lemma {:induction false} ClosedSetHoldsPath(g: Graph, closed: set<string>, p: seq<string>, a: string, b: string)
    requires a in closed && IsPath(g, p, a, b)
    requires forall n, m :: n in closed && m in Neighbors(g, n) ==> m in closed
    ensures b in closed
    decreases |p|
  {
    if |p| > 1 {
      assert p[1] in closed;
      ClosedSetHoldsPath(g, closed, p[1..], p[1], b);
    }
  }

  // The answer is false for EVERY graph: the test for a marked target never
  // succeeds, so the search runs on until it has entered each node reachable
  // from start exactly once.
  method IsCircularDependency(graph: Graph, start: string, end: string)
    returns (found: bool, ghost entered: seq<string>)
    ensures !found
    ensures NoDuplicates(entered) && forall n :: n in entered <==> Reach(graph, start, n)
  {
    var search := new DepthFirstSearch(graph, start);
    found := search.Visit(start, end);
    entered := search.entered;
    forall n | Reach(graph, start, n)
      ensures n in search.visited
    {
      var p :| IsPath(graph, p, start, n);
      ClosedSetHoldsPath(graph, search.visited, p, start, n);
    }
  }
}
