/**
 bridge/bridge.go: the exchange sort of applyTextEditsToContent, as a function, and
 where it takes each edit. It is not stable: equal starts are not exchanged with each
 other, but a later start that trades places with one carries it past another.
 */
module ExchangeSort {
  import opened TextLines
  import opened TextEdits

  // ---------------------------------------------------------------- the two loops

  // No edit behind position k and in front of position n starts later than the k-th.
  ghost predicate NoneLater(edits: seq<TextEdit>, k: nat, n: nat)
    requires k < n <= |edits|
  {
    forall l :: k < l < n ==> !Before(edits[k].range.start, edits[l].range.start)
  }

  // The first n edits are in place.
  ghost predicate Leading(edits: seq<TextEdit>, n: nat) {
    forall k :: 0 <= k < n && k < |edits| ==> NoneLater(edits, k, |edits|)
  }

  function Exchanged(edits: seq<TextEdit>, i: nat, j: nat): seq<TextEdit>
    requires i < j < |edits|
  {
    if Before(edits[i].range.start, edits[j].range.start) then edits[i := edits[j]][j := edits[i]] else edits
  }

  // The inner loop from j on: whatever starts later than the i-th trades places with it.
  function Pass(edits: seq<TextEdit>, i: nat, j: nat): (r: seq<TextEdit>)
    requires i < j <= |edits|
    ensures |r| == |edits|
    decreases |edits| - j
  {
    if j == |edits| then edits else Pass(Exchanged(edits, i, j), i, j + 1)
  }

  // The outer loop from i on.
  function SortFrom(edits: seq<TextEdit>, i: nat): seq<TextEdit>
    decreases |edits| - i
  {
    if i + 1 >= |edits| then edits else SortFrom(Pass(edits, i, i + 1), i + 1)
  }

  lemma PassNext(edits: seq<TextEdit>, i: nat, j: nat)
    requires i < j <= |edits|
    ensures Pass(edits, i, j) == if j == |edits| then edits else Pass(Exchanged(edits, i, j), i, j + 1)
  {
  }

  lemma SortNext(edits: seq<TextEdit>, i: nat)
    ensures SortFrom(edits, i) == if i + 1 >= |edits| then edits else SortFrom(Pass(edits, i, i + 1), i + 1)
  {
  }

  // Later start positions first. Equal starts are not exchanged with each other,
  // but may be carried past each other by a third edit.
  function Sorted(edits: seq<TextEdit>): seq<TextEdit> {
    SortFrom(edits, 0)
  }

  lemma ExchangeKeepsOrder(edits: seq<TextEdit>, i: nat, j: nat)
    requires i < j < |edits| && Leading(edits, i) && NoneLater(edits, i, j)
    ensures multiset(Exchanged(edits, i, j)) == multiset(edits)
    ensures Leading(Exchanged(edits, i, j), i) && NoneLater(Exchanged(edits, i, j), i, j + 1)
  {
    var after := Exchanged(edits, i, j);
    forall k | 0 <= k < i
      ensures NoneLater(after, k, |after|)
    {
      assert NoneLater(edits, k, |edits|);
    }
  }

  lemma {:induction false} PassSelects(edits: seq<TextEdit>, i: nat, j: nat)
    requires i < j <= |edits| && Leading(edits, i) && NoneLater(edits, i, j)
    ensures multiset(Pass(edits, i, j)) == multiset(edits) && Leading(Pass(edits, i, j), i + 1)
    decreases |edits| - j
  {
    if j < |edits| {
      ExchangeKeepsOrder(edits, i, j);
      PassSelects(Exchanged(edits, i, j), i, j + 1);
    }
  }

  lemma {:induction false} SortFromSorts(edits: seq<TextEdit>, i: nat)
    requires Leading(edits, i)
    ensures multiset(SortFrom(edits, i)) == multiset(edits) && Descending(SortFrom(edits, i))
    decreases |edits| - i
  {
    if i + 1 < |edits| {
      PassSelects(edits, i, i + 1);
      SortFromSorts(Pass(edits, i, i + 1), i + 1);
    } else {
      forall k, l | 0 <= k < l < |edits|
        ensures !Before(edits[k].range.start, edits[l].range.start)
      {
        assert NoneLater(edits, k, |edits|);
      }
    }
  }

  lemma SortIsDescendingPermutation(edits: seq<TextEdit>)
    ensures multiset(Sorted(edits)) == multiset(edits) && Descending(Sorted(edits))
  {
    SortFromSorts(edits, 0);
  }

  lemma {:induction false} PassKeeps(edits: seq<TextEdit>, i: nat, j: nat)
    requires i < j <= |edits| && Descending(edits)
    ensures Pass(edits, i, j) == edits
    decreases |edits| - j
  {
    if j < |edits| {
      PassKeeps(edits, i, j + 1);
    }
  }

  lemma {:induction false} SortFromKeeps(edits: seq<TextEdit>, i: nat)
    requires Descending(edits)
    ensures SortFrom(edits, i) == edits
    decreases |edits| - i
  {
    if i + 1 < |edits| {
      PassKeeps(edits, i, i + 1);
      SortFromKeeps(edits, i + 1);
    }
  }

  lemma DescendingStaysAsItIs(edits: seq<TextEdit>)
    requires Descending(edits)
    ensures Sorted(edits) == edits
  {
    SortFromKeeps(edits, 0);
  }

  // ---------------------------------------------------------------- where the edits go

  // The m-th edit starts later than all edits from the i-th on in front of it.
  ghost predicate Record(edits: seq<TextEdit>, i: nat, m: nat) {
    i <= m < |edits| && forall l :: i <= l < m ==> Before(edits[l].range.start, edits[m].range.start)
  }

  // The last record in front of position n.
  ghost predicate LastRecord(edits: seq<TextEdit>, i: nat, n: nat, m: nat) {
    m < n && Record(edits, i, m) && forall q :: m < q < n ==> !Record(edits, i, q)
  }

  // What a pass over the positions in front of n does: the last record comes to the
  // front, every other record to the place of the next one, and nothing else moves.
  ghost predicate Rotated(before: seq<TextEdit>, after: seq<TextEdit>, i: nat, n: nat) {
    && |after| == |before|
    && (forall m: nat :: LastRecord(before, i, n, m) ==> after[i] == before[m])
    && (forall p: nat, m: nat :: i < m < n && Record(before, i, m) && LastRecord(before, i, m, p) ==>
          after[m] == before[p])
    && (forall q: nat :: q < |before| && (q < i || n <= q || !Record(before, i, q)) ==> after[q] == before[q])
  }

  // The law of the pass at position i.
  ghost predicate PassLaw(before: seq<TextEdit>, after: seq<TextEdit>, i: nat) {
    Rotated(before, after, i, |before|)
  }

  // The last record starts no earlier than anything in front of n.
  lemma {:induction false} FindRecord(edits: seq<TextEdit>, i: nat, n: nat) returns (m: nat)
    requires i < n <= |edits|
    ensures LastRecord(edits, i, n, m)
    ensures forall l :: i <= l < n ==> AtMost(edits[l].range.start, edits[m].range.start)
  {
    m := i;
    if i + 1 < n {
      m := FindRecord(edits, i, n - 1);
      if Record(edits, i, n - 1) {
        m := n - 1;
      }
    }
  }

  lemma OneRecord(edits: seq<TextEdit>, i: nat, n: nat, p: nat, m: nat)
    requires LastRecord(edits, i, n, p) && LastRecord(edits, i, n, m)
    ensures p == m
  {
  }

  // The one step: the j-th edit is a record exactly if it is exchanged.
  lemma ExchangeStep(before: seq<TextEdit>, current: seq<TextEdit>, i: nat, j: nat) returns (p: nat)
    requires i < j < |before| && Rotated(before, current, i, j)
    ensures LastRecord(before, i, j, p)
    ensures |current| == |before| && current[i] == before[p] && current[j] == before[j]
    ensures Record(before, i, j) <==> Before(before[p].range.start, before[j].range.start)
    ensures Exchanged(current, i, j) ==
            if Record(before, i, j) then current[i := before[j]][j := before[p]] else current
  {
    p := FindRecord(before, i, j);
  }

  lemma ExchangeRotates(before: seq<TextEdit>, current: seq<TextEdit>, i: nat, j: nat)
    requires i < j < |before| && Rotated(before, current, i, j)
    ensures Rotated(before, Exchanged(current, i, j), i, j + 1)
  {
    var p := ExchangeStep(before, current, i, j);
    var after := Exchanged(current, i, j);
    hide Record, Exchanged, Before;
    forall m: nat | LastRecord(before, i, j + 1, m)
      ensures after[i] == before[m]
    {
      FrontRotates(before, i, j, p, m);
    }
    forall m: nat, q: nat | i < m < j + 1 && Record(before, i, m) && LastRecord(before, i, m, q)
      ensures after[m] == before[q]
    {
      if m == j {
        OneRecord(before, i, j, p, q);
      }
    }
  }

  lemma FrontRotates(before: seq<TextEdit>, i: nat, j: nat, p: nat, m: nat)
    requires LastRecord(before, i, j, p) && LastRecord(before, i, j + 1, m)
    ensures m == if Record(before, i, j) then j else p
  {
  }

  lemma {:induction false} PassRotates(before: seq<TextEdit>, current: seq<TextEdit>, i: nat, j: nat)
    requires i < j <= |before| && Rotated(before, current, i, j)
    ensures PassLaw(before, Pass(current, i, j), i)
    decreases |before| - j
  {
    if j < |before| {
      ExchangeRotates(before, current, i, j);
      PassRotates(before, Exchanged(current, i, j), i, j + 1);
    }
  }

  lemma NothingRotated(edits: seq<TextEdit>, i: nat)
    requires i < |edits|
    ensures Rotated(edits, edits, i, i + 1)
  {
  }

  // Each pass obeys the law, equal starts included.
  lemma PassObeysLaw(edits: seq<TextEdit>, i: nat)
    requires i < |edits|
    ensures PassLaw(edits, Pass(edits, i, i + 1), i)
  {
    NothingRotated(edits, i);
    PassRotates(edits, edits, i, i + 1);
  }

  // And the law leaves one outcome only.
  lemma PassLawDetermines(before: seq<TextEdit>, a: seq<TextEdit>, b: seq<TextEdit>, i: nat)
    requires i < |before| && PassLaw(before, a, i) && PassLaw(before, b, i)
    ensures a == b
  {
    forall q: nat | q < |before|
      ensures a[q] == b[q]
    {
      if q == i {
        var m := FindRecord(before, i, |before|);
      } else if i < q && Record(before, i, q) {
        var p := FindRecord(before, i, q);
      }
    }
  }

  // From the list as it is given, one pass for each position but the last.
  ghost predicate Passes(states: seq<seq<TextEdit>>, i: nat) {
    forall k: nat :: k + 1 < |states| ==> i + k < |states[k]| && PassLaw(states[k], states[k + 1], i + k)
  }

  lemma NoPasses(edits: seq<TextEdit>, i: nat)
    ensures Passes([edits], i)
  {
  }

  lemma {:induction false} SortFromIsPasses(edits: seq<TextEdit>, i: nat) returns (states: seq<seq<TextEdit>>)
    ensures |states| == if i + 1 >= |edits| then 1 else |edits| - i
    ensures states[0] == edits && states[|states| - 1] == SortFrom(edits, i) && Passes(states, i)
    decreases |edits| - i
  {
    hide PassLaw, Passes;
    states := [edits];
    NoPasses(edits, i);
    if i + 1 < |edits| {
      PassObeysLaw(edits, i);
      var rest := SortFromIsPasses(Pass(edits, i, i + 1), i + 1);
      states := [edits] + rest;
      PassesCons(edits, rest, i);
    }
  }

  lemma PassesCons(first: seq<TextEdit>, rest: seq<seq<TextEdit>>, i: nat)
    requires rest != [] && i < |first| && PassLaw(first, rest[0], i) && Passes(rest, i + 1)
    ensures Passes([first] + rest, i)
  {
    hide PassLaw;
    var states := [first] + rest;
    forall k: nat | k + 1 < |states|
      ensures i + k < |states[k]| && PassLaw(states[k], states[k + 1], i + k)
    {
      if k > 0 {
        assert states[k] == rest[k - 1] && states[k + 1] == rest[k];
        assert i + 1 + (k - 1) == i + k;
      }
    }
  }

  // The sort is that sequence of passes; with the law of the pass this says where
  // every edit of every list ends up.
  lemma SortIsPasses(edits: seq<TextEdit>) returns (states: seq<seq<TextEdit>>)
    requires edits != []
    ensures |states| == |edits| && states[0] == edits && states[|edits| - 1] == Sorted(edits) && Passes(states, 0)
  {
    states := SortFromIsPasses(edits, 0);
  }

  // Two edits with one start are carried past each other by a later one.
  lemma CarriedPast(e: TextEdit, f: TextEdit, g: TextEdit)
    requires e.range.start == f.range.start && Before(e.range.start, g.range.start)
    ensures Sorted([e, f, g]) == [g, f, e]
  {
    var edits := [e, f, g];
    assert Exchanged(edits, 0, 1) == edits && Exchanged(edits, 0, 2) == [g, f, e];
    assert Pass(edits, 0, 1) == Pass(edits, 0, 2) == [g, f, e];
    assert Exchanged([g, f, e], 1, 2) == [g, f, e];
    assert Pass([g, f, e], 1, 2) == [g, f, e];
    assert SortFrom([g, f, e], 1) == SortFrom([g, f, e], 2) == [g, f, e];
    assert SortFrom(edits, 0) == SortFrom([g, f, e], 1);
  }
}
