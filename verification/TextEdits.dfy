/**
 bridge/bridge.go: applyTextEditsToContent, what it means and why splicing lines
 achieves it.

 The code splices lines one edit at a time, from the end of the document to its
 start. What it is for is the simultaneous edit of LSP 3.17 ("TextEdit[]"):
 every range is cut out of, and every text inserted into, the ORIGINAL text.
 That meaning is `LspResult`: no sorting, no order of application, only flat
 offsets in the original text. Lines matter to it as in LSP, for reading a
 position: a character beyond the end of its line stands for the end of the line.
 */
module TextEdits {
  import opened Collections
  import opened TextLines

  datatype TextEdit = TextEdit(range: Range, newText: string)

  // ---------------------------------------------------------------- the meaning

  // An edit at flat offsets: text[lo..hi] is replaced by `text`.
  datatype Splice = Splice(lo: nat, hi: nat, text: string)

  // What is inserted in front of offset i, in list order.
  ghost function InsertedAt(splices: seq<Splice>, i: nat): string {
    if splices == [] then ""
    else (if splices[0].lo == i then splices[0].text else "") + InsertedAt(splices[1..], i)
  }

  ghost predicate Deleted(splices: seq<Splice>, i: nat) {
    exists k :: 0 <= k < |splices| && splices[k].lo <= i < splices[k].hi
  }

  // Offset i contributes the insertions in front of it, then its own character
  // unless that is deleted.
  ghost function Contribution(s: string, splices: seq<Splice>, i: nat): string {
    InsertedAt(splices, i) + if i >= |s| || Deleted(splices, i) then "" else [s[i]]
  }

  // All splices at once, from offset i on.
  ghost function SpliceFrom(s: string, splices: seq<Splice>, i: nat): string
    requires i <= |s|
    decreases |s| - i
  {
    Contribution(s, splices, i) + if i == |s| then "" else SpliceFrom(s, splices, i + 1)
  }

  // The code's two skip checks: lines that do not exist, characters beyond the
  // end of their line. The single-line and the multi-line check say the same.
  predicate Applicable(lines: seq<string>, e: TextEdit) {
    Inside(lines, e.range.start) && Inside(lines, e.range.end)
  }

  function ToSplice(lines: seq<string>, e: TextEdit): Splice
    requires Applicable(lines, e)
  {
    Splice(Offset(lines, e.range.start), Offset(lines, e.range.end), e.newText)
  }

  // The applicable edits, in list order, at their flat offsets.
  function Splices(lines: seq<string>, edits: seq<TextEdit>): seq<Splice> {
    if edits == [] then [] else SpliceOfFirst(lines, edits) + Splices(lines, edits[1..])
  }

  function SpliceOfFirst(lines: seq<string>, edits: seq<TextEdit>): seq<Splice>
    requires edits != []
  {
    if Applicable(lines, edits[0]) then [ToSplice(lines, edits[0])] else []
  }

  // The simultaneous edit by the applicable edits of the list alone.
  ghost function ResultOfApplicable(content: string, edits: seq<TextEdit>): string {
    SpliceFrom(content, Splices(Split(content), edits), 0)
  }

  // Both lines of the range exist. LSP gives other ranges no meaning.
  predicate Placed(lines: seq<string>, e: TextEdit) {
    e.range.start.line < |lines| && e.range.end.line < |lines|
  }

  // "If the character value is greater than the line length it defaults back to
  // the line length" (LSP 3.17, Position).
  function ClampedPosition(lines: seq<string>, p: Position): Position
    requires p.line < |lines|
  {
    if p.character > |lines[p.line]| then Position(p.line, |lines[p.line]|) else p
  }

  function Clamped(lines: seq<string>, e: TextEdit): TextEdit {
    if Placed(lines, e) then
      e.(range := Range(ClampedPosition(lines, e.range.start), ClampedPosition(lines, e.range.end)))
    else e
  }

  function ClampedAll(lines: seq<string>, edits: seq<TextEdit>): (clamped: seq<TextEdit>)
    ensures |clamped| == |edits|
  {
    if edits == [] then [] else [Clamped(lines, edits[0])] + ClampedAll(lines, edits[1..])
  }

  // The meaning of an edit list in LSP: all edits at once, positions clamped.
  ghost function LspResult(content: string, edits: seq<TextEdit>): string {
    ResultOfApplicable(content, ClampedAll(Split(content), edits))
  }

  // ---------------------------------------------------------------- legal edit lists

  predicate WellFormed(e: TextEdit) {
    AtMost(e.range.start, e.range.end)
  }

  predicate Apart(e: TextEdit, f: TextEdit) {
    AtMost(e.range.end, f.range.start) || AtMost(f.range.end, e.range.start)
  }

  ghost predicate DistinctStarts(edits: seq<TextEdit>) {
    forall i, j :: 0 <= i < j < |edits| ==> edits[i].range.start != edits[j].range.start
  }

  // No range runs backwards and none overlap. LSP demands this and, of edits that
  // share a start, that all but the last are insertions. This predicate also admits
  // an insertion behind a replacement; LSP does not say how their texts are ordered,
  // and `LspResult` takes them in list order like all others.
  ghost predicate Disjoint(edits: seq<TextEdit>) {
    && (forall i :: 0 <= i < |edits| ==> WellFormed(edits[i]))
    && (forall i, j :: 0 <= i < j < |edits| ==> Apart(edits[i], edits[j]))
  }

  ghost predicate Legal(edits: seq<TextEdit>) {
    Disjoint(edits) && DistinctStarts(edits)
  }

  // Every character of an existing line is within that line.
  ghost predicate NoOverhang(lines: seq<string>, edits: seq<TextEdit>) {
    forall i :: 0 <= i < |edits| && Placed(lines, edits[i]) ==> Applicable(lines, edits[i])
  }

  ghost predicate Descending(edits: seq<TextEdit>) {
    forall i, j :: 0 <= i < j < |edits| ==> !Before(edits[i].range.start, edits[j].range.start)
  }

  // Each edit ends where, or before, every edit ahead of it in the list begins.
  // Unlike `Legal` this allows insertions that share one position.
  ghost predicate Chain(edits: seq<TextEdit>) {
    && (forall i :: 0 <= i < |edits| ==> WellFormed(edits[i]))
    && (forall i, j :: 0 <= i < j < |edits| ==> AtMost(edits[j].range.end, edits[i].range.start))
  }

  // ---------------------------------------------------------------- the line splicing, as a fold

  function ApplyEdit(lines: seq<string>, e: TextEdit): seq<string> {
    if Applicable(lines, e) then
      var r := e.range;
      lines[..r.start.line]
      + [lines[r.start.line][..r.start.character] + e.newText + lines[r.end.line][r.end.character..]]
      + lines[r.end.line + 1..]
    else lines
  }

  function ApplyAll(lines: seq<string>, edits: seq<TextEdit>): seq<string>
    decreases edits
  {
    if edits == [] then lines else ApplyAll(ApplyEdit(lines, edits[0]), edits[1..])
  }

  function Reverse<T>(s: seq<T>): (r: seq<T>)
    ensures multiset(r) == multiset(s)
  {
    if s == [] then [] else
      assert s == [s[0]] + s[1..];
      Reverse(s[1..]) + [s[0]]
  }

  // ---------------------------------------------------------------- one edit

  // On the flat text, one applicable edit is one splice, whatever the lines
  // contain: after an earlier edit a line may itself hold newlines.
  lemma OneEditIsOneSplice(lines: seq<string>, e: TextEdit)
    requires Applicable(lines, e)
    ensures Offset(lines, e.range.start) <= |Join(lines)| && Offset(lines, e.range.end) <= |Join(lines)|
    ensures Join(ApplyEdit(lines, e)) ==
            Join(lines)[..Offset(lines, e.range.start)] + e.newText + Join(lines)[Offset(lines, e.range.end)..]
  {
    var start, end := e.range.start, e.range.end;
    CutAt(lines, start);
    CutAt(lines, end);
    InsertBetween(lines[..start.line], lines[start.line][..start.character], e.newText,
                  lines[end.line][end.character..], lines[end.line + 1..]);
  }

  lemma InsertBetween(front: seq<string>, x: string, t: string, y: string, back: seq<string>)
    ensures Join(front + [x + t + y] + back) == Join(front + [x]) + t + Join([y] + back)
  {
    JoinCut(front, x + t, y, back);
    JoinCut(front, x, t, []);
    assert front + [x + t] + [] == front + [x + t];
    assert Join([t] + []) == t;
  }

  // ---------------------------------------------------------------- what earlier splices leave alone

  datatype Bound = Everywhere | UpTo(p: Position)

  ghost predicate Reaches(b: Bound, p: Position) {
    b.UpTo? ==> AtMost(p, b.p)
  }

  // The partly edited lines still read like the original ones up to the bound.
  ghost predicate Agree(original: seq<string>, current: seq<string>, b: Bound) {
    match b
    case Everywhere => current == original
    case UpTo(p) =>
      && Inside(original, p) && Inside(current, p)
      && current[..p.line] == original[..p.line]
      && current[p.line][..p.character] == original[p.line][..p.character]
  }

  lemma SameSkipDecision(original: seq<string>, current: seq<string>, b: Bound, e: TextEdit)
    requires Agree(original, current, b) && WellFormed(e) && Reaches(b, e.range.end)
    ensures Applicable(current, e) <==> Applicable(original, e)
    ensures Applicable(original, e) ==> ToSplice(current, e) == ToSplice(original, e)
    ensures Applicable(original, e) ==> Agree(original, ApplyEdit(current, e), UpTo(e.range.start))
  {
    if b.UpTo? {
      var p := b.p;
      SamePlace(original, current, p, e.range.start);
      SamePlace(original, current, p, e.range.end);
    }
  }

  lemma SamePlace(original: seq<string>, current: seq<string>, p: Position, q: Position)
    requires Agree(original, current, UpTo(p)) && AtMost(q, p)
    ensures Inside(current, q) <==> Inside(original, q)
    ensures Inside(original, q) ==> Offset(current, q) == Offset(original, q)
    ensures Inside(original, q) ==> Agree(original, current, UpTo(q))
  {
    assert current[..q.line] == current[..p.line][..q.line];
    assert original[..q.line] == original[..p.line][..q.line];
    LineStartLocal(original, current, q.line);
    if q.line < p.line {
      assert current[q.line] == current[..p.line][q.line];
      assert original[q.line] == original[..p.line][q.line];
    } else {
      assert current[q.line][..q.character] == current[p.line][..p.character][..q.character];
      assert original[q.line][..q.character] == original[p.line][..p.character][..q.character];
    }
  }

  // ---------------------------------------------------------------- which edits are skipped

  // How much the edits in front of the k-th insert at a place.
  function InsertedBefore(edits: seq<TextEdit>, k: nat, p: Position): nat
    requires k <= |edits|
  {
    if k == 0 then 0
    else
      var e := edits[k - 1];
      InsertedBefore(edits, k - 1, p) + if e.range == Range(p, p) then |e.newText| else 0
  }

  // The k-th edit ends beyond its line in the original, but not beyond what the
  // insertions in front of it, at its own start, have made of that line.
  predicate Overtaken(lines: seq<string>, edits: seq<TextEdit>, k: nat)
    requires k < |edits|
  {
    var r := edits[k].range;
    && Inside(lines, r.start) && r.end.line == r.start.line
    && |lines[r.end.line]| < r.end.character <= |lines[r.end.line]| + InsertedBefore(edits, k, r.start)
  }

  // The length of a line after n characters have been inserted at a place of it.
  function Grown(lines: seq<string>, p: Position, n: nat): nat
    requires p.line < |lines|
  {
    |lines[p.line]| + if Inside(lines, p) then n else 0
  }

  // What the edits in front of one with range r may have done to the lines it
  // names: n characters inserted at its start, nothing else within reach.
  ghost predicate Prepared(original: seq<string>, current: seq<string>, r: Range, n: nat) {
    && |current| <= |original|
    && (r.start.line <= r.end.line < |original| ==>
          var before := if r.start.line == r.end.line then Grown(original, r.start, n) else |original[r.end.line]|;
          && r.end.line < |current|
          && (r.start.line < r.end.line ==> |current[r.start.line]| == Grown(original, r.start, n))
          && if r.end.character <= |original[r.end.line]| then r.end.character <= |current[r.end.line]|
             else |current[r.end.line]| == before)
  }

  lemma EditedLengths(lines: seq<string>, d: TextEdit)
    requires WellFormed(d)
    ensures var l, edited := d.range.start.line, ApplyEdit(lines, d);
            && |edited| <= |lines|
            && (forall m :: 0 <= m < l && m < |lines| ==> m < |edited| && edited[m] == lines[m])
            && (Applicable(lines, d) ==> l < |edited| && d.range.start.character <= |edited[l]|)
            && (Applicable(lines, d) && d.range.start == d.range.end ==>
                  && |edited| == |lines| && |edited[l]| == |lines[l]| + |d.newText|
                  && forall m :: l < m < |lines| ==> edited[m] == lines[m])
  {
  }

  lemma PreparedStep(original: seq<string>, current: seq<string>, r: Range, n: nat, d: TextEdit)
    requires AtMost(r.start, r.end) && WellFormed(d) && Prepared(original, current, r, n)
    requires d.range == Range(r.start, r.start) || AtMost(r.end, d.range.start)
    requires n > 0 ==> AtMost(d.range.start, r.start)
    ensures var more := if d.range == Range(r.start, r.start) then |d.newText| else 0;
            Prepared(original, ApplyEdit(current, d), r, n + more)
  {
    EditedLengths(current, d);
  }

  lemma {:induction false} NothingInsertedBefore(edits: seq<TextEdit>, k: nat, p: Position)
    requires k <= |edits| && forall j :: 0 <= j < k ==> edits[j].range != Range(p, p)
    ensures InsertedBefore(edits, k, p) == 0
  {
    if k > 0 {
      NothingInsertedBefore(edits, k - 1, p);
    }
  }

  lemma {:induction false} ApplyLast(lines: seq<string>, edits: seq<TextEdit>, e: TextEdit)
    ensures ApplyAll(lines, edits + [e]) == ApplyEdit(ApplyAll(lines, edits), e)
    decreases edits
  {
    if edits == [] {
      assert ([] + [e])[1..] == [];
    } else {
      assert (edits + [e])[1..] == edits[1..] + [e];
      ApplyLast(ApplyEdit(lines, edits[0]), edits[1..], e);
    }
  }

  // An edit in front of the k-th inserts at its start or begins where it ends, or
  // behind; once something has been inserted there, nothing behind it follows.
  lemma InFrontOf(edits: seq<TextEdit>, k: nat, i: nat)
    requires Descending(edits) && Disjoint(edits) && i < k < |edits|
    ensures var r, d := edits[k].range, edits[i];
            && WellFormed(d) && AtMost(r.start, r.end)
            && (d.range == Range(r.start, r.start) || AtMost(r.end, d.range.start))
            && (InsertedBefore(edits, i, r.start) > 0 ==> AtMost(d.range.start, r.start))
  {
    var r, d := edits[k].range, edits[i];
    assert WellFormed(d) && WellFormed(edits[k]) && Apart(d, edits[k]) && !Before(d.range.start, r.start);
    if j :| 0 <= j < i && edits[j].range == Range(r.start, r.start) {
      assert !Before(edits[j].range.start, d.range.start);
    } else {
      NothingInsertedBefore(edits, i, r.start);
    }
  }

  lemma {:induction false} PreparedAt(lines: seq<string>, edits: seq<TextEdit>, k: nat, i: nat)
    requires Descending(edits) && Disjoint(edits) && i <= k < |edits|
    ensures var r := edits[k].range;
            Prepared(lines, ApplyAll(lines, edits[..i]), r, InsertedBefore(edits, i, r.start))
  {
    if i > 0 {
      var r, d := edits[k].range, edits[i - 1];
      PreparedAt(lines, edits, k, i - 1);
      InFrontOf(edits, k, i - 1);
      hide Prepared, Descending, Disjoint, WellFormed, AtMost, ApplyAll, ApplyEdit;
      assert edits[..i] == edits[..i - 1] + [d];
      ApplyLast(lines, edits[..i - 1], d);
      PreparedStep(lines, ApplyAll(lines, edits[..i - 1]), r, InsertedBefore(edits, i - 1, r.start), d);
    } else {
      assert edits[..0] == [];
    }
  }

  // Whether the code skips an edit is decided on the partly edited lines. That is
  // the decision on the original, for every edit that is not overtaken by
  // insertions at its own start.
  lemma SkippedExactlyWhen(lines: seq<string>, edits: seq<TextEdit>, k: nat)
    requires Descending(edits) && Disjoint(edits) && k < |edits|
    ensures Applicable(ApplyAll(lines, edits[..k]), edits[k]) <==>
            Applicable(lines, edits[k]) || Overtaken(lines, edits, k)
  {
    PreparedAt(lines, edits, k, k);
  }

  // In a chain nothing is ever overtaken.
  lemma SkippingIgnoresEarlierSplices(lines: seq<string>, edits: seq<TextEdit>, k: nat)
    requires Chain(edits) && k < |edits|
    ensures Applicable(ApplyAll(lines, edits[..k]), edits[k]) <==> Applicable(lines, edits[k])
  {
    SkippedExactlyWhen(lines, edits, k);
    var r := edits[k].range;
    if forall j :: 0 <= j < k ==> edits[j].range != Range(r.start, r.start) {
      NothingInsertedBefore(edits, k, r.start);
    }
  }

  // ---------------------------------------------------------------- the flat side

  lemma Unroll(s: string, splices: seq<Splice>, i: nat)
    requires i < |s|
    ensures SpliceFrom(s, splices, i) == Contribution(s, splices, i) + SpliceFrom(s, splices, i + 1)
  {
  }

  lemma AtEnd(s: string, splices: seq<Splice>)
    ensures SpliceFrom(s, splices, |s|) == Contribution(s, splices, |s|)
  {
  }

  // No splice starts or deletes between the two offsets.
  ghost predicate ClearOf(splices: seq<Splice>, i: nat, j: nat) {
    forall k :: 0 <= k < |splices| ==> j <= splices[k].lo || (splices[k].lo < i && splices[k].hi <= i)
  }

  ghost predicate StartFrom(splices: seq<Splice>, i: nat) {
    forall k :: 0 <= k < |splices| ==> i <= splices[k].lo
  }

  lemma {:induction false} NothingInserted(splices: seq<Splice>, i: nat)
    requires forall k :: 0 <= k < |splices| ==> splices[k].lo != i
    ensures InsertedAt(splices, i) == ""
  {
    if splices != [] {
      NothingInserted(splices[1..], i);
    }
  }

  lemma {:induction false} Untouched(s: string, splices: seq<Splice>, i: nat, j: nat)
    requires i <= j <= |s| && ClearOf(splices, i, j)
    ensures SpliceFrom(s, splices, i) == s[i..j] + SpliceFrom(s, splices, j)
    decreases j - i
  {
    hide *;
    if i < j {
      Kept(s, splices, i, j);
      Unroll(s, splices, i);
      Untouched(s, splices, i + 1, j);
      assert s[i..j] == [s[i]] + s[i + 1..j];
      Regroup([s[i]], s[i + 1..j], SpliceFrom(s, splices, j));
    } else {
      assert s[i..j] == "";
    }
  }

  lemma Kept(s: string, splices: seq<Splice>, i: nat, j: nat)
    requires i < j <= |s| && ClearOf(splices, i, j)
    ensures Contribution(s, splices, i) == [s[i]] && ClearOf(splices, i + 1, j)
  {
    NothingInserted(splices, i);
  }

  lemma DeletedCons(f: Splice, rest: seq<Splice>, i: nat)
    ensures Deleted([f] + rest, i) <==> f.lo <= i < f.hi || Deleted(rest, i)
  {
    var all := [f] + rest;
    assert all[0] == f && forall k :: 0 <= k < |rest| ==> all[k + 1] == rest[k];
  }

  lemma {:induction false} PastSplice(s: string, f: Splice, rest: seq<Splice>, i: nat)
    requires f.lo < i <= |s| && f.hi <= i
    ensures SpliceFrom(s, [f] + rest, i) == SpliceFrom(s, rest, i)
    decreases |s| - i
  {
    hide *;
    SameContribution(s, f, rest, i);
    if i < |s| {
      Unroll(s, [f] + rest, i);
      Unroll(s, rest, i);
      PastSplice(s, f, rest, i + 1);
    } else {
      AtEnd(s, [f] + rest);
      AtEnd(s, rest);
    }
  }

  lemma SameContribution(s: string, f: Splice, rest: seq<Splice>, i: nat)
    requires f.lo < i && f.hi <= i
    ensures Contribution(s, [f] + rest, i) == Contribution(s, rest, i)
  {
    assert ([f] + rest)[1..] == rest;
    DeletedCons(f, rest, i);
  }

  lemma {:induction false} InsideSplice(s: string, f: Splice, rest: seq<Splice>, i: nat)
    requires f.lo < i <= f.hi <= |s| && ClearOf(rest, f.lo, f.hi)
    ensures SpliceFrom(s, [f] + rest, i) == SpliceFrom(s, rest, f.hi)
    decreases f.hi - i
  {
    hide *;
    if i == f.hi {
      PastSplice(s, f, rest, i);
    } else {
      Unroll(s, [f] + rest, i);
      NoContribution(s, f, rest, i);
      InsideSplice(s, f, rest, i + 1);
    }
  }

  lemma NoContribution(s: string, f: Splice, rest: seq<Splice>, i: nat)
    requires f.lo < i < f.hi && ClearOf(rest, f.lo, f.hi)
    ensures Contribution(s, [f] + rest, i) == ""
  {
    assert ([f] + rest)[1..] == rest;
    NothingInserted(rest, i);
    DeletedCons(f, rest, i);
  }

  lemma FirstSplice(s: string, f: Splice, rest: seq<Splice>)
    requires f.lo <= f.hi <= |s| && ClearOf(rest, f.lo, f.hi)
    ensures SpliceFrom(s, [f] + rest, f.lo) == f.text + SpliceFrom(s, rest, f.hi)
  {
    FirstContribution(s, f, rest);
    if f.lo < f.hi {
      Replacement(s, f, rest);
    } else {
      hide *;
      var after := Insertion(s, f, rest);
      TextInFront(f.text, Contribution(s, rest, f.lo), after, Contribution(s, [f] + rest, f.lo));
    }
  }

  lemma Replacement(s: string, f: Splice, rest: seq<Splice>)
    requires f.lo < f.hi <= |s| && ClearOf(rest, f.lo, f.hi)
    requires Contribution(s, [f] + rest, f.lo) == f.text
    ensures SpliceFrom(s, [f] + rest, f.lo) == f.text + SpliceFrom(s, rest, f.hi)
  {
    hide *;
    Unroll(s, [f] + rest, f.lo);
    InsideSplice(s, f, rest, f.lo + 1);
  }

  // With and without an insertion in front, the same text follows the place.
  lemma Insertion(s: string, f: Splice, rest: seq<Splice>) returns (after: string)
    requires f.lo == f.hi <= |s|
    ensures SpliceFrom(s, [f] + rest, f.lo) == Contribution(s, [f] + rest, f.lo) + after
    ensures SpliceFrom(s, rest, f.lo) == Contribution(s, rest, f.lo) + after
  {
    hide *;
    if f.lo < |s| {
      after := SpliceFrom(s, rest, f.lo + 1);
      PastSplice(s, f, rest, f.lo + 1);
      Unroll(s, [f] + rest, f.lo);
      Unroll(s, rest, f.lo);
    } else {
      after := "";
      AtEnd(s, [f] + rest);
      AtEnd(s, rest);
    }
  }

  lemma TextInFront(text: string, own: string, after: string, first: string)
    requires first == text + own
    ensures first + after == text + (own + after)
  {
  }

  lemma FirstContribution(s: string, f: Splice, rest: seq<Splice>)
    requires f.lo <= f.hi <= |s| && ClearOf(rest, f.lo, f.hi)
    ensures f.lo == f.hi ==> Contribution(s, [f] + rest, f.lo) == f.text + Contribution(s, rest, f.lo)
    ensures f.lo < f.hi ==> Contribution(s, [f] + rest, f.lo) == f.text
  {
    assert ([f] + rest)[1..] == rest;
    DeletedCons(f, rest, f.lo);
    if f.lo < f.hi {
      NothingInserted(rest, f.lo);
    }
  }

  // ---------------------------------------------------------------- the refinement

  ghost function BoundOffset(lines: seq<string>, b: Bound): nat
    requires b.UpTo? ==> Inside(lines, b.p)
  {
    match b
    case Everywhere => |Join(lines)|
    case UpTo(p) => Offset(lines, p)
  }

  lemma {:induction false} SplicesConcat(lines: seq<string>, a: seq<TextEdit>, b: seq<TextEdit>)
    ensures Splices(lines, a + b) == Splices(lines, a) + Splices(lines, b)
  {
    if a == [] {
      assert a + b == b;
    } else {
      assert (a + b)[1..] == a[1..] + b;
      SplicesConcat(lines, a[1..], b);
      Regroup(SpliceOfFirst(lines, a), Splices(lines, a[1..]), Splices(lines, b));
    }
  }

  lemma SplicesReversed(lines: seq<string>, edits: seq<TextEdit>, done: seq<Splice>)
    requires edits != []
    ensures Splices(lines, Reverse(edits)) + done ==
            Splices(lines, Reverse(edits[1..])) + (SpliceOfFirst(lines, edits) + done)
  {
    SplicesConcat(lines, Reverse(edits[1..]), [edits[0]]);
    assert Splices(lines, [edits[0]]) == SpliceOfFirst(lines, edits);
    Regroup(Splices(lines, Reverse(edits[1..])), SpliceOfFirst(lines, edits), done);
  }

  // Invariant of the loop: in front of the bound the text is the original one,
  // behind it the splices already made are complete.
  ghost predicate Spliced(original: seq<string>, current: seq<string>, b: Bound, done: seq<Splice>) {
    && Agree(original, current, b)
    && var text, o := Join(original), BoundOffset(original, b);
    && o <= |text|
    && StartFrom(done, o)
    && Join(current) == text[..o] + SpliceFrom(text, done, o)
  }

  ghost predicate Reachable(b: Bound, edits: seq<TextEdit>) {
    forall i :: 0 <= i < |edits| ==> Reaches(b, edits[i].range.end)
  }

  lemma {:induction false} FoldRefinesSplices(
      original: seq<string>, current: seq<string>, b: Bound, done: seq<Splice>, todo: seq<TextEdit>)
    requires Spliced(original, current, b, done)
    requires Chain(todo) && Reachable(b, todo)
    ensures Join(ApplyAll(current, todo)) ==
            SpliceFrom(Join(original), Splices(original, Reverse(todo)) + done, 0)
    decreases |todo|
  {
    hide Chain, Reachable, Join, SpliceFrom, Applicable, ApplyEdit, Reaches, WellFormed;
    if todo == [] {
      Untouched(Join(original), done, 0, BoundOffset(original, b));
      assert Splices(original, Reverse(todo)) + done == done;
    } else {
      var e, rest := todo[0], todo[1..];
      ChainRest(b, todo);
      SameSkipDecision(original, current, b, e);
      SplicesReversed(original, todo, done);
      if Applicable(original, e) {
        OneStep(original, current, b, done, e);
        FoldRefinesSplices(
          original, ApplyEdit(current, e), UpTo(e.range.start), [ToSplice(original, e)] + done, rest);
      } else {
        SkippedStep(current, e);
        FoldRefinesSplices(original, current, b, done, rest);
        assert [] + done == done;
      }
    }
  }

  lemma SkippedStep(lines: seq<string>, e: TextEdit)
    requires !Applicable(lines, e)
    ensures ApplyEdit(lines, e) == lines
  {
  }

  lemma ChainRest(b: Bound, edits: seq<TextEdit>)
    requires edits != [] && Chain(edits) && Reachable(b, edits)
    ensures Chain(edits[1..]) && Reachable(b, edits[1..])
    ensures Reachable(UpTo(edits[0].range.start), edits[1..])
    ensures WellFormed(edits[0]) && Reaches(b, edits[0].range.end)
  {
  }

  lemma OneStep(original: seq<string>, current: seq<string>, b: Bound, done: seq<Splice>, e: TextEdit)
    requires Spliced(original, current, b, done)
    requires WellFormed(e) && Reaches(b, e.range.end) && Applicable(original, e)
    ensures Spliced(original, ApplyEdit(current, e), UpTo(e.range.start), [ToSplice(original, e)] + done)
  {
    var text, o, f := Join(original), BoundOffset(original, b), ToSplice(original, e);
    SameSkipDecision(original, current, b, e);
    SpliceInBound(original, b, e);
    OneEditIsOneSplice(current, e);
    var tail := SpliceFrom(text, done, o);
    CutPrefix(text, o, tail, f.lo, f.hi);
    Untouched(text, done, f.hi, o);
    FirstSplice(text, f, done);
    Regroup(text[..f.lo], f.text, SpliceFrom(text, done, f.hi));
  }

  lemma SpliceInBound(original: seq<string>, b: Bound, e: TextEdit)
    requires b.UpTo? ==> Inside(original, b.p)
    requires WellFormed(e) && Reaches(b, e.range.end) && Applicable(original, e)
    ensures ToSplice(original, e).lo <= ToSplice(original, e).hi <= BoundOffset(original, b)
  {
    CutAt(original, e.range.end);
    OffsetOrder(original, e.range.start, e.range.end);
    if b.UpTo? {
      OffsetOrder(original, e.range.end, b.p);
    }
  }

  lemma CutPrefix(text: string, o: nat, tail: string, lo: nat, hi: nat)
    requires lo <= hi <= o <= |text|
    ensures (text[..o] + tail)[..lo] == text[..lo]
    ensures (text[..o] + tail)[hi..] == text[hi..o] + tail
  {
  }

  // Main theorem of the fold: for a chain of edits, latest position first, the
  // spliced lines are the simultaneous edit by the applicable ones, read in
  // REVERSE order.
  lemma SplicingLinesIsOneEdit(content: string, edits: seq<TextEdit>)
    requires Chain(edits)
    ensures Join(ApplyAll(Split(content), edits)) == ResultOfApplicable(content, Reverse(edits))
  {
    JoinUndoesSplit(content);
    var lines := Split(content);
    assert SpliceFrom(content, [], |content|) == "";
    FoldRefinesSplices(lines, lines, Everywhere, [], edits);
    assert Splices(lines, Reverse(edits)) + [] == Splices(lines, Reverse(edits));
  }

  // ---------------------------------------------------------------- order of the list

  lemma DescendingLegalIsChain(edits: seq<TextEdit>)
    requires Legal(edits) && Descending(edits)
    ensures Chain(edits)
  {
  }

  lemma {:induction false} SpliceOrigin(lines: seq<string>, edits: seq<TextEdit>, f: Splice)
    ensures f in Splices(lines, edits) <==>
            exists e :: e in edits && Applicable(lines, e) && ToSplice(lines, e) == f
  {
    if edits != [] {
      SpliceOrigin(lines, edits[1..], f);
      assert forall e :: e in edits <==> e == edits[0] || e in edits[1..];
    }
  }

  ghost predicate DistinctLos(splices: seq<Splice>) {
    forall i, j :: 0 <= i < j < |splices| ==> splices[i].lo != splices[j].lo
  }

  lemma {:induction false} DistinctStartsDistinctOffsets(lines: seq<string>, edits: seq<TextEdit>)
    requires DistinctStarts(edits)
    ensures DistinctLos(Splices(lines, edits))
  {
    if edits != [] {
      DistinctStartsDistinctOffsets(lines, edits[1..]);
      var rest := Splices(lines, edits[1..]);
      if Applicable(lines, edits[0]) {
        forall k | 0 <= k < |rest|
          ensures rest[k].lo != ToSplice(lines, edits[0]).lo
        {
          SpliceOrigin(lines, edits[1..], rest[k]);
          var e :| e in edits[1..] && Applicable(lines, e) && ToSplice(lines, e) == rest[k];
          OffsetOrder(lines, e.range.start, edits[0].range.start);
          OffsetOrder(lines, edits[0].range.start, e.range.start);
        }
      }
    }
  }

  lemma {:induction false} OnlyInsertion(splices: seq<Splice>, f: Splice)
    requires DistinctLos(splices) && f in splices
    ensures InsertedAt(splices, f.lo) == f.text
  {
    if splices[0] == f {
      NothingInserted(splices[1..], f.lo);
    } else {
      var k :| 0 <= k < |splices| && splices[k] == f;
      OnlyInsertion(splices[1..], f);
    }
  }

  lemma DeletedWithin(a: seq<Splice>, b: seq<Splice>, i: nat)
    requires Deleted(a, i) && forall f :: f in a ==> f in b
    ensures Deleted(b, i)
  {
    var k :| 0 <= k < |a| && a[k].lo <= i < a[k].hi;
    assert a[k] in b;
  }

  lemma SameEdits(a: seq<TextEdit>, b: seq<TextEdit>)
    requires multiset(a) == multiset(b)
    ensures forall e :: e in a <==> e in b
    ensures DistinctStarts(a) ==> DistinctStarts(b)
    ensures Disjoint(a) ==> Disjoint(b)
  {
    assert forall e :: e in a <==> e in multiset(a);
    assert forall e :: e in b <==> e in multiset(b);
    assert forall i :: 0 <= i < |b| ==> b[i] in a;
    forall i, j | 0 <= i < j < |b|
      ensures DistinctStarts(a) ==> b[i].range.start != b[j].range.start
      ensures Disjoint(a) ==> Apart(b[i], b[j])
    {
      var k, l := TwoPlaces(a, b, i, j);
    }
  }

  // ---------------------------------------------------------------- permutations

  lemma {:induction false} InsertedConcat(a: seq<Splice>, b: seq<Splice>, i: nat)
    ensures InsertedAt(a + b, i) == InsertedAt(a, i) + InsertedAt(b, i)
  {
    if a == [] {
      assert a + b == b;
    } else {
      assert (a + b)[1..] == a[1..] + b;
      InsertedConcat(a[1..], b, i);
      Regroup(if a[0].lo == i then a[0].text else "", InsertedAt(a[1..], i), InsertedAt(b, i));
    }
  }

  // A permutation of the splices inserts as much at every offset.
  lemma {:induction false} InsertedLength(a: seq<Splice>, b: seq<Splice>, i: nat)
    requires multiset(a) == multiset(b)
    ensures |InsertedAt(a, i)| == |InsertedAt(b, i)|
    decreases |a|
  {
    if a != [] {
      var k := PlaceOf(a[0], b);
      var b' := b[..k] + b[k + 1..];
      TakeOut(a, b, k);
      InsertedLength(a[1..], b', i);
      assert b == b[..k] + b[k..] && b[k..][1..] == b[k + 1..];
      InsertedConcat(b[..k], b[k..], i);
      InsertedConcat(b[..k], b[k + 1..], i);
    }
  }

  lemma {:induction false} SplicesPermuted(lines: seq<string>, a: seq<TextEdit>, b: seq<TextEdit>)
    requires multiset(a) == multiset(b)
    ensures multiset(Splices(lines, a)) == multiset(Splices(lines, b))
    decreases |a|
  {
    if a != [] {
      var k := PlaceOf(a[0], b);
      var b' := b[..k] + b[k + 1..];
      TakeOut(a, b, k);
      SplicesPermuted(lines, a[1..], b');
      assert b == b[..k] + b[k..] && b[k..][1..] == b[k + 1..];
      SplicesConcat(lines, b[..k], b[k..]);
      SplicesConcat(lines, b[..k], b[k + 1..]);
    }
  }

  lemma SamePrefix(x: string, u: string, y: string, v: string)
    requires |x| <= |y| && |u| <= |v|
    ensures x + u == y + v <==> x == y && u == v
  {
    if x + u == y + v {
      assert |x| == |y|;
      assert x == (x + u)[..|x|] && u == (x + u)[|x|..];
      assert y == (y + v)[..|y|] && v == (y + v)[|y|..];
    }
  }

  ghost predicate SameInsertions(a: seq<Splice>, b: seq<Splice>, from: nat, to: nat) {
    forall j :: from <= j <= to ==> InsertedAt(a, j) == InsertedAt(b, j)
  }

  // Both delete the same, and the first never inserts more.
  ghost predicate NoLonger(a: seq<Splice>, b: seq<Splice>) {
    forall i: nat :: NoLongerAt(a, b, i)
  }

  ghost predicate NoLongerAt(a: seq<Splice>, b: seq<Splice>, i: nat) {
    (Deleted(a, i) <==> Deleted(b, i)) && |InsertedAt(a, i)| <= |InsertedAt(b, i)|
  }

  lemma PermutedNoLonger(a: seq<Splice>, b: seq<Splice>)
    requires multiset(a) == multiset(b)
    ensures NoLonger(a, b)
  {
    forall i: nat
      ensures NoLongerAt(a, b, i)
    {
      InsertedLength(a, b, i);
      SameDeleted(a, b, i);
    }
  }

  // Then the two agree exactly when they insert the same everywhere: nothing that
  // is missing in one place can be made up for in another.
  lemma {:induction false} SameResultSameInsertions(s: string, a: seq<Splice>, b: seq<Splice>, i: nat)
    requires i <= |s| && NoLonger(a, b)
    ensures |SpliceFrom(s, a, i)| <= |SpliceFrom(s, b, i)|
    ensures SpliceFrom(s, a, i) == SpliceFrom(s, b, i) <==> SameInsertions(a, b, i, |s|)
    decreases |s| - i
  {
    if i < |s| {
      SameResultSameInsertions(s, a, b, i + 1);
      SameFirstPiece(s, a, b, i);
      assert SameInsertions(a, b, i, |s|) <==>
             InsertedAt(a, i) == InsertedAt(b, i) && SameInsertions(a, b, i + 1, |s|);
    } else {
      assert NoLongerAt(a, b, i);
      AtEnd(s, a);
      AtEnd(s, b);
      Regroup(InsertedAt(a, i), [], []);
      Regroup(InsertedAt(b, i), [], []);
    }
  }

  lemma SameFirstPiece(s: string, a: seq<Splice>, b: seq<Splice>, i: nat)
    requires i < |s| && NoLonger(a, b)
    requires |SpliceFrom(s, a, i + 1)| <= |SpliceFrom(s, b, i + 1)|
    ensures |SpliceFrom(s, a, i)| <= |SpliceFrom(s, b, i)|
    ensures SpliceFrom(s, a, i) == SpliceFrom(s, b, i) <==>
            InsertedAt(a, i) == InsertedAt(b, i) && SpliceFrom(s, a, i + 1) == SpliceFrom(s, b, i + 1)
  {
    var kept := if Deleted(a, i) then "" else [s[i]];
    var u, v := SpliceFrom(s, a, i + 1), SpliceFrom(s, b, i + 1);
    assert NoLongerAt(a, b, i);
    FirstPiece(s, a, i, kept);
    FirstPiece(s, b, i, kept);
    hide *;
    SamePrefix(InsertedAt(a, i), kept + u, InsertedAt(b, i), kept + v);
    SamePrefix(kept, u, kept, v);
  }

  lemma FirstPiece(s: string, a: seq<Splice>, i: nat, kept: string)
    requires i < |s| && kept == if Deleted(a, i) then "" else [s[i]]
    ensures SpliceFrom(s, a, i) == InsertedAt(a, i) + (kept + SpliceFrom(s, a, i + 1))
  {
    Unroll(s, a, i);
    Regroup(InsertedAt(a, i), kept, SpliceFrom(s, a, i + 1));
  }

  lemma SameDeleted(a: seq<Splice>, b: seq<Splice>, i: nat)
    requires multiset(a) == multiset(b)
    ensures Deleted(a, i) <==> Deleted(b, i)
  {
    assert forall f :: f in a <==> f in multiset(a);
    assert forall f :: f in b <==> f in multiset(b);
    if Deleted(a, i) {
      DeletedWithin(a, b, i);
    }
    if Deleted(b, i) {
      DeletedWithin(b, a, i);
    }
  }

  // The simultaneous edit does not depend on the order of the list.
  lemma ApplicableOrderIndependent(content: string, a: seq<TextEdit>, b: seq<TextEdit>)
    requires multiset(a) == multiset(b) && DistinctStarts(a)
    ensures ResultOfApplicable(content, a) == ResultOfApplicable(content, b)
  {
    var lines := Split(content);
    var x, y := Splices(lines, a), Splices(lines, b);
    SameEdits(a, b);
    DistinctStartsDistinctOffsets(lines, a);
    DistinctStartsDistinctOffsets(lines, b);
    SplicesPermuted(lines, a, b);
    PermutedNoLonger(x, y);
    forall j | 0 <= j <= |content|
      ensures InsertedAt(x, j) == InsertedAt(y, j)
    {
      InsertedOnce(x, y, j);
    }
    SameResultSameInsertions(content, x, y, 0);
  }

  lemma {:induction false} ClampedConcat(lines: seq<string>, a: seq<TextEdit>, b: seq<TextEdit>)
    ensures ClampedAll(lines, a + b) == ClampedAll(lines, a) + ClampedAll(lines, b)
  {
    if a == [] {
      assert a + b == b;
    } else {
      assert (a + b)[1..] == a[1..] + b;
      ClampedConcat(lines, a[1..], b);
    }
  }

  lemma {:induction false} ClampedPermuted(lines: seq<string>, a: seq<TextEdit>, b: seq<TextEdit>)
    requires multiset(a) == multiset(b)
    ensures multiset(ClampedAll(lines, a)) == multiset(ClampedAll(lines, b))
    decreases |a|
  {
    if a != [] {
      var k := PlaceOf(a[0], b);
      TakeOut(a, b, k);
      ClampedPermuted(lines, a[1..], b[..k] + b[k + 1..]);
      assert b == b[..k] + b[k..] && b[k..][1..] == b[k + 1..];
      ClampedConcat(lines, b[..k], b[k..]);
      ClampedConcat(lines, b[..k], b[k + 1..]);
    }
  }

  // The LSP meaning of a list does not depend on its order, as long as no two
  // edits start at the same place of the document.
  lemma LspResultOrderIndependent(content: string, a: seq<TextEdit>, b: seq<TextEdit>)
    requires multiset(a) == multiset(b) && DistinctStarts(ClampedAll(Split(content), a))
    ensures LspResult(content, a) == LspResult(content, b)
  {
    var lines := Split(content);
    ClampedPermuted(lines, a, b);
    ApplicableOrderIndependent(content, ClampedAll(lines, a), ClampedAll(lines, b));
  }

  // Without overhanging characters there is nothing to clamp.
  lemma {:induction false} NothingToClamp(lines: seq<string>, edits: seq<TextEdit>)
    requires NoOverhang(lines, edits)
    ensures ClampedAll(lines, edits) == edits
  {
    if edits != [] {
      NothingToClamp(lines, edits[1..]);
      assert Placed(lines, edits[0]) ==> Applicable(lines, edits[0]);
      assert Clamped(lines, edits[0]) == edits[0];
    }
  }

  lemma InsertedOnce(a: seq<Splice>, b: seq<Splice>, i: nat)
    requires multiset(a) == multiset(b) && DistinctLos(a) && DistinctLos(b)
    ensures InsertedAt(a, i) == InsertedAt(b, i)
  {
    if f :| f in a && f.lo == i {
      assert f in multiset(b);
      OnlyInsertion(a, f);
      OnlyInsertion(b, f);
    } else {
      forall k | 0 <= k < |b|
        ensures b[k].lo != i
      {
        assert b[k] in multiset(a);
      }
      NothingInserted(a, i);
      NothingInserted(b, i);
    }
  }

  // Any descending arrangement of a legal list has the effect of its applicable
  // edits, all at once; without overhanging characters that is the LSP meaning.
  lemma SortedSplicingIsLspEdit(content: string, edits: seq<TextEdit>, sorted: seq<TextEdit>)
    requires Legal(edits) && multiset(sorted) == multiset(edits) && Descending(sorted)
    ensures Join(ApplyAll(Split(content), sorted)) == ResultOfApplicable(content, edits)
    ensures NoOverhang(Split(content), edits) ==> Join(ApplyAll(Split(content), sorted)) == LspResult(content, edits)
  {
    SameEdits(edits, sorted);
    DescendingLegalIsChain(sorted);
    SplicingLinesIsOneEdit(content, sorted);
    ApplicableOrderIndependent(content, edits, Reverse(sorted));
    if NoOverhang(Split(content), edits) {
      NothingToClamp(Split(content), edits);
    }
  }
}
