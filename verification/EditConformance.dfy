/**
 bridge/bridge.go: applyTextEditsToContent on lists in which edits share a start:
 what the code computes for every list without overlap, and when it is what LSP
 means by the list.
 */
module EditConformance {
  import opened Collections
  import opened TextLines
  import opened TextEdits
  import opened ExchangeSort

  // ---------------------------------------------------------------- insertions in front of a replacement

  // The first edit inserts where the second starts.
  predicate InsertsBefore(e: TextEdit, f: TextEdit) {
    e.range.start == e.range.end == f.range.start
  }

  // The second edit replaces what follows the place where the first has just
  // inserted: applied second, it takes the inserted text for old text. It may even
  // end beyond its line, if the inserted text makes up for that.
  predicate Swallows(lines: seq<string>, e: TextEdit, f: TextEdit) {
    && InsertsBefore(e, f) && Applicable(lines, e) && WellFormed(f) && Fits(lines, |e.newText|, f.range)
  }

  // The range ends within its line, n characters having been inserted at its start.
  predicate Fits(lines: seq<string>, n: nat, r: Range) {
    && r.end.line < |lines|
    && r.end.character <= |lines[r.end.line]| + if r.start.line == r.end.line then n else 0
  }

  // What is left of a text inserted in front of a range that is then replaced: of
  // the text followed by the old content of the range, everything behind as many
  // characters as the range has. Nothing, if the range spans lines.
  function LeftOver(lines: seq<string>, text: string, r: Range): (left: string)
    requires Inside(lines, r.start) && Fits(lines, |text|, r) && AtMost(r.start, r.end)
    ensures |left| <= |text|
  {
    if r.start.line == r.end.line then
      var end := ClampedPosition(lines, r.end).character;
      (text + lines[r.start.line][r.start.character..end])[r.end.character - r.start.character..]
    else ""
  }

  // One edit with the effect of the two.
  function Swallow(lines: seq<string>, e: TextEdit, f: TextEdit): TextEdit
    requires Swallows(lines, e, f)
  {
    TextEdit(Clamped(lines, f).range, f.newText + LeftOver(lines, e.newText, f.range))
  }

  lemma SwallowIsBoth(lines: seq<string>, e: TextEdit, f: TextEdit)
    requires Swallows(lines, e, f)
    ensures ApplyEdit(ApplyEdit(lines, e), f) == ApplyEdit(lines, Swallow(lines, e, f))
    ensures Applicable(lines, Swallow(lines, e, f))
  {
    if f.range.start.line == f.range.end.line {
      SwallowOnOneLine(lines, e, f);
    } else {
      SwallowAcrossLines(lines, e, f);
    }
  }

  // The lines between the two splices.
  lemma AfterInsertion(lines: seq<string>, e: TextEdit, f: TextEdit)
    requires Swallows(lines, e, f)
    ensures var l, c, between := f.range.start.line, f.range.start.character, ApplyEdit(lines, e);
            && |between| == |lines| && between[..l] == lines[..l] && between[l + 1..] == lines[l + 1..]
            && between[l] == lines[l][..c] + e.newText + lines[l][c..] && between[l][..c] == lines[l][..c]
  {
    var l, c := f.range.start.line, f.range.start.character;
    assert ApplyEdit(lines, e) == lines[..l] + [lines[l][..c] + e.newText + lines[l][c..]] + lines[l + 1..];
  }

  lemma SwallowOnOneLine(lines: seq<string>, e: TextEdit, f: TextEdit)
    requires Swallows(lines, e, f) && f.range.start.line == f.range.end.line
    ensures ApplyEdit(ApplyEdit(lines, e), f) == ApplyEdit(lines, Swallow(lines, e, f))
  {
    var l, c := f.range.start.line, f.range.start.character;
    var x, y := lines[l][..c], lines[l][c..];
    var d, end := f.range.end.character - c, ClampedPosition(lines, f.range.end).character - c;
    var left := LeftOver(lines, e.newText, f.range);
    AfterInsertion(lines, e, f);
    SwallowedLine(x, e.newText, y, d, end);
    assert lines[l][c..c + end] == y[..end];
    assert lines[l][c + end..] == y[end..];
    Regroup(f.newText, left, y[end..]);
    Regroup(x, f.newText, left + y[end..]);
    Regroup(x, f.newText + left, y[end..]);
  }

  lemma SwallowAcrossLines(lines: seq<string>, e: TextEdit, f: TextEdit)
    requires Swallows(lines, e, f) && f.range.start.line != f.range.end.line
    ensures ApplyEdit(ApplyEdit(lines, e), f) == ApplyEdit(lines, Swallow(lines, e, f))
  {
    AfterInsertion(lines, e, f);
    SameFromThere(lines, ApplyEdit(lines, e), f.range.start.line + 1, f.range.end.line);
    Regroup(f.newText, [], []);
    assert Clamped(lines, f) == f;
    hide Clamped, ClampedPosition;
  }

  lemma SameFromThere(a: seq<string>, b: seq<string>, n: nat, m: nat)
    requires n <= m < |a| == |b| && a[n..] == b[n..]
    ensures a[m] == b[m] && a[m + 1..] == b[m + 1..]
  {
    assert a[m] == a[n..][m - n] && b[m] == b[n..][m - n];
    assert a[m + 1..] == a[n..][m + 1 - n..] && b[m + 1..] == b[n..][m + 1 - n..];
  }

  lemma SwallowedLine(x: string, t: string, y: string, d: nat, end: nat)
    requires d <= |t| + |y| && end == if d > |y| then |y| else d
    ensures (x + t + y)[|x| + d..] == (t + y[..end])[d..] + y[end..]
  {
    assert x + t + y == x + (t + y[..end]) + y[end..];
  }

  // What does not fit is skipped after the insertion as it would be before.
  lemma NotSwallowed(lines: seq<string>, e: TextEdit, f: TextEdit)
    requires InsertsBefore(e, f) && Applicable(lines, e) && WellFormed(f) && !Swallows(lines, e, f)
    ensures !Applicable(ApplyEdit(lines, e), f)
    ensures ApplyEdit(ApplyEdit(lines, e), f) == ApplyEdit(lines, e)
  {
    EditedLengths(lines, e);
  }

  // A sorted list without the edits that are skipped, and with those that swallow
  // an insertion drawn together with it, from the left.
  function Effective(lines: seq<string>, edits: seq<TextEdit>): seq<TextEdit>
    decreases |edits|
  {
    if edits == [] then []
    else if !Applicable(lines, edits[0]) then Effective(lines, edits[1..])
    else if |edits| == 1 then edits
    else if Swallows(lines, edits[0], edits[1]) then
      Effective(lines, [Swallow(lines, edits[0], edits[1])] + edits[2..])
    else if InsertsBefore(edits[0], edits[1]) then Effective(lines, [edits[0]] + edits[2..])
    else [edits[0]] + Effective(lines, edits[1..])
  }

  // A list that the code works through: latest start first, no overlap.
  ghost predicate Orderly(edits: seq<TextEdit>) {
    Descending(edits) && Disjoint(edits)
  }

  lemma DrawnTogether(lines: seq<string>, edits: seq<TextEdit>)
    requires |edits| >= 2 && Orderly(edits) && Swallows(lines, edits[0], edits[1])
    ensures Orderly([Swallow(lines, edits[0], edits[1])] + edits[2..])
  {
    SecondReplaced(edits, Swallow(lines, edits[0], edits[1]));
  }

  // The second edit stands for both, perhaps with an earlier end.
  lemma SecondReplaced(edits: seq<TextEdit>, m: TextEdit)
    requires |edits| >= 2 && Orderly(edits) && WellFormed(m)
    requires m.range.start == edits[1].range.start && AtMost(m.range.end, edits[1].range.end)
    ensures Orderly([m] + edits[2..])
  {
    var drawn := [m] + edits[2..];
    assert forall i :: 1 <= i < |drawn| ==> drawn[i] == edits[i + 1];
    forall j | 1 <= j < |drawn|
      ensures Apart(m, drawn[j]) && !Before(m.range.start, drawn[j].range.start)
    {
      assert Apart(edits[1], edits[j + 1]) && !Before(edits[1].range.start, edits[j + 1].range.start);
    }
  }

  lemma SecondDropped(edits: seq<TextEdit>)
    requires |edits| >= 2 && Orderly(edits)
    ensures Orderly([edits[0]] + edits[2..])
  {
    var fewer := [edits[0]] + edits[2..];
    assert forall i :: 1 <= i < |fewer| ==> fewer[i] == edits[i + 1];
  }

  lemma OrderlyRest(edits: seq<TextEdit>)
    requires edits != [] && Orderly(edits)
    ensures Orderly(edits[1..])
  {
  }

  // Unless the first edit inserts where the second starts, everything behind it
  // ends where it starts, or before.
  lemma RestIsBefore(edits: seq<TextEdit>)
    requires |edits| >= 2 && Orderly(edits) && !InsertsBefore(edits[0], edits[1])
    ensures forall k :: 1 <= k < |edits| ==> AtMost(edits[k].range.end, edits[0].range.start)
  {
    forall k | 1 <= k < |edits|
      ensures AtMost(edits[k].range.end, edits[0].range.start)
    {
      assert !Before(edits[0].range.start, edits[k].range.start);
      assert k > 1 ==> !Before(edits[1].range.start, edits[k].range.start);
      assert !Before(edits[0].range.start, edits[1].range.start);
    }
  }

  // Ranges only disappear or shrink.
  lemma {:induction false} EffectiveRanges(lines: seq<string>, edits: seq<TextEdit>, e: TextEdit)
    requires e in Effective(lines, edits)
    ensures exists f :: f in edits && AtMost(e.range.end, f.range.end)
    decreases |edits|
  {
    if !Applicable(lines, edits[0]) {
      EffectiveRanges(lines, edits[1..], e);
    } else if |edits| >= 2 {
      if Swallows(lines, edits[0], edits[1]) {
        var drawn := [Swallow(lines, edits[0], edits[1])] + edits[2..];
        EffectiveRanges(lines, drawn, e);
        var f :| f in drawn && AtMost(e.range.end, f.range.end);
        assert f != drawn[0] ==> f in edits[2..];
        assert edits[1] in edits;
      } else if InsertsBefore(edits[0], edits[1]) {
        EffectiveRanges(lines, [edits[0]] + edits[2..], e);
      } else if e != edits[0] {
        EffectiveRanges(lines, edits[1..], e);
      }
    }
  }

  lemma {:induction false} EffectiveIsChain(lines: seq<string>, edits: seq<TextEdit>)
    requires Orderly(edits)
    ensures Chain(Effective(lines, edits))
    decreases |edits|
  {
    if edits != [] && !Applicable(lines, edits[0]) {
      OrderlyRest(edits);
      EffectiveIsChain(lines, edits[1..]);
    } else if |edits| >= 2 {
      if Swallows(lines, edits[0], edits[1]) {
        DrawnTogether(lines, edits);
        EffectiveIsChain(lines, [Swallow(lines, edits[0], edits[1])] + edits[2..]);
      } else if InsertsBefore(edits[0], edits[1]) {
        SecondDropped(edits);
        EffectiveIsChain(lines, [edits[0]] + edits[2..]);
      } else {
        OrderlyRest(edits);
        RestIsBefore(edits);
        EffectiveIsChain(lines, edits[1..]);
        var rest := Effective(lines, edits[1..]);
        EffectiveRestIsBefore(lines, edits, rest);
        ChainCons(edits[0], rest);
      }
    }
  }

  lemma EffectiveRestIsBefore(lines: seq<string>, edits: seq<TextEdit>, rest: seq<TextEdit>)
    requires edits != [] && rest == Effective(lines, edits[1..])
    requires forall k :: 1 <= k < |edits| ==> AtMost(edits[k].range.end, edits[0].range.start)
    ensures forall k :: 0 <= k < |rest| ==> AtMost(rest[k].range.end, edits[0].range.start)
  {
    forall k | 0 <= k < |rest|
      ensures AtMost(rest[k].range.end, edits[0].range.start)
    {
      EffectiveRanges(lines, edits[1..], rest[k]);
      var f :| f in edits[1..] && AtMost(rest[k].range.end, f.range.end);
      var i :| 1 <= i < |edits| && edits[i] == f;
    }
  }

  lemma ChainCons(e: TextEdit, rest: seq<TextEdit>)
    requires WellFormed(e) && Chain(rest)
    requires forall k :: 0 <= k < |rest| ==> AtMost(rest[k].range.end, e.range.start)
    ensures Chain([e] + rest)
  {
  }

  // What the range of an edit covers is still as in the original.
  lemma SameSwallow(original: seq<string>, current: seq<string>, b: Bound, e: TextEdit, f: TextEdit)
    requires Agree(original, current, b) && Reaches(b, f.range.end) && WellFormed(f)
    requires InsertsBefore(e, f) && Applicable(original, e)
    ensures Applicable(current, e)
    ensures Swallows(current, e, f) <==> Swallows(original, e, f)
    ensures Swallows(original, e, f) ==> Swallow(current, e, f) == Swallow(original, e, f)
  {
    if b.UpTo? {
      var r, p := f.range, b.p;
      SamePlace(original, current, p, r.start);
      if r.end.line < p.line {
        assert current[r.end.line] == current[..p.line][r.end.line] == original[..p.line][r.end.line];
      } else {
        SamePlace(original, current, p, r.end);
        if r.start.line == r.end.line {
          var before, after := original[r.end.line], current[r.end.line];
          assert before[r.start.character..r.end.character] == before[..r.end.character][r.start.character..];
          assert after[r.start.character..r.end.character] == after[..r.end.character][r.start.character..];
        }
      }
    }
  }

  lemma DrawnReachable(lines: seq<string>, b: Bound, edits: seq<TextEdit>)
    requires |edits| >= 2 && Reachable(b, edits)
    ensures Reachable(b, edits[1..]) && Reachable(b, [edits[0]] + edits[2..])
    ensures Swallows(lines, edits[0], edits[1]) ==> Reachable(b, [Swallow(lines, edits[0], edits[1])] + edits[2..])
  {
    if Swallows(lines, edits[0], edits[1]) {
      var drawn := [Swallow(lines, edits[0], edits[1])] + edits[2..];
      assert forall k :: 1 <= k < |drawn| ==> drawn[k] == edits[k + 1];
    }
  }

  lemma ApplyTwo(lines: seq<string>, edits: seq<TextEdit>)
    requires |edits| >= 2
    ensures ApplyAll(lines, edits) == ApplyAll(ApplyEdit(ApplyEdit(lines, edits[0]), edits[1]), edits[2..])
  {
    assert edits[1..][1..] == edits[2..];
  }

  lemma ApplyOne(lines: seq<string>, e: TextEdit, rest: seq<TextEdit>)
    ensures ApplyAll(lines, [e] + rest) == ApplyAll(ApplyEdit(lines, e), rest)
  {
    assert ([e] + rest)[1..] == rest;
  }

  // Working through a sorted list is working through its effective form.
  lemma {:induction false} EffectiveApplies(
      original: seq<string>, current: seq<string>, b: Bound, edits: seq<TextEdit>)
    requires Agree(original, current, b) && Reachable(b, edits) && Orderly(edits)
    ensures ApplyAll(current, edits) == ApplyAll(current, Effective(original, edits))
    decreases |edits|
  {
    hide Agree, Swallow, ApplyEdit, Applicable, Orderly;
    if edits != [] {
      var e := edits[0];
      FirstSkipDecision(original, current, b, edits);
      if !Applicable(original, e) {
        EffectiveApplies(original, current, b, edits[1..]);
      } else if |edits| >= 2 {
        var f := edits[1];
        SecondWellFormed(edits);
        DrawnReachable(original, b, edits);
        ApplyTwo(current, edits);
        if InsertsBefore(e, f) {
          SameSwallow(original, current, b, e, f);
        }
        if Swallows(original, e, f) {
          var m := Swallow(original, e, f);
          DrawnTogether(original, edits);
          SwallowIsBoth(current, e, f);
          ApplyOne(current, m, edits[2..]);
          EffectiveApplies(original, current, b, [m] + edits[2..]);
        } else if InsertsBefore(e, f) {
          NotSwallowed(current, e, f);
          SecondDropped(edits);
          ApplyOne(current, e, edits[2..]);
          EffectiveApplies(original, current, b, [e] + edits[2..]);
        } else {
          RestIsBefore(edits);
          EffectiveApplies(original, ApplyEdit(current, e), UpTo(e.range.start), edits[1..]);
          ApplyOne(current, e, Effective(original, edits[1..]));
        }
      }
    }
  }

  lemma FirstSkipDecision(original: seq<string>, current: seq<string>, b: Bound, edits: seq<TextEdit>)
    requires Agree(original, current, b) && Reachable(b, edits) && Orderly(edits) && edits != []
    ensures Orderly(edits[1..]) && Reachable(b, edits[1..])
    ensures !Applicable(original, edits[0]) ==> ApplyEdit(current, edits[0]) == current
    ensures Applicable(original, edits[0]) <==> Applicable(current, edits[0])
    ensures Applicable(original, edits[0]) ==>
              Agree(original, ApplyEdit(current, edits[0]), UpTo(edits[0].range.start))
  {
    SameSkipDecision(original, current, b, edits[0]);
  }

  lemma SecondWellFormed(edits: seq<TextEdit>)
    requires |edits| >= 2 && Orderly(edits)
    ensures WellFormed(edits[1])
  {
  }

  // ---------------------------------------------------------------- shared starts: the exact condition

  // What the applicable edits insert at a position, in list order.
  ghost function TextsAt(lines: seq<string>, edits: seq<TextEdit>, p: Position): string {
    if edits == [] then ""
    else (if Applicable(lines, edits[0]) && edits[0].range.start == p then edits[0].newText else "")
         + TextsAt(lines, edits[1..], p)
  }

  lemma {:induction false} InsertedIsTexts(lines: seq<string>, edits: seq<TextEdit>, p: Position)
    requires Inside(lines, p)
    ensures InsertedAt(Splices(lines, edits), Offset(lines, p)) == TextsAt(lines, edits, p)
  {
    if edits != [] {
      InsertedIsTexts(lines, edits[1..], p);
      var own := SpliceOfFirst(lines, edits);
      InsertedConcat(own, Splices(lines, edits[1..]), Offset(lines, p));
      if own != [] {
        OffsetOrder(lines, p, edits[0].range.start);
        OffsetOrder(lines, edits[0].range.start, p);
        assert own[1..] == [];
      }
    }
  }

  lemma {:induction false} NoTextsOutside(lines: seq<string>, edits: seq<TextEdit>, p: Position)
    requires !Inside(lines, p)
    ensures TextsAt(lines, edits, p) == ""
  {
    if edits != [] {
      NoTextsOutside(lines, edits[1..], p);
    }
  }

  ghost predicate SameTexts(lines: seq<string>, a: seq<TextEdit>, b: seq<TextEdit>) {
    forall p :: TextsAt(lines, a, p) == TextsAt(lines, b, p)
  }

  lemma SameTextsFromInsertions(lines: seq<string>, a: seq<TextEdit>, b: seq<TextEdit>)
    requires SameInsertions(Splices(lines, a), Splices(lines, b), 0, |Join(lines)|)
    ensures SameTexts(lines, a, b)
  {
    forall p
      ensures TextsAt(lines, a, p) == TextsAt(lines, b, p)
    {
      if Inside(lines, p) {
        CutAt(lines, p);
        InsertedIsTexts(lines, a, p);
        InsertedIsTexts(lines, b, p);
      } else {
        NoTextsOutside(lines, a, p);
        NoTextsOutside(lines, b, p);
      }
    }
  }

  lemma SameInsertionsFromTexts(lines: seq<string>, a: seq<TextEdit>, b: seq<TextEdit>, n: nat)
    requires SameTexts(lines, a, b)
    ensures SameInsertions(Splices(lines, a), Splices(lines, b), 0, n)
  {
    forall j | 0 <= j <= n
      ensures InsertedAt(Splices(lines, a), j) == InsertedAt(Splices(lines, b), j)
    {
      if p :| Inside(lines, p) && Offset(lines, p) == j {
        InsertedIsTexts(lines, a, p);
        InsertedIsTexts(lines, b, p);
      } else {
        NowhereElse(lines, a, j);
        NowhereElse(lines, b, j);
      }
    }
  }

  // Insertions happen at offsets of positions only.
  lemma NowhereElse(lines: seq<string>, edits: seq<TextEdit>, j: nat)
    ensures (exists p :: Inside(lines, p) && Offset(lines, p) == j) || InsertedAt(Splices(lines, edits), j) == ""
  {
    var splices := Splices(lines, edits);
    if k :| 0 <= k < |splices| && splices[k].lo == j {
      SpliceOrigin(lines, edits, splices[k]);
      var e :| e in edits && Applicable(lines, e) && ToSplice(lines, e) == splices[k];
      assert Inside(lines, e.range.start) && Offset(lines, e.range.start) == j;
    } else {
      NothingInserted(splices, j);
    }
  }

  lemma SameTextsSameInsertions(lines: seq<string>, a: seq<TextEdit>, b: seq<TextEdit>)
    ensures SameTexts(lines, a, b) <==> SameInsertions(Splices(lines, a), Splices(lines, b), 0, |Join(lines)|)
  {
    hide Splices, Join, TextsAt, InsertedAt;
    if SameTexts(lines, a, b) {
      SameInsertionsFromTexts(lines, a, b, |Join(lines)|);
    }
    if SameInsertions(Splices(lines, a), Splices(lines, b), 0, |Join(lines)|) {
      SameTextsFromInsertions(lines, a, b);
    }
  }

  // The texts as the code leaves them, earliest position first.
  function CodeOrder(lines: seq<string>, edits: seq<TextEdit>): seq<TextEdit> {
    Reverse(Effective(lines, Sorted(edits)))
  }

  // What the code computes, for every list without overlap: one simultaneous edit,
  // whatever starts are shared and whatever characters are beyond their lines.
  lemma CodeIsOneEdit(content: string, edits: seq<TextEdit>)
    requires Disjoint(edits)
    ensures Join(ApplyAll(Split(content), Sorted(edits))) ==
            ResultOfApplicable(content, CodeOrder(Split(content), edits))
  {
    var lines, sorted := Split(content), Sorted(edits);
    SortIsDescendingPermutation(edits);
    SameEdits(edits, sorted);
    EffectiveApplies(lines, lines, Everywhere, sorted);
    EffectiveIsChain(lines, sorted);
    SplicingLinesIsOneEdit(content, Effective(lines, sorted));
  }

  // No edit of existing lines is skipped: each is within its lines, or overtaken by
  // insertions at its start.
  ghost predicate NoneSkipped(lines: seq<string>, sorted: seq<TextEdit>) {
    forall k :: 0 <= k < |sorted| && Placed(lines, sorted[k]) ==>
                  Applicable(lines, sorted[k]) || Overtaken(lines, sorted, k)
  }

  lemma NoOverhangNoneSkipped(lines: seq<string>, edits: seq<TextEdit>)
    requires NoOverhang(lines, edits)
    ensures NoneSkipped(lines, Sorted(edits))
  {
    var sorted := Sorted(edits);
    SortIsDescendingPermutation(edits);
    forall k | 0 <= k < |sorted| && Placed(lines, sorted[k])
      ensures Applicable(lines, sorted[k])
    {
      assert sorted[k] in multiset(edits);
    }
  }

  // The same, said of the run.
  ghost predicate AllDone(original: seq<string>, current: seq<string>, edits: seq<TextEdit>) {
    forall k :: 0 <= k < |edits| && Placed(original, edits[k]) ==> Applicable(ApplyAll(current, edits[..k]), edits[k])
  }

  lemma NoneSkippedInRun(lines: seq<string>, sorted: seq<TextEdit>)
    requires Orderly(sorted)
    ensures NoneSkipped(lines, sorted) <==> AllDone(lines, lines, sorted)
  {
    forall k | 0 <= k < |sorted|
      ensures Applicable(ApplyAll(lines, sorted[..k]), sorted[k]) <==>
              Applicable(lines, sorted[k]) || Overtaken(lines, sorted, k)
    {
      SkippedExactlyWhen(lines, sorted, k);
    }
  }

  lemma AllDoneRest(original: seq<string>, current: seq<string>, edits: seq<TextEdit>)
    requires edits != [] && AllDone(original, current, edits)
    ensures Placed(original, edits[0]) ==> Applicable(current, edits[0])
    ensures AllDone(original, ApplyEdit(current, edits[0]), edits[1..])
  {
    assert edits[..0] == [];
    forall k | 0 <= k < |edits[1..]| && Placed(original, edits[1..][k])
      ensures Applicable(ApplyAll(ApplyEdit(current, edits[0]), edits[1..][..k]), edits[1..][k])
    {
      assert edits[..k + 1] == [edits[0]] + edits[1..][..k];
      ApplyOne(current, edits[0], edits[1..][..k]);
      assert edits[k + 1] == edits[1..][k];
    }
  }

  lemma AllDoneCons(original: seq<string>, current: seq<string>, e: TextEdit, rest: seq<TextEdit>)
    requires AllDone(original, ApplyEdit(current, e), rest) && Applicable(current, e)
    ensures AllDone(original, current, [e] + rest)
  {
    var all := [e] + rest;
    forall k | 0 <= k < |all| && Placed(original, all[k])
      ensures Applicable(ApplyAll(current, all[..k]), all[k])
    {
      if k > 0 {
        assert all[..k] == [e] + rest[..k - 1];
        ApplyOne(current, e, rest[..k - 1]);
        assert all[k] == rest[k - 1];
      }
    }
  }

  // The code's splices of a sorted list, and those of LSP.
  function Worked(lines: seq<string>, sorted: seq<TextEdit>): seq<Splice> {
    Splices(lines, Effective(lines, sorted))
  }

  function Meant(lines: seq<string>, edits: seq<TextEdit>): seq<Splice> {
    Splices(lines, ClampedAll(lines, edits))
  }

  lemma NoneNoLonger(lines: seq<string>, i: nat)
    ensures NoLongerAt(Worked(lines, []), Meant(lines, []), i)
  {
  }

  // What the first edit adds to the meaning.
  lemma MeantFirst(lines: seq<string>, e: TextEdit, rest: seq<TextEdit>, i: nat)
    ensures var all, less := Meant(lines, [e] + rest), Meant(lines, rest);
            if Placed(lines, e) && WellFormed(e) then
              Applicable(lines, Clamped(lines, e)) && AddsFirst(all, less, ToSplice(lines, Clamped(lines, e)), i)
            else Placed(lines, e) || all == less
  {
    var c := Clamped(lines, e);
    assert ([e] + rest)[1..] == rest;
    FirstOf(lines, [c] + ClampedAll(lines, rest), i);
    assert ([c] + ClampedAll(lines, rest))[1..] == ClampedAll(lines, rest);
  }

  // The first list has one splice more, in front.
  ghost predicate AddsFirst(all: seq<Splice>, rest: seq<Splice>, f: Splice, i: nat) {
    && (Deleted(all, i) <==> f.lo <= i < f.hi || Deleted(rest, i))
    && |InsertedAt(all, i)| == (if f.lo == i then |f.text| else 0) + |InsertedAt(rest, i)|
  }

  // What the first edit of a list contributes at an offset.
  lemma FirstOf(lines: seq<string>, edits: seq<TextEdit>, i: nat)
    requires edits != []
    ensures var e, all, rest := edits[0], Splices(lines, edits), Splices(lines, edits[1..]);
            if Applicable(lines, e) then AddsFirst(all, rest, ToSplice(lines, e), i) else all == rest
  {
    var rest := Splices(lines, edits[1..]);
    if Applicable(lines, edits[0]) {
      var f := ToSplice(lines, edits[0]);
      assert Splices(lines, edits) == [f] + rest;
      assert ([f] + rest)[1..] == rest;
      DeletedCons(f, rest, i);
    } else {
      Regroup(rest, [], []);
    }
  }

  lemma SkippedNoLonger(lines: seq<string>, edits: seq<TextEdit>, i: nat)
    requires edits != [] && !Applicable(lines, edits[0]) && !Placed(lines, edits[0])
    requires NoLongerAt(Worked(lines, edits[1..]), Meant(lines, edits[1..]), i)
    ensures NoLongerAt(Worked(lines, edits), Meant(lines, edits), i)
  {
    MeantFirst(lines, edits[0], edits[1..], i);
    assert edits == [edits[0]] + edits[1..];
  }

  lemma LastNoLonger(lines: seq<string>, edits: seq<TextEdit>, i: nat)
    requires |edits| == 1 && Applicable(lines, edits[0])
    ensures NoLongerAt(Worked(lines, edits), Meant(lines, edits), i)
  {
    ClampedOne(lines, edits[0]);
    assert edits == [edits[0]];
  }

  lemma ClampedOne(lines: seq<string>, e: TextEdit)
    ensures ClampedAll(lines, [e]) == [Clamped(lines, e)]
  {
    assert [e][1..] == [];
  }

  lemma DrawnNoLonger(lines: seq<string>, edits: seq<TextEdit>, i: nat)
    requires |edits| >= 2 && Swallows(lines, edits[0], edits[1])
    requires var drawn := [Swallow(lines, edits[0], edits[1])] + edits[2..];
             NoLongerAt(Worked(lines, drawn), Meant(lines, drawn), i)
    ensures NoLongerAt(Worked(lines, edits), Meant(lines, edits), i)
  {
    var m := Swallow(lines, edits[0], edits[1]);
    MeantFirst(lines, m, edits[2..], i);
    MeantFirst(lines, edits[1], edits[2..], i);
    MeantFirst(lines, edits[0], [edits[1]] + edits[2..], i);
    assert edits == [edits[0]] + ([edits[1]] + edits[2..]);
    hide Meant, Splices, InsertedAt, Deleted, ToSplice, Swallow;
    assert Worked(lines, edits) == Worked(lines, [m] + edits[2..]);
  }

  lemma DroppedNoLonger(lines: seq<string>, edits: seq<TextEdit>, i: nat)
    requires |edits| >= 2 && Applicable(lines, edits[0]) && WellFormed(edits[0])
    requires InsertsBefore(edits[0], edits[1]) && !Swallows(lines, edits[0], edits[1]) && !Placed(lines, edits[1])
    requires var fewer := [edits[0]] + edits[2..];
             NoLongerAt(Worked(lines, fewer), Meant(lines, fewer), i)
    ensures NoLongerAt(Worked(lines, edits), Meant(lines, edits), i)
  {
    MeantFirst(lines, edits[0], edits[2..], i);
    MeantFirst(lines, edits[1], edits[2..], i);
    MeantFirst(lines, edits[0], [edits[1]] + edits[2..], i);
    assert edits == [edits[0]] + ([edits[1]] + edits[2..]);
    assert Worked(lines, edits) == Worked(lines, [edits[0]] + edits[2..]);
    hide Meant, Worked, Splices, InsertedAt, Deleted, ToSplice, Swallow, Effective;
  }

  lemma KeptNoLonger(lines: seq<string>, edits: seq<TextEdit>, i: nat)
    requires |edits| >= 2 && Applicable(lines, edits[0]) && WellFormed(edits[0])
    requires !InsertsBefore(edits[0], edits[1])
    requires NoLongerAt(Worked(lines, edits[1..]), Meant(lines, edits[1..]), i)
    ensures NoLongerAt(Worked(lines, edits), Meant(lines, edits), i)
  {
    var effective := [edits[0]] + Effective(lines, edits[1..]);
    MeantFirst(lines, edits[0], edits[1..], i);
    FirstOf(lines, effective, i);
    assert effective[1..] == Effective(lines, edits[1..]);
    assert edits == [edits[0]] + edits[1..];
  }

  // If nothing is skipped, the code deletes what LSP deletes, and never inserts more.
  lemma {:induction false} EffectiveNoLonger(
      original: seq<string>, current: seq<string>, b: Bound, edits: seq<TextEdit>, i: nat)
    requires Agree(original, current, b) && Reachable(b, edits) && Orderly(edits)
    requires AllDone(original, current, edits)
    ensures NoLongerAt(Worked(original, edits), Meant(original, edits), i)
    decreases |edits|
  {
    hide Agree, Swallow, ApplyEdit, Applicable, AllDone, Placed, NoLongerAt, Worked, Meant;
    if edits == [] {
      NoneNoLonger(original, i);
    } else {
      var e := edits[0];
      FirstSkipDecision(original, current, b, edits);
      AllDoneRest(original, current, edits);
      if !Applicable(original, e) {
        EffectiveNoLonger(original, current, b, edits[1..], i);
        SkippedNoLonger(original, edits, i);
      } else if |edits| == 1 {
        LastNoLonger(original, edits, i);
      } else {
        var f := edits[1];
        SecondWellFormed(edits);
        DrawnReachable(original, b, edits);
        AllDoneRest(original, ApplyEdit(current, e), edits[1..]);
        if InsertsBefore(e, f) {
          SameSwallow(original, current, b, e, f);
        }
        if Swallows(original, e, f) {
          var m := Swallow(original, e, f);
          DrawnTogether(original, edits);
          SwallowIsBoth(current, e, f);
          AllDoneCons(original, current, m, edits[2..]);
          EffectiveNoLonger(original, current, b, [m] + edits[2..], i);
          DrawnNoLonger(original, edits, i);
        } else if InsertsBefore(e, f) {
          NotSwallowed(current, e, f);
          SecondDropped(edits);
          AllDoneCons(original, current, e, edits[2..]);
          EffectiveNoLonger(original, current, b, [e] + edits[2..], i);
          DroppedNoLonger(original, edits, i);
        } else {
          RestIsBefore(edits);
          EffectiveNoLonger(original, ApplyEdit(current, e), UpTo(e.range.start), edits[1..], i);
          KeptNoLonger(original, edits, i);
        }
      }
    }
  }

  lemma CodeOrderNoLonger(lines: seq<string>, edits: seq<TextEdit>)
    requires Disjoint(edits) && NoneSkipped(lines, Sorted(edits))
    ensures NoLonger(Splices(lines, CodeOrder(lines, edits)), Meant(lines, edits))
  {
    var sorted := Sorted(edits);
    var effective := Effective(lines, sorted);
    SortIsDescendingPermutation(edits);
    SameEdits(edits, sorted);
    NoneSkippedInRun(lines, sorted);
    SplicesPermuted(lines, Reverse(effective), effective);
    ClampedPermuted(lines, sorted, edits);
    SplicesPermuted(lines, ClampedAll(lines, sorted), ClampedAll(lines, edits));
    PermutedNoLonger(Splices(lines, Reverse(effective)), Splices(lines, effective));
    PermutedNoLonger(Meant(lines, sorted), Meant(lines, edits));
    forall i: nat
      ensures NoLongerAt(Splices(lines, CodeOrder(lines, edits)), Meant(lines, edits), i)
    {
      EffectiveNoLonger(lines, lines, Everywhere, sorted, i);
      assert NoLongerAt(Splices(lines, Reverse(effective)), Splices(lines, effective), i);
      assert NoLongerAt(Meant(lines, sorted), Meant(lines, edits), i);
    }
  }

  // Distinct starts are one way to get the LSP meaning. The exact condition, for
  // every list of which nothing is skipped: at each position the texts that the
  // code leaves there are the texts of the list, in list order.
  lemma {:induction false} MeetsLspExactlyWhen(content: string, edits: seq<TextEdit>)
    requires Disjoint(edits) && NoneSkipped(Split(content), Sorted(edits))
    ensures Join(ApplyAll(Split(content), Sorted(edits))) == LspResult(content, edits) <==>
            SameTexts(Split(content), CodeOrder(Split(content), edits), ClampedAll(Split(content), edits))
  {
    var lines := Split(content);
    JoinUndoesSplit(content);
    CodeIsOneEdit(content, edits);
    CodeOrderNoLonger(lines, edits);
    var x, y := CodeOrder(lines, edits), ClampedAll(lines, edits);
    SameResultSameInsertions(content, Splices(lines, x), Splices(lines, y), 0);
    SameTextsSameInsertions(lines, x, y);
  }

  // ---------------------------------------------------------------- two edits that share a start

  lemma TextsOfOne(lines: seq<string>, e: TextEdit, q: Position)
    requires Applicable(lines, e)
    ensures TextsAt(lines, [e], q) == if e.range.start == q then e.newText else ""
  {
    assert [e][1..] == [];
  }

  lemma TextsOfTwo(lines: seq<string>, e: TextEdit, f: TextEdit, q: Position)
    requires Applicable(lines, e) && Applicable(lines, f) && e.range.start == f.range.start
    ensures TextsAt(lines, [e, f], q) == if e.range.start == q then e.newText + f.newText else ""
  {
    assert [e, f][1..] == [f];
    TextsOfOne(lines, f, q);
  }

  lemma TwoDrawnTogether(lines: seq<string>, e: TextEdit, f: TextEdit)
    requires Swallows(lines, e, f)
    ensures Disjoint([e, f]) && Sorted([e, f]) == [e, f] && NoneSkipped(lines, [e, f])
    ensures CodeOrder(lines, [e, f]) == [Swallow(lines, e, f)]
    ensures ClampedAll(lines, [e, f]) == [e, Clamped(lines, f)]
  {
    DescendingStaysAsItIs([e, f]);
    assert InsertedBefore([e, f], 1, f.range.start) == |e.newText|;
    EffectiveOfTwo(lines, e, f);
    ReverseOfOne(Swallow(lines, e, f));
    ClampedOne(lines, f);
    assert [e, f][1..] == [f];
    hide Swallow, Effective, Reverse;
  }

  lemma ReverseOfOne<T>(x: T)
    ensures Reverse([x]) == [x]
  {
    assert [x][1..] == [];
  }

  lemma EffectiveOfTwo(lines: seq<string>, e: TextEdit, f: TextEdit)
    requires Swallows(lines, e, f)
    ensures Effective(lines, [e, f]) == [Swallow(lines, e, f)]
  {
    var m := Swallow(lines, e, f);
    assert [m] + [e, f][2..] == [m];
    SwallowIsBoth(lines, e, f);
  }

  // An insertion listed in front of an edit at the same start, as LSP permits, even
  // one that ends beyond its line, as long as the insertion makes up for that. The
  // code keeps the texts apart only if what is left of the insertion, put behind
  // the other text, reads like the insertion put in front of it.
  lemma InsertionBeforeEdit(content: string, e: TextEdit, f: TextEdit)
    requires Swallows(Split(content), e, f)
    ensures Join(ApplyAll(Split(content), Sorted([e, f]))) == LspResult(content, [e, f]) <==>
            f.newText + LeftOver(Split(content), e.newText, f.range) == e.newText + f.newText
  {
    var lines := Split(content);
    var m, c := Swallow(lines, e, f), Clamped(lines, f);
    TwoDrawnTogether(lines, e, f);
    MeetsLspExactlyWhen(content, [e, f]);
    forall q
      ensures TextsAt(lines, [m], q) == if q == e.range.start then m.newText else ""
      ensures TextsAt(lines, [e, c], q) == if q == e.range.start then e.newText + f.newText else ""
    {
      TextsOfOne(lines, m, q);
      TextsOfTwo(lines, e, c, q);
    }
    assert TextsAt(lines, [m], e.range.start) == m.newText;
  }

  // Two insertions at one place come out in the wrong order: the sort leaves the
  // list alone and the second text ends up in front of the first.
  lemma TwoInsertionsSwapped(content: string, p: Position, s: string, t: string)
    requires Inside(Split(content), p)
    ensures var edits := [TextEdit(Range(p, p), s), TextEdit(Range(p, p), t)];
            Join(ApplyAll(Split(content), Sorted(edits))) == LspResult(content, edits) <==> t + s == s + t
  {
    var lines := Split(content);
    var first, second := TextEdit(Range(p, p), s), TextEdit(Range(p, p), t);
    assert s + lines[p.line][p.character..p.character] == s;
    InsertionBeforeEdit(content, first, second);
  }

  // Not so in front of a later edit, which on its way forward carries the one past
  // the other: then the two come out in list order.
  lemma TwoInsertionsBeforeALaterEdit(content: string, e: TextEdit, f: TextEdit, g: TextEdit)
    requires e.range.start == e.range.end && f.range == e.range && Inside(Split(content), e.range.start)
    requires Before(e.range.start, g.range.start) && WellFormed(g) && Applicable(Split(content), g)
    ensures Join(ApplyAll(Split(content), Sorted([e, f, g]))) == LspResult(content, [e, f, g])
  {
    var lines := Split(content);
    ThreeWithoutOverhang(lines, e, f, g);
    ThreeInListOrder(lines, e, f, g);
    hide *;
    NoOverhangNoneSkipped(lines, [e, f, g]);
    NothingToClamp(lines, [e, f, g]);
    MeetsLspExactlyWhen(content, [e, f, g]);
  }

  lemma ThreeWithoutOverhang(lines: seq<string>, e: TextEdit, f: TextEdit, g: TextEdit)
    requires e.range.start == e.range.end && f.range == e.range && Inside(lines, e.range.start)
    requires Before(e.range.start, g.range.start) && WellFormed(g) && Applicable(lines, g)
    ensures Disjoint([e, f, g]) && NoOverhang(lines, [e, f, g])
  {
  }

  lemma ThreeInListOrder(lines: seq<string>, e: TextEdit, f: TextEdit, g: TextEdit)
    requires e.range.start == e.range.end && f.range == e.range && Inside(lines, e.range.start)
    requires Before(e.range.start, g.range.start) && Applicable(lines, g)
    ensures SameTexts(lines, CodeOrder(lines, [e, f, g]), [e, f, g])
  {
    var m := TextEdit(e.range, e.newText + f.newText);
    CarriedPast(e, f, g);
    EffectiveOfThree(lines, e, f, g);
    ReverseTwo(g, m);
    hide Effective, Reverse, TextsAt, Sorted;
    forall q
      ensures TextsAt(lines, [m, g], q) == TextsAt(lines, [e, f, g], q)
    {
      TextsOfThree(lines, e, f, g, q);
    }
  }

  lemma ReverseTwo<T>(x: T, y: T)
    ensures Reverse([x, y]) == [y, x]
  {
    assert [x, y][1..] == [y];
    ReverseOfOne(y);
  }

  lemma EffectiveOfThree(lines: seq<string>, e: TextEdit, f: TextEdit, g: TextEdit)
    requires e.range.start == e.range.end && f.range == e.range && Inside(lines, e.range.start)
    requires Before(e.range.start, g.range.start) && Applicable(lines, g)
    ensures Effective(lines, [g, f, e]) == [g, TextEdit(e.range, e.newText + f.newText)]
  {
    var p := e.range.start;
    assert lines[p.line][p.character..p.character] == "" && f.newText + "" == f.newText;
    EffectiveOfTwo(lines, f, e);
    assert [g, f, e][1..] == [f, e];
    assert [g] + [TextEdit(e.range, e.newText + f.newText)] == [g, TextEdit(e.range, e.newText + f.newText)];
  }

  lemma TextsOfThree(lines: seq<string>, e: TextEdit, f: TextEdit, g: TextEdit, q: Position)
    requires Applicable(lines, e) && f.range == e.range
    ensures TextsAt(lines, [TextEdit(e.range, e.newText + f.newText), g], q) == TextsAt(lines, [e, f, g], q)
  {
    var m, last := TextEdit(e.range, e.newText + f.newText), TextsAt(lines, [g], q);
    assert [m, g][1..] == [g] && [e, f, g][1..] == [f, g] && [f, g][1..] == [g];
    Regroup(e.newText, f.newText, last);
    Regroup([], [], last);
  }

  // In front of a replacement that spans lines an insertion is lost, so only an
  // empty one does no harm.
  lemma InsertionBeforeLongReplacement(content: string, e: TextEdit, f: TextEdit)
    requires Swallows(Split(content), e, f) && f.range.start.line < f.range.end.line
    ensures Join(ApplyAll(Split(content), Sorted([e, f]))) == LspResult(content, [e, f]) <==> e.newText == ""
  {
    InsertionBeforeEdit(content, e, f);
    Regroup(f.newText, [], f.newText);
    assert |f.newText + ""| == |e.newText + f.newText| ==> e.newText == "";
  }

  lemma SplitOneLine(line: string)
    requires NEWLINE[0] !in line
    ensures Split(line) == [line]
  {
    SplitUndoesJoin([line]);
  }

  lemma TwoInsertionsCounterexample()
    ensures var p := Position(0, 0);
            var edits := [TextEdit(Range(p, p), "a"), TextEdit(Range(p, p), "b")];
            Join(ApplyAll(Split(""), Sorted(edits))) != LspResult("", edits)
  {
    TwoInsertionsSwapped("", Position(0, 0), "a", "b");
    assert ("b" + "a")[0] != ("a" + "b")[0];
  }

  // Insert "abc" behind "x" and delete the two characters that follow "x" there: the
  // deletion is beyond the line, and skipped on its own, but not after the insertion.
  lemma OvertakenCounterexample()
    ensures var e := TextEdit(Range(Position(0, 1), Position(0, 1)), "abc");
            var f := TextEdit(Range(Position(0, 1), Position(0, 3)), "");
            && Disjoint([e, f]) && Descending([e, f]) && Split("x") == ["x"]
            && !Applicable(["x"], f) && Applicable(ApplyEdit(["x"], e), f) && Overtaken(["x"], [e, f], 1)
            && ApplyAll(["x"], Sorted([e, f])) == ["xc"] && LspResult("x", [e, f]) != "xc"
  {
    var e := TextEdit(Range(Position(0, 1), Position(0, 1)), "abc");
    var f := TextEdit(Range(Position(0, 1), Position(0, 3)), "");
    SplitOneLine("x");
    assert InsertedBefore([e, f], 1, Position(0, 1)) == 3;
    OvertakenSplices(e, f);
    DescendingStaysAsItIs([e, f]);
    hide *;
    TwoDrawnTogether(["x"], e, f);
    InsertionBeforeEdit("x", e, f);
    JoinOne("xc");
  }

  lemma JoinOne(line: string)
    ensures Join([line]) == line
  {
  }

  lemma OvertakenSplices(e: TextEdit, f: TextEdit)
    requires e == TextEdit(Range(Position(0, 1), Position(0, 1)), "abc")
    requires f == TextEdit(Range(Position(0, 1), Position(0, 3)), "")
    ensures Swallows(["x"], e, f) && LeftOver(["x"], "abc", f.range) == "c"
    ensures ApplyAll(["x"], [e, f]) == ["xc"] && Applicable(ApplyEdit(["x"], e), f)
  {
    assert "x"[..1] == "x" && "x"[1..] == "" && "x"[1..1] == "" && "abc" + "" == "abc" && "abc"[2..] == "c";
    assert "x" + "abc" + "" == "xabc";
    assert ApplyEdit(["x"], e) == ["xabc"];
    assert "xabc"[..1] == "x" && "xabc"[3..] == "c" && "x" + "" + "c" == "xc";
    assert ApplyEdit(["xabc"], f) == ["xc"];
    ApplyTwo(["x"], [e, f]);
    assert [e, f][2..] == [];
  }

  // Insert "a" in front of "x" and replace "x" by "b": "bx" in place of "ab".
  lemma InsertionBeforeReplacementCounterexample()
    ensures var p, q := Position(0, 0), Position(0, 1);
            var edits := [TextEdit(Range(p, p), "a"), TextEdit(Range(p, q), "b")];
            Disjoint(edits) && Join(ApplyAll(Split("x"), Sorted(edits))) != LspResult("x", edits)
  {
    var p, q := Position(0, 0), Position(0, 1);
    var e, f := TextEdit(Range(p, p), "a"), TextEdit(Range(p, q), "b");
    SplitOneLine("x");
    assert "x"[0..1] == "x" && "a" + "x" == "ax" && "ax"[1..] == "x";
    TwoDrawnTogether(["x"], e, f);
    InsertionBeforeEdit("x", e, f);
    assert ("b" + "x")[0] != ("a" + "b")[0];
  }
}
