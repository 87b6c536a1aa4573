/**
 bridge/bridge.go: applyTextEditsToContent, on edits with a character beyond the
 end of its line. LSP 3.17 moves such a character to the end of the line; the code
 skips the edit.
 */
module Overhang {
  import opened Collections
  import opened TextLines
  import opened TextEdits
  import opened ExchangeSort
  import opened EditConformance

  // ---------------------------------------------------------------- the edits that the code applies

  function OnlyApplicable(lines: seq<string>, edits: seq<TextEdit>): seq<TextEdit> {
    if edits == [] then []
    else (if Applicable(lines, edits[0]) then [edits[0]] else []) + OnlyApplicable(lines, edits[1..])
  }

  lemma {:induction false} OnlyApplicableMembers(lines: seq<string>, edits: seq<TextEdit>)
    ensures forall e :: e in OnlyApplicable(lines, edits) <==> e in edits && Applicable(lines, e)
  {
    if edits != [] {
      OnlyApplicableMembers(lines, edits[1..]);
      assert forall e :: e in edits <==> e == edits[0] || e in edits[1..];
    }
  }

  lemma {:induction false} OnlyApplicableSplices(lines: seq<string>, edits: seq<TextEdit>)
    ensures Splices(lines, OnlyApplicable(lines, edits)) == Splices(lines, edits)
  {
    if edits != [] {
      var rest := OnlyApplicable(lines, edits[1..]);
      OnlyApplicableSplices(lines, edits[1..]);
      if Applicable(lines, edits[0]) {
        assert ([edits[0]] + rest)[1..] == rest;
      } else {
        Regroup(rest, [], rest);
      }
    }
  }

  // With distinct starts the applicable edits are all that the code makes of a list.
  // That is the LSP meaning of those edits alone.
  lemma ApplicableEditsMeanTheirResult(content: string, edits: seq<TextEdit>)
    ensures ResultOfApplicable(content, edits) == LspResult(content, OnlyApplicable(Split(content), edits))
  {
    var lines := Split(content);
    OnlyApplicableMembers(lines, edits);
    var applicable := OnlyApplicable(lines, edits);
    assert forall i :: 0 <= i < |applicable| ==> applicable[i] in applicable;
    NothingToClamp(lines, applicable);
    OnlyApplicableSplices(lines, edits);
  }

  lemma ClampedIsWellFormed(lines: seq<string>, e: TextEdit)
    requires WellFormed(e) && Placed(lines, e)
    ensures WellFormed(Clamped(lines, e)) && Applicable(lines, Clamped(lines, e))
  {
  }

  // The text that LSP reads at the range of an edit.
  ghost function OldText(content: string, e: TextEdit): string
    requires WellFormed(e) && Placed(Split(content), e)
  {
    var lines, r := Split(content), Clamped(Split(content), e).range;
    JoinUndoesSplit(content);
    ClampedIsWellFormed(lines, e);
    OffsetOrder(lines, r.start, r.end);
    CutAt(lines, r.end);
    content[Offset(lines, r.start)..Offset(lines, r.end)]
  }

  // LSP moves a character beyond the line to the end of the line; the code skips
  // the edit. So one edit has its LSP meaning if and only if it is applicable, or
  // names lines that do not exist, or changes nothing.
  lemma OneEditMeetsLspExactlyWhen(content: string, e: TextEdit)
    requires WellFormed(e)
    ensures Join(ApplyAll(Split(content), Sorted([e]))) == LspResult(content, [e]) <==>
            !Placed(Split(content), e) || Applicable(Split(content), e) || OldText(content, e) == e.newText
  {
    var lines, c := Split(content), Clamped(Split(content), e);
    hide Split, Join, ApplyAll, ClampedAll, ResultOfApplicable, Offset;
    JoinUndoesSplit(content);
    OneEdit(content, e);
    OneEdit(content, c);
    ClampedOne(lines, e);
    assert Sorted([e]) == [e];
    if Placed(lines, e) && !Applicable(lines, e) {
      ClampedIsWellFormed(lines, e);
      OneEditIsOneSplice(lines, c);
      OffsetOrder(lines, c.range.start, c.range.end);
      NothingChanged(content, Offset(lines, c.range.start), Offset(lines, c.range.end), e.newText);
    }
  }

  lemma NothingChanged(s: string, lo: nat, hi: nat, t: string)
    requires lo <= hi <= |s|
    ensures s == s[..lo] + t + s[hi..] <==> s[lo..hi] == t
  {
    assert s == s[..lo] + s[lo..hi] + s[hi..];
    if s == s[..lo] + t + s[hi..] {
      assert |t| == hi - lo;
      assert s[lo..hi] == (s[..lo] + t + s[hi..])[lo..hi] == t;
    }
  }

  lemma OneEdit(content: string, e: TextEdit)
    requires WellFormed(e)
    ensures Join(ApplyEdit(Split(content), e)) == ResultOfApplicable(content, [e])
    ensures ApplyAll(Split(content), [e]) == ApplyEdit(Split(content), e)
  {
    var lines := Split(content);
    assert [e][1..] == [];
    assert ApplyAll(lines, [e]) == ApplyAll(ApplyEdit(lines, e), []) == ApplyEdit(lines, e);
    assert Reverse([e]) == [e];
    SplicingLinesIsOneEdit(content, [e]);
  }

  lemma AppendedToX()
    ensures ApplyEdit(["x"], TextEdit(Range(Position(0, 1), Position(0, 1)), "a")) == ["xa"]
  {
    assert "x"[..1] == "x" && "x"[1..] == "" && "x" + "a" + "" == "xa";
  }

  // Insert "a" at character 5 of the document "x": nothing, where LSP appends it.
  lemma OverhangCounterexample()
    ensures var p := Position(0, 5);
            var edits := [TextEdit(Range(p, p), "a")];
            Legal(edits) && Join(ApplyAll(Split("x"), Sorted(edits))) == "x" && LspResult("x", edits) == "xa"
  {
    var p := Position(0, 5);
    var e := TextEdit(Range(p, p), "a");
    assert Sorted([e]) == [e];
    SplitOneLine("x");
    var c := Clamped(["x"], e);
    OneEdit("x", e);
    OneEdit("x", c);
    AppendedToX();
    assert [e][1..] == [];
    assert ClampedAll(["x"], [e]) == [c];
  }

  // ---------------------------------------------------------------- one splice more

  // The first list has one splice more than the second, which leaves its range alone.
  ghost predicate Adds(more: seq<Splice>, rest: seq<Splice>, f: Splice) {
    && f.lo <= f.hi
    && (forall i: nat :: Deleted(more, i) <==> f.lo <= i < f.hi || Deleted(rest, i))
    && (forall i: nat :: i != f.lo ==> InsertedAt(more, i) == InsertedAt(rest, i))
    && (forall i: nat :: f.lo <= i < f.hi ==> !Deleted(rest, i))
    && (forall i: nat :: f.lo < i < f.hi ==> InsertedAt(rest, i) == "")
  }

  lemma Elsewhere(s: string, f: Splice, more: seq<Splice>, rest: seq<Splice>, i: nat)
    requires Adds(more, rest, f) && (i < f.lo || (f.hi <= i && f.lo < i))
    ensures Contribution(s, more, i) == Contribution(s, rest, i)
  {
  }

  // Behind f the two contribute the same.
  lemma {:induction false} SameFromOn(s: string, f: Splice, more: seq<Splice>, rest: seq<Splice>, i: nat)
    requires Adds(more, rest, f) && f.lo < i <= |s| && f.hi <= i
    ensures SpliceFrom(s, more, i) == SpliceFrom(s, rest, i)
    decreases |s| - i
  {
    hide *;
    Elsewhere(s, f, more, rest, i);
    if i < |s| {
      Unroll(s, more, i);
      Unroll(s, rest, i);
      SameFromOn(s, f, more, rest, i + 1);
    } else {
      AtEnd(s, more);
      AtEnd(s, rest);
    }
  }

  // And in front of it.
  lemma {:induction false} SameUpTo(s: string, f: Splice, more: seq<Splice>, rest: seq<Splice>, i: nat)
    requires Adds(more, rest, f) && i <= f.lo <= |s|
    ensures SpliceFrom(s, more, i) == SpliceFrom(s, rest, i) <==>
            SpliceFrom(s, more, f.lo) == SpliceFrom(s, rest, f.lo)
    decreases f.lo - i
  {
    hide *;
    if i < f.lo {
      SameUpTo(s, f, more, rest, i + 1);
      Elsewhere(s, f, more, rest, i);
      Unroll(s, more, i);
      Unroll(s, rest, i);
      SameFront(Contribution(s, rest, i), SpliceFrom(s, more, i + 1), SpliceFrom(s, rest, i + 1));
    }
  }

  lemma Within(s: string, f: Splice, more: seq<Splice>, rest: seq<Splice>, i: nat)
    requires Adds(more, rest, f) && f.lo < i < f.hi <= |s|
    ensures Contribution(s, more, i) == "" && Contribution(s, rest, i) == [s[i]]
  {
  }

  // Inside f the one contributes nothing and the other the original text.
  lemma {:induction false} Across(s: string, f: Splice, more: seq<Splice>, rest: seq<Splice>, i: nat)
    requires Adds(more, rest, f) && f.lo < i <= f.hi <= |s|
    ensures SpliceFrom(s, more, i) == SpliceFrom(s, rest, f.hi)
    ensures SpliceFrom(s, rest, i) == s[i..f.hi] + SpliceFrom(s, rest, f.hi)
    decreases f.hi - i
  {
    hide *;
    if i == f.hi {
      SameFromOn(s, f, more, rest, i);
      assert s[i..f.hi] == "";
    } else {
      Within(s, f, more, rest, i);
      Unroll(s, more, i);
      Unroll(s, rest, i);
      Across(s, f, more, rest, i + 1);
      FirstCharacter(s, i, f.hi, SpliceFrom(s, rest, f.hi));
    }
  }

  // At its place, the texts inserted there are followed by the same; without it,
  // the old text comes in between.
  lemma AtItsPlace(s: string, f: Splice, more: seq<Splice>, rest: seq<Splice>) returns (tail: string)
    requires Adds(more, rest, f) && f.hi <= |s|
    ensures SpliceFrom(s, more, f.lo) == InsertedAt(more, f.lo) + tail
    ensures SpliceFrom(s, rest, f.lo) == InsertedAt(rest, f.lo) + (s[f.lo..f.hi] + tail)
  {
    if f.lo < f.hi {
      ReplacedWith(s, f, more, rest);
      ReplacedWithout(s, f, more, rest);
      tail := SpliceFrom(s, rest, f.hi);
    } else {
      tail := InsertedHere(s, f, more, rest);
      NoCharacters(s, f.lo, tail);
    }
  }

  lemma AddsAt(more: seq<Splice>, rest: seq<Splice>, f: Splice)
    requires Adds(more, rest, f)
    ensures f.lo < f.hi ==> Deleted(more, f.lo) && !Deleted(rest, f.lo)
    ensures f.lo == f.hi ==> (Deleted(more, f.lo) <==> Deleted(rest, f.lo))
    ensures f.lo <= f.hi
  {
  }

  lemma ReplacedWith(s: string, f: Splice, more: seq<Splice>, rest: seq<Splice>)
    requires Adds(more, rest, f) && f.lo < f.hi <= |s|
    ensures SpliceFrom(s, more, f.lo) == InsertedAt(more, f.lo) + SpliceFrom(s, rest, f.hi)
  {
    hide *;
    AddsAt(more, rest, f);
    DeletedPiece(s, more, f.lo);
    Across(s, f, more, rest, f.lo + 1);
  }

  lemma ReplacedWithout(s: string, f: Splice, more: seq<Splice>, rest: seq<Splice>)
    requires Adds(more, rest, f) && f.lo < f.hi <= |s|
    ensures SpliceFrom(s, rest, f.lo) == InsertedAt(rest, f.lo) + (s[f.lo..f.hi] + SpliceFrom(s, rest, f.hi))
  {
    hide *;
    AddsAt(more, rest, f);
    OldTextFrom(s, f, more, rest);
    FirstPiece(s, rest, f.lo, [s[f.lo]]);
  }

  lemma OldTextFrom(s: string, f: Splice, more: seq<Splice>, rest: seq<Splice>)
    requires Adds(more, rest, f) && f.lo < f.hi <= |s|
    ensures [s[f.lo]] + SpliceFrom(s, rest, f.lo + 1) == s[f.lo..f.hi] + SpliceFrom(s, rest, f.hi)
  {
    hide *;
    Across(s, f, more, rest, f.lo + 1);
    FirstCharacter(s, f.lo, f.hi, SpliceFrom(s, rest, f.hi));
  }

  lemma DeletedPiece(s: string, splices: seq<Splice>, i: nat)
    requires i < |s| && Deleted(splices, i)
    ensures SpliceFrom(s, splices, i) == InsertedAt(splices, i) + SpliceFrom(s, splices, i + 1)
  {
    FirstPiece(s, splices, i, "");
    Regroup([], [], SpliceFrom(s, splices, i + 1));
  }

  lemma FirstCharacter(s: string, lo: nat, hi: nat, tail: string)
    requires lo < hi <= |s|
    ensures [s[lo]] + (s[lo + 1..hi] + tail) == s[lo..hi] + tail
  {
    assert s[lo..hi] == [s[lo]] + s[lo + 1..hi];
  }

  lemma InsertedHere(s: string, f: Splice, more: seq<Splice>, rest: seq<Splice>) returns (tail: string)
    requires Adds(more, rest, f) && f.lo == f.hi <= |s|
    ensures SpliceFrom(s, more, f.lo) == InsertedAt(more, f.lo) + tail
    ensures SpliceFrom(s, rest, f.lo) == InsertedAt(rest, f.lo) + tail
  {
    hide *;
    if f.lo < |s| {
      var kept := if Deleted(rest, f.lo) then "" else [s[f.lo]];
      AddsAt(more, rest, f);
      SameFromOn(s, f, more, rest, f.lo + 1);
      FirstPiece(s, more, f.lo, kept);
      FirstPiece(s, rest, f.lo, kept);
      tail := kept + SpliceFrom(s, rest, f.lo + 1);
    } else {
      InsertedLast(s, more);
      InsertedLast(s, rest);
      tail := "";
    }
  }

  lemma InsertedLast(s: string, splices: seq<Splice>)
    ensures SpliceFrom(s, splices, |s|) == InsertedAt(splices, |s|) + ""
  {
  }

  lemma NoCharacters(s: string, i: nat, tail: string)
    requires i <= |s|
    ensures s[i..i] + tail == tail && tail + "" == tail
  {
  }

  // A splice makes no difference if and only if the texts inserted at its place
  // are those inserted there without it, followed by the text it replaces.
  lemma OneSpliceMore(s: string, f: Splice, more: seq<Splice>, rest: seq<Splice>)
    requires Adds(more, rest, f) && f.hi <= |s|
    ensures SpliceFrom(s, more, 0) == SpliceFrom(s, rest, 0) <==>
            InsertedAt(more, f.lo) == InsertedAt(rest, f.lo) + s[f.lo..f.hi]
  {
    hide *;
    AddsAt(more, rest, f);
    SameUpTo(s, f, more, rest, 0);
    var tail := AtItsPlace(s, f, more, rest);
    Regroup(InsertedAt(rest, f.lo), s[f.lo..f.hi], tail);
    SameBack(InsertedAt(more, f.lo), InsertedAt(rest, f.lo) + s[f.lo..f.hi], tail);
  }

  lemma SameFront(a: string, x: string, y: string)
    ensures a + x == a + y <==> x == y
  {
    assert x == (a + x)[|a|..] && y == (a + y)[|a|..];
  }

  lemma SameBack(x: string, y: string, b: string)
    ensures x + b == y + b <==> x == y
  {
    assert |x| == |y| ==> x == (x + b)[..|x|] && y == (y + b)[..|y|];
  }

  // ---------------------------------------------------------------- one overhanging edit in a list

  // The other edits that apply do not overlap this one.
  ghost predicate KeepsClear(lines: seq<string>, others: seq<TextEdit>, c: TextEdit) {
    forall i :: 0 <= i < |others| && Applicable(lines, others[i]) ==> WellFormed(others[i]) && Apart(others[i], c)
  }

  lemma ClearSplices(lines: seq<string>, others: seq<TextEdit>, c: TextEdit, g: Splice)
    requires KeepsClear(lines, others, c) && Applicable(lines, c) && g in Splices(lines, others)
    ensures g.lo <= g.hi && (g.hi <= ToSplice(lines, c).lo || ToSplice(lines, c).hi <= g.lo)
  {
    SpliceOrigin(lines, others, g);
    var e :| e in others && Applicable(lines, e) && ToSplice(lines, e) == g;
    OffsetOrder(lines, e.range.start, e.range.end);
    OffsetOrder(lines, e.range.end, c.range.start);
    OffsetOrder(lines, c.range.end, e.range.start);
  }

  lemma DeletedConcat(a: seq<Splice>, b: seq<Splice>, i: nat)
    ensures Deleted(a + b, i) <==> Deleted(a, i) || Deleted(b, i)
  {
    var c := a + b;
    if Deleted(a, i) {
      var k :| 0 <= k < |a| && a[k].lo <= i < a[k].hi;
      assert c[k] == a[k];
    }
    if Deleted(b, i) {
      var k :| 0 <= k < |b| && b[k].lo <= i < b[k].hi;
      assert c[|a| + k] == b[k];
    }
  }

  lemma InsertedOne(f: Splice, i: nat)
    ensures InsertedAt([f], i) == if f.lo == i then f.text else ""
    ensures Deleted([f], i) <==> f.lo <= i < f.hi
  {
    assert [f][1..] == [] && [f][0] == f;
  }

  // One splice in the middle of a list.
  lemma AddsInTheMiddle(a: seq<Splice>, f: Splice, b: seq<Splice>, i: nat)
    ensures Deleted(a + [f] + b, i) <==> f.lo <= i < f.hi || Deleted(a + b, i)
    ensures i != f.lo ==> InsertedAt(a + [f] + b, i) == InsertedAt(a + b, i)
  {
    DeletedConcat(a + [f], b, i);
    DeletedConcat(a, [f], i);
    DeletedConcat(a, b, i);
    InsertedConcat(a + [f], b, i);
    InsertedConcat(a, [f], i);
    InsertedConcat(a, b, i);
    InsertedOne(f, i);
  }

  lemma AddsClamped(lines: seq<string>, a: seq<TextEdit>, c: TextEdit, b: seq<TextEdit>)
    requires Applicable(lines, c) && WellFormed(c) && KeepsClear(lines, a + b, c)
    ensures Adds(Splices(lines, a + [c] + b), Splices(lines, a + b), ToSplice(lines, c))
  {
    var f, x, y := ToSplice(lines, c), Splices(lines, a), Splices(lines, b);
    OffsetOrder(lines, c.range.start, c.range.end);
    SplicesConcat(lines, a + [c], b);
    SplicesConcat(lines, a, [c]);
    SplicesConcat(lines, a, b);
    assert [c][1..] == [];
    assert Splices(lines, [c]) == [f];
    forall i: nat
      ensures Deleted(x + [f] + y, i) <==> f.lo <= i < f.hi || Deleted(x + y, i)
      ensures i != f.lo ==> InsertedAt(x + [f] + y, i) == InsertedAt(x + y, i)
    {
      AddsInTheMiddle(x, f, y, i);
    }
    forall i: nat | f.lo <= i < f.hi
      ensures !Deleted(x + y, i) && (f.lo < i ==> InsertedAt(x + y, i) == "")
    {
      NothingWithin(lines, a + b, c, i);
    }
  }

  lemma NothingWithin(lines: seq<string>, others: seq<TextEdit>, c: TextEdit, i: nat)
    requires KeepsClear(lines, others, c) && Applicable(lines, c)
    requires ToSplice(lines, c).lo <= i < ToSplice(lines, c).hi
    ensures !Deleted(Splices(lines, others), i)
    ensures ToSplice(lines, c).lo < i ==> InsertedAt(Splices(lines, others), i) == ""
  {
    var f, splices := ToSplice(lines, c), Splices(lines, others);
    forall k | 0 <= k < |splices|
      ensures !(splices[k].lo <= i < splices[k].hi) && (f.lo < i ==> splices[k].lo != i)
    {
      ClearSplices(lines, others, c, splices[k]);
    }
    if f.lo < i {
      NothingInserted(splices, i);
    }
  }

  // An edit that is skipped, and the same edit with its characters moved: the list
  // means the same if and only if the texts at its place agree.
  lemma MovingOneEdit(content: string, a: seq<TextEdit>, e: TextEdit, b: seq<TextEdit>)
    requires WellFormed(e) && Placed(Split(content), e) && !Applicable(Split(content), e)
    requires KeepsClear(Split(content), a + b, Clamped(Split(content), e))
    ensures var lines, c := Split(content), Clamped(Split(content), e);
            ResultOfApplicable(content, a + [c] + b) == ResultOfApplicable(content, a + [e] + b) <==>
            TextsAt(lines, a + [c] + b, c.range.start) ==
            TextsAt(lines, a + [e] + b, c.range.start) + OldText(content, e)
  {
    var lines, c := Split(content), Clamped(Split(content), e);
    JoinUndoesSplit(content);
    ClampedIsWellFormed(lines, e);
    AddsClamped(lines, a, c, b);
    SkippedInTheMiddle(lines, a, e, b);
    CutAt(lines, c.range.end);
    InsertedIsTexts(lines, a + [c] + b, c.range.start);
    InsertedIsTexts(lines, a + [e] + b, c.range.start);
    OneSpliceMore(content, ToSplice(lines, c), Splices(lines, a + [c] + b), Splices(lines, a + b));
  }

  lemma SkippedInTheMiddle(lines: seq<string>, a: seq<TextEdit>, e: TextEdit, b: seq<TextEdit>)
    requires !Applicable(lines, e)
    ensures Splices(lines, a + [e] + b) == Splices(lines, a + b)
  {
    SplicesConcat(lines, a + [e], b);
    SplicesConcat(lines, a, [e]);
    SplicesConcat(lines, a, b);
    assert [e][1..] == [];
    assert Splices(lines, [e]) == [];
    Regroup(Splices(lines, a), [], Splices(lines, b));
  }

  // ---------------------------------------------------------------- clamping a list

  lemma {:induction false} ClampedAt(lines: seq<string>, edits: seq<TextEdit>)
    ensures forall i :: 0 <= i < |edits| ==> ClampedAll(lines, edits)[i] == Clamped(lines, edits[i])
  {
    if edits != [] {
      ClampedAt(lines, edits[1..]);
    }
  }

  // Moving characters onto their lines makes no ranges overlap.
  lemma ClampedStaysDisjoint(lines: seq<string>, edits: seq<TextEdit>)
    requires Disjoint(edits)
    ensures Disjoint(ClampedAll(lines, edits))
  {
    ClampedAt(lines, edits);
    var clamped := ClampedAll(lines, edits);
    forall i, j | 0 <= i < j < |clamped|
      ensures Apart(clamped[i], clamped[j])
    {
      assert Apart(edits[i], edits[j]) && WellFormed(edits[i]) && WellFormed(edits[j]);
      ClampedStaysApart(lines, edits[i], edits[j]);
    }
  }

  lemma ClampedStaysApart(lines: seq<string>, e: TextEdit, f: TextEdit)
    requires WellFormed(e) && WellFormed(f) && Apart(e, f)
    ensures Apart(Clamped(lines, e), Clamped(lines, f))
  {
  }

  // The first n edits with their characters moved, the others as they are.
  function Partly(lines: seq<string>, edits: seq<TextEdit>, n: nat): seq<TextEdit>
    requires n <= |edits|
  {
    ClampedAll(lines, edits[..n]) + edits[n..]
  }

  lemma PartlyAt(lines: seq<string>, edits: seq<TextEdit>, n: nat)
    requires n < |edits|
    ensures var a, b := ClampedAll(lines, edits[..n]), edits[n + 1..];
            && Partly(lines, edits, n) == a + [edits[n]] + b
            && Partly(lines, edits, n + 1) == a + [Clamped(lines, edits[n])] + b
  {
    assert edits[..n + 1] == edits[..n] + [edits[n]];
    ClampedConcat(lines, edits[..n], [edits[n]]);
    ClampedOne(lines, edits[n]);
    assert edits[n..] == [edits[n]] + edits[n + 1..];
  }

  lemma PartlyEnds(lines: seq<string>, edits: seq<TextEdit>)
    ensures Partly(lines, edits, 0) == edits && Partly(lines, edits, |edits|) == ClampedAll(lines, edits)
  {
    assert edits[..0] == [] && edits[..|edits|] == edits && edits[|edits|..] == [];
  }

  // Every applicable edit of such a list, other than the n-th, is a moved one.
  lemma OtherOrigin(lines: seq<string>, edits: seq<TextEdit>, n: nat, i: nat) returns (k: nat)
    requires n < |edits| && i < |edits| - 1
    requires Applicable(lines, (ClampedAll(lines, edits[..n]) + edits[n + 1..])[i])
    ensures k < |edits| && k != n
    ensures (ClampedAll(lines, edits[..n]) + edits[n + 1..])[i] == Clamped(lines, edits[k])
  {
    ClampedAt(lines, edits[..n]);
    k := if i < n then i else i + 1;
  }

  lemma OthersKeepClear(lines: seq<string>, edits: seq<TextEdit>, n: nat)
    requires Disjoint(edits) && n < |edits|
    ensures KeepsClear(lines, ClampedAll(lines, edits[..n]) + edits[n + 1..], Clamped(lines, edits[n]))
  {
    ClampedAt(lines, edits[..n]);
    ClampedAt(lines, edits);
    ClampedStaysDisjoint(lines, edits);
    var others, clamped := ClampedAll(lines, edits[..n]) + edits[n + 1..], ClampedAll(lines, edits);
    forall i | 0 <= i < |others| && Applicable(lines, others[i])
      ensures WellFormed(others[i]) && Apart(others[i], Clamped(lines, edits[n]))
    {
      var k := OtherOrigin(lines, edits, n, i);
      assert others[i] == clamped[k] && WellFormed(clamped[k]) && clamped[n] == Clamped(lines, edits[n]);
      assert if k < n then Apart(clamped[k], clamped[n]) else Apart(clamped[n], clamped[k]);
    }
  }

  // ---------------------------------------------------------------- the results

  // A legal list with one overhanging edit has its LSP meaning if and only if, where
  // LSP puts that edit, the texts of the list are those that the code leaves there
  // followed by the old text. Unless the edit is moved onto the start of another,
  // that is: if and only if it replaces a text by itself.
  lemma OneOverhangMeetsLspExactlyWhen(content: string, edits: seq<TextEdit>, k: nat)
    requires Legal(edits)
    requires k < |edits| && Placed(Split(content), edits[k]) && !Applicable(Split(content), edits[k])
    requires NoOverhang(Split(content), edits[..k] + edits[k + 1..])
    ensures WellFormed(edits[k])
    ensures var lines, p := Split(content), Clamped(Split(content), edits[k]).range.start;
            Join(ApplyAll(lines, Sorted(edits))) == LspResult(content, edits) <==>
            TextsAt(lines, ClampedAll(lines, edits), p) == TextsAt(lines, edits, p) + OldText(content, edits[k])
    ensures DistinctStarts(ClampedAll(Split(content), edits)) ==>
              (Join(ApplyAll(Split(content), Sorted(edits))) == LspResult(content, edits) <==>
               OldText(content, edits[k]) == edits[k].newText)
  {
    var lines := Split(content);
    OnlyOneMoves(lines, edits, k);
    CodeOfLegal(content, edits);
    MovingNext(content, edits, k);
    if DistinctStarts(ClampedAll(lines, edits)) {
      TextsWhereMoved(lines, edits, k);
    }
  }

  lemma CodeOfLegal(content: string, edits: seq<TextEdit>)
    requires Legal(edits)
    ensures Join(ApplyAll(Split(content), Sorted(edits))) == ResultOfApplicable(content, edits)
  {
    SortIsDescendingPermutation(edits);
    SortedSplicingIsLspEdit(content, edits, Sorted(edits));
  }

  lemma OnlyOneMoves(lines: seq<string>, edits: seq<TextEdit>, k: nat)
    requires k < |edits| && NoOverhang(lines, edits[..k] + edits[k + 1..])
    ensures Partly(lines, edits, k) == edits && Partly(lines, edits, k + 1) == ClampedAll(lines, edits)
  {
    var front, back := edits[..k], edits[k + 1..];
    NoOverhangParts(lines, front, back);
    NothingToClamp(lines, front);
    NothingToClamp(lines, back);
    ClampedConcat(lines, edits[..k + 1], back);
    Halves(edits, k);
    Halves(edits, k + 1);
    hide ClampedAll, NoOverhang;
  }

  lemma Halves<T>(s: seq<T>, k: nat)
    requires k <= |s|
    ensures s[..k] + s[k..] == s
  {
  }

  lemma NoOverhangParts(lines: seq<string>, a: seq<TextEdit>, b: seq<TextEdit>)
    requires NoOverhang(lines, a + b)
    ensures NoOverhang(lines, a) && NoOverhang(lines, b)
  {
    assert forall i :: 0 <= i < |a| ==> (a + b)[i] == a[i];
    assert forall i :: 0 <= i < |b| ==> (a + b)[|a| + i] == b[i];
  }

  // The texts where one edit is moved to, before and after, if it starts alone there.
  lemma TextsWhereMoved(lines: seq<string>, edits: seq<TextEdit>, n: nat)
    requires Disjoint(edits) && n < |edits| && DistinctStarts(ClampedAll(lines, edits))
    requires Placed(lines, edits[n]) && !Applicable(lines, edits[n])
    ensures var p := Clamped(lines, edits[n]).range.start;
            && TextsAt(lines, Partly(lines, edits, n + 1), p) == edits[n].newText
            && TextsAt(lines, Partly(lines, edits, n), p) == ""
  {
    var c, e := Clamped(lines, edits[n]), edits[n];
    var a, b := ClampedAll(lines, edits[..n]), edits[n + 1..];
    assert WellFormed(e);
    ClampedIsWellFormed(lines, e);
    PartlyAt(lines, edits, n);
    NoneStartsThere(lines, edits, n);
    hide *;
    TextsInTheMiddle(lines, a, e, b, c.range.start);
    TextsInTheMiddle(lines, a, c, b, c.range.start);
  }

  // Where only one edit of a list may start.
  lemma TextsInTheMiddle(lines: seq<string>, a: seq<TextEdit>, e: TextEdit, b: seq<TextEdit>, p: Position)
    requires TextsAt(lines, a, p) == "" && TextsAt(lines, b, p) == ""
    ensures TextsAt(lines, a + [e] + b, p) == if Applicable(lines, e) && e.range.start == p then e.newText else ""
  {
    TextsConcat(lines, a + [e], b, p);
    TextsConcat(lines, a, [e], p);
    assert [e][1..] == [];
  }

  lemma NoneStartsThere(lines: seq<string>, edits: seq<TextEdit>, n: nat)
    requires n < |edits| && DistinctStarts(ClampedAll(lines, edits))
    ensures TextsAt(lines, ClampedAll(lines, edits[..n]), Clamped(lines, edits[n]).range.start) == ""
    ensures TextsAt(lines, edits[n + 1..], Clamped(lines, edits[n]).range.start) == ""
  {
    var p, clamped := Clamped(lines, edits[n]).range.start, ClampedAll(lines, edits);
    ClampedAt(lines, edits);
    ClampedAt(lines, edits[..n]);
    forall i | 0 <= i < n
      ensures ClampedAll(lines, edits[..n])[i].range.start != p
    {
      assert clamped[i].range.start != clamped[n].range.start;
    }
    NoTextsThere(lines, ClampedAll(lines, edits[..n]), p);
    var back := edits[n + 1..];
    forall i | 0 <= i < |back| && Applicable(lines, back[i])
      ensures back[i].range.start != p
    {
      assert clamped[n + 1 + i] == Clamped(lines, edits[n + 1 + i]) == back[i];
      assert clamped[n].range.start != clamped[n + 1 + i].range.start;
    }
    NoTextsThere(lines, back, p);
  }

  lemma {:induction false} NoTextsThere(lines: seq<string>, edits: seq<TextEdit>, p: Position)
    requires forall i :: 0 <= i < |edits| && Applicable(lines, edits[i]) ==> edits[i].range.start != p
    ensures TextsAt(lines, edits, p) == ""
  {
    if edits != [] {
      NoTextsThere(lines, edits[1..], p);
    }
  }

  lemma {:induction false} TextsConcat(lines: seq<string>, a: seq<TextEdit>, b: seq<TextEdit>, p: Position)
    ensures TextsAt(lines, a + b, p) == TextsAt(lines, a, p) + TextsAt(lines, b, p)
  {
    if a == [] {
      assert a + b == b;
    } else {
      assert (a + b)[1..] == a[1..] + b;
      TextsConcat(lines, a[1..], b, p);
    }
  }

  // Any number of overhanging edits: if each replaces a text by itself, and is not
  // moved onto the start of another edit, the list has its LSP meaning.
  lemma OverhangsThatChangeNothing(content: string, edits: seq<TextEdit>)
    requires Legal(edits) && DistinctStarts(ClampedAll(Split(content), edits))
    requires forall k ::
               0 <= k < |edits| && Placed(Split(content), edits[k]) && !Applicable(Split(content), edits[k]) ==>
                 OldText(content, edits[k]) == edits[k].newText
    ensures Join(ApplyAll(Split(content), Sorted(edits))) == LspResult(content, edits)
  {
    CodeOfLegal(content, edits);
    MovingUpTo(content, edits, |edits|);
    PartlyEnds(Split(content), edits);
  }

  lemma {:induction false} MovingUpTo(content: string, edits: seq<TextEdit>, n: nat)
    requires Legal(edits) && DistinctStarts(ClampedAll(Split(content), edits)) && n <= |edits|
    requires forall k ::
               0 <= k < |edits| && Placed(Split(content), edits[k]) && !Applicable(Split(content), edits[k]) ==>
                 OldText(content, edits[k]) == edits[k].newText
    ensures ResultOfApplicable(content, Partly(Split(content), edits, n)) == ResultOfApplicable(content, edits)
  {
    var lines := Split(content);
    if n == 0 {
      PartlyEnds(lines, edits);
    } else {
      MovingUpTo(content, edits, n - 1);
      if Placed(lines, edits[n - 1]) && !Applicable(lines, edits[n - 1]) {
        TextsWhereMoved(lines, edits, n - 1);
        MovingNext(content, edits, n - 1);
        Regroup([], [], edits[n - 1].newText);
      } else {
        PartlyAt(lines, edits, n - 1);
      }
    }
  }

  lemma MovingNext(content: string, edits: seq<TextEdit>, n: nat)
    requires Disjoint(edits) && n < |edits|
    requires Placed(Split(content), edits[n]) && !Applicable(Split(content), edits[n])
    ensures WellFormed(edits[n])
    ensures var lines, p := Split(content), Clamped(Split(content), edits[n]).range.start;
            ResultOfApplicable(content, Partly(lines, edits, n + 1)) ==
            ResultOfApplicable(content, Partly(lines, edits, n)) <==>
            TextsAt(lines, Partly(lines, edits, n + 1), p) ==
            TextsAt(lines, Partly(lines, edits, n), p) + OldText(content, edits[n])
  {
    var lines := Split(content);
    PartlyAt(lines, edits, n);
    OthersKeepClear(lines, edits, n);
    assert WellFormed(edits[n]);
    hide *;
    MovingOneEdit(content, ClampedAll(lines, edits[..n]), edits[n], edits[n + 1..]);
  }

  // With two overhanging edits no condition on the one and the other is exact: delete
  // "a" up to character 5 and insert "a" at character 6 of the document "a". Both
  // change something, the code skips both, and the LSP meaning is "a" all the same.
  lemma TwoOverhangsMayCancel(e: TextEdit, f: TextEdit)
    requires e == TextEdit(Range(Position(0, 0), Position(0, 5)), "")
    requires f == TextEdit(Range(Position(0, 6), Position(0, 6)), "a")
    ensures Legal([e, f]) && LspResult("a", [e, f]) == "a"
    ensures Join(ApplyAll(Split("a"), Sorted([e, f]))) == "a"
    ensures Split("a") == ["a"] && OldText("a", e) != e.newText
    ensures OldText("a", f) != f.newText
  {
    hide *;
    OldTextsOfA(e, f);
    CutThenAppended(e, f);
    LegalOnA(e, f);
    CodeOfLegal("a", [e, f]);
    BothSkipped(e, f);
  }

  lemma BothSkipped(e: TextEdit, f: TextEdit)
    requires e == TextEdit(Range(Position(0, 0), Position(0, 5)), "")
    requires f == TextEdit(Range(Position(0, 6), Position(0, 6)), "a")
    ensures ResultOfApplicable("a", [e, f]) == "a"
  {
    SplitOneLine("a");
    assert [e, f][1..] == [f] && [f][1..] == [];
    assert Splices(["a"], [f]) == [];
    assert Splices(["a"], [e, f]) == [];
    Untouched("a", [], 0, 1);
    AtEnd("a", []);
    assert "a"[0..1] + "" == "a";
  }

  // Insert "a" at the end of "x" and, beyond it, replace the line break by itself: the
  // second is moved onto the start of the first, and LSP puts its text in front.
  lemma MovedOntoAnotherCounterexample(e: TextEdit, f: TextEdit)
    requires e == TextEdit(Range(Position(0, 5), Position(1, 0)), NEWLINE)
    requires f == TextEdit(Range(Position(0, 1), Position(0, 1)), "a")
    ensures Legal([e, f]) && Split("x\ny") == ["x", "y"] && OldText("x\ny", e) == e.newText
    ensures Join(ApplyAll(Split("x\ny"), Sorted([e, f]))) != LspResult("x\ny", [e, f])
  {
    var lines, edits := ["x", "y"], [e, f];
    SplitTwoLines();
    assert edits[..0] + edits[1..] == [f] && [f][0] == f;
    OneOverhangMeetsLspExactlyWhen("x\ny", edits, 0);
    MovedTexts(e, f);
    assert (NEWLINE + "a")[0] != ("a" + NEWLINE)[0];
  }

  lemma SplitTwoLines()
    ensures Split("x\ny") == ["x", "y"] && Join(["x", "y"]) == "x\ny"
    ensures LineStart(["x", "y"], 1) == 2
  {
    assert ["x", "y"][1..] == ["y"];
    assert "x" + NEWLINE + "y" == "x\ny";
    assert Join(["x", "y"]) == "x" + NEWLINE + Join(["y"]);
    SplitUndoesJoin(["x", "y"]);
  }

  lemma MovedTexts(e: TextEdit, f: TextEdit)
    requires e == TextEdit(Range(Position(0, 5), Position(1, 0)), NEWLINE)
    requires f == TextEdit(Range(Position(0, 1), Position(0, 1)), "a")
    ensures WellFormed(e) && Split("x\ny") == ["x", "y"] && OldText("x\ny", e) == NEWLINE
    ensures TextsAt(["x", "y"], [e, f], Position(0, 1)) == "a"
    ensures TextsAt(["x", "y"], ClampedAll(["x", "y"], [e, f]), Position(0, 1)) == NEWLINE + "a"
  {
    var lines := ["x", "y"];
    SplitTwoLines();
    assert "x\ny"[1..2] == NEWLINE;
    assert [e, f][1..] == [f];
    TextsOfOne(lines, f, Position(0, 1));
    ClampedOne(lines, f);
    var c := Clamped(lines, e);
    assert [c, f][1..] == [f];
  }

  lemma LegalOnA(e: TextEdit, f: TextEdit)
    requires e == TextEdit(Range(Position(0, 0), Position(0, 5)), "")
    requires f == TextEdit(Range(Position(0, 6), Position(0, 6)), "a")
    ensures Legal([e, f])
  {
  }

  lemma ChainOfTwo(e: TextEdit, f: TextEdit)
    requires WellFormed(e) && WellFormed(f) && AtMost(f.range.end, e.range.start)
    ensures Chain([e, f])
  {
  }

  lemma CutThenAppended(e: TextEdit, f: TextEdit)
    requires e == TextEdit(Range(Position(0, 0), Position(0, 5)), "")
    requires f == TextEdit(Range(Position(0, 6), Position(0, 6)), "a")
    ensures LspResult("a", [e, f]) == "a"
  {
    var c := TextEdit(Range(Position(0, 0), Position(0, 1)), "");
    var d := TextEdit(Range(Position(0, 1), Position(0, 1)), "a");
    SplitOneLine("a");
    ClampedTwo(["a"], e, f);
    ReverseTwo(d, c);
    AppendedAndCut(["a"], d, c);
    JoinOne("a");
    ChainOfTwo(d, c);
    CutThenAppendedIsKept(e, f, c, d);
  }

  lemma CutThenAppendedIsKept(e: TextEdit, f: TextEdit, c: TextEdit, d: TextEdit)
    requires Split("a") == ["a"] && ClampedAll(["a"], [e, f]) == [c, d] && Reverse([d, c]) == [c, d]
    requires Chain([d, c]) && ApplyAll(["a"], [d, c]) == ["a"] && Join(["a"]) == "a"
    ensures LspResult("a", [e, f]) == "a"
  {
    hide Split, ClampedAll, Reverse, ApplyAll, ResultOfApplicable, Join, Chain;
    SplicingLinesIsOneEdit("a", [d, c]);
  }

  lemma ClampedTwo(lines: seq<string>, e: TextEdit, f: TextEdit)
    ensures ClampedAll(lines, [e, f]) == [Clamped(lines, e), Clamped(lines, f)]
  {
    assert [e, f][1..] == [f] && [f][1..] == [];
    assert ClampedAll(lines, [f]) == [Clamped(lines, f)];
  }

  lemma OldTextsOfA(e: TextEdit, f: TextEdit)
    requires e.range == Range(Position(0, 0), Position(0, 5)) && f.range == Range(Position(0, 6), Position(0, 6))
    ensures Split("a") == ["a"] && OldText("a", e) == "a" && OldText("a", f) == ""
  {
    SplitOneLine("a");
    assert "a"[0..1] == "a" && "a"[1..1] == "";
  }

  lemma AppendedAndCut(lines: seq<string>, d: TextEdit, c: TextEdit)
    requires lines == ["a"] && d == TextEdit(Range(Position(0, 1), Position(0, 1)), "a")
    requires c == TextEdit(Range(Position(0, 0), Position(0, 1)), "")
    ensures ApplyAll(lines, [d, c]) == ["a"]
  {
    assert "a"[..1] == "a" && "a"[1..] == "" && "a" + "a" + "" == "aa";
    assert ApplyEdit(lines, d) == ["aa"];
    assert "aa"[..0] == "" && "aa"[1..] == "a" && "" + "" + "a" == "a";
    assert ApplyEdit(["aa"], c) == ["a"];
    assert [d, c][1..] == [c] && [c][1..] == [];
    assert ApplyAll(["aa"], [c]) == ApplyAll(["a"], []);
  }
}
