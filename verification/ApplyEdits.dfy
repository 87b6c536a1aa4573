/**
 bridge/bridge.go: applyTextEditsToContent, the code: an exchange sort in place,
 then one splice of the lines for each edit.
 */
module ApplyEdits {
  import opened TextLines
  import opened TextEdits
  import opened ExchangeSort
  import opened EditConformance

  method SortDescending(edits: array<TextEdit>)
    modifies edits
    ensures edits[..] == Sorted(old(edits[..]))
    ensures multiset(edits[..]) == multiset(old(edits[..])) && Descending(edits[..])
    ensures Descending(old(edits[..])) ==> edits[..] == old(edits[..])
  {
    ghost var given := edits[..];
    SortIsDescendingPermutation(given);
    if Descending(given) {
      DescendingStaysAsItIs(given);
    }
    assert SortFrom(given, 0) == Sorted(given);
    hide SortFrom, Pass, Sorted, Descending, Before;
    var i := 0;
    while i < edits.Length - 1
      invariant 0 <= i
      invariant SortFrom(edits[..], i) == Sorted(given)
    {
      SortNext(edits[..], i);
      var j := i + 1;
      while j < edits.Length
        invariant i < j <= edits.Length
        invariant SortFrom(Pass(edits[..], i, j), i + 1) == Sorted(given)
      {
        ghost var before := edits[..];
        PassNext(before, i, j);
        if Before(edits[i].range.start, edits[j].range.start) {
          edits[i], edits[j] := edits[j], edits[i];
        }
        assert edits[..] == Exchanged(before, i, j);
        j := j + 1;
      }
      PassNext(edits[..], i, j);
      i := i + 1;
    }
    SortNext(edits[..], i);
  }

  method ApplyTextEditsToContent(content: string, edits: array<TextEdit>) returns (result: string)
    modifies edits
    ensures edits[..] == Sorted(old(edits[..]))
    ensures result == Join(ApplyAll(Split(content), Sorted(old(edits[..]))))
    ensures Legal(old(edits[..])) ==> result == ResultOfApplicable(content, old(edits[..]))
    ensures Legal(old(edits[..])) && NoOverhang(Split(content), old(edits[..])) ==>
              result == LspResult(content, old(edits[..]))
    ensures Disjoint(old(edits[..])) ==>
              result == ResultOfApplicable(content, CodeOrder(Split(content), old(edits[..])))
    ensures Disjoint(old(edits[..])) && NoneSkipped(Split(content), Sorted(old(edits[..]))) ==>
              (result == LspResult(content, old(edits[..])) <==>
               SameTexts(Split(content), CodeOrder(Split(content), old(edits[..])),
                         ClampedAll(Split(content), old(edits[..]))))
  {
    ghost var given := edits[..];
    Meaning(content, given);
    hide *;
    if edits.Length == 0 {
      NoEdits(content, given);
      return content;
    }
    SortDescending(edits);
    ghost var sorted := edits[..];
    var lines := Split(content);
    var k := 0;
    assert edits[0..] == sorted;
    while k < edits.Length
      invariant 0 <= k <= edits.Length
      invariant edits[..] == sorted
      invariant ApplyAll(lines, edits[k..]) == ApplyAll(Split(content), sorted)
    {
      var edit := edits[k];
      ApplyNext(lines, edits[k..]);
      assert edits[k..][0] == edit && edits[k..][1..] == edits[k + 1..];
      lines := SpliceLines(lines, edit);
      k := k + 1;
    }
    ApplyNone(lines, edits[k..]);
    result := Join(lines);
  }

  lemma Meaning(content: string, edits: seq<TextEdit>)
    ensures var result := Join(ApplyAll(Split(content), Sorted(edits)));
            && (Legal(edits) ==> result == ResultOfApplicable(content, edits))
            && (Legal(edits) && NoOverhang(Split(content), edits) ==> result == LspResult(content, edits))
            && (Disjoint(edits) ==> result == ResultOfApplicable(content, CodeOrder(Split(content), edits)))
            && (Disjoint(edits) && NoneSkipped(Split(content), Sorted(edits)) ==>
                  (result == LspResult(content, edits) <==>
                   SameTexts(Split(content), CodeOrder(Split(content), edits), ClampedAll(Split(content), edits))))
  {
    hide Split, Join, ApplyAll, Sorted, ResultOfApplicable, LspResult, SameTexts, CodeOrder, NoOverhang, NoneSkipped;
    SortIsDescendingPermutation(edits);
    if Legal(edits) {
      SortedSplicingIsLspEdit(content, edits, Sorted(edits));
    }
    if Disjoint(edits) {
      CodeIsOneEdit(content, edits);
      if NoneSkipped(Split(content), Sorted(edits)) {
        MeetsLspExactlyWhen(content, edits);
      }
    }
  }

  lemma NoEdits(content: string, edits: seq<TextEdit>)
    requires edits == []
    ensures Sorted(edits) == edits && Join(ApplyAll(Split(content), edits)) == content
  {
    JoinUndoesSplit(content);
  }

  lemma ApplyNext(lines: seq<string>, edits: seq<TextEdit>)
    requires edits != []
    ensures ApplyAll(lines, edits) == ApplyAll(ApplyEdit(lines, edits[0]), edits[1..])
  {
  }

  lemma ApplyNone(lines: seq<string>, edits: seq<TextEdit>)
    requires edits == []
    ensures ApplyAll(lines, edits) == lines
  {
  }

  // The body of the loop over the sorted edits.
  method SpliceLines(lines: seq<string>, edit: TextEdit) returns (newLines: seq<string>)
    ensures newLines == ApplyEdit(lines, edit)
  {
    var startLine, startChar := edit.range.start.line, edit.range.start.character;
    var endLine, endChar := edit.range.end.line, edit.range.end.character;
    if startLine >= |lines| || endLine >= |lines| {
      return lines;
    }
    if startLine == endLine {
      var line := lines[startLine];
      if startChar > |line| || endChar > |line| {
        return lines;
      }
      newLines := lines[startLine := line[..startChar] + edit.newText + line[endChar..]];
    } else {
      if startChar > |lines[startLine]| || endChar > |lines[endLine]| {
        return lines;
      }
      var newLine := lines[startLine][..startChar] + edit.newText + lines[endLine][endChar..];
      newLines := lines[..startLine];
      newLines := newLines + [newLine];
      if endLine + 1 < |lines| {
        newLines := newLines + lines[endLine + 1..];
      }
    }
  }
}
