/**
 mcpserver/tools/utils.go: getRangeContent, after the file has been read.
 The reader over the same line/character coordinates as `TextEdits`.
 */
module RangeContent {
  import opened TextLines
  import opened TextEdits

  // safeUint32 rejects what does not fit; of the lines only the two boundary ones are
  // measured.
  const MAX_UINT32 := 0xFFFF_FFFF

  datatype RangeError =
    | TooManyLines
    | LinesOutOfBounds
    | ReversedRange
    | LineTooLong
    | CharacterOutOfBounds
    | InvertedCharacters

  datatype RangeResult = Text(text: string) | Failure(error: RangeError)

  predicate LinesInBounds(lines: seq<string>, r: Range) {
    r.start.line < |lines| && r.end.line < |lines|
  }

  predicate InOrder(r: Range) {
    AtMost(r.start, r.end)
  }

  function ClampTo(line: string, c: nat): nat {
    if c > |line| then |line| else c
  }

  // Where the returned slice begins.
  function SliceStart(lines: seq<string>, r: Range): (p: Position)
    requires LinesInBounds(lines, r)
    ensures Inside(lines, p)
  {
    Position(r.start.line, ClampTo(lines[r.start.line], r.start.character))
  }

  // Where it ends. On the last of several lines the code stops one character
  // before the given one, although its own comment calls that one exclusive.
  function SliceEnd(lines: seq<string>, r: Range): (p: Position)
    requires LinesInBounds(lines, r)
    ensures Inside(lines, p)
  {
    var last := lines[r.end.line];
    Position(r.end.line,
             if r.start.line == r.end.line || r.end.character > |last| then ClampTo(last, r.end.character)
             else if r.end.character == 0 then 0
             else r.end.character - 1)
  }

  lemma SliceOrdered(lines: seq<string>, r: Range)
    requires LinesInBounds(lines, r) && InOrder(r)
    ensures Offset(lines, SliceStart(lines, r)) <= Offset(lines, SliceEnd(lines, r)) <= |Join(lines)|
  {
    OffsetOrder(lines, SliceStart(lines, r), SliceEnd(lines, r));
    CutAt(lines, SliceEnd(lines, r));
  }

  // The one contiguous slice that a range selects.
  function Selected(content: string, r: Range): string
    requires LinesInBounds(Split(content), r) && InOrder(r)
  {
    var lines := Split(content);
    JoinUndoesSplit(content);
    SliceOrdered(lines, r);
    content[Offset(lines, SliceStart(lines, r))..Offset(lines, SliceEnd(lines, r))]
  }

  lemma SliceWithinLine(lines: seq<string>, p: Position, q: Position)
    requires Inside(lines, p) && Inside(lines, q) && p.line == q.line && p.character <= q.character
    ensures Offset(lines, q) <= |Join(lines)|
    ensures Join(lines)[Offset(lines, p)..Offset(lines, q)] == lines[p.line][p.character..q.character]
  {
    var front, line := lines[..p.line], lines[p.line];
    var x, y := line[..p.character], line[p.character..q.character];
    CutAt(lines, p);
    CutAt(lines, q);
    assert line[..q.character] == x + y;
    JoinCut(front, x, y, []);
    assert front + [x + y] + [] == front + [x + y];
    assert Join([y] + []) == y;
    SliceOfPrefix(Join(lines), Offset(lines, p), Offset(lines, q), y);
  }

  lemma SliceOfPrefix(s: string, lo: nat, hi: nat, y: string)
    requires lo <= hi <= |s| && s[..hi] == s[..lo] + y
    ensures s[lo..hi] == y
  {
    assert s[lo..hi] == s[..hi][lo..];
    assert |s[..lo]| == lo;
  }

  lemma SliceAcrossLines(lines: seq<string>, p: Position, q: Position)
    requires Inside(lines, p) && Inside(lines, q) && p.line < q.line
    ensures Offset(lines, p) <= Offset(lines, q) <= |Join(lines)|
    ensures Join(lines)[Offset(lines, p)..Offset(lines, q)] ==
            Join([lines[p.line][p.character..]] + lines[p.line + 1..q.line] + [lines[q.line][..q.character]])
  {
    var behind := [lines[p.line][p.character..]] + lines[p.line + 1..];
    var q' := Position(q.line - p.line, q.character);
    assert behind[q'.line + 1..] == lines[q.line + 1..];
    assert behind[..q'.line] == [lines[p.line][p.character..]] + lines[p.line + 1..q.line];
    hide Offset, Join;
    OffsetOrder(lines, p, q);
    CutAt(lines, p);
    CutAt(lines, q);
    CutAt(behind, q');
    SliceOfSuffix(Join(lines), Offset(lines, p), Offset(lines, q), Join(behind), Offset(behind, q'));
  }

  lemma SliceOfSuffix(s: string, lo: nat, hi: nat, t: string, k: nat)
    requires lo <= hi <= |s| && k <= |t| && t == s[lo..] && t[k..] == s[hi..]
    ensures s[lo..hi] == t[..k]
  {
    assert |s| - hi == |t| - k;
  }

  // What the code asks of a line that it slices: `clamp`.
  method Clamp(line: string, pos: nat, strict: bool) returns (r: nat, error: bool, tooLong: bool)
    ensures tooLong <==> |line| > MAX_UINT32
    ensures error <==> tooLong || (strict && pos > |line|)
    ensures !error ==> r == ClampTo(line, pos)
  {
    tooLong := |line| > MAX_UINT32;
    error := tooLong || (pos > |line| && strict);
    r := if pos > |line| then |line| else pos;
  }

  // The outcome once lines and order of the range have been found in order.
  ghost predicate ReadsSlice(lines: seq<string>, r: Range, strict: bool, result: RangeResult)
    requires LinesInBounds(lines, r)
  {
    var ends := Inside(lines, r.start) && Inside(lines, r.end);
    var long := |lines[r.start.line]| > MAX_UINT32 || |lines[r.end.line]| > MAX_UINT32;
    match result
    case Failure(CharacterOutOfBounds) => strict && !ends
    case Failure(error) => error == LineTooLong && long
    case Text(text) =>
      var lo, hi := Offset(lines, SliceStart(lines, r)), Offset(lines, SliceEnd(lines, r));
      && !long && (strict ==> ends)
      && lo <= hi <= |Join(lines)| && text == Join(lines)[lo..hi]
  }

  method ReadWithinLine(lines: seq<string>, r: Range, strict: bool) returns (result: RangeResult)
    requires LinesInBounds(lines, r) && InOrder(r) && r.start.line == r.end.line
    ensures ReadsSlice(lines, r, strict, result)
  {
    var line := lines[r.start.line];
    var start, error, tooLong := Clamp(line, r.start.character, strict);
    if error {
      return Failure(if tooLong then LineTooLong else CharacterOutOfBounds);
    }
    var end;
    end, error, tooLong := Clamp(line, r.end.character, strict);
    if error {
      return Failure(if tooLong then LineTooLong else CharacterOutOfBounds);
    }
    if start > end {
      return Failure(InvertedCharacters);
    }
    SliceWithinLine(lines, SliceStart(lines, r), SliceEnd(lines, r));
    SliceOrdered(lines, r);
    result := Text(if start >= |line| then "" else line[start..end]);
  }

  method ReadAcrossLines(lines: seq<string>, r: Range, strict: bool) returns (result: RangeResult)
    requires LinesInBounds(lines, r) && r.start.line < r.end.line
    ensures ReadsSlice(lines, r, strict, result)
  {
    hide Join;
    var first, last := lines[r.start.line], lines[r.end.line];
    var start, error, tooLong := Clamp(first, r.start.character, strict);
    if error {
      return Failure(if tooLong then LineTooLong else CharacterOutOfBounds);
    }
    var pieces: seq<string>;
    if start >= |first| {
      pieces := [""];
      assert first[start..] == "";
    } else {
      pieces := [first[start..]];
    }
    var i := r.start.line + 1;
    while i < r.end.line
      invariant r.start.line < i <= r.end.line
      invariant pieces == [first[start..]] + lines[r.start.line + 1..i]
    {
      pieces := pieces + [lines[i]];
      i := i + 1;
    }
    if |last| > MAX_UINT32 {
      return Failure(LineTooLong);
    }
    if r.end.character > |last| {
      if strict {
        return Failure(CharacterOutOfBounds);
      }
      pieces := pieces + [last];
      assert last == last[..|last|];
    } else {
      var endIdx := r.end.character;
      if endIdx > 0 {
        endIdx := endIdx - 1;
      }
      pieces := pieces + [last[..endIdx]];
    }
    SliceAcrossLines(lines, SliceStart(lines, r), SliceEnd(lines, r));
    result := Text(Join(pieces));
  }

  // What is missing at the end of what was read: of the text between the two
  // positions, each moved back onto its line, one character if the range spans lines
  // and ends on a character of the last one, and nothing otherwise.
  lemma SelectedFallsShort(content: string, r: Range) returns (missing: string)
    requires r.start.line < |Split(content)| && r.end.line < |Split(content)| && AtMost(r.start, r.end)
    ensures var lines := Split(content);
            var start, end := ClampedPosition(lines, r.start), ClampedPosition(lines, r.end);
            && Offset(lines, start) <= Offset(lines, end) <= |content|
            && Selected(content, r) + missing == content[Offset(lines, start)..Offset(lines, end)]
            && |missing| == if r.start.line < r.end.line && 1 <= r.end.character <= |lines[r.end.line]| then 1 else 0
  {
    var lines := Split(content);
    var start, end := ClampedPosition(lines, r.start), ClampedPosition(lines, r.end);
    var lo, mid, hi := Offset(lines, start), Offset(lines, SliceEnd(lines, r)), Offset(lines, end);
    JoinUndoesSplit(content);
    SliceOrdered(lines, r);
    OffsetOrder(lines, start, end);
    CutAt(lines, end);
    missing := content[mid..hi];
    assert content[lo..mid] + content[mid..hi] == content[lo..hi];
  }

  // When a range can be read, and which error is reported if it cannot be.
  method GetRangeContent(content: string, r: Range, strict: bool) returns (result: RangeResult)
    ensures var lines := Split(content);
            result.Text? <==>
              && |lines| <= 0xFFFF_FFFF && r.start.line < |lines| && r.end.line < |lines| && AtMost(r.start, r.end)
              && |lines[r.start.line]| <= 0xFFFF_FFFF && |lines[r.end.line]| <= 0xFFFF_FFFF
              && (strict ==> Inside(lines, r.start) && Inside(lines, r.end))
    ensures result.Text? ==> result.text == Selected(content, r)
    ensures result == Failure(TooManyLines) <==> |Split(content)| > 0xFFFF_FFFF
    ensures result == Failure(LinesOutOfBounds) <==>
            |Split(content)| <= 0xFFFF_FFFF && (r.start.line >= |Split(content)| || r.end.line >= |Split(content)|)
    ensures result == Failure(ReversedRange) <==>
            && |Split(content)| <= 0xFFFF_FFFF && r.start.line < |Split(content)| && r.end.line < |Split(content)|
            && !AtMost(r.start, r.end)
    ensures result == Failure(LineTooLong) ==>
              var lines := Split(content);
              |lines[r.start.line]| > 0xFFFF_FFFF || |lines[r.end.line]| > 0xFFFF_FFFF
    ensures result == Failure(CharacterOutOfBounds) ==>
              strict && !(Inside(Split(content), r.start) && Inside(Split(content), r.end))
    ensures result != Failure(InvertedCharacters)
  {
    var lines := Split(content);
    if |lines| > MAX_UINT32 {
      return Failure(TooManyLines);
    }
    if r.start.line >= |lines| || r.end.line >= |lines| {
      return Failure(LinesOutOfBounds);
    }
    if r.start.line > r.end.line || (r.start.line == r.end.line && r.start.character > r.end.character) {
      return Failure(ReversedRange);
    }
    JoinUndoesSplit(content);
    if r.start.line == r.end.line {
      result := ReadWithinLine(lines, r, strict);
    } else {
      result := ReadAcrossLines(lines, r, strict);
    }
  }

  // Reading a range and writing the text back over the same range. The identity
  // holds if and only if the range is in one line, or ends at the start of a
  // line, or is one the editor skips; otherwise a character is lost.
  lemma WritingBackWhatWasRead(content: string, r: Range)
    requires LinesInBounds(Split(content), r) && InOrder(r)
    ensures Join(ApplyAll(Split(content), [TextEdit(r, Selected(content, r))])) == content <==>
            r.start.line == r.end.line || r.end.character == 0 || !Applicable(Split(content), TextEdit(r, ""))
  {
    var lines, e := Split(content), TextEdit(r, Selected(content, r));
    JoinUndoesSplit(content);
    assert [e][1..] == [];
    assert ApplyAll(lines, [e]) == ApplyEdit(lines, e);
    if Applicable(lines, e) {
      OneEditIsOneSplice(lines, e);
      SliceOrdered(lines, r);
      ReadIsWhole(lines, r);
      Refill(content, Offset(lines, r.start), Offset(lines, SliceEnd(lines, r)), Offset(lines, r.end));
    }
  }

  lemma ReadIsWhole(lines: seq<string>, r: Range)
    requires Inside(lines, r.start) && Inside(lines, r.end)
    ensures Offset(lines, SliceEnd(lines, r)) <= Offset(lines, r.end)
    ensures Offset(lines, SliceEnd(lines, r)) == Offset(lines, r.end) <==>
            r.start.line == r.end.line || r.end.character == 0
    ensures SliceStart(lines, r) == r.start
  {
  }

  lemma Refill(s: string, lo: nat, mid: nat, hi: nat)
    requires lo <= mid <= hi <= |s|
    ensures s[..lo] + s[lo..mid] + s[hi..] == s <==> mid == hi
  {
    assert |s[..lo] + s[lo..mid] + s[hi..]| == |s| - (hi - mid);
  }

  // Reading "ab\ncd" from 0:1 to 1:1 gives "b\n", without the "c", and writing that
  // back loses the "c".
  lemma LostCharacterCounterexample()
    ensures var content, r := "ab\ncd", Range(Position(0, 1), Position(1, 1));
            && Split(content) == ["ab", "cd"]
            && Selected(content, r) == "b\n"
            && Join(ApplyAll(Split(content), [TextEdit(r, Selected(content, r))])) != content
  {
    var content, r := "ab\ncd", Range(Position(0, 1), Position(1, 1));
    assert ["ab", "cd"][1..] == ["cd"];
    assert Join(["ab", "cd"]) == "ab" + NEWLINE + Join(["cd"]) == content;
    SplitUndoesJoin(["ab", "cd"]);
    assert LineStart(["ab", "cd"], 1) == 3;
    assert content[1..3] == "b\n";
    WritingBackWhatWasRead(content, r);
  }
}
