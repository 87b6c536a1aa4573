/**
 Documents as lists of lines, and the arithmetic that turns a line/character
 position into an offset in the flat text. A line is indexed by the bytes of the
 original, one `char` each.
 */
module TextLines {
  const NEWLINE := "\n"

  datatype Position = Position(line: nat, character: nat)

  datatype Range = Range(start: Position, end: Position)

  predicate Before(p: Position, q: Position) {
    p.line < q.line || (p.line == q.line && p.character < q.character)
  }

  predicate AtMost(p: Position, q: Position) {
    p.line < q.line || (p.line == q.line && p.character <= q.character)
  }

  // strings.Split(s, "\n")
  function Split(s: string): (lines: seq<string>)
    ensures |lines| >= 1
  {
    if s == "" then [""]
    else
      var rest := Split(s[1..]);
      if s[0] == NEWLINE[0] then [""] + rest else [[s[0]] + rest[0]] + rest[1..]
  }

  // strings.Join(lines, "\n")
  function Join(lines: seq<string>): string {
    if |lines| == 0 then ""
    else if |lines| == 1 then lines[0]
    else lines[0] + NEWLINE + Join(lines[1..])
  }

  ghost predicate NewlineFree(lines: seq<string>) {
    forall k :: 0 <= k < |lines| ==> NEWLINE[0] !in lines[k]
  }

  // Number of characters in front of line n, each earlier line with its newline.
  function LineStart(lines: seq<string>, n: nat): nat
    requires n <= |lines|
  {
    if n == 0 then 0 else |lines[0]| + 1 + LineStart(lines[1..], n - 1)
  }

  // A position that names a place in the document: an existing line, and a
  // character not beyond the end of that line.
  predicate Inside(lines: seq<string>, p: Position) {
    p.line < |lines| && p.character <= |lines[p.line]|
  }

  function Offset(lines: seq<string>, p: Position): nat
    requires Inside(lines, p)
  {
    LineStart(lines, p.line) + p.character
  }

  lemma {:induction false} JoinUndoesSplit(s: string)
    ensures Join(Split(s)) == s
    ensures NewlineFree(Split(s))
  {
    if s != "" {
      JoinUndoesSplit(s[1..]);
      var rest := Split(s[1..]);
      if s[0] == NEWLINE[0] {
        assert ([""] + rest)[1..] == rest;
      } else {
        var lines := [[s[0]] + rest[0]] + rest[1..];
        assert lines[1..] == rest[1..];
        assert Join(lines) == [s[0]] + Join(rest);
      }
    }
  }

  lemma {:induction false} SplitUndoesJoin(lines: seq<string>)
    requires |lines| >= 1 && NewlineFree(lines)
    ensures Split(Join(lines)) == lines
    decreases |lines|, |lines[0]|
  {
    var s := Join(lines);
    if lines[0] != "" {
      var shorter := [lines[0][1..]] + lines[1..];
      assert shorter[1..] == lines[1..];
      assert s[0] == lines[0][0] && s[1..] == Join(shorter);
      assert s[0] in lines[0];
      SplitUndoesJoin(shorter);
      assert [s[0]] + shorter[0] == lines[0];
      assert [lines[0]] + shorter[1..] == lines;
    } else if |lines| > 1 {
      assert s[1..] == Join(lines[1..]);
      SplitUndoesJoin(lines[1..]);
    }
  }

  // A place inside one line cuts the joined text in two.
  lemma {:induction false} JoinCut(front: seq<string>, x: string, y: string, back: seq<string>)
    ensures Join(front + [x + y] + back) == Join(front + [x]) + Join([y] + back)
  {
    if front == [] {
      if back == [] {
        assert front + [x + y] + back == [x + y];
        assert [y] + back == [y];
      } else {
        var whole := front + [x + y] + back;
        assert whole == [x + y] + back;
        assert whole[1..] == back;
        assert ([y] + back)[1..] == back;
      }
      assert front + [x] == [x];
    } else {
      JoinCut(front[1..], x, y, back);
      var whole := front + [x + y] + back;
      assert whole[1..] == front[1..] + [x + y] + back;
      assert (front + [x])[1..] == front[1..] + [x];
    }
  }

  lemma {:induction false} JoinLength(front: seq<string>, x: string, back: seq<string>)
    ensures |Join(front + [x])| == LineStart(front + back, |front|) + |x|
  {
    if front == [] {
      assert front + [x] == [x];
    } else {
      JoinLength(front[1..], x, back);
      assert (front + [x])[1..] == front[1..] + [x];
      assert (front + back)[1..] == front[1..] + back;
    }
  }

  // The text before and after a position, in terms of lines.
  lemma CutAt(lines: seq<string>, p: Position)
    requires Inside(lines, p)
    ensures Offset(lines, p) <= |Join(lines)|
    ensures Join(lines)[..Offset(lines, p)] == Join(lines[..p.line] + [lines[p.line][..p.character]])
    ensures Join(lines)[Offset(lines, p)..] == Join([lines[p.line][p.character..]] + lines[p.line + 1..])
  {
    var front, back := lines[..p.line], lines[p.line + 1..];
    var x, y := lines[p.line][..p.character], lines[p.line][p.character..];
    Reassemble(lines, p.line, p.character);
    JoinCut(front, x, y, back);
    JoinLength(front, x, lines[p.line..]);
    CutConcat(Join(lines), Join(front + [x]), Join([y] + back));
  }

  lemma Reassemble(lines: seq<string>, n: nat, c: nat)
    requires n < |lines| && c <= |lines[n]|
    ensures lines[..n] + [lines[n][..c] + lines[n][c..]] + lines[n + 1..] == lines
    ensures lines[..n] + lines[n..] == lines
  {
    assert lines[n][..c] + lines[n][c..] == lines[n];
  }

  lemma CutConcat(s: string, a: string, b: string)
    requires s == a + b
    ensures s[..|a|] == a && s[|a|..] == b
  {
  }

  lemma {:induction false} LineStartStep(lines: seq<string>, n: nat)
    requires n < |lines|
    ensures LineStart(lines, n + 1) == LineStart(lines, n) + |lines[n]| + 1
  {
    if n > 0 {
      LineStartStep(lines[1..], n - 1);
    }
  }

  lemma {:induction false} LineStartGrows(lines: seq<string>, m: nat, n: nat)
    requires m < n <= |lines|
    ensures LineStart(lines, m) + |lines[m]| < LineStart(lines, n)
    decreases n
  {
    LineStartStep(lines, n - 1);
    if m < n - 1 {
      LineStartGrows(lines, m, n - 1);
    }
  }

  // Offsets order positions exactly as line and character do; in particular
  // distinct places have distinct offsets.
  lemma OffsetOrder(lines: seq<string>, p: Position, q: Position)
    requires Inside(lines, p) && Inside(lines, q)
    ensures Before(p, q) <==> Offset(lines, p) < Offset(lines, q)
    ensures AtMost(p, q) <==> Offset(lines, p) <= Offset(lines, q)
  {
    if p.line < q.line {
      LineStartGrows(lines, p.line, q.line);
    } else if q.line < p.line {
      LineStartGrows(lines, q.line, p.line);
    }
  }

  lemma {:induction false} LineStartLocal(a: seq<string>, b: seq<string>, n: nat)
    requires n <= |a| && n <= |b|
    requires a[..n] == b[..n]
    ensures LineStart(a, n) == LineStart(b, n)
  {
    if n > 0 {
      assert a[0] == a[..n][0] && b[0] == b[..n][0];
      assert a[1..][..n - 1] == a[..n][1..];
      assert b[1..][..n - 1] == b[..n][1..];
      LineStartLocal(a[1..], b[1..], n - 1);
    }
  }
}
