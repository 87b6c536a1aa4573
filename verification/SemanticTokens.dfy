/**
 lsp/semantic_tokens.go: FindTokensByType, the reader of the relative integer
 encoding of LSP 3.17 ("Integer Encoding for Tokens").
 */
module SemanticTokens {
  import opened Collections
  import opened TextLines

  const UINT32_SIZE := 0x1_0000_0000

  type uint32 = n: int | 0 <= n < UINT32_SIZE

  // uint32 addition of the original wraps around.
  function Add(a: uint32, b: uint32): uint32 {
    (a + b) % UINT32_SIZE
  }

  // A token at its absolute position.
  datatype Token = Token(line: uint32, start: uint32, length: uint32, typeIndex: uint32, modifiers: uint32)

  datatype TokenPosition = TokenPosition(tokenType: string, range: Range)

  // ---------------------------------------------------------------- encoding and decoding

  ghost predicate SortedFrom(tokens: seq<Token>, line: uint32, start: uint32) {
    tokens == [] ||
    (AtMost(Position(line, start), Position(tokens[0].line, tokens[0].start))
     && SortedFrom(tokens[1..], tokens[0].line, tokens[0].start))
  }

  // Five numbers a token, its position relative to the token before.
  ghost function Encode(tokens: seq<Token>, line: uint32, start: uint32): seq<uint32>
    requires SortedFrom(tokens, line, start)
  {
    if tokens == [] then []
    else
      var t := tokens[0];
      [t.line - line, if t.line == line then t.start - start else t.start, t.length, t.typeIndex, t.modifiers]
      + Encode(tokens[1..], t.line, t.start)
  }

  // The first token of the data; the fifth number is never read by the code, so
  // four are enough.
  function FirstToken(data: seq<uint32>, line: uint32, start: uint32): Token
    requires |data| >= 4
  {
    Token(if data[0] > 0 then Add(line, data[0]) else line,
          if data[0] > 0 then data[1] else Add(start, data[1]),
          data[2], data[3], if |data| > 4 then data[4] else 0)
  }

  function From<T>(s: seq<T>, i: nat): seq<T> {
    if i <= |s| then s[i..] else []
  }

  function Decode(data: seq<uint32>, line: uint32, start: uint32): seq<Token>
    decreases |data|
  {
    if |data| < 4 then []
    else
      var t := FirstToken(data, line, start);
      [t] + Decode(From(data, 5), t.line, t.start)
  }

  lemma {:induction false} DecodeUndoesEncode(tokens: seq<Token>, line: uint32, start: uint32)
    requires SortedFrom(tokens, line, start)
    ensures |Encode(tokens, line, start)| == 5 * |tokens|
    ensures Decode(Encode(tokens, line, start), line, start) == tokens
  {
    if tokens != [] {
      var data := Encode(tokens, line, start);
      DecodeUndoesEncode(tokens[1..], tokens[0].line, tokens[0].start);
      assert From(data, 5) == Encode(tokens[1..], tokens[0].line, tokens[0].start);
      assert FirstToken(data, line, start) == tokens[0];
    }
  }

  // No addition of the decoder wraps around.
  ghost predicate NoWrap(data: seq<uint32>, line: uint32, start: uint32)
    decreases |data|
  {
    |data| < 4 ||
    (line + data[0] < UINT32_SIZE && (data[0] == 0 ==> start + data[1] < UINT32_SIZE)
     && var t := FirstToken(data, line, start);
        NoWrap(From(data, 5), t.line, t.start))
  }

  lemma {:induction false} EncodeUndoesDecode(data: seq<uint32>, line: uint32, start: uint32)
    requires |data| % 5 == 0 && NoWrap(data, line, start)
    ensures SortedFrom(Decode(data, line, start), line, start)
    ensures Encode(Decode(data, line, start), line, start) == data
    decreases |data|
  {
    if data != [] {
      var t := FirstToken(data, line, start);
      EncodeUndoesDecode(data[5..], t.line, t.start);
      DecodedFirst(data, line, start);
      EncodedFirst(t, Decode(data[5..], t.line, t.start), data[5..], line, start);
      FirstFive(data);
    }
  }

  lemma FirstFive(data: seq<uint32>)
    requires |data| >= 5
    ensures data == [data[0], data[1], data[2], data[3], data[4]] + data[5..]
  {
  }

  lemma DecodedFirst(data: seq<uint32>, line: uint32, start: uint32)
    requires |data| >= 5
    ensures var t := FirstToken(data, line, start);
            Decode(data, line, start) == [t] + Decode(data[5..], t.line, t.start)
  {
    assert From(data, 5) == data[5..];
  }

  lemma EncodedFirst(t: Token, rest: seq<Token>, encoded: seq<uint32>, line: uint32, start: uint32)
    requires AtMost(Position(line, start), Position(t.line, t.start))
    requires SortedFrom(rest, t.line, t.start) && Encode(rest, t.line, t.start) == encoded
    ensures SortedFrom([t] + rest, line, start)
    ensures Encode([t] + rest, line, start) ==
            [t.line - line, if t.line == line then t.start - start else t.start, t.length, t.typeIndex, t.modifiers]
            + encoded
  {
    assert ([t] + rest)[1..] == rest;
  }

  // One token for every five numbers, and one more for a tail of four, which lacks
  // only the number that is never read.
  lemma {:induction false} DecodedCount(data: seq<uint32>, line: uint32, start: uint32)
    ensures |Decode(data, line, start)| == (|data| + 1) / 5
    decreases |data|
  {
    if |data| >= 4 {
      var t := FirstToken(data, line, start);
      DecodedCount(From(data, 5), t.line, t.start);
    }
  }

  lemma {:induction false} TailOfFour(data: seq<uint32>, line: uint32, start: uint32)
    requires |data| % 5 == 4
    ensures Decode(data, line, start) == Decode(data + [0], line, start)
    decreases |data|
  {
    var t := FirstToken(data, line, start);
    assert FirstToken(data + [0], line, start) == t;
    if |data| > 4 {
      assert From(data + [0], 5) == From(data, 5) + [0];
      TailOfFour(From(data, 5), t.line, t.start);
    }
  }

  // ---------------------------------------------------------------- the selection

  predicate Wanted(t: Token, tokenTypes: seq<string>, targets: set<string>) {
    t.typeIndex < |tokenTypes| && tokenTypes[t.typeIndex] in targets
  }

  function Report(t: Token, tokenTypes: seq<string>): TokenPosition
    requires t.typeIndex < |tokenTypes|
  {
    TokenPosition(tokenTypes[t.typeIndex],
                  Range(Position(t.line, t.start), Position(t.line, Add(t.start, t.length))))
  }

  // The wanted tokens in order; tokens of unknown type only move the position.
  function Select(tokens: seq<Token>, tokenTypes: seq<string>, targets: set<string>): seq<TokenPosition> {
    if tokens == [] then []
    else SelectOne(tokens[0], tokenTypes, targets) + Select(tokens[1..], tokenTypes, targets)
  }

  function SelectOne(t: Token, tokenTypes: seq<string>, targets: set<string>): seq<TokenPosition> {
    if Wanted(t, tokenTypes, targets) then [Report(t, tokenTypes)] else []
  }

  // ---------------------------------------------------------------- the code

  method TargetSet(targetTypes: seq<string>) returns (targets: set<string>)
    ensures targets == Elems(targetTypes)
  {
    targets := {};
    for i := 0 to |targetTypes|
      invariant targets == Elems(targetTypes[..i])
    {
      assert targetTypes[..i + 1] == targetTypes[..i] + [targetTypes[i]];
      targets := targets + {targetTypes[i]};
    }
    assert targetTypes[..|targetTypes|] == targetTypes;
  }

  lemma DecodeOne(data: seq<uint32>, i: nat, line: uint32, start: uint32, tokenTypes: seq<string>, targets: set<string>)
    requires i + 3 < |data|
    ensures var t := FirstToken(data[i..], line, start);
            Select(Decode(From(data, i), line, start), tokenTypes, targets) ==
            SelectOne(t, tokenTypes, targets)
            + Select(Decode(From(data, i + 5), t.line, t.start), tokenTypes, targets)
  {
    var t := FirstToken(data[i..], line, start);
    var rest := Decode(From(data, i + 5), t.line, t.start);
    assert From(data[i..], 5) == From(data, i + 5);
    assert Decode(data[i..], line, start) == [t] + rest;
    assert ([t] + rest)[1..] == rest;
  }

  lemma NothingLeft(
      data: seq<uint32>, i: nat, line: uint32, start: uint32, tokenTypes: seq<string>, targets: set<string>)
    requires i >= |data|
    ensures Select(Decode(From(data, i), line, start), tokenTypes, targets) == []
  {
  }

  // None is the index panic of the original.
  method FindTokensByType(tokenTypes: seq<string>, data: seq<uint32>, targetTypes: seq<string>, base: Position)
    returns (result: Option<seq<TokenPosition>>)
    requires base.line < UINT32_SIZE && base.character < UINT32_SIZE
    ensures result.None? <==> 1 <= |data| % 5 <= 3
    ensures result.Some? ==>
              result.value == Select(Decode(data, base.line, base.character), tokenTypes, Elems(targetTypes))
  {
    hide Select, Decode, Elems;
    var targets := TargetSet(targetTypes);
    var currentLine: uint32, currentChar: uint32 := base.line, base.character;
    var results: seq<TokenPosition> := [];
    var i := 0;
    assert From(data, 0) == data;
    while i < |data|
      invariant 0 <= i && i % 5 == 0 && i < |data| + 5
      invariant i > |data| ==> |data| % 5 == 4
      invariant results + Select(Decode(From(data, i), currentLine, currentChar), tokenTypes, targets) ==
                Select(Decode(data, base.line, base.character), tokenTypes, targets)
      decreases |data| - i
    {
      if i + 3 >= |data| {
        return None;
      }
      ghost var t := FirstToken(data[i..], currentLine, currentChar);
      DecodeOne(data, i, currentLine, currentChar, tokenTypes, targets);
      Regroup(results, SelectOne(t, tokenTypes, targets),
             Select(Decode(From(data, i + 5), t.line, t.start), tokenTypes, targets));
      var deltaLine, deltaStart, tokenLength, typeIndex := data[i], data[i + 1], data[i + 2], data[i + 3];
      if deltaLine > 0 {
        currentLine := Add(currentLine, deltaLine);
        currentChar := deltaStart;
      } else {
        currentChar := Add(currentChar, deltaStart);
      }
      if typeIndex < |tokenTypes| {
        var tokenType := tokenTypes[typeIndex];
        if tokenType in targets {
          var end := Add(currentChar, tokenLength);
          var tokenRange := Range(Position(currentLine, currentChar), Position(currentLine, end));
          results := results + [TokenPosition(tokenType, tokenRange)];
        }
      }
      i := i + 5;
    }
    NothingLeft(data, i, currentLine, currentChar, tokenTypes, targets);
    result := Some(results);
  }

  // The law of the encoding: what comes out of encoded tokens is exactly the
  // tokens of a known and wanted type, in order, at their absolute ranges.
  lemma FindingInEncodedTokens(tokens: seq<Token>, base: Position, tokenTypes: seq<string>, targets: set<string>)
    requires base.line < UINT32_SIZE && base.character < UINT32_SIZE
    requires SortedFrom(tokens, base.line, base.character)
    ensures |Encode(tokens, base.line, base.character)| % 5 == 0
    ensures Select(Decode(Encode(tokens, base.line, base.character), base.line, base.character), tokenTypes, targets) ==
            Select(tokens, tokenTypes, targets)
  {
    DecodeUndoesEncode(tokens, base.line, base.character);
  }

  // ---------------------------------------------------------------- another base

  // What a decoder starting at `base` makes of a token: its line moves, and on
  // the first line its character too.
  function Rebase(t: Token, base: Position): Token
    requires base.line < UINT32_SIZE && base.character < UINT32_SIZE
  {
    t.(line := Add(t.line, base.line), start := if t.line == 0 then Add(t.start, base.character) else t.start)
  }

  function Rebased(tokens: seq<Token>, base: Position): seq<Token>
    requires base.line < UINT32_SIZE && base.character < UINT32_SIZE
  {
    if tokens == [] then [] else [Rebase(tokens[0], base)] + Rebased(tokens[1..], base)
  }

  lemma AddInAnyOrder(a: uint32, b: uint32, c: uint32)
    requires a + b < UINT32_SIZE
    ensures Add(Add(a, c), b) == Add(a + b, c)
  {
  }

  lemma {:induction false} DecodingRebases(tokens: seq<Token>, line: uint32, start: uint32, base: Position)
    requires base.line < UINT32_SIZE && base.character < UINT32_SIZE
    requires SortedFrom(tokens, line, start)
    ensures Decode(Encode(tokens, line, start), Add(line, base.line),
                   if line == 0 then Add(start, base.character) else start) == Rebased(tokens, base)
  {
    if tokens != [] {
      var t, data := tokens[0], Encode(tokens, line, start);
      DecodingRebases(tokens[1..], t.line, t.start, base);
      FirstRebased(tokens, line, start, base);
    }
  }

  lemma FirstRebased(tokens: seq<Token>, line: uint32, start: uint32, base: Position)
    requires base.line < UINT32_SIZE && base.character < UINT32_SIZE
    requires tokens != [] && SortedFrom(tokens, line, start)
    ensures var data := Encode(tokens, line, start);
            && |data| >= 5 && From(data, 5) == Encode(tokens[1..], tokens[0].line, tokens[0].start)
            && FirstToken(data, Add(line, base.line), if line == 0 then Add(start, base.character) else start)
               == Rebase(tokens[0], base)
  {
    var t := tokens[0];
    AddInAnyOrder(line, t.line - line, base.line);
    if t.line == line {
      AddInAnyOrder(start, t.start - start, base.character);
    }
    AddToZero(line);
    AddToZero(start);
    hide Add;
  }

  lemma AddToZero(n: uint32)
    ensures Add(0, n) == n
  {
  }

  // Whether a token stays in place: the base is on the first line, and is its
  // start or has the token on a later line.
  predicate Stays(t: Token, base: Position) {
    base.line == 0 && (base.character == 0 || t.line > 0)
  }

  lemma RebasedReport(t: Token, base: Position, tokenTypes: seq<string>, targets: set<string>)
    requires base.line < UINT32_SIZE && base.character < UINT32_SIZE
    ensures Rebase(t, base) == t <==> Stays(t, base)
    ensures |SelectOne(Rebase(t, base), tokenTypes, targets)| == |SelectOne(t, tokenTypes, targets)|
    ensures SelectOne(Rebase(t, base), tokenTypes, targets) == SelectOne(t, tokenTypes, targets) <==>
            (Wanted(t, tokenTypes, targets) ==> Stays(t, base))
  {
    if Wanted(t, tokenTypes, targets) {
      assert SelectOne(t, tokenTypes, targets)[0] == Report(t, tokenTypes);
      assert SelectOne(Rebase(t, base), tokenTypes, targets)[0] == Report(Rebase(t, base), tokenTypes);
    }
  }

  lemma SameParts<T>(a: seq<T>, b: seq<T>, x: seq<T>, y: seq<T>)
    requires |a| == |x|
    ensures a + b == x + y <==> a == x && b == y
  {
    assert a == (a + b)[..|a|] && b == (a + b)[|a|..];
    assert x == (x + y)[..|a|] && y == (x + y)[|a|..];
  }

  lemma {:induction false} RebasedSelection(
      tokens: seq<Token>, base: Position, tokenTypes: seq<string>, targets: set<string>)
    requires base.line < UINT32_SIZE && base.character < UINT32_SIZE
    ensures Select(Rebased(tokens, base), tokenTypes, targets) == Select(tokens, tokenTypes, targets) <==>
            forall t :: t in tokens && Wanted(t, tokenTypes, targets) ==> Stays(t, base)
  {
    if tokens != [] {
      var t, rest := tokens[0], tokens[1..];
      RebasedSelection(rest, base, tokenTypes, targets);
      RebasedReport(t, base, tokenTypes, targets);
      assert Rebased(tokens, base)[1..] == Rebased(rest, base);
      SameParts(SelectOne(Rebase(t, base), tokenTypes, targets), Select(Rebased(rest, base), tokenTypes, targets),
                SelectOne(t, tokenTypes, targets), Select(rest, tokenTypes, targets));
      assert forall x :: x in tokens <==> x == t || x in rest;
    }
  }

  // A server encodes from the start of the document; the caller hands over the
  // start of the range it asked for. Every token is then moved by that position.
  // What is returned is right if and only if every wanted token stays in place.
  lemma DocumentTokensFoundFromBase(tokens: seq<Token>, base: Position, tokenTypes: seq<string>, targets: set<string>)
    requires base.line < UINT32_SIZE && base.character < UINT32_SIZE
    requires SortedFrom(tokens, 0, 0)
    ensures Decode(Encode(tokens, 0, 0), base.line, base.character) == Rebased(tokens, base)
    ensures Select(Decode(Encode(tokens, 0, 0), base.line, base.character), tokenTypes, targets) ==
            Select(tokens, tokenTypes, targets) <==>
            forall t :: t in tokens && t.typeIndex < |tokenTypes| && tokenTypes[t.typeIndex] in targets ==>
                          base.line == 0 && (base.character == 0 || t.line > 0)
  {
    hide Decode, Encode, Rebased, SortedFrom, Add, Select;
    DecodingRebases(tokens, 0, 0, base);
    AddToZero(base.line);
    AddToZero(base.character);
    RebasedSelection(tokens, base, tokenTypes, targets);
  }

  // A function of three characters in line 10, asked for from line 7 on, is
  // reported in line 17.
  lemma BaseCounterexample()
    ensures var t, u := Token(10, 4, 3, 0, 0), Token(17, 4, 3, 0, 0);
            && Select(Decode(Encode([t], 0, 0), 7, 0), ["function"], {"function"}) == [Report(u, ["function"])]
            && Select([t], ["function"], {"function"}) == [Report(t, ["function"])]
            && Report(t, ["function"]).range != Report(u, ["function"]).range
  {
    var t, u := Token(10, 4, 3, 0, 0), Token(17, 4, 3, 0, 0);
    DocumentTokensFoundFromBase([t], Position(7, 0), ["function"], {"function"});
    SelectSingle(t, ["function"], {"function"});
    SelectSingle(u, ["function"], {"function"});
    assert Rebased([t], Position(7, 0)) == [u];
  }

  lemma SelectSingle(t: Token, tokenTypes: seq<string>, targets: set<string>)
    ensures Select([t], tokenTypes, targets) == SelectOne(t, tokenTypes, targets)
  {
    assert [t][1..] == [];
  }

  // ---------------------------------------------------------------- what is reported

  // The report of a token names its type and covers it.
  ghost predicate Reports(r: TokenPosition, t: Token, tokenTypes: seq<string>, targets: set<string>) {
    && t.typeIndex < |tokenTypes| && r.tokenType == tokenTypes[t.typeIndex] && r.tokenType in targets
    && r.range.start == Position(t.line, t.start) && r.range.end.line == t.line
    && r.range.end.character == (t.start + t.length) % 0x1_0000_0000
  }

  ghost predicate Increasing(places: seq<nat>) {
    forall i, j :: 0 <= i < j < |places| ==> places[i] < places[j]
  }

  ghost predicate ReportsAt(results: seq<TokenPosition>, places: seq<nat>, tokens: seq<Token>,
                            tokenTypes: seq<string>, targets: set<string>) {
    && |results| == |places|
    && forall k :: 0 <= k < |places| ==>
         places[k] < |tokens| && Reports(results[k], tokens[places[k]], tokenTypes, targets)
  }

  function Shifted(places: seq<nat>): (r: seq<nat>)
    ensures |r| == |places| && forall k :: 0 <= k < |places| ==> r[k] == places[k] + 1
  {
    seq(|places|, i requires 0 <= i < |places| => places[i] + 1)
  }

  ghost predicate AllWanted(places: seq<nat>, tokens: seq<Token>, tokenTypes: seq<string>, targets: set<string>) {
    forall n ::
      (0 <= n < |tokens| && tokens[n].typeIndex < |tokenTypes| && tokenTypes[tokens[n].typeIndex] in targets) ==>
        n in places
  }

  // The places of a list with one more token in front.
  function OneMore(places: seq<nat>, wanted: bool): (r: seq<nat>)
    ensures Increasing(places) ==> Increasing(r)
  {
    (if wanted then [0] else []) + Shifted(places)
  }

  lemma ReportsOneMore(t: Token, tokens: seq<Token>, places: seq<nat>, tokenTypes: seq<string>, targets: set<string>)
    requires ReportsAt(Select(tokens, tokenTypes, targets), places, tokens, tokenTypes, targets)
    ensures ReportsAt(SelectOne(t, tokenTypes, targets) + Select(tokens, tokenTypes, targets),
                      OneMore(places, Wanted(t, tokenTypes, targets)), [t] + tokens, tokenTypes, targets)
  {
    var one, rest := SelectOne(t, tokenTypes, targets), Select(tokens, tokenTypes, targets);
    var more := OneMore(places, Wanted(t, tokenTypes, targets));
    hide Select, SelectOne, OneMore, Wanted;
    OneMoreAt(t, tokens, places, tokenTypes, targets);
    forall k | 0 <= k < |more|
      ensures more[k] < |[t] + tokens| && Reports((one + rest)[k], ([t] + tokens)[more[k]], tokenTypes, targets)
    {
      if k < |one| {
        assert (one + rest)[k] == one[k];
      } else {
        assert (one + rest)[k] == rest[k - |one|];
      }
    }
  }

  lemma OneMoreAt(t: Token, tokens: seq<Token>, places: seq<nat>, tokenTypes: seq<string>, targets: set<string>)
    ensures var more := OneMore(places, Wanted(t, tokenTypes, targets));
            var one := SelectOne(t, tokenTypes, targets);
            && |more| == |one| + |places|
            && (forall k :: 0 <= k < |one| ==> more[k] == 0 && Reports(one[k], t, tokenTypes, targets))
            && forall k :: |one| <= k < |more| ==> more[k] == places[k - |one|] + 1
  {
  }

  lemma WantedOneMore(t: Token, tokens: seq<Token>, places: seq<nat>, tokenTypes: seq<string>, targets: set<string>)
    requires AllWanted(places, tokens, tokenTypes, targets)
    ensures AllWanted(OneMore(places, Wanted(t, tokenTypes, targets)), [t] + tokens, tokenTypes, targets)
  {
    var r := OneMore(places, Wanted(t, tokenTypes, targets));
    forall n | 0 <= n < |[t] + tokens| && Wanted(([t] + tokens)[n], tokenTypes, targets)
      ensures n in r
    {
      if n > 0 {
        assert tokens[n - 1] == ([t] + tokens)[n];
        var k :| 0 <= k < |places| && places[k] == n - 1;
        assert Shifted(places)[k] == n;
      }
    }
  }

  // The results report, in order, tokens at increasing places, and every token of
  // a known and wanted type is among them.
  lemma {:induction false} SelectionReportsWanted(tokens: seq<Token>, tokenTypes: seq<string>, targets: set<string>)
    returns (places: seq<nat>)
    ensures Increasing(places)
    ensures ReportsAt(Select(tokens, tokenTypes, targets), places, tokens, tokenTypes, targets)
    ensures AllWanted(places, tokens, tokenTypes, targets)
  {
    if tokens == [] {
      places := [];
    } else {
      hide ReportsAt, AllWanted, Increasing, OneMore, SelectOne;
      var rest := SelectionReportsWanted(tokens[1..], tokenTypes, targets);
      places := OneMore(rest, Wanted(tokens[0], tokenTypes, targets));
      assert tokens == [tokens[0]] + tokens[1..];
      ReportsOneMore(tokens[0], tokens[1..], rest, tokenTypes, targets);
      WantedOneMore(tokens[0], tokens[1..], rest, tokenTypes, targets);
    }
  }
}
