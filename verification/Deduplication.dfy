/**
 bridge/bridge.go: deduplicateLocations and deduplicateDocumentSymbols. Both
 compare items by a printed key; what they are for is comparing name (or URI) and
 range.
 */
module Deduplication {
  import opened Collections
  import opened TextLines

  // ---------------------------------------------------------------- the printed key

  const DIGITS := "0123456789"

  // %d of a natural number
  function Decimal(n: nat): (s: string)
    ensures s != "" && forall c :: c in s ==> c in DIGITS
  {
    if n < 10 then [DIGITS[n]] else Decimal(n / 10) + [DIGITS[n % 10]]
  }

  // "%s:%d:%d:%d:%d"
  function PrintedKey(name: string, r: Range): string {
    name + ":" + Decimal(r.start.line) + ":" + Decimal(r.start.character)
    + ":" + Decimal(r.end.line) + ":" + Decimal(r.end.character)
  }

  lemma {:induction false} DecimalInjective(m: nat, n: nat)
    requires Decimal(m) == Decimal(n)
    ensures m == n
  {
    LastDigit(m);
    LastDigit(n);
    DigitInjective(m % 10, n % 10);
    if m >= 10 && n >= 10 {
      DecimalInjective(m / 10, n / 10);
    }
  }

  lemma LastDigit(n: nat)
    ensures var s := Decimal(n);
            && s[|s| - 1] == DIGITS[n % 10]
            && (n >= 10 ==> |s| > 1 && s[..|s| - 1] == Decimal(n / 10))
            && (n < 10 ==> |s| == 1)
  {
  }

  lemma DigitInjective(m: nat, n: nat)
    requires m < 10 && n < 10 && DIGITS[m] == DIGITS[n]
    ensures m == n
  {
  }

  lemma OnlyOneColon(a: string, x: nat)
    ensures var s := a + ":" + Decimal(x);
            s[|a|] == ':' && forall i :: |a| < i < |s| ==> s[i] != ':'
  {
    var s, u := a + ":" + Decimal(x), Decimal(x);
    assert ':' !in DIGITS;
    forall i | |a| < i < |s|
      ensures s[i] != ':'
    {
      assert s[i] == u[i - |a| - 1];
      assert u[i - |a| - 1] in u;
    }
  }

  // The last colon splits the text, whatever the front contains.
  lemma LastColon(a: string, x: nat, b: string, y: nat)
    requires a + ":" + Decimal(x) == b + ":" + Decimal(y)
    ensures a == b && x == y
  {
    OnlyOneColon(a, x);
    OnlyOneColon(b, y);
    var s, t := a + ":" + Decimal(x), b + ":" + Decimal(y);
    assert |a| == |b|;
    assert a == s[..|a|] && b == t[..|b|];
    assert Decimal(x) == s[|a| + 1..] && Decimal(y) == t[|b| + 1..];
    DecimalInjective(x, y);
  }

  // Two printed keys are equal only for the same name and range, even when the
  // names contain colons and digits.
  lemma PrintedKeyInjective(name1: string, r1: Range, name2: string, r2: Range)
    requires PrintedKey(name1, r1) == PrintedKey(name2, r2)
    ensures name1 == name2 && r1 == r2
  {
    var a1, a2 := name1 + ":" + Decimal(r1.start.line), name2 + ":" + Decimal(r2.start.line);
    var b1, b2 := a1 + ":" + Decimal(r1.start.character), a2 + ":" + Decimal(r2.start.character);
    var c1, c2 := b1 + ":" + Decimal(r1.end.line), b2 + ":" + Decimal(r2.end.line);
    LastColon(c1, r1.end.character, c2, r2.end.character);
    LastColon(b1, r1.end.line, b2, r2.end.line);
    LastColon(a1, r1.start.character, a2, r2.start.character);
    LastColon(name1, r1.start.line, name2, r2.start.line);
  }

  // ---------------------------------------------------------------- locations

  datatype Location = Location(uri: string, range: Range)

  // The first of equal locations stays, in order.
  function KeepFirst(locations: seq<Location>): seq<Location> {
    if locations == [] then []
    else
      var front, last := locations[..|locations| - 1], locations[|locations| - 1];
      if last in front then KeepFirst(front) else KeepFirst(front) + [last]
  }

  lemma {:induction false} KeepFirstKeepsAll(s: seq<Location>)
    ensures forall x :: x in KeepFirst(s) <==> x in s
    ensures NoDuplicates(KeepFirst(s))
  {
    if s != [] {
      KeepFirstKeepsAll(s[..|s| - 1]);
      assert forall x :: x in s <==> x in s[..|s| - 1] || x == s[|s| - 1];
    }
  }

  lemma {:induction false} DistinctIsKept(s: seq<Location>)
    requires NoDuplicates(s)
    ensures KeepFirst(s) == s
  {
    if s != [] {
      DistinctIsKept(s[..|s| - 1]);
    }
  }

  lemma KeepFirstIdempotent(s: seq<Location>)
    ensures KeepFirst(KeepFirst(s)) == KeepFirst(s)
  {
    KeepFirstKeepsAll(s);
    DistinctIsKept(KeepFirst(s));
  }

  // A longer list only appends to the result, so it is the first that stays.
  lemma {:induction false} KeepFirstOfPrefix(a: seq<Location>, b: seq<Location>)
    ensures KeepFirst(a) <= KeepFirst(a + b)
    decreases |b|
  {
    if b == [] {
      assert a + b == a;
    } else {
      assert (a + b)[..|a + b| - 1] == a + b[..|b| - 1];
      KeepFirstOfPrefix(a, b[..|b| - 1]);
    }
  }

  method DeduplicateLocations(locations: seq<Location>) returns (result: seq<Location>)
    ensures result == KeepFirst(locations)
  {
    if |locations| == 0 {
      return locations;
    }
    var seen: set<string> := {};
    result := [];
    for i := 0 to |locations|
      invariant forall l :: l in locations[..i] ==> PrintedKey(l.uri, l.range) in seen
      invariant forall k :: k in seen ==> exists l :: l in locations[..i] && PrintedKey(l.uri, l.range) == k
      invariant result == KeepFirst(locations[..i])
    {
      var loc := locations[i];
      var key := PrintedKey(loc.uri, loc.range);
      assert locations[..i + 1][..i] == locations[..i];
      assert forall l :: l in locations[..i + 1] <==> l in locations[..i] || l == loc;
      if key !in seen {
        seen := seen + {key};
        result := result + [loc];
      } else {
        ghost var l :| l in locations[..i] && PrintedKey(l.uri, l.range) == key;
        PrintedKeyInjective(l.uri, l.range, loc.uri, loc.range);
      }
    }
    assert locations[..|locations|] == locations;
  }

  // ---------------------------------------------------------------- document symbols

  // `detail` stands for everything that is not compared.
  datatype DocumentSymbol = DocumentSymbol(name: string, range: Range, detail: string, children: seq<DocumentSymbol>)

  predicate SameSymbol(a: DocumentSymbol, b: DocumentSymbol) {
    a.name == b.name && a.range == b.range
  }

  predicate Known(symbols: seq<DocumentSymbol>, s: DocumentSymbol) {
    exists i :: 0 <= i < |symbols| && SameSymbol(symbols[i], s)
  }

  // At every level the first of equal symbols stays, with its own children
  // treated likewise; the children of the others are gone.
  function KeepFirstForest(symbols: seq<DocumentSymbol>): seq<DocumentSymbol> {
    if symbols == [] then []
    else
      var front, last := symbols[..|symbols| - 1], symbols[|symbols| - 1];
      if Known(front, last) then KeepFirstForest(front)
      else KeepFirstForest(front) + [last.(children := KeepFirstForest(last.children))]
  }

  // No two siblings are the same symbol, anywhere in the forest.
  ghost predicate DistinctForest(symbols: seq<DocumentSymbol>) {
    && (forall i, j :: 0 <= i < j < |symbols| ==> !SameSymbol(symbols[i], symbols[j]))
    && (forall s :: s in symbols ==> DistinctForest(s.children))
  }

  lemma {:induction false} ForestKeepsNames(symbols: seq<DocumentSymbol>, s: DocumentSymbol)
    ensures Known(KeepFirstForest(symbols), s) <==> Known(symbols, s)
    decreases |symbols|
  {
    if symbols != [] {
      var front, last := symbols[..|symbols| - 1], symbols[|symbols| - 1];
      ForestKeepsNames(front, s);
      KnownAppend(front, last, s);
      KnownAppend(KeepFirstForest(front), last.(children := KeepFirstForest(last.children)), s);
      assert front + [last] == symbols;
      if Known(front, last) && SameSymbol(last, s) {
        var i :| 0 <= i < |front| && SameSymbol(front[i], last);
        assert SameSymbol(front[i], s);
      }
    }
  }

  // Level by level: the same names and ranges, each symbol the first of its equals,
  // with the children of that one treated likewise.
  ghost predicate FirstsOf(result: seq<DocumentSymbol>, symbols: seq<DocumentSymbol>)
    decreases symbols
  {
    && (forall s :: Known(result, s) <==> Known(symbols, s))
    && (forall r :: r in result ==> exists i :: 0 <= i < |symbols| && FirstAt(r, symbols, i))
  }

  ghost predicate FirstAt(r: DocumentSymbol, symbols: seq<DocumentSymbol>, i: nat)
    requires i < |symbols|
    decreases symbols, 0
  {
    && SameSymbol(r, symbols[i]) && r.detail == symbols[i].detail && !Known(symbols[..i], r)
    && FirstsOf(r.children, symbols[i].children)
  }

  lemma {:induction false} ForestKeepsFirsts(symbols: seq<DocumentSymbol>)
    ensures FirstsOf(KeepFirstForest(symbols), symbols)
    decreases symbols
  {
    forall s
      ensures Known(KeepFirstForest(symbols), s) <==> Known(symbols, s)
    {
      ForestKeepsNames(symbols, s);
    }
    if symbols != [] {
      var front, last := symbols[..|symbols| - 1], symbols[|symbols| - 1];
      ForestKeepsFirsts(front);
      ForestKeepsFirsts(last.children);
      forall r | r in KeepFirstForest(symbols)
        ensures exists i :: 0 <= i < |symbols| && FirstAt(r, symbols, i)
      {
        if r in KeepFirstForest(front) {
          var i :| 0 <= i < |front| && FirstAt(r, front, i);
          assert symbols[..i] == front[..i];
          assert FirstAt(r, symbols, i);
        } else {
          assert FirstAt(r, symbols, |front|);
        }
      }
    }
  }

  lemma KnownAppend(symbols: seq<DocumentSymbol>, x: DocumentSymbol, s: DocumentSymbol)
    ensures Known(symbols + [x], s) <==> Known(symbols, s) || SameSymbol(x, s)
  {
    var all := symbols + [x];
    assert all[|symbols|] == x && forall i :: 0 <= i < |symbols| ==> all[i] == symbols[i];
  }

  lemma {:induction false} ForestIsDistinct(symbols: seq<DocumentSymbol>)
    ensures DistinctForest(KeepFirstForest(symbols))
    decreases symbols
  {
    if symbols != [] {
      var front, last := symbols[..|symbols| - 1], symbols[|symbols| - 1];
      ForestIsDistinct(front);
      ForestIsDistinct(last.children);
      ForestKeepsNames(front, last);
      DistinctAppend(KeepFirstForest(front), last.(children := KeepFirstForest(last.children)), Known(front, last));
    }
  }

  lemma DistinctAppend(symbols: seq<DocumentSymbol>, x: DocumentSymbol, known: bool)
    requires DistinctForest(symbols) && DistinctForest(x.children)
    requires known || !Known(symbols, x)
    ensures !known ==> DistinctForest(symbols + [x])
  {
    var all := symbols + [x];
    assert forall s :: s in all <==> s in symbols || s == x;
  }

  lemma DistinctFront(symbols: seq<DocumentSymbol>)
    requires DistinctForest(symbols) && symbols != []
    ensures var front, last := symbols[..|symbols| - 1], symbols[|symbols| - 1];
            DistinctForest(front) && DistinctForest(last.children) && !Known(front, last)
  {
    var front, last := symbols[..|symbols| - 1], symbols[|symbols| - 1];
    assert last in symbols;
    assert forall s :: s in front ==> s in symbols;
  }

  lemma {:induction false} DistinctForestIsKept(symbols: seq<DocumentSymbol>)
    requires DistinctForest(symbols)
    ensures KeepFirstForest(symbols) == symbols
    decreases symbols
  {
    hide DistinctForest, Known;
    if symbols != [] {
      var front, last := symbols[..|symbols| - 1], symbols[|symbols| - 1];
      DistinctFront(symbols);
      DistinctForestIsKept(front);
      DistinctForestIsKept(last.children);
      assert front + [last] == symbols;
    }
  }

  lemma ForestIdempotent(symbols: seq<DocumentSymbol>)
    ensures KeepFirstForest(KeepFirstForest(symbols)) == KeepFirstForest(symbols)
  {
    ForestIsDistinct(symbols);
    DistinctForestIsKept(KeepFirstForest(symbols));
  }

  lemma {:induction false} ForestOfPrefix(a: seq<DocumentSymbol>, b: seq<DocumentSymbol>)
    ensures KeepFirstForest(a) <= KeepFirstForest(a + b)
    decreases |b|
  {
    if b == [] {
      assert a + b == a;
    } else {
      assert (a + b)[..|a + b| - 1] == a + b[..|b| - 1];
      ForestOfPrefix(a, b[..|b| - 1]);
    }
  }

  // The keys printed for the symbols seen so far.
  ghost predicate KeysOf(seen: set<string>, symbols: seq<DocumentSymbol>) {
    && (forall s :: s in symbols ==> PrintedKey(s.name, s.range) in seen)
    && (forall k :: k in seen ==> exists s :: s in symbols && PrintedKey(s.name, s.range) == k)
  }

  lemma SeenIsKnown(seen: set<string>, symbols: seq<DocumentSymbol>, s: DocumentSymbol)
    requires KeysOf(seen, symbols)
    ensures PrintedKey(s.name, s.range) in seen <==> Known(symbols, s)
    ensures KeysOf(seen + {PrintedKey(s.name, s.range)}, symbols + [s])
  {
    hide PrintedKey;
    if PrintedKey(s.name, s.range) in seen {
      var x :| x in symbols && PrintedKey(x.name, x.range) == PrintedKey(s.name, s.range);
      PrintedKeyInjective(x.name, x.range, s.name, s.range);
    }
    assert forall x :: x in symbols + [s] <==> x in symbols || x == s;
  }

  lemma NothingSeen()
    ensures KeysOf({}, []) && KeepFirstForest([]) == []
  {
  }

  lemma KeepNext(symbols: seq<DocumentSymbol>, i: nat)
    requires i < |symbols|
    ensures symbols[..i + 1] == symbols[..i] + [symbols[i]]
    ensures KeepFirstForest(symbols[..i + 1]) ==
            if Known(symbols[..i], symbols[i]) then KeepFirstForest(symbols[..i])
            else KeepFirstForest(symbols[..i]) + [symbols[i].(children := KeepFirstForest(symbols[i].children))]
  {
    assert symbols[..i + 1][..i] == symbols[..i];
  }

  method DeduplicateDocumentSymbols(symbols: seq<DocumentSymbol>) returns (result: seq<DocumentSymbol>)
    ensures result == KeepFirstForest(symbols)
    decreases symbols
  {
    hide *;
    NothingSeen();
    if |symbols| == 0 {
      return symbols;
    }
    var seen: set<string> := {};
    result := [];
    for i := 0 to |symbols|
      invariant KeysOf(seen, symbols[..i])
      invariant result == KeepFirstForest(symbols[..i])
    {
      var symbol := symbols[i];
      var key := PrintedKey(symbol.name, symbol.range);
      KeepNext(symbols, i);
      SeenIsKnown(seen, symbols[..i], symbol);
      if key !in seen {
        seen := seen + {key};
        if |symbol.children| > 0 {
          var children := DeduplicateDocumentSymbols(symbol.children);
          symbol := symbol.(children := children);
        }
        result := result + [symbol];
      } else {
        assert seen + {key} == seen;
      }
    }
    assert symbols[..|symbols|] == symbols;
  }
}
