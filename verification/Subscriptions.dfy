/**
 mcpserver/resources/subscriptions.go: SubscriptionTracker, two maps of lists that
 mirror each other. The mutex makes each method one atomic step.
 */
module Subscriptions {
  import opened Collections

  // ---------------------------------------------------------------- the tables as values

  type Lists = map<string, seq<string>>

  datatype Tables = Tables(byUri: Lists, byClient: Lists)

  // A missing key reads as the empty list.
  function Get(m: Lists, key: string): seq<string> {
    if key in m then m[key] else []
  }

  function Put(m: Lists, key: string, list: seq<string>): Lists {
    if |list| > 0 then m[key := list] else m - {key}
  }

  function Remove(list: seq<string>, x: string): seq<string> {
    if list == [] then [] else (if list[0] == x then [] else [list[0]]) + Remove(list[1..], x)
  }

  function Subscribed(t: Tables, client: string, uri: string): Tables {
    if client in Get(t.byUri, uri) then t
    else Tables(t.byUri[uri := Get(t.byUri, uri) + [client]], t.byClient[client := Get(t.byClient, client) + [uri]])
  }

  function Unsubscribed(t: Tables, client: string, uri: string): Tables {
    Tables(Put(t.byUri, uri, Remove(Get(t.byUri, uri), client)),
           Put(t.byClient, client, Remove(Get(t.byClient, client), uri)))
  }

  function RemoveFromAll(m: Lists, uris: seq<string>, client: string): Lists
    decreases uris
  {
    if uris == [] then m
    else RemoveFromAll(Put(m, uris[0], Remove(Get(m, uris[0]), client)), uris[1..], client)
  }

  function Disconnected(t: Tables, client: string): Tables {
    Tables(RemoveFromAll(t.byUri, Get(t.byClient, client), client), t.byClient - {client})
  }

  // ---------------------------------------------------------------- one relation, seen from both sides

  // No list is empty and none repeats an entry.
  ghost predicate ProperLists(m: Lists) {
    forall k :: k in m ==> m[k] != [] && NoDuplicates(m[k])
  }

  ghost predicate Mirrored(t: Tables) {
    forall c, u :: c in Get(t.byUri, u) <==> u in Get(t.byClient, c)
  }

  ghost predicate Inverse(t: Tables) {
    ProperLists(t.byUri) && ProperLists(t.byClient) && Mirrored(t)
  }

  type Relation = set<(string, string)>

  // The (client, uri) pairs of the tables.
  ghost function Pairs(t: Tables): Relation {
    set u, c | u in t.byUri && c in t.byUri[u] :: (c, u)
  }

  lemma PairsMember(t: Tables, c: string, u: string)
    ensures (c, u) in Pairs(t) <==> c in Get(t.byUri, u)
  {
  }

  lemma {:induction false} Removed(list: seq<string>, x: string)
    ensures forall y :: y in Remove(list, x) <==> y in list && y != x
    ensures NoDuplicates(list) ==> NoDuplicates(Remove(list, x))
  {
    if list != [] {
      Removed(list[1..], x);
      var rest := Remove(list[1..], x);
      assert forall y :: y in list <==> y == list[0] || y in list[1..];
      if NoDuplicates(list) && list[0] != x {
        assert list[0] !in list[1..];
        assert forall i :: 0 <= i < |rest| ==> rest[i] in list[1..];
      }
    }
  }

  lemma PutRemoved(m: Lists, key: string, x: string)
    requires ProperLists(m)
    ensures var m' := Put(m, key, Remove(Get(m, key), x));
            && ProperLists(m')
            && forall k, y :: y in Get(m', k) <==> y in Get(m, k) && (k != key || y != x)
  {
    Removed(Get(m, key), x);
  }

  lemma Appended(list: seq<string>, x: string)
    requires NoDuplicates(list) && x !in list
    ensures NoDuplicates(list + [x]) && forall y :: y in list + [x] <==> y in list || y == x
  {
  }

  lemma SubscribeRefines(t: Tables, client: string, uri: string)
    requires Inverse(t)
    ensures Inverse(Subscribed(t, client, uri))
    ensures Pairs(Subscribed(t, client, uri)) == Pairs(t) + {(client, uri)}
  {
    var t' := Subscribed(t, client, uri);
    if client !in Get(t.byUri, uri) {
      Appended(Get(t.byUri, uri), client);
      Appended(Get(t.byClient, client), uri);
      forall c, u
        ensures c in Get(t'.byUri, u) <==> u in Get(t'.byClient, c)
      {
        assert c in Get(t.byUri, u) <==> u in Get(t.byClient, c);
      }
    }
    SamePairs(t', Pairs(t) + {(client, uri)});
  }

  lemma SamePairs(t: Tables, r: Relation)
    requires forall c, u :: (c, u) in r <==> c in Get(t.byUri, u)
    ensures Pairs(t) == r
  {
    forall q: (string, string)
      ensures q in Pairs(t) <==> q in r
    {
      PairsMember(t, q.0, q.1);
      assert q == (q.0, q.1);
    }
  }

  lemma UnsubscribeRefines(t: Tables, client: string, uri: string)
    requires Inverse(t)
    ensures Inverse(Unsubscribed(t, client, uri))
    ensures Pairs(Unsubscribed(t, client, uri)) == Pairs(t) - {(client, uri)}
  {
    PutRemoved(t.byUri, uri, client);
    PutRemoved(t.byClient, client, uri);
    SamePairs(Unsubscribed(t, client, uri), Pairs(t) - {(client, uri)});
  }

  // ---------------------------------------------------------------- disconnecting

  function UnsubscribedFrom(t: Tables, client: string, uris: seq<string>): Tables
    decreases uris
  {
    if uris == [] then t else UnsubscribedFrom(Unsubscribed(t, client, uris[0]), client, uris[1..])
  }

  // UnsubscribeAll is Unsubscribe for each of the client's URIs, order of the
  // remaining lists included.
  lemma DisconnectIsUnsubscribingAll(t: Tables, client: string)
    requires Inverse(t)
    ensures Disconnected(t, client) == UnsubscribedFrom(t, client, Get(t.byClient, client))
  {
    UriSide(t, client, Get(t.byClient, client));
    if client in t.byClient {
      ClientSide(t, client, t.byClient[client]);
    } else {
      assert t.byClient - {client} == t.byClient;
    }
  }

  lemma {:induction false} UriSide(t: Tables, client: string, uris: seq<string>)
    ensures UnsubscribedFrom(t, client, uris).byUri == RemoveFromAll(t.byUri, uris, client)
    decreases uris
  {
    if uris != [] {
      UriSide(Unsubscribed(t, client, uris[0]), client, uris[1..]);
    }
  }

  lemma {:induction false} ClientSide(t: Tables, client: string, uris: seq<string>)
    requires uris != [] && NoDuplicates(uris) && Get(t.byClient, client) == uris
    ensures UnsubscribedFrom(t, client, uris).byClient == t.byClient - {client}
    decreases uris
  {
    var rest := uris[1..];
    var t' := Unsubscribed(t, client, uris[0]);
    RemoveHead(uris);
    if rest != [] {
      ClientSide(t', client, rest);
      assert t'.byClient - {client} == t.byClient - {client};
    }
  }

  lemma RemoveHead(list: seq<string>)
    requires list != [] && NoDuplicates(list)
    ensures Remove(list, list[0]) == list[1..]
  {
    RemoveAbsent(list[1..], list[0]);
  }

  lemma {:induction false} RemoveAbsent(list: seq<string>, x: string)
    requires x !in list
    ensures Remove(list, x) == list
  {
    if list != [] {
      RemoveAbsent(list[1..], x);
    }
  }

  lemma {:induction false} UnsubscribingRefines(t: Tables, client: string, uris: seq<string>)
    requires Inverse(t)
    ensures Inverse(UnsubscribedFrom(t, client, uris))
    ensures Pairs(UnsubscribedFrom(t, client, uris)) == set q | q in Pairs(t) && !(q.0 == client && q.1 in uris)
    decreases uris
  {
    if uris != [] {
      UnsubscribeRefines(t, client, uris[0]);
      UnsubscribingRefines(Unsubscribed(t, client, uris[0]), client, uris[1..]);
      assert forall u :: u in uris <==> u == uris[0] || u in uris[1..];
    }
  }

  lemma DisconnectRefines(t: Tables, client: string)
    requires Inverse(t)
    ensures Inverse(Disconnected(t, client))
    ensures Pairs(Disconnected(t, client)) == set q | q in Pairs(t) && q.0 != client
  {
    DisconnectIsUnsubscribingAll(t, client);
    UnsubscribingRefines(t, client, Get(t.byClient, client));
    forall q | q in Pairs(t) && q.0 == client
      ensures q.1 in Get(t.byClient, client)
    {
      PairsMember(t, q.0, q.1);
    }
  }

  // ---------------------------------------------------------------- runs

  datatype Op =
    | Subscribe(client: string, uri: string)
    | Unsubscribe(client: string, uri: string)
    | UnsubscribeAll(client: string)

  function Step(t: Tables, op: Op): Tables {
    match op
    case Subscribe(c, u) => Subscribed(t, c, u)
    case Unsubscribe(c, u) => Unsubscribed(t, c, u)
    case UnsubscribeAll(c) => Disconnected(t, c)
  }

  function Run(ops: seq<Op>): Tables {
    if ops == [] then Tables(map[], map[]) else Step(Run(ops[..|ops| - 1]), ops[|ops| - 1])
  }

  // The same history on a plain set of pairs.
  ghost function RelationAfter(ops: seq<Op>): Relation {
    if ops == [] then {}
    else
      var before := RelationAfter(ops[..|ops| - 1]);
      match ops[|ops| - 1]
      case Subscribe(c, u) => before + {(c, u)}
      case Unsubscribe(c, u) => before - {(c, u)}
      case UnsubscribeAll(c) => set q | q in before && q.0 != c
  }

  // In every reachable state the two maps are inverse views of that set.
  lemma {:induction false} EveryRunIsInverse(ops: seq<Op>)
    ensures Inverse(Run(ops))
    ensures Pairs(Run(ops)) == RelationAfter(ops)
  {
    if ops != [] {
      EveryRunIsInverse(ops[..|ops| - 1]);
      var before := Run(ops[..|ops| - 1]);
      match ops[|ops| - 1]
      case Subscribe(c, u) => SubscribeRefines(before, c, u);
      case Unsubscribe(c, u) => UnsubscribeRefines(before, c, u);
      case UnsubscribeAll(c) => DisconnectRefines(before, c);
    } else {
      SamePairs(Run(ops), {});
    }
  }

  // ---------------------------------------------------------------- the order of the lists

  // The last Subscribe of the history that was not a repetition; -1 if there is none.
  ghost function JoinedAt(ops: seq<Op>, client: string, uri: string): int {
    if ops == [] then -1
    else
      var n := |ops| - 1;
      if ops[n] == Subscribe(client, uri) && (client, uri) !in RelationAfter(ops[..n]) then n
      else JoinedAt(ops[..n], client, uri)
  }

  lemma {:induction false} JoinedBefore(ops: seq<Op>, client: string, uri: string)
    ensures -1 <= JoinedAt(ops, client, uri) < |ops|
  {
    if ops != [] {
      JoinedBefore(ops[..|ops| - 1], client, uri);
    }
  }

  ghost predicate Ascending(list: seq<string>, at: string -> int) {
    forall i, j :: 0 <= i < j < |list| ==> at(list[i]) < at(list[j])
  }

  lemma {:induction false} RemoveKeepsOrder(list: seq<string>, x: string, at: string -> int)
    requires Ascending(list, at)
    ensures Ascending(Remove(list, x), at)
    ensures forall y :: y in Remove(list, x) ==> y in list && y != x
  {
    if list != [] {
      RemoveKeepsOrder(list[1..], x, at);
      var rest := Remove(list[1..], x);
      forall i | 0 <= i < |rest|
        ensures at(list[0]) < at(rest[i])
      {
        assert rest[i] in list[1..];
      }
    }
  }

  // Seen from either side, the lists are in the order in which their pairs joined.
  ghost predicate JoinOrder(t: Tables, at: (string, string) -> int) {
    && (forall u :: Ascending(Get(t.byUri, u), c => at(c, u)))
    && (forall c :: Ascending(Get(t.byClient, c), u => at(c, u)))
  }

  lemma AppendKeepsOrder(list: seq<string>, x: string, at: string -> int, after: string -> int)
    requires Ascending(list, at)
    requires forall y :: y in list ==> after(y) == at(y) < after(x)
    ensures Ascending(list + [x], after)
  {
    forall i, j | 0 <= i < j < |list + [x]|
      ensures after((list + [x])[i]) < after((list + [x])[j])
    {
      assert list[i] in list;
      if j < |list| {
        assert list[j] in list;
      }
    }
  }

  lemma SameAscending(list: seq<string>, at: string -> int, after: string -> int)
    requires Ascending(list, at) && forall y :: y in list ==> after(y) == at(y)
    ensures Ascending(list, after)
  {
    forall i, j | 0 <= i < j < |list|
      ensures after(list[i]) < after(list[j])
    {
      assert list[i] in list && list[j] in list;
    }
  }

  // What joins, if anything, joins behind everything else.
  lemma SubscribedKeepsOrder(t: Tables, client: string, uri: string, at: (string, string) -> int,
                             after: (string, string) -> int)
    requires JoinOrder(t, at) && Mirrored(t)
    requires forall c, u :: if c == client && u == uri && client !in Get(t.byUri, uri)
                            then forall d, v :: d != c || v != u ==> at(d, v) < after(c, u)
                            else after(c, u) == at(c, u)
    ensures JoinOrder(Subscribed(t, client, uri), after)
  {
    var t' := Subscribed(t, client, uri);
    forall u
      ensures Ascending(Get(t'.byUri, u), c => after(c, u))
    {
      assert Ascending(Get(t.byUri, u), c => at(c, u));
      if u == uri && client !in Get(t.byUri, uri) {
        AppendKeepsOrder(Get(t.byUri, u), client, c => at(c, u), c => after(c, u));
      } else {
        SameAscending(Get(t.byUri, u), c => at(c, u), c => after(c, u));
      }
    }
    forall c
      ensures Ascending(Get(t'.byClient, c), u => after(c, u))
    {
      assert Ascending(Get(t.byClient, c), u => at(c, u));
      if c == client && client !in Get(t.byUri, uri) {
        AppendKeepsOrder(Get(t.byClient, c), uri, u => at(c, u), u => after(c, u));
      } else {
        SameAscending(Get(t.byClient, c), u => at(c, u), u => after(c, u));
      }
    }
  }

  lemma UnsubscribedKeepsOrder(t: Tables, client: string, uri: string, at: (string, string) -> int)
    requires JoinOrder(t, at)
    ensures JoinOrder(Unsubscribed(t, client, uri), at)
  {
    var t' := Unsubscribed(t, client, uri);
    RemoveKeepsOrder(Get(t.byUri, uri), client, c => at(c, uri));
    RemoveKeepsOrder(Get(t.byClient, client), uri, u => at(client, u));
    forall u
      ensures Ascending(Get(t'.byUri, u), c => at(c, u))
    {
      assert Ascending(Get(t.byUri, u), c => at(c, u));
    }
    forall c
      ensures Ascending(Get(t'.byClient, c), u => at(c, u))
    {
      assert Ascending(Get(t.byClient, c), u => at(c, u));
    }
  }

  lemma {:induction false} UnsubscribingKeepsOrder(t: Tables, client: string, uris: seq<string>,
                                                   at: (string, string) -> int)
    requires JoinOrder(t, at)
    ensures JoinOrder(UnsubscribedFrom(t, client, uris), at)
    decreases uris
  {
    hide JoinOrder, Unsubscribed;
    if uris != [] {
      UnsubscribedKeepsOrder(t, client, uris[0], at);
      UnsubscribingKeepsOrder(Unsubscribed(t, client, uris[0]), client, uris[1..], at);
    }
  }

  // After any history the subscribers of a URI, and the URIs of a client, come in
  // the order in which they last joined.
  lemma {:induction false} EveryRunKeepsJoinOrder(ops: seq<Op>)
    ensures JoinOrder(Run(ops), (c, u) => JoinedAt(ops, c, u))
  {
    if ops != [] {
      var n := |ops| - 1;
      var before := Run(ops[..n]);
      var at := (c, u) => JoinedAt(ops[..n], c, u);
      var after := (c, u) => JoinedAt(ops, c, u);
      EveryRunKeepsJoinOrder(ops[..n]);
      EveryRunIsInverse(ops[..n]);
      match ops[n]
      case Subscribe(c, u) =>
        Joining(ops, c, u);
        SubscribedKeepsOrder(before, c, u, at, after);
      case Unsubscribe(c, u) =>
        UnsubscribedKeepsOrder(before, c, u, at);
        SameOrder(Run(ops), at, after);
      case UnsubscribeAll(c) =>
        DisconnectIsUnsubscribingAll(before, c);
        UnsubscribingKeepsOrder(before, c, Get(before.byClient, c), at);
        SameOrder(Run(ops), at, after);
    }
  }

  lemma SameOrder(t: Tables, at: (string, string) -> int, after: (string, string) -> int)
    requires JoinOrder(t, at) && forall c, u :: at(c, u) == after(c, u)
    ensures JoinOrder(t, after)
  {
    forall u
      ensures Ascending(Get(t.byUri, u), c => after(c, u))
    {
      assert Ascending(Get(t.byUri, u), c => at(c, u));
    }
    forall c
      ensures Ascending(Get(t.byClient, c), u => after(c, u))
    {
      assert Ascending(Get(t.byClient, c), u => at(c, u));
    }
  }

  // A Subscribe that is not a repetition joins last.
  lemma Joining(ops: seq<Op>, client: string, uri: string)
    requires ops != [] && ops[|ops| - 1] == Subscribe(client, uri)
    ensures var n, t := |ops| - 1, Run(ops[..|ops| - 1]);
            forall c, u :: if c == client && u == uri && client !in Get(t.byUri, uri)
                           then forall d, v :: d != c || v != u ==> JoinedAt(ops[..n], d, v) < JoinedAt(ops, c, u)
                           else JoinedAt(ops, c, u) == JoinedAt(ops[..n], c, u)
  {
    var n := |ops| - 1;
    EveryRunIsInverse(ops[..n]);
    PairsMember(Run(ops[..n]), client, uri);
    forall d, v
      ensures JoinedAt(ops[..n], d, v) < n
    {
      JoinedBefore(ops[..n], d, v);
    }
  }

  // ---------------------------------------------------------------- counting twice

  // Sum of the list lengths over the given keys.
  function TotalOver(m: Lists, keys: seq<string>): nat {
    if keys == [] then 0 else TotalOver(m, keys[..|keys| - 1]) + |Get(m, keys[|keys| - 1])|
  }

  ghost function Column(list: seq<string>, u: string): Relation {
    if list == [] then {} else {(list[0], u)} + Column(list[1..], u)
  }

  lemma {:induction false} ColumnSize(list: seq<string>, u: string)
    requires NoDuplicates(list)
    ensures |Column(list, u)| == |list|
    ensures forall q :: q in Column(list, u) <==> q.1 == u && q.0 in list
  {
    if list != [] {
      ColumnSize(list[1..], u);
      assert forall c :: c in list <==> c == list[0] || c in list[1..];
      assert (list[0], u) !in Column(list[1..], u);
    }
  }

  ghost function PairsOver(t: Tables, keys: seq<string>): Relation {
    set q | q in Pairs(t) && q.1 in keys
  }

  // Counting by URI counts the relation.
  lemma {:induction false} TotalCountsPairs(t: Tables, keys: seq<string>)
    requires Inverse(t) && NoDuplicates(keys)
    ensures TotalOver(t.byUri, keys) == |PairsOver(t, keys)|
  {
    if keys != [] {
      var front, last := keys[..|keys| - 1], keys[|keys| - 1];
      TotalCountsPairs(t, front);
      assert keys == front + [last];
      OneMoreKey(t, front, last);
    } else {
      assert PairsOver(t, keys) == {};
    }
  }

  lemma OneMoreKey(t: Tables, front: seq<string>, last: string)
    requires Inverse(t) && last !in front
    ensures |PairsOver(t, front + [last])| == |PairsOver(t, front)| + |Get(t.byUri, last)|
  {
    var column := Column(Get(t.byUri, last), last);
    ColumnSize(Get(t.byUri, last), last);
    forall q: (string, string)
      ensures q in PairsOver(t, front + [last]) <==> q in PairsOver(t, front) + column
    {
      PairsMember(t, q.0, q.1);
      assert q == (q.0, q.1);
    }
    SizeOfDisjointUnion(PairsOver(t, front + [last]), PairsOver(t, front), column);
  }

  lemma SizeOfDisjointUnion(all: Relation, a: Relation, b: Relation)
    requires a !! b && forall q :: q in all <==> q in a + b
    ensures |all| == |a| + |b|
  {
    assert all == a + b;
  }

  ghost function Clients(r: Relation): set<string> {
    set q | q in r :: q.0
  }

  ghost function Uris(r: Relation): set<string> {
    set q | q in r :: q.1
  }

  // Summed over URIs or over clients, the total is the size of the relation;
  // the two key counts are the sizes of its two projections.
  lemma BothTotalsCountTheRelation(t: Tables, uris: seq<string>, clients: seq<string>)
    requires Inverse(t) && Enumerates(uris, t.byUri) && Enumerates(clients, t.byClient)
    ensures TotalOver(t.byUri, uris) == TotalOver(t.byClient, clients) == |Pairs(t)|
    ensures t.byUri.Keys == Uris(Pairs(t)) && t.byClient.Keys == Clients(Pairs(t))
  {
    var swapped := Tables(t.byClient, t.byUri);
    SwapPairs(t);
    TotalCountsAll(t, uris);
    TotalCountsAll(swapped, clients);
    KeysAreUris(t);
    KeysAreClients(t);
  }

  lemma TotalCountsAll(t: Tables, keys: seq<string>)
    requires Inverse(t) && Enumerates(keys, t.byUri)
    ensures TotalOver(t.byUri, keys) == |Pairs(t)|
  {
    TotalCountsPairs(t, keys);
    assert PairsOver(t, keys) == Pairs(t);
  }

  lemma KeysAreUris(t: Tables)
    requires Inverse(t)
    ensures t.byUri.Keys == Uris(Pairs(t))
  {
    forall u | u in t.byUri
      ensures u in Uris(Pairs(t))
    {
      PairsMember(t, t.byUri[u][0], u);
      assert (t.byUri[u][0], u) in Pairs(t);
    }
  }

  lemma KeysAreClients(t: Tables)
    requires Inverse(t)
    ensures t.byClient.Keys == Clients(Pairs(t))
  {
    forall c | c in t.byClient
      ensures c in Clients(Pairs(t))
    {
      var u := t.byClient[c][0];
      assert c in Get(t.byUri, u) <==> u in Get(t.byClient, c);
      PairsMember(t, c, u);
      assert (c, u) in Pairs(t);
    }
    forall q | q in Pairs(t)
      ensures q.0 in t.byClient
    {
      PairsMember(t, q.0, q.1);
      assert q.0 in Get(t.byUri, q.1) <==> q.1 in Get(t.byClient, q.0);
    }
  }

  lemma SwapPairs(t: Tables)
    requires Inverse(t)
    ensures var swapped := Tables(t.byClient, t.byUri);
            Inverse(swapped) && |Pairs(swapped)| == |Pairs(t)|
            && forall c, u :: (c, u) in Pairs(t) <==> (u, c) in Pairs(swapped)
  {
    var swapped := Tables(t.byClient, t.byUri);
    forall c, u
      ensures (c, u) in Pairs(t) <==> (u, c) in Pairs(swapped)
    {
      PairsMember(t, c, u);
      PairsMember(swapped, u, c);
    }
    SameSize(Pairs(t), Pairs(swapped));
  }

  lemma {:induction false} SameSize(a: Relation, b: Relation)
    requires forall x, y :: (x, y) in a <==> (y, x) in b
    ensures |a| == |b|
    decreases a
  {
    if q :| q in a {
      assert q == (q.0, q.1);
      SameSize(a - {q}, b - {(q.1, q.0)});
    } else {
      assert forall q :: q in b ==> (q.1, q.0) in a;
    }
  }

  // ---------------------------------------------------------------- the code

  lemma RemoveNext(list: seq<string>, i: nat, x: string)
    requires i < |list|
    ensures Remove(list[i..], x) == (if list[i] == x then [] else [list[i]]) + Remove(list[i + 1..], x)
  {
    assert list[i..][0] == list[i] && list[i..][1..] == list[i + 1..];
  }

  method Filtered(list: seq<string>, x: string) returns (filtered: seq<string>)
    ensures filtered == Remove(list, x)
  {
    filtered := [];
    assert list[0..] == list && Remove(list[|list|..], x) == [];
    hide *;
    Regroup([], [], Remove(list, x));
    for i := 0 to |list|
      invariant filtered + Remove(list[i..], x) == Remove(list, x)
    {
      RemoveNext(list, i, x);
      Regroup(filtered, if list[i] == x then [] else [list[i]], Remove(list[i + 1..], x));
      Regroup(filtered, [], []);
      if list[i] != x {
        filtered := filtered + [list[i]];
      }
    }
    Regroup(filtered, [], []);
  }

  class SubscriptionTracker {
    var subscriptions: Lists
    var clientSubscriptions: Lists

    function Value(): Tables
      reads this
    {
      Tables(subscriptions, clientSubscriptions)
    }

    ghost predicate Valid()
      reads this
    {
      Inverse(Value())
    }

    constructor ()
      ensures Valid() && Value() == Run([])
    {
      subscriptions, clientSubscriptions := map[], map[];
    }

    method Subscribe(client: string, uri: string)
      requires Valid()
      modifies this
      ensures Valid() && Value() == Subscribed(old(Value()), client, uri)
      ensures Pairs(Value()) == old(Pairs(Value())) + {(client, uri)}
    {
      SubscribeRefines(Value(), client, uri);
      var clients := Get(subscriptions, uri);
      for i := 0 to |clients|
        invariant client !in clients[..i]
      {
        if clients[i] == client {
          return;
        }
      }
      assert clients[..|clients|] == clients;
      subscriptions := subscriptions[uri := clients + [client]];
      clientSubscriptions := clientSubscriptions[client := Get(clientSubscriptions, client) + [uri]];
    }

    method Unsubscribe(client: string, uri: string)
      requires Valid()
      modifies this
      ensures Valid() && Value() == Unsubscribed(old(Value()), client, uri)
      ensures Pairs(Value()) == old(Pairs(Value())) - {(client, uri)}
    {
      UnsubscribeRefines(Value(), client, uri);
      var filtered := Filtered(Get(subscriptions, uri), client);
      if |filtered| > 0 {
        subscriptions := subscriptions[uri := filtered];
      } else {
        subscriptions := subscriptions - {uri};
      }
      var filteredResources := Filtered(Get(clientSubscriptions, client), uri);
      if |filteredResources| > 0 {
        clientSubscriptions := clientSubscriptions[client := filteredResources];
      } else {
        clientSubscriptions := clientSubscriptions - {client};
      }
    }

    method UnsubscribeAll(client: string)
      requires Valid()
      modifies this
      ensures Valid() && Value() == Disconnected(old(Value()), client)
      ensures Pairs(Value()) == set q | q in old(Pairs(Value())) && q.0 != client
    {
      DisconnectRefines(Value(), client);
      var resources := Get(clientSubscriptions, client);
      for i := 0 to |resources|
        invariant clientSubscriptions == old(clientSubscriptions)
        invariant RemoveFromAll(subscriptions, resources[i..], client) ==
                  RemoveFromAll(old(subscriptions), resources, client)
      {
        assert resources[i..][0] == resources[i] && resources[i..][1..] == resources[i + 1..];
        var filtered := Filtered(Get(subscriptions, resources[i]), client);
        if |filtered| > 0 {
          subscriptions := subscriptions[resources[i] := filtered];
        } else {
          subscriptions := subscriptions - {resources[i]};
        }
      }
      clientSubscriptions := clientSubscriptions - {client};
    }

    method GetSubscribers(uri: string) returns (clients: seq<string>)
      requires Valid()
      ensures clients == Get(Value().byUri, uri)
      ensures NoDuplicates(clients) && forall c :: c in clients <==> (c, uri) in Pairs(Value())
    {
      clients := Get(subscriptions, uri);
    }

    method GetClientSubscriptions(client: string) returns (uris: seq<string>)
      requires Valid()
      ensures uris == Get(Value().byClient, client)
      ensures NoDuplicates(uris) && forall u :: u in uris <==> (client, u) in Pairs(Value())
    {
      uris := Get(clientSubscriptions, client);
      forall u
        ensures u in uris <==> (client, u) in Pairs(Value())
      {
        PairsMember(Value(), client, u);
      }
    }

    method GetStats() returns (totalSubscriptions: nat, uniqueClients: nat, uniqueResources: nat)
      requires Valid()
      ensures totalSubscriptions == |Pairs(Value())|
      ensures uniqueClients == |Clients(Pairs(Value()))|
      ensures uniqueResources == |Uris(Pairs(Value()))|
    {
      uniqueResources := |subscriptions|;
      uniqueClients := |clientSubscriptions|;
      totalSubscriptions := 0;
      var remaining := subscriptions.Keys;
      ghost var counted: seq<string> := [];
      while remaining != {}
        invariant remaining <= subscriptions.Keys
        invariant NoDuplicates(counted) && forall k :: k in counted <==> k in subscriptions && k !in remaining
        invariant totalSubscriptions == TotalOver(subscriptions, counted)
        decreases remaining
      {
        var uri :| uri in remaining;
        totalSubscriptions := totalSubscriptions + |subscriptions[uri]|;
        Appended(counted, uri);
        assert (counted + [uri])[..|counted|] == counted;
        counted := counted + [uri];
        remaining := remaining - {uri};
      }
      ghost var clients := Enumerate(clientSubscriptions.Keys);
      BothTotalsCountTheRelation(Value(), counted, clients);
    }
  }

  ghost function Enumerate(keys: set<string>): (s: seq<string>)
    ensures NoDuplicates(s) && forall k :: k in s <==> k in keys
    decreases keys
  {
    if keys == {} then []
    else
      var k :| k in keys;
      var rest := Enumerate(keys - {k});
      Appended(rest, k);
      rest + [k]
  }
}
