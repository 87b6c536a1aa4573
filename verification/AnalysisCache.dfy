/**
 analysis/cache.go: inMemoryCache. A map of timestamped items that is meant to
 behave as a recency list: least recently used entry first.

 The clock is a parameter of each operation. The mutex makes each one atomic.
 */
module AnalysisCache {
  import opened Collections

  // cacheItem
  datatype Item = Item(value: string, expiresAt: int, accessedAt: int)

  type Items = map<string, Item>

  // ---------------------------------------------------------------- the recency list

  datatype Entry = Entry(key: string, value: string, expiresAt: int)

  function Filter(list: seq<Entry>, keep: Entry -> bool): seq<Entry> {
    if list == [] then [] else (if keep(list[0]) then [list[0]] else []) + Filter(list[1..], keep)
  }

  function Drop(list: seq<Entry>, key: string): seq<Entry> {
    Filter(list, (e: Entry) => e.key != key)
  }

  function Unexpired(list: seq<Entry>, now: int): seq<Entry> {
    Filter(list, (e: Entry) => now <= e.expiresAt)
  }

  function Find(list: seq<Entry>, key: string): Option<Entry> {
    if list == [] then None else if list[0].key == key then Some(list[0]) else Find(list[1..], key)
  }

  datatype Op =
    | Get(key: string, now: int)
    | Set(key: string, value: string, expiresAt: int)
    | Delete(key: string)
    | Clear
    | Tick(now: int)

  datatype State = State(list: seq<Entry>, hits: nat, misses: nat)

  // A full cache drops its least recently used entry first, even when the key to
  // be set is already there and no room is needed.
  function Step(s: State, maxSize: int, op: Op): State {
    match op
    case Get(key, now) =>
      var found := Find(s.list, key);
      if found.None? then s.(misses := s.misses + 1)
      else if now > found.value.expiresAt then s.(list := Drop(s.list, key), misses := s.misses + 1)
      else s.(list := Drop(s.list, key) + [found.value], hits := s.hits + 1)
    case Set(key, value, expiresAt) =>
      var room := if |s.list| >= maxSize && s.list != [] then s.list[1..] else s.list;
      s.(list := Drop(room, key) + [Entry(key, value, expiresAt)])
    case Delete(key) => s.(list := Drop(s.list, key))
    case Clear => s.(list := [])
    case Tick(now) => s.(list := Unexpired(s.list, now))
  }

  function Run(maxSize: int, ops: seq<Op>): State {
    if ops == [] then State([], 0, 0) else Step(Run(maxSize, ops[..|ops| - 1]), maxSize, ops[|ops| - 1])
  }

  // ---------------------------------------------------------------- what every run keeps

  function Keys(list: seq<Entry>): set<string> {
    set e | e in list :: e.key
  }

  ghost predicate DistinctKeys(list: seq<Entry>) {
    forall i, j :: 0 <= i < j < |list| ==> list[i].key != list[j].key
  }

  lemma {:induction false} Filtered(list: seq<Entry>, keep: Entry -> bool)
    ensures forall e :: e in Filter(list, keep) <==> e in list && keep(e)
    ensures |Filter(list, keep)| <= |list|
    ensures DistinctKeys(list) ==> DistinctKeys(Filter(list, keep))
  {
    if list != [] {
      Filtered(list[1..], keep);
      var rest := Filter(list[1..], keep);
      assert forall e :: e in list <==> e == list[0] || e in list[1..];
      if DistinctKeys(list) && keep(list[0]) {
        forall i | 0 <= i < |rest|
          ensures rest[i].key != list[0].key
        {
          assert rest[i] in list[1..];
        }
      }
    }
  }

  lemma Dropped(list: seq<Entry>, key: string)
    ensures forall e :: e in Drop(list, key) <==> e in list && e.key != key
    ensures |Drop(list, key)| <= |list|
    ensures DistinctKeys(list) ==> DistinctKeys(Drop(list, key))
  {
    Filtered(list, (e: Entry) => e.key != key);
  }

  lemma {:induction false} Found(list: seq<Entry>, key: string)
    ensures Find(list, key).Some? ==> Find(list, key).value in list && Find(list, key).value.key == key
    ensures Find(list, key).None? ==> forall e :: e in list ==> e.key != key
    ensures DistinctKeys(list) ==> forall e :: e in list && e.key == key ==> Find(list, key) == Some(e)
  {
    if list != [] {
      Found(list[1..], key);
      assert forall e :: e in list <==> e == list[0] || e in list[1..];
    }
  }

  lemma {:induction false} DroppedIsShorter(list: seq<Entry>, key: string)
    requires Find(list, key).Some?
    ensures |Drop(list, key)| < |list|
  {
    Dropped(list[1..], key);
    if list[0].key != key {
      DroppedIsShorter(list[1..], key);
    }
  }

  function GetCount(ops: seq<Op>): nat {
    if ops == [] then 0 else GetCount(ops[..|ops| - 1]) + if ops[|ops| - 1].Get? then 1 else 0
  }

  // Whether an operation leaves an entry valid: it does not delete or overwrite
  // it, nor notice that it has expired.
  predicate Spared(e: Entry, op: Op) {
    match op
    case Get(key, now) => key == e.key ==> now <= e.expiresAt
    case Set(key, value, expiresAt) => key != e.key
    case Delete(key) => key != e.key
    case Clear => false
    case Tick(now) => now <= e.expiresAt
  }

  // The entry that the history last wrote under a key, if nothing has ended it.
  function LastSet(ops: seq<Op>, key: string): Option<Entry> {
    if ops == [] then None
    else
      var op := ops[|ops| - 1];
      var before := LastSet(ops[..|ops| - 1], key);
      if op.Set? && op.key == key then Some(Entry(key, op.value, op.expiresAt))
      else if before.Some? && Spared(before.value, op) then before
      else None
  }

  function Bound(maxSize: int): nat {
    if maxSize < 1 then 1 else maxSize
  }

  lemma KeptUnexpired(list: seq<Entry>, now: int)
    ensures forall e :: e in Unexpired(list, now) <==> e in list && now <= e.expiresAt
    ensures |Unexpired(list, now)| <= |list|
    ensures DistinctKeys(list) ==> DistinctKeys(Unexpired(list, now))
  {
    Filtered(list, (e: Entry) => now <= e.expiresAt);
  }

  lemma MovedToBack(list: seq<Entry>, e: Entry)
    requires DistinctKeys(list)
    ensures DistinctKeys(Drop(list, e.key) + [e]) && |Drop(list, e.key) + [e]| <= |list| + 1
    ensures forall x :: x in Drop(list, e.key) + [e] <==> x == e || (x in list && x.key != e.key)
  {
    hide Drop;
    Dropped(list, e.key);
    assert forall i :: 0 <= i < |Drop(list, e.key)| ==> Drop(list, e.key)[i] in Drop(list, e.key);
  }

  lemma StepKeeps(s: State, maxSize: int, op: Op)
    requires DistinctKeys(s.list) && |s.list| <= Bound(maxSize)
    ensures DistinctKeys(Step(s, maxSize, op).list) && |Step(s, maxSize, op).list| <= Bound(maxSize)
    ensures forall e :: e in Step(s, maxSize, op).list ==>
              (op.Set? && e == Entry(op.key, op.value, op.expiresAt)) || (e in s.list && Spared(e, op))
  {
    hide Drop, Find, Unexpired;
    match op
    case Get(key, now) =>
      Found(s.list, key);
      Dropped(s.list, key);
      if Find(s.list, key).Some? {
        DroppedIsShorter(s.list, key);
        MovedToBack(s.list, Find(s.list, key).value);
      }
    case Set(key, value, expiresAt) =>
      var room := if |s.list| >= maxSize && s.list != [] then s.list[1..] else s.list;
      assert forall e :: e in room ==> e in s.list;
      MovedToBack(room, Entry(key, value, expiresAt));
    case Delete(key) => Dropped(s.list, key);
    case Clear =>
    case Tick(now) => KeptUnexpired(s.list, now);
  }

  // Never more than maxSize entries (one, if maxSize is not positive), no key
  // twice, every entry the one last Set for its key and not ended since, every
  // Get a hit or a miss.
  lemma {:induction false} EveryRun(maxSize: int, ops: seq<Op>)
    ensures var s := Run(maxSize, ops);
            && |s.list| <= (if maxSize < 1 then 1 else maxSize)
            && DistinctKeys(s.list)
            && (forall e :: e in s.list ==> LastSet(ops, e.key) == Some(e))
            && s.hits + s.misses == GetCount(ops)
  {
    if ops != [] {
      EveryRun(maxSize, ops[..|ops| - 1]);
      StepKeeps(Run(maxSize, ops[..|ops| - 1]), maxSize, ops[|ops| - 1]);
    }
  }

  ghost predicate NeverSet(ops: seq<Op>, key: string) {
    forall i :: 0 <= i < |ops| && ops[i].Set? ==> ops[i].key != key
  }

  lemma NotInRun(maxSize: int, ops: seq<Op>, key: string)
    requires NeverSet(ops, key)
    ensures key !in Keys(Run(maxSize, ops).list)
  {
    EveryRun(maxSize, ops);
    NotLastSet(ops, key);
  }

  lemma {:induction false} NotLastSet(ops: seq<Op>, key: string)
    requires NeverSet(ops, key)
    ensures LastSet(ops, key).None?
  {
    if ops != [] {
      NotLastSet(ops[..|ops| - 1], key);
    }
  }

  // What a Get answers.
  function Answer(s: State, key: string, now: int): Option<string> {
    var found := Find(s.list, key);
    if found.Some? && now <= found.value.expiresAt then Some(found.value.value) else None
  }

  // What the Gets of a run answer, in order.
  function Answers(maxSize: int, ops: seq<Op>): seq<Option<string>> {
    if ops == [] then []
    else
      var before, op := ops[..|ops| - 1], ops[|ops| - 1];
      Answers(maxSize, before) + if op.Get? then [Answer(Run(maxSize, before), op.key, op.now)] else []
  }

  // A hit answers with the value last Set for the key.
  lemma HitReturnsLastSet(maxSize: int, ops: seq<Op>, key: string, now: int)
    ensures var answer := Answer(Run(maxSize, ops), key, now);
            answer.Some? ==> LastSet(ops, key).Some? && now <= LastSet(ops, key).value.expiresAt
                             && answer.value == LastSet(ops, key).value.value
    ensures var s := Run(maxSize, ops);
            var s' := Step(s, maxSize, Get(key, now));
            && (s'.hits == s.hits + 1 <==> Answer(s, key, now).Some?)
            && (s'.hits == s.hits + 1 ==>
                  s'.list != [] && LastSet(ops, key) == Some(s'.list[|s'.list| - 1]))
    ensures var s := Run(maxSize, ops);
            var s' := Step(s, maxSize, Get(key, now));
            s'.hits == s.hits + 1 ==>
              && LastSet(ops, key).Some? && now <= LastSet(ops, key).value.expiresAt
              && s'.list != [] && s'.list[|s'.list| - 1] == LastSet(ops, key).value
  {
    EveryRun(maxSize, ops);
    Found(Run(maxSize, ops).list, key);
  }

  // ---------------------------------------------------------------- how long a recent key survives

  // The run leaves the entry of `key` alone: no delete, no clear, no tick and no
  // read of the key beyond `horizon`, no shorter lifetime written.
  ghost predicate Spares(ops: seq<Op>, key: string, horizon: int) {
    forall i :: 0 <= i < |ops| ==>
      match ops[i]
      case Get(k, now) => k == key ==> now <= horizon
      case Set(k, v, expiresAt) => k == key ==> horizon <= expiresAt
      case Delete(k) => k != key
      case Clear => false
      case Tick(now) => now <= horizon
  }

  // The other keys that the run reads or writes.
  ghost function Touched(ops: seq<Op>, key: string): set<string> {
    set i | 0 <= i < |ops| && (ops[i].Get? || ops[i].Set?) && ops[i].key != key :: ops[i].key
  }

  // `key` is in the list, and all entries behind it are among `others`.
  ghost predicate RecentBut(list: seq<Entry>, key: string, others: set<string>, horizon: int) {
    exists i :: RecentAt(list, i, key, others, horizon)
  }

  ghost predicate RecentAt(list: seq<Entry>, i: int, key: string, others: set<string>, horizon: int) {
    && 0 <= i < |list| && list[i].key == key && horizon <= list[i].expiresAt
    && forall j :: i < j < |list| ==> list[j].key in others
  }

  lemma FilterKeepsRecent(list: seq<Entry>, keep: Entry -> bool, key: string, others: set<string>, horizon: int)
    requires RecentBut(list, key, others, horizon)
    requires forall e: Entry :: e.key == key && horizon <= e.expiresAt ==> keep(e)
    ensures RecentBut(Filter(list, keep), key, others, horizon)
  {
    var i :| RecentAt(list, i, key, others, horizon);
    var k := FilteredPlace(list, keep, i, key, others, horizon);
  }

  lemma {:induction false} FilteredPlace(
      list: seq<Entry>, keep: Entry -> bool, i: int, key: string, others: set<string>, horizon: int) returns (k: int)
    requires RecentAt(list, i, key, others, horizon) && keep(list[i])
    ensures RecentAt(Filter(list, keep), k, key, others, horizon)
  {
    var rest := Filter(list[1..], keep);
    if i == 0 {
      Filtered(list[1..], keep);
      k := 0;
      forall j | 0 <= j < |rest|
        ensures rest[j].key in others
      {
        assert rest[j] in list[1..];
      }
    } else {
      k := FilteredPlace(list[1..], keep, i - 1, key, others, horizon);
      k := k + if keep(list[0]) then 1 else 0;
    }
  }

  lemma AppendKeepsRecent(list: seq<Entry>, e: Entry, key: string, others: set<string>, horizon: int)
    requires if e.key == key then horizon <= e.expiresAt
             else e.key in others && RecentBut(list, key, others, horizon)
    ensures RecentBut(list + [e], key, others, horizon)
  {
    if e.key == key {
      assert RecentAt(list + [e], |list|, key, others, horizon);
    } else {
      var i :| RecentAt(list, i, key, others, horizon);
      assert RecentAt(list + [e], i, key, others, horizon);
    }
  }

  // The head of a full list is not a key with so few entries behind it.
  lemma EvictionSpares(list: seq<Entry>, maxSize: int, key: string, others: set<string>, horizon: int)
    requires RecentBut(list, key, others, horizon) && DistinctKeys(list)
    requires |others| < maxSize - 1 && |list| >= maxSize
    ensures RecentBut(list[1..], key, others, horizon)
  {
    var i :| RecentAt(list, i, key, others, horizon);
    if i == 0 {
      FewKeys(list[1..], others);
    } else {
      assert RecentAt(list[1..], i - 1, key, others, horizon);
    }
  }

  lemma {:induction false} FewKeys(list: seq<Entry>, keys: set<string>)
    requires DistinctKeys(list) && forall j :: 0 <= j < |list| ==> list[j].key in keys
    ensures |list| <= |keys|
  {
    if list != [] {
      FewKeys(list[1..], keys - {list[0].key});
    }
  }

  lemma StepSpares(s: State, maxSize: int, op: Op, key: string, others: set<string>, horizon: int)
    requires RecentBut(s.list, key, others, horizon) && DistinctKeys(s.list) && |others| < maxSize - 1
    requires Spares([op], key, horizon) && Touched([op], key) <= others
    ensures RecentBut(Step(s, maxSize, op).list, key, others, horizon)
    ensures DistinctKeys(Step(s, maxSize, op).list)
  {
    assert [op][0] == op;
    assert (op.Get? || op.Set?) && op.key != key ==> op.key in Touched([op], key);
    match op
    case Get(k, now) => GetSpares(s.list, k, now, key, others, horizon);
    case Set(k, value, expiresAt) =>
      var room := if |s.list| >= maxSize && s.list != [] then s.list[1..] else s.list;
      if |s.list| >= maxSize {
        EvictionSpares(s.list, maxSize, key, others, horizon);
      }
      MoveToBack(room, Entry(k, value, expiresAt), key, others, horizon);
    case Delete(k) =>
      Dropped(s.list, k);
      FilterKeepsRecent(s.list, (e: Entry) => e.key != k, key, others, horizon);
    case Tick(now) =>
      Filtered(s.list, (e: Entry) => now <= e.expiresAt);
      FilterKeepsRecent(s.list, (e: Entry) => now <= e.expiresAt, key, others, horizon);
  }

  lemma MoveToBack(list: seq<Entry>, e: Entry, key: string, others: set<string>, horizon: int)
    requires RecentBut(list, key, others, horizon) && DistinctKeys(list)
    requires if e.key == key then horizon <= e.expiresAt else e.key in others
    ensures RecentBut(Drop(list, e.key) + [e], key, others, horizon)
    ensures DistinctKeys(Drop(list, e.key) + [e])
  {
    Dropped(list, e.key);
    if e.key != key {
      FilterKeepsRecent(list, (x: Entry) => x.key != e.key, key, others, horizon);
    }
    AppendKeepsRecent(Drop(list, e.key), e, key, others, horizon);
  }

  lemma GetSpares(list: seq<Entry>, k: string, now: int, key: string, others: set<string>, horizon: int)
    requires RecentBut(list, key, others, horizon) && DistinctKeys(list)
    requires if k == key then now <= horizon else k in others
    ensures var found := Find(list, k);
            && DistinctKeys(Drop(list, k))
            && (found.Some? && now > found.value.expiresAt ==> RecentBut(Drop(list, k), key, others, horizon))
            && (found.Some? && now <= found.value.expiresAt ==>
                  RecentBut(Drop(list, k) + [found.value], key, others, horizon)
                  && DistinctKeys(Drop(list, k) + [found.value]))
  {
    Found(list, k);
    Dropped(list, k);
    var i :| RecentAt(list, i, key, others, horizon);
    assert list[i] in list;
    var found := Find(list, k);
    if found.Some? {
      if now <= found.value.expiresAt {
        MoveToBack(list, found.value, key, others, horizon);
      } else {
        FilterKeepsRecent(list, (x: Entry) => x.key != k, key, others, horizon);
      }
    }
  }

  // What the recency order is for: a key that has just been used outlives every
  // run that touches fewer than maxSize - 1 other keys.
  lemma {:induction false} RecentKeySurvives(
      s: State, maxSize: int, ops: seq<Op>, key: string, others: set<string>, horizon: int)
    requires RecentBut(s.list, key, others, horizon) && DistinctKeys(s.list)
    requires Spares(ops, key, horizon) && Touched(ops, key) <= others && |others| < maxSize - 1
    ensures key in Keys(RunFrom(s, maxSize, ops).list)
    decreases |ops|
  {
    if ops == [] {
      var i :| RecentAt(s.list, i, key, others, horizon);
      assert s.list[i] in s.list;
    } else {
      assert ops[0] == [ops[0]][0];
      assert Touched([ops[0]], key) <= Touched(ops, key);
      StepSpares(s, maxSize, ops[0], key, others, horizon);
      assert Touched(ops[1..], key) <= Touched(ops, key);
      RecentKeySurvives(Step(s, maxSize, ops[0]), maxSize, ops[1..], key, others, horizon);
    }
  }

  function RunFrom(s: State, maxSize: int, ops: seq<Op>): State
    decreases ops
  {
    if ops == [] then s else RunFrom(Step(s, maxSize, ops[0]), maxSize, ops[1..])
  }

  // One fewer than a least-recently-used cache would promise: fill the cache to
  // its size, then write the newest key again. That run touches maxSize - 1 other
  // keys and the first key is gone, although there is room for all of them.
  lemma OverwritingEvicts(keys: seq<string>, horizon: int)
    requires |keys| >= 2 && NoDuplicates(keys)
    ensures var maxSize, last := |keys|, keys[|keys| - 1];
            var ops := Sets(keys, horizon) + [Set(last, "w", horizon)];
            && Run(maxSize, ops).list == Written(keys[1..|keys| - 1], horizon) + [Entry(last, "w", horizon)]
            && keys[0] !in Keys(Run(maxSize, ops).list)
            && Spares(ops, keys[0], horizon) && Touched(ops, keys[0]) == Elems(keys[1..])
            && |Elems(keys[1..])| == maxSize - 1
  {
    var maxSize, last := |keys|, keys[|keys| - 1];
    var op := Set(last, "w", horizon);
    var ops := Sets(keys, horizon) + [op];
    FillingUp(maxSize, keys, horizon);
    WrittenParts(keys, horizon);
    assert ops[..|ops| - 1] == Sets(keys, horizon) && ops[|ops| - 1] == op;
    DropLastWritten(keys[1..], horizon);
    assert keys[1..][..|keys| - 2] == keys[1..|keys| - 1];
    WhatWasTouched(keys, horizon, op);
    DistinctElems(keys[1..]);
    forall e | e in Run(maxSize, ops).list
      ensures e.key != keys[0]
    {
      if e != Entry(last, "w", horizon) {
        WrittenEntry(keys[1..|keys| - 1], horizon, e);
      }
    }
  }

  function Sets(keys: seq<string>, horizon: int): seq<Op> {
    seq(|keys|, i requires 0 <= i < |keys| => Set(keys[i], "v", horizon))
  }

  function Written(keys: seq<string>, horizon: int): seq<Entry> {
    seq(|keys|, i requires 0 <= i < |keys| => Entry(keys[i], "v", horizon))
  }

  lemma WrittenEntry(keys: seq<string>, horizon: int, e: Entry)
    requires e in Written(keys, horizon)
    ensures e.key in keys
  {
  }

  lemma WrittenParts(keys: seq<string>, horizon: int)
    requires keys != []
    ensures Written(keys, horizon)[1..] == Written(keys[1..], horizon)
    ensures Written(keys, horizon) == Written(keys[..|keys| - 1], horizon) + [Entry(keys[|keys| - 1], "v", horizon)]
    ensures Sets(keys, horizon) == Sets(keys[..|keys| - 1], horizon) + [Set(keys[|keys| - 1], "v", horizon)]
  {
  }

  lemma {:induction false} FillingUp(maxSize: int, keys: seq<string>, horizon: int)
    requires |keys| <= maxSize && NoDuplicates(keys)
    ensures Run(maxSize, Sets(keys, horizon)).list == Written(keys, horizon)
  {
    if keys != [] {
      var fewer := keys[..|keys| - 1];
      var ops := Sets(keys, horizon);
      FillingUp(maxSize, fewer, horizon);
      WrittenParts(keys, horizon);
      assert ops[..|ops| - 1] == Sets(fewer, horizon);
      AllKept(Written(fewer, horizon), keys[|keys| - 1]);
    }
  }

  lemma DropLastWritten(keys: seq<string>, horizon: int)
    requires keys != [] && NoDuplicates(keys)
    ensures Drop(Written(keys, horizon), keys[|keys| - 1]) == Written(keys[..|keys| - 1], horizon)
  {
    var fewer := Written(keys[..|keys| - 1], horizon);
    WrittenParts(keys, horizon);
    DropLast(fewer, Entry(keys[|keys| - 1], "v", horizon));
  }

  lemma {:induction false} DropLast(list: seq<Entry>, last: Entry)
    requires forall i :: 0 <= i < |list| ==> list[i].key != last.key
    ensures Drop(list + [last], last.key) == list
  {
    if list == [] {
      DroppedIsShorter(list + [last], last.key);
    } else {
      assert (list + [last])[1..] == list[1..] + [last];
      DropLast(list[1..], last);
    }
  }

  lemma WhatWasTouched(keys: seq<string>, horizon: int, op: Op)
    requires |keys| >= 2 && NoDuplicates(keys) && op == Set(keys[|keys| - 1], "w", horizon)
    ensures Spares(Sets(keys, horizon) + [op], keys[0], horizon)
    ensures Touched(Sets(keys, horizon) + [op], keys[0]) == Elems(keys[1..])
  {
    var ops := Sets(keys, horizon) + [op];
    forall k | k in keys[1..]
      ensures k in Touched(ops, keys[0])
    {
      var i :| 0 <= i < |keys| - 1 && keys[1..][i] == k;
      assert ops[i + 1] == Set(keys[i + 1], "v", horizon);
    }
    forall i | 0 <= i < |ops| && ops[i].key != keys[0]
      ensures ops[i].key in keys[1..]
    {
      var k := if i < |keys| then i else |keys| - 1;
      assert ops[i].key == keys[k] == keys[1..][k - 1];
    }
  }

  lemma {:induction false} DistinctElems(keys: seq<string>)
    requires NoDuplicates(keys)
    ensures |Elems(keys)| == |keys|
  {
    if keys != [] {
      DistinctElems(keys[1..]);
      assert Elems(keys) == {keys[0]} + Elems(keys[1..]);
    }
  }

  // Writing a key that is present costs no other entry its place if and only if
  // the cache is not full or that key is the next to be evicted.
  lemma OverwritingSparesExactlyWhen(s: State, maxSize: int, key: string, value: string, expiresAt: int)
    requires DistinctKeys(s.list) && key in Keys(s.list)
    ensures (forall e :: e in s.list && e.key != key ==> e in Step(s, maxSize, Set(key, value, expiresAt)).list) <==>
            |s.list| < maxSize || s.list[0].key == key
  {
    var room := if |s.list| >= maxSize && s.list != [] then s.list[1..] else s.list;
    var after := Step(s, maxSize, Set(key, value, expiresAt)).list;
    Dropped(room, key);
    hide Drop;
    assert forall e :: e in after <==> e == Entry(key, value, expiresAt) || (e in room && e.key != key);
    assert forall e :: e in s.list <==> e == s.list[0] || e in s.list[1..];
    assert s.list[0] !in s.list[1..];
  }

  // ---------------------------------------------------------------- eviction

  ghost predicate IsOldest(items: Items, key: string) {
    key in items && forall k :: k in items && k != key ==> items[key].accessedAt < items[k].accessedAt
  }

  // A least recently used key, perhaps one of several with equal access times.
  ghost predicate IsLeastRecent(items: Items, key: string) {
    key in items && forall k :: k in items ==> items[key].accessedAt <= items[k].accessedAt
  }

  ghost predicate DistinctTimes(items: Items) {
    forall k, l :: k in items && l in items && k != l ==> items[k].accessedAt != items[l].accessedAt
  }

  // The empty key is the last one visited, and older than all others.
  ghost predicate EmptyKeyWinsLast(items: Items, order: seq<string>) {
    && order != [] && order[|order| - 1] == ""
    && forall k :: k in order && k in items && "" in items && k != "" ==> items[""].accessedAt < items[k].accessedAt
  }

  lemma VisitedNext(order: seq<string>, key: string)
    ensures forall k :: k in order + [key] <==> k in order || k == key
    ensures (order + [key])[|order + [key]| - 1] == key
    ensures order != [] ==> order[|order| - 1] in order
  {
  }

  // The scan that marks "nothing chosen yet" by the empty key. It removes the
  // one least recently used item if and only if that item's key is not empty,
  // whatever order the map is visited in; without an empty key it removes one of
  // the least recently used items. It removes nothing if and only if there is
  // nothing, or the empty key is the oldest and happens to be visited last.
  method EvictLRU(items: Items) returns (rest: Items, ghost order: seq<string>)
    ensures Enumerates(order, items)
    ensures rest == items <==> items == map[] || EmptyKeyWinsLast(items, order)
    ensures forall lru :: IsOldest(items, lru) ==> (rest == items - {lru} <==> lru != "")
    ensures rest == items || exists k :: k in items && k != "" && rest == items - {k}
    ensures items.Keys <= {""} ==> rest == items
    ensures "" !in items && items != map[] ==> exists k :: IsLeastRecent(items, k) && rest == items - {k}
  {
    var oldestKey, oldestTime := "", 0;
    var remaining := items.Keys;
    order := [];
    while remaining != {}
      invariant remaining <= items.Keys
      invariant NoDuplicates(order) && forall k :: k in order <==> k in items && k !in remaining
      invariant oldestKey != "" ==> oldestKey in order && oldestKey in items
      invariant oldestKey != "" ==> oldestTime == items[oldestKey].accessedAt
      invariant oldestKey == "" <==> order == [] || EmptyKeyWinsLast(items, order)
      invariant forall lru :: IsOldest(items, lru) && lru != "" && lru !in remaining ==> oldestKey == lru
      invariant "" !in order ==> forall k :: k in order ==> oldestTime <= items[k].accessedAt
      decreases remaining
    {
      var key :| key in remaining;
      if oldestKey == "" || items[key].accessedAt < oldestTime {
        oldestKey := key;
        oldestTime := items[key].accessedAt;
      }
      remaining := remaining - {key};
      VisitedNext(order, key);
      order := order + [key];
    }
    rest := items;
    if oldestKey != "" {
      rest := rest - {oldestKey};
    }
    assert "" !in items - {""};
    assert "" !in items && items != map[] ==> IsLeastRecent(items, oldestKey);
  }

  // ---------------------------------------------------------------- the code

  // The map and the list agree: same keys, same values, access times in list order.
  ghost predicate Refines(items: Items, list: seq<Entry>) {
    && DistinctKeys(list)
    && (forall i :: 0 <= i < |list| ==>
          list[i].key in items && items[list[i].key].value == list[i].value
          && items[list[i].key].expiresAt == list[i].expiresAt)
    && (forall i, j :: 0 <= i < j < |list| ==> items[list[i].key].accessedAt <= items[list[j].key].accessedAt)
    && items.Keys == Keys(list)
  }

  lemma RefinesKeys(items: Items, list: seq<Entry>)
    requires Refines(items, list)
    ensures |items| == |list| && items.Keys == Keys(list) && DistinctKeys(list)
  {
    KeyCount(list);
  }

  lemma {:induction false} KeyCount(list: seq<Entry>)
    requires DistinctKeys(list)
    ensures |Keys(list)| == |list|
  {
    if list != [] {
      KeyCount(list[1..]);
      assert forall e :: e in list <==> e == list[0] || e in list[1..];
      assert Keys(list) == {list[0].key} + Keys(list[1..]);
    }
  }

  lemma HeadIsLeastRecent(items: Items, list: seq<Entry>)
    requires Refines(items, list) && list != []
    ensures IsLeastRecent(items, list[0].key)
    ensures DistinctTimes(items) ==> IsOldest(items, list[0].key)
    ensures Drop(list, list[0].key) == list[1..]
  {
    assert list[0] in list;
    forall k | k in items
      ensures items[list[0].key].accessedAt <= items[k].accessedAt
    {
      var i :| 0 <= i < |list| && list[i].key == k;
    }
    DropHead(list);
  }

  // Leaving entries out keeps the agreement with what is left of the map.
  lemma {:induction false} FilterRefines(items: Items, list: seq<Entry>, keep: Entry -> bool)
    requires Refines(items, list)
    ensures var kept := Filter(list, keep);
            Refines(map k | k in items && (exists e :: e in kept && e.key == k) :: items[k], kept)
  {
    var kept := Filter(list, keep);
    Filtered(list, keep);
    FilterInOrder(items, list, keep);
    forall i | 0 <= i < |kept|
      ensures kept[i].key in items && items[kept[i].key].value == kept[i].value
              && items[kept[i].key].expiresAt == kept[i].expiresAt
    {
      assert kept[i] in list;
    }
  }

  lemma {:induction false} FilterInOrder(items: Items, list: seq<Entry>, keep: Entry -> bool)
    requires forall i :: 0 <= i < |list| ==> list[i].key in items
    requires forall i, j :: 0 <= i < j < |list| ==> items[list[i].key].accessedAt <= items[list[j].key].accessedAt
    ensures forall i :: 0 <= i < |Filter(list, keep)| ==> Filter(list, keep)[i].key in items
    ensures forall i, j :: 0 <= i < j < |Filter(list, keep)| ==>
              items[Filter(list, keep)[i].key].accessedAt <= items[Filter(list, keep)[j].key].accessedAt
  {
    if list != [] {
      var rest := Filter(list[1..], keep);
      FilterInOrder(items, list[1..], keep);
      Filtered(list[1..], keep);
      forall j | 0 <= j < |rest|
        ensures items[list[0].key].accessedAt <= items[rest[j].key].accessedAt
      {
        assert rest[j] in list[1..];
      }
    }
  }

  lemma DropRefines(items: Items, list: seq<Entry>, key: string)
    requires Refines(items, list)
    ensures Refines(items - {key}, Drop(list, key))
  {
    FilterRefines(items, list, (e: Entry) => e.key != key);
    var kept := map k | k in items && (exists e :: e in Drop(list, key) && e.key == k) :: items[k];
    forall k | k in items
      ensures k in kept <==> k != key
    {
      EntryDropped(items, list, key, k);
    }
    hide Refines;
    assert kept == items - {key};
  }

  lemma EntryDropped(items: Items, list: seq<Entry>, key: string, k: string)
    requires Refines(items, list) && k in items
    ensures (exists e :: e in Drop(list, key) && e.key == k) <==> k != key
  {
    Dropped(list, key);
    var e :| e in list && e.key == k;
  }

  lemma AppendRefines(items: Items, list: seq<Entry>, key: string, item: Item)
    requires Refines(items - {key}, list)
    requires forall k :: k in items ==> items[k].accessedAt <= item.accessedAt
    ensures Refines(items[key := item], list + [Entry(key, item.value, item.expiresAt)])
  {
    var e := Entry(key, item.value, item.expiresAt);
    forall i | 0 <= i < |list|
      ensures list[i].key in items && list[i].key != key
    {
      assert list[i].key in items - {key};
    }
    assert forall x :: x in list + [e] <==> x in list || x == e;
    assert Keys(list + [e]) == Keys(list) + {key};
  }

  lemma FindRefines(items: Items, list: seq<Entry>, key: string)
    requires Refines(items, list)
    ensures Find(list, key) ==
            if key in items then Some(Entry(key, items[key].value, items[key].expiresAt)) else None
  {
    Found(list, key);
    if key in items {
      var e :| e in list && e.key == key;
    }
    if Find(list, key).Some? {
      assert Find(list, key).value.key in Keys(list);
    }
  }

  lemma DropHead(list: seq<Entry>)
    requires list != [] && DistinctKeys(list)
    ensures Drop(list, list[0].key) == list[1..]
  {
    AllKept(list[1..], list[0].key);
  }

  lemma {:induction false} AllKept(list: seq<Entry>, key: string)
    requires forall i :: 0 <= i < |list| ==> list[i].key != key
    ensures Drop(list, key) == list
  {
    if list != [] {
      AllKept(list[1..], key);
    }
  }

  // What an eviction may leave, whatever the access times and keys.
  ghost predicate MayRemain(list: seq<Entry>, room: seq<Entry>) {
    room == list || exists k :: k in Keys(list) && k != "" && room == Drop(list, k)
  }

  lemma HeadIsHeld(items: Items, list: seq<Entry>)
    requires Refines(items, list)
    ensures "" !in items && list != [] ==> list[0].key != ""
  {
  }

  // A stamp later than all others is different from them.
  lemma StampedLast(items: Items, key: string, item: Item)
    requires forall k :: k in items ==> items[k].accessedAt < item.accessedAt
    ensures DistinctTimes(items) ==> DistinctTimes(items[key := item])
  {
  }

  lemma FewerTimes(items: Items, fewer: Items)
    requires fewer.Keys <= items.Keys && forall k :: k in fewer ==> fewer[k] == items[k]
    ensures DistinctTimes(items) ==> DistinctTimes(fewer)
  {
  }

  lemma SameRemoved(items: Items, k: string)
    requires k in items
    ensures forall l :: items - {l} == items - {k} && l in items ==> l == k
  {
    forall l | l in items && items - {l} == items - {k}
      ensures l == k
    {
      assert l !in items - {l};
    }
  }

  // Zero stands for the default.
  function Lifetime(ttl: int, defaultTTL: int): int {
    if ttl == 0 then defaultTTL else ttl
  }

  class InMemoryCache {
    var items: Items
    var hits: nat
    var misses: nat
    var size: nat
    const maxSize: int
    const ttl: int
    ghost var list: seq<Entry>  // the entries, least recently used first
    ghost var clock: int        // the latest access time

    ghost predicate Consistent()
      reads this
    {
      && Refines(items, list)
      && (forall k :: k in items ==> items[k].accessedAt <= clock)
    }

    // Between operations the recorded size is the number of items.
    ghost predicate Valid()
      reads this
    {
      Consistent() && size == |items|
    }

    ghost function Abstract(): State
      reads this
    {
      State(list, hits, misses)
    }

    constructor (maxSize: int, defaultTTL: int, ghost now: int)
      ensures Valid() && Abstract() == Run(maxSize, []) && items == map[] && clock == now
      ensures this.maxSize == maxSize && ttl == defaultTTL
    {
      items, hits, misses, size := map[], 0, 0, 0;
      this.maxSize, this.ttl := maxSize, defaultTTL;
      list, clock := [], now;
    }

    // A key that no Set of the history names is not in the map.
    lemma NeverSetNeverHeld(ops: seq<Op>, key: string)
      requires Valid() && Abstract() == Run(maxSize, ops) && NeverSet(ops, key)
      ensures key !in items
    {
      NotInRun(maxSize, ops, key);
    }

    // `now` is the reading compared with the expiry, `later` the one stored. The
    // clock never runs backwards.
    method Get(key: string, now: int, later: int) returns (result: Option<string>)
      requires Valid() && clock <= later
      modifies this
      ensures Valid() && clock <= later
      ensures Abstract() == Step(old(Abstract()), maxSize, Op.Get(key, now))
      ensures result == Answer(old(Abstract()), key, now)
      ensures result.Some? <==> hits == old(hits) + 1
      ensures result.Some? ==> list != [] && list[|list| - 1].key == key && list[|list| - 1].value == result.value
      ensures old(DistinctTimes(items)) && old(clock) < later ==> DistinctTimes(items)
    {
      hide Refines, Drop, Find, DistinctTimes;
      FindRefines(items, list, key);
      if key !in items {
        misses := misses + 1;
        return None;
      }
      var item := items[key];
      DropRefines(items, list, key);
      if now > item.expiresAt {
        FewerTimes(items, items - {key});
        items := items - {key};
        list := Drop(list, key);
        size := |items|;
        misses := misses + 1;
        return None;
      }
      AppendRefines(items, Drop(list, key), key, item.(accessedAt := later));
      if clock < later {
        StampedLast(items, key, item.(accessedAt := later));
      }
      items := items[key := item.(accessedAt := later)];
      list := Drop(list, key) + [Entry(key, item.value, item.expiresAt)];
      clock := later;
      hits := hits + 1;
      result := Some(item.value);
    }

    // The first half of Set. Should the empty key be the least recently used one,
    // some other entry goes instead, or none; of several with one access time, any.
    method EvictIfFull()
      requires Valid()
      modifies this
      ensures Consistent() && clock == old(clock) && hits == old(hits) && misses == old(misses)
      ensures |old(list)| < maxSize || old(list) == [] ==> list == old(list)
      ensures |old(list)| >= maxSize && old(list) != [] && "" !in old(items) ==>
                exists k :: IsLeastRecent(old(items), k) && list == Drop(old(list), k)
      ensures |old(list)| >= maxSize && old(list) != [] && old(list)[0].key != "" && old(DistinctTimes(items)) ==>
                list == old(list)[1..]
      ensures MayRemain(old(list), list) && items.Keys <= old(items.Keys)
      ensures old(DistinctTimes(items)) ==> DistinctTimes(items)
    {
      hide Refines, Drop;
      RefinesKeys(items, list);
      if |items| >= maxSize {
        ghost var before := items;
        ghost var order;
        items, order := EvictLRU(items);
        if list != [] {
          HeadIsLeastRecent(before, list);
        }
        if items != before {
          ghost var k :| k in before && k != "" && items == before - {k};
          DropRefines(before, list, k);
          SameRemoved(before, k);
          list := Drop(list, k);
        }
      }
    }

    // For a caller that never sets the empty key and whose clock advances from
    // one access to the next, a Set is a Set of the list.
    method Set(key: string, value: string, ttl: int, now: int, later: int)
      requires Valid() && clock <= later
      modifies this
      ensures Valid() && clock <= later
      ensures var op := Op.Set(key, value, now + Lifetime(ttl, this.ttl));
              |old(list)| < maxSize || old(list) == [] || (old(list)[0].key != "" && old(DistinctTimes(items))) ==>
                Abstract() == Step(old(Abstract()), maxSize, op)
      ensures var op := Op.Set(key, value, now + Lifetime(ttl, this.ttl));
              "" !in old(items) && old(DistinctTimes(items)) ==> Abstract() == Step(old(Abstract()), maxSize, op)
      ensures var e := Entry(key, value, now + Lifetime(ttl, this.ttl));
              |old(list)| >= maxSize && old(list) != [] && "" !in old(items) ==>
                exists k :: IsLeastRecent(old(items), k)
                  && Abstract() == State(Drop(Drop(old(list), k), key) + [e], old(hits), old(misses))
      ensures var e := Entry(key, value, now + Lifetime(ttl, this.ttl));
              exists room :: MayRemain(old(list), room)
                && Abstract() == State(Drop(room, key) + [e], old(hits), old(misses))
      ensures items.Keys <= old(items.Keys) + {key}
      ensures old(DistinctTimes(items)) && old(clock) < later ==> DistinctTimes(items)
    {
      hide Refines, Drop, MayRemain, IsLeastRecent, DistinctTimes;
      HeadIsHeld(items, list);
      var lifetime := Lifetime(ttl, this.ttl);
      EvictIfFull();
      DropRefines(items, list, key);
      AppendRefines(items, Drop(list, key), key, Item(value, now + lifetime, later));
      if clock < later {
        StampedLast(items, key, Item(value, now + lifetime, later));
      }
      items := items[key := Item(value, now + lifetime, later)];
      list := Drop(list, key) + [Entry(key, value, now + lifetime)];
      clock := later;
      size := |items|;
    }

    method Delete(key: string)
      requires Valid()
      modifies this
      ensures Valid() && clock == old(clock)
      ensures Abstract() == Step(old(Abstract()), maxSize, Op.Delete(key))
      ensures old(DistinctTimes(items)) ==> DistinctTimes(items)
    {
      hide Refines, Drop;
      DropRefines(items, list, key);
      items := items - {key};
      list := Drop(list, key);
      size := |items|;
    }

    method Clear()
      requires Valid()
      modifies this
      ensures Valid() && clock == old(clock)
      ensures Abstract() == Step(old(Abstract()), maxSize, Op.Clear)
      ensures old(DistinctTimes(items)) ==> DistinctTimes(items)
    {
      items := map[];
      list := [];
      size := 0;
    }

    // One tick of the cleanup goroutine.
    method CleanupTick(now: int)
      requires Valid()
      modifies this
      ensures Valid() && clock == old(clock)
      ensures Abstract() == Step(old(Abstract()), maxSize, Tick(now))
      ensures old(DistinctTimes(items)) ==> DistinctTimes(items)
    {
      hide Refines, Unexpired;
      UnexpiredRefines(items, list, now);
      items := DeleteExpired(items, now);
      list := Unexpired(list, now);
      size := |items|;
    }
  }

  // ---------------------------------------------------------------- whole runs of the code

  // A call with its clock readings.
  datatype Call =
    | CallGet(key: string, now: int, later: int)
    | CallSet(key: string, value: string, ttl: int, now: int, later: int)
    | CallDelete(key: string)
    | CallClear
    | CallTick(now: int)

  function OpOf(call: Call, defaultTTL: int): Op {
    match call
    case CallGet(key, now, later) => Get(key, now)
    case CallSet(key, value, ttl, now, later) => Set(key, value, now + Lifetime(ttl, defaultTTL))
    case CallDelete(key) => Delete(key)
    case CallClear => Clear
    case CallTick(now) => Tick(now)
  }

  function OpsOf(calls: seq<Call>, defaultTTL: int): seq<Op> {
    seq(|calls|, i requires 0 <= i < |calls| => OpOf(calls[i], defaultTTL))
  }

  predicate IsAccess(call: Call) {
    call.CallGet? || call.CallSet?
  }

  // No access is stamped earlier than the start or than an access before it.
  ghost predicate ClockForward(calls: seq<Call>, start: int) {
    && (forall i :: 0 <= i < |calls| && IsAccess(calls[i]) ==> start <= calls[i].later)
    && forall i, j :: 0 <= i < j < |calls| && IsAccess(calls[i]) && IsAccess(calls[j]) ==>
                        calls[i].later <= calls[j].later
  }

  // No two accesses have the same stamp.
  ghost predicate ClockAdvances(calls: seq<Call>, start: int) {
    && (forall i :: 0 <= i < |calls| && IsAccess(calls[i]) ==> start < calls[i].later)
    && forall i, j :: 0 <= i < j < |calls| && IsAccess(calls[i]) && IsAccess(calls[j]) ==>
                        calls[i].later < calls[j].later
  }

  ghost predicate SetsNoEmptyKey(calls: seq<Call>) {
    forall i :: 0 <= i < |calls| && calls[i].CallSet? ==> calls[i].key != ""
  }

  // What is not a Set brings no key in.
  lemma StepShrinks(s: State, maxSize: int, op: Op)
    requires DistinctKeys(s.list) && !op.Set?
    ensures Keys(Step(s, maxSize, op).list) <= Keys(s.list) && |Step(s, maxSize, op).list| <= |s.list|
  {
    hide Drop, Find, Unexpired;
    match op
    case Get(key, now) =>
      Found(s.list, key);
      Dropped(s.list, key);
      if Find(s.list, key).Some? {
        DroppedIsShorter(s.list, key);
      }
    case Delete(key) => Dropped(s.list, key);
    case Clear =>
    case Tick(now) => KeptUnexpired(s.list, now);
  }

  // A Set without an empty key around keeps the bound, whichever entry goes.
  lemma SetKeepsBound(items: Items, s: State, maxSize: int, key: string, e: Entry, after: State)
    requires DistinctKeys(s.list) && items.Keys == Keys(s.list)
    requires |s.list| >= maxSize && s.list != [] ==>
               exists k :: IsLeastRecent(items, k)
                 && after == State(Drop(Drop(s.list, k), key) + [e], s.hits, s.misses)
    requires exists room :: MayRemain(s.list, room) && after == State(Drop(room, key) + [e], s.hits, s.misses)
    ensures |s.list| <= Bound(maxSize) ==> |after.list| <= Bound(maxSize)
  {
    if |s.list| >= maxSize && s.list != [] {
      var k :| IsLeastRecent(items, k) && after == State(Drop(Drop(s.list, k), key) + [e], s.hits, s.misses);
      Found(s.list, k);
      DroppedIsShorter(s.list, k);
      Dropped(Drop(s.list, k), key);
    } else {
      var room :| MayRemain(s.list, room) && after == State(Drop(room, key) + [e], s.hits, s.misses);
      RemainsNoMore(s.list, room, key);
    }
  }

  lemma RemainsNoMore(list: seq<Entry>, room: seq<Entry>, key: string)
    requires MayRemain(list, room)
    ensures |Drop(room, key)| <= |list|
  {
    Dropped(room, key);
    if k :| k in Keys(list) && k != "" && room == Drop(list, k) {
      Dropped(list, k);
    }
  }

  method PerformSet(cache: InMemoryCache, key: string, value: string, ttl: int, now: int, later: int)
    requires cache.Valid() && cache.clock <= later
    modifies cache
    ensures cache.Valid() && cache.clock <= later
    ensures key != "" && "" !in old(cache.items) ==>
              "" !in cache.items && (old(cache.size) <= Bound(cache.maxSize) ==> cache.size <= Bound(cache.maxSize))
    ensures var op := Op.Set(key, value, now + Lifetime(ttl, cache.ttl));
            "" !in old(cache.items) && old(DistinctTimes(cache.items)) ==>
              cache.Abstract() == Step(old(cache.Abstract()), cache.maxSize, op)
    ensures old(DistinctTimes(cache.items)) && old(cache.clock) < later ==> DistinctTimes(cache.items)
  {
    ghost var before, items := cache.Abstract(), cache.items;
    RefinesKeys(items, before.list);
    hide Refines, DistinctTimes, Drop, MayRemain, IsLeastRecent, Step, Keys, DistinctKeys, Lifetime;
    cache.Set(key, value, ttl, now, later);
    RefinesKeys(cache.items, cache.list);
    if "" !in items {
      var e := Entry(key, value, now + Lifetime(ttl, cache.ttl));
      SetKeepsBound(items, before, cache.maxSize, key, e, cache.Abstract());
    }
  }

  method Perform(cache: InMemoryCache, call: Call) returns (answer: seq<Option<string>>)
    requires cache.Valid() && (IsAccess(call) ==> cache.clock <= call.later)
    modifies cache
    ensures cache.Valid()
    ensures cache.clock == old(cache.clock) || (IsAccess(call) && cache.clock <= call.later)
    ensures (call.CallSet? ==> call.key != "") && "" !in old(cache.items) ==>
              "" !in cache.items
              && (old(cache.size) <= Bound(cache.maxSize) ==> cache.size <= Bound(cache.maxSize))
              && (old(DistinctTimes(cache.items)) ==>
                    cache.Abstract() == Step(old(cache.Abstract()), cache.maxSize, OpOf(call, cache.ttl)))
    ensures old(DistinctTimes(cache.items)) && (IsAccess(call) ==> old(cache.clock) < call.later) ==>
              DistinctTimes(cache.items)
    ensures answer == if call.CallGet? then [Answer(old(cache.Abstract()), call.key, call.now)] else []
  {
    hide DistinctTimes, Step, Answer, Refines;
    RefinesKeys(cache.items, cache.list);
    if call.CallSet? {
      PerformSet(cache, call.key, call.value, call.ttl, call.now, call.later);
      return [];
    }
    ghost var before := cache.Abstract();
    StepShrinks(before, cache.maxSize, OpOf(call, cache.ttl));
    answer := [];
    match call {
      case CallGet(key, now, later) =>
        var result := cache.Get(key, now, later);
        answer := [result];
      case CallDelete(key) => cache.Delete(key);
      case CallClear => cache.Clear();
      case CallTick(now) => cache.CleanupTick(now);
    }
    RefinesKeys(cache.items, cache.list);
  }

  // Every history that never sets the empty key stays within the bound, equal
  // stamps included; with distinct stamps it is the run of the recency list, and
  // answers as that run does.
  method PerformAll(maxSize: int, defaultTTL: int, calls: seq<Call>, start: int)
    returns (cache: InMemoryCache, answers: seq<Option<string>>)
    requires ClockForward(calls, start)
    ensures fresh(cache) && cache.Valid() && cache.maxSize == maxSize
    ensures SetsNoEmptyKey(calls) ==> "" !in cache.items && |cache.items| <= (if maxSize < 1 then 1 else maxSize)
    ensures SetsNoEmptyKey(calls) && ClockAdvances(calls, start) ==>
              cache.Abstract() == Run(maxSize, OpsOf(calls, defaultTTL))
              && answers == Answers(maxSize, OpsOf(calls, defaultTTL))
  {
    hide Refines, DistinctTimes, Run, Answers, Answer, Step, OpsOf, OpOf, Keys;
    NoCalls(maxSize, calls, defaultTTL);
    cache := new InMemoryCache(maxSize, defaultTTL, start);
    answers := [];
    var i := 0;
    while i < |calls|
      invariant 0 <= i <= |calls|
      invariant fresh(cache) && cache.Valid() && cache.maxSize == maxSize && cache.ttl == defaultTTL
      invariant forall j :: i <= j < |calls| && IsAccess(calls[j]) ==> cache.clock <= calls[j].later
      invariant ClockAdvances(calls, start) ==>
                  forall j :: i <= j < |calls| && IsAccess(calls[j]) ==> cache.clock < calls[j].later
      invariant SetsNoEmptyKey(calls) ==> "" !in cache.items && cache.size <= Bound(maxSize)
      invariant ClockAdvances(calls, start) ==> DistinctTimes(cache.items)
      invariant SetsNoEmptyKey(calls) && ClockAdvances(calls, start) ==>
                  cache.Abstract() == Run(maxSize, OpsOf(calls[..i], defaultTTL))
                  && answers == Answers(maxSize, OpsOf(calls[..i], defaultTTL))
    {
      NextCall(maxSize, calls, i, defaultTTL);
      var answer := Perform(cache, calls[i]);
      answers := answers + answer;
      i := i + 1;
    }
    assert calls[..i] == calls;
  }

  lemma NoCalls(maxSize: int, calls: seq<Call>, defaultTTL: int)
    ensures Run(maxSize, OpsOf(calls[..0], defaultTTL)) == Run(maxSize, [])
    ensures Answers(maxSize, OpsOf(calls[..0], defaultTTL)) == []
    ensures DistinctTimes(map[]) && |Run(maxSize, []).list| == 0 && 0 <= Bound(maxSize)
  {
  }

  lemma NextCall(maxSize: int, calls: seq<Call>, i: nat, defaultTTL: int)
    requires i < |calls|
    ensures var before, after := OpsOf(calls[..i], defaultTTL), OpsOf(calls[..i + 1], defaultTTL);
            && Run(maxSize, after) == Step(Run(maxSize, before), maxSize, OpOf(calls[i], defaultTTL))
            && Answers(maxSize, after) == Answers(maxSize, before) +
               if calls[i].CallGet? then [Answer(Run(maxSize, before), calls[i].key, calls[i].now)] else []
  {
    var before, after := OpsOf(calls[..i], defaultTTL), OpsOf(calls[..i + 1], defaultTTL);
    assert after == before + [OpOf(calls[i], defaultTTL)];
    assert after[..|after| - 1] == before;
  }

  // ---------------------------------------------------------------- what a Set is for

  lemma {:induction false} RunOn(maxSize: int, a: seq<Op>, b: seq<Op>)
    ensures Run(maxSize, a + b) == RunFrom(Run(maxSize, a), maxSize, b)
    decreases b
  {
    if b == [] {
      assert a + b == a;
    } else {
      var once := a + [b[0]];
      assert once[..|once| - 1] == a && once[|once| - 1] == b[0];
      assert a + b == once + b[1..];
      RunOn(maxSize, once, b[1..]);
    }
  }

  // What was last set for a key is forgotten or stays, until the key is set again.
  lemma {:induction false} LastSetStays(a: seq<Op>, b: seq<Op>, key: string)
    requires NeverSet(b, key)
    ensures LastSet(a + b, key).Some? ==> LastSet(a + b, key) == LastSet(a, key)
    decreases |b|
  {
    if b == [] {
      assert a + b == a;
    } else {
      assert (a + b)[..|a + b| - 1] == a + b[..|b| - 1] && (a + b)[|a + b| - 1] == b[|b| - 1];
      LastSetStays(a, b[..|b| - 1], key);
    }
  }

  // A key that is written and then not written again: the entry, if it is there.
  lemma EntryAfterSet(maxSize: int, before: seq<Op>, e: Entry, after: seq<Op>)
    requires NeverSet(after, e.key)
    ensures var found := Find(Run(maxSize, before + [Set(e.key, e.value, e.expiresAt)] + after).list, e.key);
            found.None? || found == Some(e)
  {
    var written := before + [Set(e.key, e.value, e.expiresAt)];
    var list := Run(maxSize, written + after).list;
    assert written[..|written| - 1] == before && written[|written| - 1] == Set(e.key, e.value, e.expiresAt);
    LastSetStays(written, after, e.key);
    EveryRun(maxSize, written + after);
    Found(list, e.key);
  }

  // And it is there after every run that spares it and touches few other keys.
  lemma EntrySurvives(maxSize: int, before: seq<Op>, e: Entry, after: seq<Op>)
    requires Spares(after, e.key, e.expiresAt) && |Touched(after, e.key)| < maxSize - 1
    ensures Find(Run(maxSize, before + [Set(e.key, e.value, e.expiresAt)] + after).list, e.key).Some?
  {
    var op := Set(e.key, e.value, e.expiresAt);
    var written := before + [op];
    var s := Run(maxSize, written);
    assert written[..|written| - 1] == before && written[|written| - 1] == op;
    EveryRun(maxSize, written);
    assert s.list[|s.list| - 1] == e;
    assert RecentAt(s.list, |s.list| - 1, e.key, Touched(after, e.key), e.expiresAt);
    RecentKeySurvives(s, maxSize, after, e.key, Touched(after, e.key), e.expiresAt);
    RunOn(maxSize, written, after);
    Found(RunFrom(s, maxSize, after).list, e.key);
  }

  // One more call at the end.
  lemma LastCall(maxSize: int, calls: seq<Call>, key: string, t: int, u: int, defaultTTL: int)
    ensures var ops, more := OpsOf(calls, defaultTTL), OpsOf(calls + [CallGet(key, t, u)], defaultTTL);
            && Answers(maxSize, more) == Answers(maxSize, ops) + [Answer(Run(maxSize, ops), key, t)]
            && Run(maxSize, more) == Step(Run(maxSize, ops), maxSize, Get(key, t))
  {
    var all := calls + [CallGet(key, t, u)];
    assert all[..|calls|] == calls && all[..|calls| + 1] == all;
    NextCall(maxSize, all, |calls|, defaultTTL);
  }

  lemma OpsAround(before: seq<Call>, call: Call, after: seq<Call>, defaultTTL: int)
    ensures OpsOf(before + [call] + after, defaultTTL) ==
            OpsOf(before, defaultTTL) + [OpOf(call, defaultTTL)] + OpsOf(after, defaultTTL)
  {
  }

  // What is set is answered, up to and including the end of its lifetime, after every
  // history that does not write, delete or clear the key, does not tick or read the
  // key later than that, and accesses fewer than maxSize - 1 other keys.
  lemma SetThenGet(maxSize: int, defaultTTL: int, before: seq<Call>, put: Call, after: seq<Call>, t: int, u: int)
    requires put.CallSet?
    requires var end := put.now + if put.ttl != 0 then put.ttl else defaultTTL;
             && t <= end
             && (forall c :: c in after ==> match c
                   case CallGet(key, now, later) => key == put.key ==> now <= end
                   case CallSet(key, value, ttl, now, later) => key != put.key
                   case CallDelete(key) => key != put.key
                   case CallClear => false
                   case CallTick(now) => now <= end)
    requires |OtherKeys(after, put.key)| < maxSize - 1
    ensures var calls := before + [put] + after;
            var ops, more := OpsOf(calls, defaultTTL), OpsOf(calls + [CallGet(put.key, t, u)], defaultTTL);
            && Answers(maxSize, more) == Answers(maxSize, ops) + [Some(put.value)]
            && Run(maxSize, more).hits == Run(maxSize, ops).hits + 1
            && Run(maxSize, more).misses == Run(maxSize, ops).misses
  {
    var ops := OpsOf(after, defaultTTL);
    var e := Entry(put.key, put.value, put.now + if put.ttl != 0 then put.ttl else defaultTTL);
    assert OpOf(put, defaultTTL) == Set(e.key, e.value, e.expiresAt);
    forall i | 0 <= i < |ops|
      ensures ops[i] == OpOf(after[i], defaultTTL) && after[i] in after
    {
    }
    assert Touched(ops, e.key) <= OtherKeys(after, e.key);
    FewerKeys(Touched(ops, e.key), OtherKeys(after, e.key));
    OpsAround(before, put, after, defaultTTL);
    EntrySurvives(maxSize, OpsOf(before, defaultTTL), e, ops);
    EntryAfterSet(maxSize, OpsOf(before, defaultTTL), e, ops);
    LastCall(maxSize, before + [put] + after, e.key, t, u, defaultTTL);
  }

  ghost function OtherKeys(calls: seq<Call>, key: string): set<string> {
    set c | c in calls && (c.CallGet? || c.CallSet?) && c.key != key :: c.key
  }

  lemma {:induction false} FewerKeys(a: set<string>, b: set<string>)
    requires a <= b
    ensures |a| <= |b|
  {
    if k :| k in a {
      FewerKeys(a - {k}, b - {k});
    }
  }

  // And not answered any more after that, unless the key is written again.
  lemma SetThenLateGet(maxSize: int, defaultTTL: int, before: seq<Call>, put: Call, after: seq<Call>, t: int, u: int)
    requires put.CallSet?
    requires t > put.now + if put.ttl != 0 then put.ttl else defaultTTL
    requires forall c :: c in after && c.CallSet? ==> c.key != put.key
    ensures var calls := before + [put] + after;
            var ops, more := OpsOf(calls, defaultTTL), OpsOf(calls + [CallGet(put.key, t, u)], defaultTTL);
            && Answers(maxSize, more) == Answers(maxSize, ops) + [None]
            && Run(maxSize, more).hits == Run(maxSize, ops).hits
            && Run(maxSize, more).misses == Run(maxSize, ops).misses + 1
            && put.key !in Keys(Run(maxSize, more).list)
  {
    var ops := OpsOf(after, defaultTTL);
    var e := Entry(put.key, put.value, put.now + if put.ttl != 0 then put.ttl else defaultTTL);
    assert OpOf(put, defaultTTL) == Set(e.key, e.value, e.expiresAt);
    forall i | 0 <= i < |ops|
      ensures ops[i] == OpOf(after[i], defaultTTL) && after[i] in after
    {
    }
    OpsAround(before, put, after, defaultTTL);
    EntryAfterSet(maxSize, OpsOf(before, defaultTTL), e, ops);
    LastCall(maxSize, before + [put] + after, e.key, t, u, defaultTTL);
    var list := Run(maxSize, OpsOf(before + [put] + after, defaultTTL)).list;
    Found(list, e.key);
    Dropped(list, e.key);
  }

  // ---------------------------------------------------------------- what the empty key does

  // The empty key breaks the bound: nothing is evicted when it is alone.
  method EmptyKeyCounterexample(ttl: int, now: int) returns (cache: InMemoryCache)
    ensures cache.Valid() && cache.maxSize == 1 && cache.items.Keys == {"", "a"} && cache.size == 2
  {
    var e, f := Entry("", "v", now + ttl), Entry("a", "w", now + ttl);
    cache := new InMemoryCache(1, ttl, now);
    hide Refines, Drop, Keys, DistinctTimes, IsLeastRecent, MayRemain, Step, DistinctKeys;
    cache.Set("", "v", 0, now, now);
    OneKeyStays([], "", e, cache.list);
    assert [] + [e] == [e];
    cache.Set("a", "w", 0, now, now + 1);
    OneKeyStays([e], "a", f, cache.list);
    RefinesKeys(cache.items, cache.list);
    TwoKeys(e, f);
  }

  lemma OneKeyStays(list: seq<Entry>, key: string, e: Entry, after: seq<Entry>)
    requires list == [] || (|list| == 1 && list[0].key == "" && key != "")
    requires exists room :: MayRemain(list, room) && after == Drop(room, key) + [e]
    ensures after == list + [e]
  {
    var room :| MayRemain(list, room) && after == Drop(room, key) + [e];
    assert room == list;
    AllKept(list, key);
  }

  lemma TwoKeys(e: Entry, f: Entry)
    ensures [] + [e] == [e] && [e] + [f] == [e, f] && Keys([e, f]) == {e.key, f.key}
  {
    assert forall x :: x in [e, f] <==> x == e || x == f;
  }

  function Live(items: Items, now: int): Items {
    map k | k in items && now <= items[k].expiresAt :: items[k]
  }

  // The loop of the cleanup goroutine, in any order of the map.
  method DeleteExpired(items: Items, now: int) returns (rest: Items)
    ensures rest == Live(items, now)
  {
    rest := items;
    var remaining := items.Keys;
    while remaining != {}
      invariant remaining <= items.Keys
      invariant forall k :: k in rest <==> k in items && (k in remaining || now <= items[k].expiresAt)
      invariant forall k :: k in rest ==> rest[k] == items[k]
      decreases remaining
    {
      var key :| key in remaining;
      if now > items[key].expiresAt {
        rest := rest - {key};
      }
      remaining := remaining - {key};
    }
  }

  lemma UnexpiredRefines(items: Items, list: seq<Entry>, now: int)
    requires Refines(items, list)
    ensures Refines(Live(items, now), Unexpired(list, now))
  {
    FilterRefines(items, list, (e: Entry) => now <= e.expiresAt);
    var kept := map k | k in items && (exists e :: e in Unexpired(list, now) && e.key == k) :: items[k];
    forall k | k in items
      ensures k in kept <==> now <= items[k].expiresAt
    {
      EntryUnexpired(items, list, now, k);
    }
    hide Refines;
    assert kept == Live(items, now);
  }

  lemma EntryUnexpired(items: Items, list: seq<Entry>, now: int, k: string)
    requires Refines(items, list) && k in items
    ensures (exists e :: e in Unexpired(list, now) && e.key == k) <==> now <= items[k].expiresAt
  {
    KeptUnexpired(list, now);
    var i :| 0 <= i < |list| && list[i].key == k;
    forall e | e in Unexpired(list, now) && e.key == k
      ensures now <= items[k].expiresAt
    {
      var j :| 0 <= j < |list| && list[j] == e;
    }
    assert list[i] in list;
  }
}
