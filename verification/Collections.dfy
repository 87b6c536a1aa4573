/** Notions about sequences, sets and multisets that several models share. */
module Collections {
  datatype Option<+T> = None | Some(value: T)

  ghost predicate NoDuplicates<T>(s: seq<T>) {
    forall i, j :: 0 <= i < j < |s| ==> s[i] != s[j]
  }

  function Elems<T>(s: seq<T>): set<T> {
    set x | x in s
  }

  // The sequence lists the keys of the map, each once.
  ghost predicate Enumerates<K(!new), V>(keys: seq<K>, m: map<K, V>) {
    NoDuplicates(keys) && forall k :: k in keys <==> k in m
  }

  lemma Regroup<T>(a: seq<T>, b: seq<T>, c: seq<T>)
    ensures a + b + c == a + (b + c)
    ensures a + [] == a && [] + c == c
  {
  }

  lemma PlaceOf<T>(x: T, s: seq<T>) returns (k: nat)
    requires x in multiset(s)
    ensures k < |s| && s[k] == x
  {
    k :| 0 <= k < |s| && s[k] == x;
  }

  // One element taken out of two permutations leaves permutations.
  lemma TakeOut<T>(a: seq<T>, b: seq<T>, k: nat)
    requires a != [] && multiset(a) == multiset(b) && k < |b| && b[k] == a[0]
    ensures multiset(a[1..]) == multiset(b[..k] + b[k + 1..])
  {
    assert a == [a[0]] + a[1..];
    assert b == b[..k] + [b[k]] + b[k + 1..];
    assert multiset(b[..k] + b[k + 1..]) == multiset(b) - multiset{a[0]};
  }

  // Two places of one permutation hold what two different places of the other hold.
  lemma TwoPlaces<T>(a: seq<T>, b: seq<T>, i: nat, j: nat) returns (k: nat, l: nat)
    requires multiset(a) == multiset(b) && i < j < |b|
    ensures k < |a| && l < |a| && k != l && a[k] == b[i] && a[l] == b[j]
  {
    assert b == b[..i] + [b[i]] + b[i + 1..];
    assert b[j] in b[i + 1..];
    k := PlaceOf(b[i], a);
    var others := a[..k] + a[k + 1..];
    assert a == a[..k] + [a[k]] + a[k + 1..];
    assert multiset(others) == multiset(a) - multiset{b[i]} == multiset(b[..i]) + multiset(b[i + 1..]);
    var m := PlaceOf(b[j], others);
    l := if m < k then m else m + 1;
  }
}
