/**
 utils/flatten.go: FlattenResults and FlattenKeyedResults, the consumers of what
 async/async.go returns.
 */
module Flatten {
  import opened Collections
  import opened FanOut

  // async.Result, async.KeyedResult; no error is None.
  datatype Result<T> = Result(value: T, error: Option<string>)

  datatype KeyedResult<K, T> = KeyedResult(key: K, value: T, error: Option<string>)

  // "key %v: %w"
  datatype KeyedError<K> = KeyedError(key: K, error: string)

  // ---------------------------------------------------------------- bags

  // The sum of what each element contributes.
  ghost function Bag<A, B>(s: seq<A>, f: A -> multiset<B>): multiset<B> {
    if s == [] then multiset{} else f(s[0]) + Bag(s[1..], f)
  }

  lemma {:induction false} BagConcat<A, B>(a: seq<A>, b: seq<A>, f: A -> multiset<B>)
    ensures Bag(a + b, f) == Bag(a, f) + Bag(b, f)
  {
    if a == [] {
      assert a + b == b;
    } else {
      assert (a + b)[1..] == a[1..] + b;
      BagConcat(a[1..], b, f);
    }
  }

  lemma BagWithout<A, B>(s: seq<A>, k: nat, f: A -> multiset<B>)
    requires k < |s|
    ensures Bag(s, f) == f(s[k]) + Bag(s[..k] + s[k + 1..], f)
  {
    assert s == s[..k] + s[k..] && s[k..][1..] == s[k + 1..];
    BagConcat(s[..k], s[k..], f);
    BagConcat(s[..k], s[k + 1..], f);
  }

  lemma {:induction false} BagOfPermutation<A, B>(a: seq<A>, b: seq<A>, f: A -> multiset<B>)
    requires multiset(a) == multiset(b)
    ensures Bag(a, f) == Bag(b, f)
    decreases |a|
  {
    if a == [] {
      assert |multiset(b)| == 0;
    } else {
      assert a[0] in multiset(b);
      var k := PlaceOf(a[0], b);
      TakeOut(a, b, k);
      BagOfPermutation(a[1..], b[..k] + b[k + 1..], f);
      BagWithout(b, k, f);
    }
  }

  // ---------------------------------------------------------------- contributions

  ghost function ValuesOf<T>(r: Result<seq<T>>): multiset<T> {
    if r.error.None? then multiset(r.value) else multiset{}
  }

  ghost function ErrorsOf<T>(r: Result<T>): multiset<string> {
    if r.error.None? then multiset{} else multiset{r.error.value}
  }

  ghost function KeyedValuesOf<K, T>(r: KeyedResult<K, seq<T>>): multiset<T> {
    if r.error.None? then multiset(r.value) else multiset{}
  }

  ghost function KeyedErrorsOf<K, T>(r: KeyedResult<K, T>): multiset<KeyedError<K>> {
    if r.error.None? then multiset{} else multiset{KeyedError(r.key, r.error.value)}
  }

  // ---------------------------------------------------------------- the code

  function OwnValues<T>(value: seq<T>, error: Option<string>): seq<T> {
    if error.None? then value else []
  }

  function OwnErrors(error: Option<string>): seq<string> {
    if error.None? then [] else [error.value]
  }

  function OwnKeyedErrors<K>(key: K, error: Option<string>): seq<KeyedError<K>> {
    if error.None? then [] else [KeyedError(key, error.value)]
  }

  // Values of the successful results, in order.
  ghost function FlatValues<T>(results: seq<Result<seq<T>>>): (values: seq<T>)
    ensures multiset(values) == Bag(results, ValuesOf)
  {
    if results == [] then []
    else OwnValues(results[0].value, results[0].error) + FlatValues(results[1..])
  }

  // Errors of the failed ones, in order.
  ghost function FlatErrors<T>(results: seq<Result<T>>): (errors: seq<string>)
    ensures multiset(errors) == Bag(results, ErrorsOf)
  {
    if results == [] then []
    else OwnErrors(results[0].error) + FlatErrors(results[1..])
  }

  // Without their keys, keyed results flatten to the same values.
  ghost function Unkeyed<K, T>(results: seq<KeyedResult<K, T>>): seq<Result<T>> {
    if results == [] then [] else [Result(results[0].value, results[0].error)] + Unkeyed(results[1..])
  }

  ghost function FlatKeyedErrors<K, T>(results: seq<KeyedResult<K, T>>): (errors: seq<KeyedError<K>>)
    ensures multiset(errors) == Bag(results, KeyedErrorsOf)
  {
    if results == [] then []
    else OwnKeyedErrors(results[0].key, results[0].error) + FlatKeyedErrors(results[1..])
  }

  lemma {:induction false} UnkeyedValues<K, T>(results: seq<KeyedResult<K, seq<T>>>)
    ensures multiset(FlatValues(Unkeyed(results))) == Bag(results, KeyedValuesOf)
  {
    if results != [] {
      UnkeyedValues(results[1..]);
      assert Unkeyed(results)[1..] == Unkeyed(results[1..]);
    }
  }

  lemma FlattenNext<T>(results: seq<Result<seq<T>>>, i: nat)
    requires i < |results|
    ensures var r := results[i];
            && FlatValues(results[i..]) == OwnValues(r.value, r.error) + FlatValues(results[i + 1..])
            && FlatErrors(results[i..]) == OwnErrors(r.error) + FlatErrors(results[i + 1..])
  {
    assert results[i..][0] == results[i] && results[i..][1..] == results[i + 1..];
  }

  lemma FlattenKeyedNext<K, T>(results: seq<KeyedResult<K, seq<T>>>, i: nat)
    requires i < |results|
    ensures var r := results[i];
            && FlatValues(Unkeyed(results[i..])) == OwnValues(r.value, r.error) + FlatValues(Unkeyed(results[i + 1..]))
            && FlatKeyedErrors(results[i..]) == OwnKeyedErrors(r.key, r.error) + FlatKeyedErrors(results[i + 1..])
  {
    assert results[i..][0] == results[i] && results[i..][1..] == results[i + 1..];
    assert Unkeyed(results[i..])[1..] == Unkeyed(results[i + 1..]);
  }

  lemma FlattenEnds<T>(results: seq<Result<seq<T>>>)
    ensures FlatValues(results[|results|..]) == [] && FlatErrors(results[|results|..]) == []
  {
  }

  lemma FlattenKeyedEnds<K, T>(results: seq<KeyedResult<K, seq<T>>>)
    ensures FlatValues(Unkeyed(results[|results|..])) == [] && FlatKeyedErrors(results[|results|..]) == []
  {
  }

  lemma Own<T>(value: seq<T>, error: Option<string>)
    ensures OwnValues(value, error) == if error.None? then value else []
    ensures OwnErrors(error) == if error.None? then [] else [error.value]
  {
  }

  lemma OwnKeyed<K, T>(key: K, value: seq<T>, error: Option<string>)
    ensures OwnValues(value, error) == if error.None? then value else []
    ensures OwnKeyedErrors(key, error) == if error.None? then [] else [KeyedError(key, error.value)]
  {
  }

  // Nothing is lost or invented: the contracts of the functions above.
  method FlattenResults<T>(results: seq<Result<seq<T>>>) returns (values: seq<T>, errors: seq<string>)
    ensures values == FlatValues(results) && errors == FlatErrors(results)
    ensures multiset(values) == Bag(results, ValuesOf) && multiset(errors) == Bag(results, ErrorsOf)
  {
    hide *;
    values, errors := [], [];
    assert results[0..] == results;
    for i := 0 to |results|
      invariant values + FlatValues(results[i..]) == FlatValues(results)
      invariant errors + FlatErrors(results[i..]) == FlatErrors(results)
    {
      var result := results[i];
      FlattenNext(results, i);
      Own(result.value, result.error);
      Regroup(values, OwnValues(result.value, result.error), FlatValues(results[i + 1..]));
      Regroup(errors, OwnErrors(result.error), FlatErrors(results[i + 1..]));
      if result.error.None? {
        values := values + result.value;
      } else {
        errors := errors + [result.error.value];
      }
    }
    FlattenEnds(results);
    Regroup(values, [], []);
    Regroup(errors, [], []);
  }

  method FlattenKeyedResults<K, T>(results: seq<KeyedResult<K, seq<T>>>)
    returns (values: seq<T>, errors: seq<KeyedError<K>>)
    ensures values == FlatValues(Unkeyed(results)) && errors == FlatKeyedErrors(results)
    ensures multiset(values) == Bag(results, KeyedValuesOf) && multiset(errors) == Bag(results, KeyedErrorsOf)
  {
    hide *;
    values, errors := [], [];
    UnkeyedValues(results);
    assert results[0..] == results;
    for i := 0 to |results|
      invariant values + FlatValues(Unkeyed(results[i..])) == FlatValues(Unkeyed(results))
      invariant errors + FlatKeyedErrors(results[i..]) == FlatKeyedErrors(results)
    {
      var result := results[i];
      FlattenKeyedNext(results, i);
      OwnKeyed(result.key, result.value, result.error);
      Regroup(values, OwnValues(result.value, result.error), FlatValues(Unkeyed(results[i + 1..])));
      Regroup(errors, OwnKeyedErrors(result.key, result.error), FlatKeyedErrors(results[i + 1..]));
      if result.error.None? {
        values := values + result.value;
      } else {
        errors := errors + [KeyedError(result.key, result.error.value)];
      }
    }
    FlattenKeyedEnds(results);
    Regroup(values, [], []);
    Regroup(errors, [], []);
  }

  // ---------------------------------------------------------------- what flattening does to one result

  lemma {:induction false} ValuesConcat<T>(a: seq<Result<seq<T>>>, b: seq<Result<seq<T>>>)
    ensures FlatValues(a + b) == FlatValues(a) + FlatValues(b)
  {
    if a == [] {
      assert a + b == b;
      Regroup([], [], FlatValues(b));
    } else {
      assert (a + b)[1..] == a[1..] + b;
      ValuesConcat(a[1..], b);
      Regroup(OwnValues(a[0].value, a[0].error), FlatValues(a[1..]), FlatValues(b));
    }
  }

  lemma {:induction false} ErrorsConcat<T>(a: seq<Result<T>>, b: seq<Result<T>>)
    ensures FlatErrors(a + b) == FlatErrors(a) + FlatErrors(b)
  {
    if a == [] {
      assert a + b == b;
      Regroup([], [], FlatErrors(b));
    } else {
      assert (a + b)[1..] == a[1..] + b;
      ErrorsConcat(a[1..], b);
      Regroup(OwnErrors(a[0].error), FlatErrors(a[1..]), FlatErrors(b));
    }
  }

  // Wherever a result stands, it adds its values there if it has no error, and else
  // its error alone.
  lemma OneResult<T>(a: seq<Result<seq<T>>>, value: seq<T>, b: seq<Result<seq<T>>>, error: string)
    ensures FlatValues<T>([]) == [] && FlatErrors<seq<T>>([]) == []
    ensures FlatValues(a + [Result(value, None)] + b) == FlatValues(a) + value + FlatValues(b)
    ensures FlatErrors(a + [Result(value, None)] + b) == FlatErrors(a) + FlatErrors(b)
    ensures FlatValues(a + [Result(value, Some(error))] + b) == FlatValues(a) + FlatValues(b)
    ensures FlatErrors(a + [Result(value, Some(error))] + b) == FlatErrors(a) + [error] + FlatErrors(b)
  {
    InTheMiddle(a, Result(value, None), b);
    InTheMiddle(a, Result(value, Some(error)), b);
    Regroup(FlatValues(a), [], []);
    Regroup(FlatErrors(a), [], []);
  }

  lemma InTheMiddle<T>(a: seq<Result<seq<T>>>, r: Result<seq<T>>, b: seq<Result<seq<T>>>)
    ensures FlatValues(a + [r] + b) == FlatValues(a) + (if r.error.None? then r.value else []) + FlatValues(b)
    ensures FlatErrors(a + [r] + b) == FlatErrors(a) + (if r.error.None? then [] else [r.error.value]) + FlatErrors(b)
  {
    hide *;
    OnlyResult(r);
    ValuesConcat(a + [r], b);
    ValuesConcat(a, [r]);
    ErrorsConcat(a + [r], b);
    ErrorsConcat(a, [r]);
  }

  lemma OnlyResult<T>(r: Result<seq<T>>)
    ensures FlatValues([r]) == if r.error.None? then r.value else []
    ensures FlatErrors([r]) == if r.error.None? then [] else [r.error.value]
  {
    assert [r][1..] == [];
  }

  lemma {:induction false} UnkeyedConcat<K, T>(a: seq<KeyedResult<K, T>>, b: seq<KeyedResult<K, T>>)
    ensures Unkeyed(a + b) == Unkeyed(a) + Unkeyed(b)
  {
    if a == [] {
      assert a + b == b;
      Regroup([], [], Unkeyed(b));
    } else {
      assert (a + b)[1..] == a[1..] + b;
      UnkeyedConcat(a[1..], b);
      Regroup([Result(a[0].value, a[0].error)], Unkeyed(a[1..]), Unkeyed(b));
    }
  }

  lemma {:induction false} KeyedErrorsConcat<K, T>(a: seq<KeyedResult<K, T>>, b: seq<KeyedResult<K, T>>)
    ensures FlatKeyedErrors(a + b) == FlatKeyedErrors(a) + FlatKeyedErrors(b)
  {
    if a == [] {
      assert a + b == b;
      Regroup([], [], FlatKeyedErrors(b));
    } else {
      assert (a + b)[1..] == a[1..] + b;
      KeyedErrorsConcat(a[1..], b);
      Regroup(OwnKeyedErrors(a[0].key, a[0].error), FlatKeyedErrors(a[1..]), FlatKeyedErrors(b));
    }
  }

  // The same with keys: values as without, and each error under its own key.
  lemma OneKeyedResult<K, T>(a: seq<KeyedResult<K, T>>, r: KeyedResult<K, T>, b: seq<KeyedResult<K, T>>)
    ensures FlatKeyedErrors<K, T>([]) == [] && Unkeyed<K, T>([]) == []
    ensures Unkeyed(a + [r] + b) == Unkeyed(a) + [Result(r.value, r.error)] + Unkeyed(b)
    ensures FlatKeyedErrors(a + [r] + b) ==
            FlatKeyedErrors(a) + (if r.error.None? then [] else [KeyedError(r.key, r.error.value)]) + FlatKeyedErrors(b)
  {
    OnlyKeyedResult(r);
    KeyedInTheMiddle(a, r, b);
  }

  lemma KeyedInTheMiddle<K, T>(a: seq<KeyedResult<K, T>>, r: KeyedResult<K, T>, b: seq<KeyedResult<K, T>>)
    ensures Unkeyed(a + [r] + b) == Unkeyed(a) + Unkeyed([r]) + Unkeyed(b)
    ensures FlatKeyedErrors(a + [r] + b) == FlatKeyedErrors(a) + FlatKeyedErrors([r]) + FlatKeyedErrors(b)
  {
    hide *;
    UnkeyedConcat(a + [r], b);
    UnkeyedConcat(a, [r]);
    KeyedErrorsConcat(a + [r], b);
    KeyedErrorsConcat(a, [r]);
  }

  lemma OnlyKeyedResult<K, T>(r: KeyedResult<K, T>)
    ensures Unkeyed([r]) == [Result(r.value, r.error)]
    ensures FlatKeyedErrors([r]) == if r.error.None? then [] else [KeyedError(r.key, r.error.value)]
  {
    assert [r][1..] == [];
  }

  // ---------------------------------------------------------------- end to end

  // Whatever a flattening reads off the collected results, it is what it would
  // read off the operations' results in any order: the interleaving cannot show.
  lemma FlatteningIgnoresInterleaving<W(!new), M, B>(
      message: map<W, M>, events: seq<Event<W>>, workers: seq<W>, f: M -> multiset<B>)
    requires IsRun(message, events) && After(message, events).collector == Returned
    requires Enumerates(workers, message)
    ensures Bag(After(message, events).collected, f) == Bag(Messages(message, workers), f)
  {
    CompletedRunReturnsEverything(message, events);
    BagOfPermutation(After(message, events).collected, Messages(message, workers), f);
  }

  // Values and errors of a completed run are those of the operations.
  lemma FlattenedRun<W(!new), T>(
      message: map<W, Result<seq<T>>>, events: seq<Event<W>>, workers: seq<W>)
    requires IsRun(message, events) && After(message, events).collector == Returned
    requires Enumerates(workers, message)
    ensures var collected := After(message, events).collected;
            && multiset(FlatValues(collected)) == multiset(FlatValues(Messages(message, workers)))
            && multiset(FlatErrors(collected)) == multiset(FlatErrors(Messages(message, workers)))
  {
    FlatteningIgnoresInterleaving(message, events, workers, ValuesOf);
    FlatteningIgnoresInterleaving(message, events, workers, ErrorsOf);
  }

  lemma FlattenedKeyedRun<W(!new), K, T>(
      message: map<W, KeyedResult<K, seq<T>>>, events: seq<Event<W>>, workers: seq<W>)
    requires IsRun(message, events) && After(message, events).collector == Returned
    requires Enumerates(workers, message)
    ensures var collected := After(message, events).collected;
            && multiset(FlatValues(Unkeyed(collected))) == multiset(FlatValues(Unkeyed(Messages(message, workers))))
            && multiset(FlatKeyedErrors(collected)) == multiset(FlatKeyedErrors(Messages(message, workers)))
  {
    FlatteningIgnoresInterleaving(message, events, workers, KeyedValuesOf);
    FlatteningIgnoresInterleaving(message, events, workers, KeyedErrorsOf);
    UnkeyedValues(After(message, events).collected);
    UnkeyedValues(Messages(message, workers));
  }

  // MapWithKeys: each worker sends under its own key, so a completed run holds
  // every key exactly once.
  lemma CompletedRunHasEachKeyOnce<K(!new), T>(message: map<K, KeyedResult<K, T>>, events: seq<Event<K>>)
    requires forall k :: k in message ==> message[k].key == k
    requires IsRun(message, events) && After(message, events).collector == Returned
    ensures var results := After(message, events).collected;
            && (forall i, j :: 0 <= i < j < |results| ==> results[i].key != results[j].key)
            && (forall k :: k in message <==> exists r :: r in results && r.key == k)
            && (forall r :: r in results ==> r.key in message && r == message[r.key])
  {
    CompletedRunReturnsEverything(message, events);
    var s := After(message, events);
    assert forall i :: 0 <= i < |s.sent| ==> s.sent[i] in s.sent && s.collected[i] == message[s.sent[i]];
    forall k | k in message
      ensures exists r :: r in s.collected && r.key == k
    {
      var i :| 0 <= i < |s.sent| && s.sent[i] == k;
      assert s.collected[i] in s.collected;
    }
  }
}
