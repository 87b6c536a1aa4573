/**
 analysis/engine.go: cacheKey, the keys under which the analyzer caches its results.
 */
module CacheKeys {
  // The four parts of a request, printed.
  function CacheKey(requestType: string, target: string, scope: string, options: string): (key: string)
    ensures key != ""
  {
    requestType + ":" + target + ":" + scope + ":" + options
  }

  const COLON := ':'

  function Colons(s: string): nat {
    if s == "" then 0 else (if s[0] == COLON then 1 else 0) + Colons(s[1..])
  }

  lemma {:induction false} ColonsConcat(a: string, b: string)
    ensures Colons(a + b) == Colons(a) + Colons(b)
  {
    if a == "" {
      assert a + b == b;
    } else {
      assert (a + b)[1..] == a[1..] + b;
      ColonsConcat(a[1..], b);
    }
  }

  lemma {:induction false} NoColon(s: string)
    ensures Colons(s) == 0 <==> COLON !in s
  {
    if s != "" {
      NoColon(s[1..]);
      assert s == [s[0]] + s[1..];
    }
  }

  lemma ColonsOfKey(requestType: string, target: string, scope: string, options: string)
    ensures Colons(CacheKey(requestType, target, scope, options)) ==
            Colons(requestType) + Colons(target) + Colons(scope) + Colons(options) + 3
  {
    var a, b := requestType + ":" + target, requestType + ":" + target + ":" + scope;
    assert ":"[1..] == "" && Colons(":") == 1;
    ColonsConcat(requestType, ":");
    ColonsConcat(requestType + ":", target);
    ColonsConcat(a, ":");
    ColonsConcat(a + ":", scope);
    ColonsConcat(b, ":");
    ColonsConcat(b + ":", options);
  }

  // Up to its first colon a text is determined.
  lemma FirstPart(a: string, x: string, b: string, y: string)
    requires COLON !in a && COLON !in b && a + ":" + x == b + ":" + y
    ensures a == b && x == y
  {
    var s := a + ":" + x;
    assert forall k :: 0 <= k < |a| ==> s[k] == a[k];
    assert forall k :: 0 <= k < |b| ==> s[k] == b[k];
    assert s[|a|] == COLON && s[|b|] == COLON;
    assert a == s[..|a|] && b == s[..|b|] && x == s[|a| + 1..] && y == s[|b| + 1..];
  }

  // The key is meant to be unique to its request. It is, if and only if none of the
  // four parts holds a colon.
  lemma CacheKeyUniqueExactlyWhen(requestType: string, target: string, scope: string, options: string)
    ensures (forall t, a, s, o :: CacheKey(t, a, s, o) == CacheKey(requestType, target, scope, options) ==>
                                    t == requestType && a == target && s == scope && o == options) <==>
            COLON !in requestType && COLON !in target && COLON !in scope && COLON !in options
  {
    if COLON !in requestType && COLON !in target && COLON !in scope && COLON !in options {
      forall t, a, s, o | CacheKey(t, a, s, o) == CacheKey(requestType, target, scope, options)
        ensures t == requestType && a == target && s == scope && o == options
      {
        SameParts(requestType, target, scope, options, t, a, s, o);
      }
    } else {
      var t, a, s, o := OtherRequest(requestType, target, scope, options);
    }
  }

  lemma SameParts(
      requestType: string, target: string, scope: string, options: string, t: string, a: string, s: string, o: string)
    requires COLON !in requestType && COLON !in target && COLON !in scope && COLON !in options
    requires CacheKey(t, a, s, o) == CacheKey(requestType, target, scope, options)
    ensures t == requestType && a == target && s == scope && o == options
  {
    NoColon(requestType);
    NoColon(target);
    NoColon(scope);
    NoColon(options);
    ColonsOfKey(requestType, target, scope, options);
    ColonsOfKey(t, a, s, o);
    NoColon(t);
    NoColon(a);
    NoColon(s);
    KeyFromFront(t, a, s, o);
    KeyFromFront(requestType, target, scope, options);
    FirstPart(t, a + ":" + (s + ":" + o), requestType, target + ":" + (scope + ":" + options));
    FirstPart(a, s + ":" + o, target, scope + ":" + options);
    FirstPart(s, o, scope, options);
  }

  lemma KeyFromFront(t: string, a: string, s: string, o: string)
    ensures CacheKey(t, a, s, o) == t + ":" + (a + ":" + (s + ":" + o))
  {
  }

  lemma SplitAtColon(s: string) returns (a: string, b: string)
    requires COLON in s
    ensures s == a + ":" + b
  {
    var k :| 0 <= k < |s| && s[k] == COLON;
    a, b := s[..k], s[k + 1..];
  }

  // With a colon inside a part the key can be read in another way.
  lemma OtherRequest(requestType: string, target: string, scope: string, options: string)
    returns (t: string, a: string, s: string, o: string)
    requires COLON in requestType || COLON in target || COLON in scope || COLON in options
    ensures CacheKey(t, a, s, o) == CacheKey(requestType, target, scope, options)
    ensures |t| < |requestType| || |a| < |target| || |s| != |scope|
  {
    if COLON in requestType {
      t, a := SplitAtColon(requestType);
      s, o := target, scope + ":" + options;
      assert CacheKey(t, a, s, o) == requestType + ":" + target + ":" + (scope + ":" + options);
    } else if COLON in target {
      t := requestType;
      a, s := SplitAtColon(target);
      o := scope + ":" + options;
      assert CacheKey(t, a, s, o) == requestType + ":" + (a + ":" + s) + ":" + (scope + ":" + options);
    } else if COLON in scope {
      t, a := requestType, target;
      var rest;
      s, rest := SplitAtColon(scope);
      o := rest + ":" + options;
      assert CacheKey(t, a, s, o) == requestType + ":" + target + ":" + (s + ":" + rest) + ":" + options;
    } else {
      t, a := requestType, target;
      var front;
      front, o := SplitAtColon(options);
      s := scope + ":" + front;
      assert CacheKey(t, a, s, o) == requestType + ":" + target + ":" + scope + ":" + (front + ":" + o);
    }
  }
}
