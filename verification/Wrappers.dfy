/** The option type shared by every module, and a handful of lemmas about sequences. */
module Wrappers {
  datatype Option<+T> = None | Some(value: T)

  /** Concatenation of a sequence of sequences. */
  function Flatten<T>(parts: seq<seq<T>>): seq<T> {
    if parts == [] then [] else parts[0] + Flatten(parts[1..])
  }

  lemma {:induction false} FlattenAppend<T>(a: seq<seq<T>>, b: seq<seq<T>>)
    ensures Flatten(a + b) == Flatten(a) + Flatten(b)
  {
    if a == [] {
      assert a + b == b;
    } else {
      assert (a + b)[1..] == a[1..] + b;
      FlattenAppend(a[1..], b);
    }
  }

  /** What f makes of each element, put together in order. */
  function FlatMap<S, T>(s: seq<S>, f: S -> seq<T>): seq<T> {
    if s == [] then [] else FlatMap(s[..|s| - 1], f) + f(s[|s| - 1])
  }

  lemma FlatMapPush<S, T>(s: seq<S>, f: S -> seq<T>, x: S)
    ensures FlatMap(s + [x], f) == FlatMap(s, f) + f(x)
  {
    assert (s + [x])[..|s|] == s;
  }

  /** One result for each element. */
  lemma {:induction false} FlatMapSingles<S, T>(s: seq<S>, f: S -> seq<T>, results: seq<T>)
    requires |s| == |results| && forall i :: 0 <= i < |s| ==> f(s[i]) == [results[i]]
    ensures FlatMap(s, f) == results
  {
    if s != [] {
      var n := |s| - 1;
      FlatMapSingles(s[..n], f, results[..n]);
      assert results == results[..n] + [results[n]];
    }
  }

  /** Concatenation is associative; named, because the verifier does not look for it. */
  lemma Assoc<T>(a: seq<T>, b: seq<T>, c: seq<T>)
    ensures a + (b + c) == (a + b) + c
  {
  }

  /** The elements in the opposite order. */
  function Reverse<T>(s: seq<T>): (r: seq<T>)
    ensures |r| == |s|
    ensures forall k :: 0 <= k < |s| ==> r[k] == s[|s| - 1 - k]
  {
    if s == [] then [] else Reverse(s[1..]) + [s[0]]
  }
}
