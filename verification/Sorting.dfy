/** Sorting by a key: what the servers ask of sort.Slice. Equal keys may come in any order. */
module Sorting {
  predicate SortedBy<T>(s: seq<T>, key: T -> int) {
    forall i, j :: 0 <= i < j < |s| ==> key(s[i]) <= key(s[j])
  }

  function Keys<T>(s: seq<T>, key: T -> int): seq<int> {
    seq(|s|, i requires 0 <= i < |s| => key(s[i]))
  }

  method SortBy<T(==)>(s: seq<T>, key: T -> int) returns (sorted: seq<T>)
    ensures SortedBy(sorted, key) && multiset(sorted) == multiset(s)
    ensures multiset(Keys(sorted, key)) == multiset(Keys(s, key))
  {
    sorted := [];
    for n := 0 to |s|
      invariant SortedBy(sorted, key) && multiset(sorted) == multiset(s[..n])
      invariant multiset(Keys(sorted, key)) == multiset(Keys(s[..n], key))
    {
      assert s[..n + 1] == s[..n] + [s[n]];
      assert Keys(s[..n + 1], key) == Keys(s[..n], key) + [key(s[n])];
      sorted := Insert(sorted, key, s[n]);
    }
    assert s[..|s|] == s;
  }

  method Insert<T(==)>(sorted: seq<T>, key: T -> int, x: T) returns (more: seq<T>)
    requires SortedBy(sorted, key)
    ensures SortedBy(more, key) && multiset(more) == multiset(sorted) + multiset{x}
    ensures multiset(Keys(more, key)) == multiset(Keys(sorted, key)) + multiset{key(x)}
  {
    var k := 0;
    while k < |sorted| && key(sorted[k]) <= key(x)
      invariant k <= |sorted|
      invariant forall i :: 0 <= i < k ==> key(sorted[i]) <= key(x)
    {
      k := k + 1;
    }
    more := Inserted(sorted, k, x);
    InsertedSorted(sorted, key, k, x);
    InsertedElements(sorted, k, x);
    KeysInserted(sorted, key, k, x);
  }

  function Inserted<T>(s: seq<T>, k: nat, x: T): seq<T>
    requires k <= |s|
  {
    s[..k] + [x] + s[k..]
  }

  lemma InsertedAt<T>(s: seq<T>, k: nat, x: T, i: nat)
    requires k <= |s| && i <= |s|
    ensures Inserted(s, k, x)[i] == if i < k then s[i] else if i == k then x else s[i - 1]
  {
  }

  lemma InsertedElements<T>(s: seq<T>, k: nat, x: T)
    requires k <= |s|
    ensures multiset(Inserted(s, k, x)) == multiset(s) + multiset{x}
  {
    assert s == s[..k] + s[k..];
  }

  lemma InsertedSorted<T>(sorted: seq<T>, key: T -> int, k: nat, x: T)
    requires SortedBy(sorted, key) && k <= |sorted|
    requires forall i :: 0 <= i < k ==> key(sorted[i]) <= key(x)
    requires k < |sorted| ==> key(x) <= key(sorted[k])
    ensures SortedBy(Inserted(sorted, k, x), key)
  {
    var more := Inserted(sorted, k, x);
    forall i, j | 0 <= i < j < |more|
      ensures key(more[i]) <= key(more[j])
    {
      InsertedAt(sorted, k, x, i);
      InsertedAt(sorted, k, x, j);
      if j > k {
        assert key(sorted[k]) <= key(sorted[j - 1]);
      }
    }
  }

  lemma KeysInserted<T>(sorted: seq<T>, key: T -> int, k: nat, x: T)
    requires k <= |sorted|
    ensures multiset(Keys(Inserted(sorted, k, x), key)) == multiset(Keys(sorted, key)) + multiset{key(x)}
  {
    InsertedElements(Keys(sorted, key), k, key(x));
    assert Keys(Inserted(sorted, k, x), key) == Inserted(Keys(sorted, key), k, key(x));
  }

  predicate Ascending(s: seq<int>) {
    forall i, j :: 0 <= i < j < |s| ==> s[i] <= s[j]
  }

  lemma FirstIsLeast(s: seq<int>, x: int)
    requires Ascending(s) && x in s
    ensures s[0] <= x
  {
  }

  lemma RestsAgree(x: int, a: seq<int>, b: seq<int>)
    requires multiset([x] + a) == multiset([x] + b)
    ensures multiset(a) == multiset(b)
  {
    forall y
      ensures multiset(a)[y] == multiset(b)[y]
    {
      assert multiset([x] + a)[y] == multiset(a)[y] + if x == y then 1 else 0;
      assert multiset([x] + b)[y] == multiset(b)[y] + if x == y then 1 else 0;
    }
  }

  lemma SameMembers(a: seq<int>, b: seq<int>)
    requires multiset(a) == multiset(b)
    ensures |a| == |b| && forall x :: x in a <==> x in b
  {
    assert |multiset(a)| == |a| && |multiset(b)| == |b|;
    assert forall x :: x in a <==> x in multiset(a);
    assert forall x :: x in b <==> x in multiset(b);
  }

  /** There is one way to sort numbers. */
  lemma {:induction false} SortedOneWay(a: seq<int>, b: seq<int>)
    requires Ascending(a) && Ascending(b) && multiset(a) == multiset(b)
    ensures a == b
  {
    SameMembers(a, b);
    if a != [] {
      FirstIsLeast(a, b[0]);
      FirstIsLeast(b, a[0]);
      assert a == [a[0]] + a[1..] && b == [a[0]] + b[1..];
      RestsAgree(a[0], a[1..], b[1..]);
      SortedOneWay(a[1..], b[1..]);
    }
  }
}
