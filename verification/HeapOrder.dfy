/** The order kept by the job center's priority heap, over sequences: a binary tree in an array
    whose parents are never smaller than their children, for any strict weak order. */
module HeapOrder {

  /** gt is irreflexive and transitive, and "neither greater" is transitive. */
  ghost predicate StrictWeakOrder<T(!new)>(gt: (T, T) -> bool) {
    && (forall a :: !gt(a, a))
    && (forall a, b, c :: gt(a, b) && gt(b, c) ==> gt(a, c))
    && (forall a, b, c :: !gt(a, b) && !gt(b, c) ==> !gt(a, c))
  }

  lemma Asymmetric<T(!new)>(gt: (T, T) -> bool, a: T, b: T)
    requires StrictWeakOrder(gt)
    ensures !(gt(a, b) && gt(b, a))
  {
    assert !gt(a, a);
  }

  function Parent(i: int): int
    requires i > 0
  {
    (i - 1) / 2
  }

  function Swap<T>(s: seq<T>, i: nat, j: nat): (r: seq<T>)
    requires i < |s| && j < |s|
    ensures |r| == |s| && r[i] == s[j] && r[j] == s[i]
    ensures forall k :: 0 <= k < |s| && k != i && k != j ==> r[k] == s[k]
  {
    s[i := s[j]][j := s[i]]
  }

  lemma SwapKeepsElements<T>(s: seq<T>, i: nat, j: nat)
    requires i < |s| && j < |s|
    ensures multiset(Swap(s, i, j)) == multiset(s)
  {
  }

  /** The child is not greater than its parent. */
  predicate OrderedAt<T>(gt: (T, T) -> bool, s: seq<T>, i: nat)
    requires i < |s|
  {
    i > 0 ==> !gt(s[i], s[Parent(i)])
  }

  /** Heap order among the positions whose parent is at or after lo. */
  predicate HeapFrom<T>(gt: (T, T) -> bool, s: seq<T>, lo: int) {
    forall i :: 0 < i < |s| && Parent(i) >= lo ==> OrderedAt(gt, s, i)
  }

  predicate IsHeap<T>(gt: (T, T) -> bool, s: seq<T>) {
    forall i :: 0 <= i < |s| ==> OrderedAt(gt, s, i)
  }

  /** A heap except that the element at i may be greater than its parent. */
  predicate UpFrom<T>(gt: (T, T) -> bool, s: seq<T>, i: nat) {
    && i < |s|
    && (forall j :: 0 <= j < |s| && j != i ==> OrderedAt(gt, s, j))
    && (i > 0 ==> forall c :: 0 < c < |s| && Parent(c) == i ==> !gt(s[c], s[Parent(i)]))
  }

  /** Heap order from lo on, except that the element at i may be smaller than its children. */
  predicate DownFrom<T>(gt: (T, T) -> bool, s: seq<T>, lo: nat, i: nat) {
    && lo <= i < |s|
    && (forall j :: 0 < j < |s| && Parent(j) >= lo && Parent(j) != i ==> OrderedAt(gt, s, j))
    && (i > 0 && Parent(i) >= lo ==> forall c :: 0 < c < |s| && Parent(c) == i ==> !gt(s[c], s[Parent(i)]))
  }

  /** One turn of siftUp; ties are swapped too. */
  lemma SwapUp<T(!new)>(gt: (T, T) -> bool, s: seq<T>, i: nat)
    requires StrictWeakOrder(gt) && UpFrom(gt, s, i)
    requires i > 0 && !gt(s[Parent(i)], s[i])
    ensures UpFrom(gt, Swap(s, i, Parent(i)), Parent(i))
  {
    var p := Parent(i);
    var t := Swap(s, i, p);
    forall j | 0 <= j < |t| && j != p
      ensures OrderedAt(gt, t, j)
    {
      if j > 0 {
        assert OrderedAt(gt, s, p);
        if j != i { assert OrderedAt(gt, s, j); }
      }
    }
    if p > 0 {
      forall c | 0 < c < |t| && Parent(c) == p
        ensures !gt(t[c], t[Parent(p)])
      {
        assert OrderedAt(gt, s, p);
        if c != i { assert OrderedAt(gt, s, c); }
      }
    }
  }

  /** siftUp may stop below a strictly greater parent, or at the root. */
  lemma UpDone<T(!new)>(gt: (T, T) -> bool, s: seq<T>, i: nat)
    requires StrictWeakOrder(gt) && UpFrom(gt, s, i)
    requires i > 0 ==> gt(s[Parent(i)], s[i])
    ensures IsHeap(gt, s)
  {
    forall j | 0 <= j < |s|
      ensures OrderedAt(gt, s, j)
    {
      if j == i && i > 0 {
        Asymmetric(gt, s[Parent(i)], s[i]);
      }
    }
  }

  /** The child that siftDown picks: the greatest of i and its children. */
  function Largest<T>(gt: (T, T) -> bool, s: seq<T>, i: nat): (m: nat)
    requires i < |s|
    ensures i <= m < |s|
    ensures m > i ==> Parent(m) == i
  {
    var left := if 2 * i + 1 < |s| && gt(s[2 * i + 1], s[i]) then 2 * i + 1 else i;
    if 2 * i + 2 < |s| && gt(s[2 * i + 2], s[left]) then 2 * i + 2 else left
  }

  lemma LargestIsGreatest<T(!new)>(gt: (T, T) -> bool, s: seq<T>, i: nat)
    requires StrictWeakOrder(gt) && i < |s|
    ensures var m := Largest(gt, s, i);
            && !gt(s[i], s[m])
            && (forall c :: 0 < c < |s| && Parent(c) == i ==> !gt(s[c], s[m]))
  {
    var m := Largest(gt, s, i);
    Asymmetric(gt, s[i], s[m]);
    forall c | 0 < c < |s| && Parent(c) == i
      ensures !gt(s[c], s[m])
    {
      assert c == 2 * i + 1 || c == 2 * i + 2;
      var left := if 2 * i + 1 < |s| && gt(s[2 * i + 1], s[i]) then 2 * i + 1 else i;
      assert c == 2 * i + 1 ==> !gt(s[c], s[left]);
      Asymmetric(gt, s[left], s[m]);
    }
  }

  /** One turn of siftDown. */
  lemma SwapDown<T(!new)>(gt: (T, T) -> bool, s: seq<T>, lo: nat, i: nat)
    requires StrictWeakOrder(gt) && DownFrom(gt, s, lo, i)
    requires Largest(gt, s, i) != i
    ensures DownFrom(gt, Swap(s, i, Largest(gt, s, i)), lo, Largest(gt, s, i))
  {
    var m := Largest(gt, s, i);
    var t := Swap(s, i, m);
    LargestIsGreatest(gt, s, i);
    forall j | 0 < j < |t| && Parent(j) >= lo && Parent(j) != m
      ensures OrderedAt(gt, t, j)
    {
      if Parent(j) != i { assert OrderedAt(gt, s, j); }
    }
    forall c | 0 < c < |t| && Parent(c) == m
      ensures !gt(t[c], t[Parent(m)])
    {
      assert OrderedAt(gt, s, c);
    }
  }

  /** siftDown may stop when no child is greater. */
  lemma DownDone<T(!new)>(gt: (T, T) -> bool, s: seq<T>, lo: nat, i: nat)
    requires StrictWeakOrder(gt) && DownFrom(gt, s, lo, i)
    requires Largest(gt, s, i) == i
    ensures HeapFrom(gt, s, lo)
  {
    LargestIsGreatest(gt, s, i);
  }

  lemma HeapFromZero<T>(gt: (T, T) -> bool, s: seq<T>)
    requires HeapFrom(gt, s, 0)
    ensures IsHeap(gt, s)
  {
  }

  /** The first element of a heap is maximal. */
  lemma {:induction false} RootIsMaximal<T(!new)>(gt: (T, T) -> bool, s: seq<T>, i: nat)
    requires StrictWeakOrder(gt) && IsHeap(gt, s) && i < |s|
    ensures !gt(s[i], s[0])
  {
    if i > 0 {
      RootIsMaximal(gt, s, Parent(i));
      assert OrderedAt(gt, s, i);
    }
  }

  /** Position of the first element that matches value, -1 when there is none. */
  function FirstMatch<T, I>(matches: (I, T) -> bool, value: I, s: seq<T>): (i: int)
    ensures -1 <= i < |s|
    ensures i >= 0 ==> matches(value, s[i])
    ensures forall k :: 0 <= k < (if i == -1 then |s| else i) ==> !matches(value, s[k])
  {
    if s == [] then -1
    else if matches(value, s[0]) then 0
    else
      var k := FirstMatch(matches, value, s[1..]);
      if k == -1 then -1 else k + 1
  }

  /** Taking the last element's place: what Pop and Delete leave before they sift. */
  function DropSwapped<T>(s: seq<T>, i: nat): seq<T>
    requires i < |s|
  {
    Swap(s, i, |s| - 1)[..|s| - 1]
  }

  lemma PrefixIsHeap<T>(gt: (T, T) -> bool, s: seq<T>, n: nat)
    requires IsHeap(gt, s) && n <= |s|
    ensures IsHeap(gt, s[..n])
  {
    forall j | 0 <= j < n
      ensures OrderedAt(gt, s[..n], j)
    {
      assert OrderedAt(gt, s, j);
    }
  }

  lemma PushedUp<T>(gt: (T, T) -> bool, s: seq<T>, x: T)
    requires IsHeap(gt, s)
    ensures UpFrom(gt, s + [x], |s|)
  {
    forall j | 0 <= j < |s|
      ensures OrderedAt(gt, s + [x], j)
    {
      assert OrderedAt(gt, s, j);
    }
  }

  lemma DropSwappedElements<T>(s: seq<T>, i: nat)
    requires i < |s|
    ensures multiset(DropSwapped(s, i)) == multiset(s) - multiset{s[i]}
  {
    var t := Swap(s, i, |s| - 1);
    SwapKeepsElements(s, i, |s| - 1);
    assert t == t[..|s| - 1] + [s[i]];
  }

  /** After the element at i of a heap is replaced, sifting up is right when the new one is greater
      than its parent. */
  lemma ReplacedUp<T(!new)>(gt: (T, T) -> bool, s: seq<T>, t: seq<T>, i: nat)
    requires StrictWeakOrder(gt) && IsHeap(gt, s)
    requires 0 < i < |t| <= |s|
    requires forall k :: 0 <= k < |t| && k != i ==> t[k] == s[k]
    requires gt(t[i], t[Parent(i)])
    ensures UpFrom(gt, t, i)
  {
    forall j | 0 <= j < |t| && j != i
      ensures OrderedAt(gt, t, j)
    {
      assert OrderedAt(gt, s, j) && OrderedAt(gt, s, i);
      if j > 0 && Parent(j) == i {
        assert !gt(t[j], t[Parent(i)]);
      }
    }
    forall c | 0 < c < |t| && Parent(c) == i
      ensures !gt(t[c], t[Parent(i)])
    {
      assert OrderedAt(gt, s, c) && OrderedAt(gt, s, i);
    }
  }

  /** Otherwise sifting down is. */
  lemma ReplacedDown<T(!new)>(gt: (T, T) -> bool, s: seq<T>, t: seq<T>, i: nat)
    requires StrictWeakOrder(gt) && IsHeap(gt, s)
    requires i < |t| <= |s|
    requires forall k :: 0 <= k < |t| && k != i ==> t[k] == s[k]
    requires i > 0 ==> !gt(t[i], t[Parent(i)])
    ensures DownFrom(gt, t, 0, i)
  {
    forall j | 0 < j < |t| && Parent(j) != i
      ensures OrderedAt(gt, t, j)
    {
      assert OrderedAt(gt, s, j);
    }
    if i > 0 {
      forall c | 0 < c < |t| && Parent(c) == i
        ensures !gt(t[c], t[Parent(i)])
      {
        assert OrderedAt(gt, s, c) && OrderedAt(gt, s, i);
      }
    }
  }

  /** And nothing is to be done when the new element is not greater than its parent and not smaller
      than the old one: Update skips siftDown exactly then. */
  lemma ReplacedInPlace<T(!new)>(gt: (T, T) -> bool, s: seq<T>, t: seq<T>, i: nat)
    requires StrictWeakOrder(gt) && IsHeap(gt, s)
    requires i < |t| == |s|
    requires t == s[i := t[i]]
    requires i > 0 ==> !gt(t[i], t[Parent(i)])
    requires !gt(s[i], t[i])
    ensures IsHeap(gt, t)
  {
    forall j | 0 <= j < |t|
      ensures OrderedAt(gt, t, j)
    {
      assert OrderedAt(gt, s, j);
    }
  }

  // ---------- Draining ----------

  /** out lists elements of all in an order that never increases, none of which is smaller than one of
      those that are left. */
  ghost predicate Drained<T(!new)>(gt: (T, T) -> bool, out: seq<T>, left: multiset<T>, all: multiset<T>) {
    && multiset(out) + left == all
    && (forall i, j :: 0 <= i < j < |out| ==> !gt(out[j], out[i]))
    && (forall x, i :: x in left && 0 <= i < |out| ==> !gt(x, out[i]))
  }

  /** Taking a maximal one of those that are left. */
  lemma DrainedStep<T(!new)>(gt: (T, T) -> bool, out: seq<T>, left: multiset<T>, all: multiset<T>, top: T)
    requires Drained(gt, out, left, all) && top in left
    requires forall x :: x in left ==> !gt(x, top)
    ensures Drained(gt, out + [top], left - multiset{top}, all)
  {
    assert multiset(out + [top]) == multiset(out) + multiset{top};
    forall i, j | 0 <= i < j < |out + [top]|
      ensures !gt((out + [top])[j], (out + [top])[i])
    {
      if j == |out| {
        assert top in left;
      }
    }
  }
}
