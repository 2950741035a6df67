/** `Array.prototype.sort` with the comparator `(a, b) => key(b) - key(a)`: a stable sort,
    largest key first. */
module Sorting {
  import opened Seqs

  /** No element comes before one with a larger key. */
  predicate Descending<T>(s: seq<T>, key: T -> int) {
    forall i, j :: 0 <= i < j < |s| ==> key(s[i]) >= key(s[j])
  }

  /** The elements whose key is t. */
  function KeyIs<T>(key: T -> int, t: int): T -> bool {
    (x: T) => key(x) == t
  }

  /** Insertion of x behind every element of s whose key is not smaller than x's. */
  function Insert<T>(s: seq<T>, x: T, key: T -> int): (r: seq<T>)
    ensures |r| == |s| + 1
    decreases |s|
  {
    if s == [] || key(s[|s| - 1]) >= key(x) then s + [x]
    else Insert(s[..|s| - 1], x, key) + [s[|s| - 1]]
  }

  /** The order the stable sort leaves: each element in turn inserted into the sorted
      elements before it. */
  function SortDescending<T>(s: seq<T>, key: T -> int): (r: seq<T>)
    ensures |r| == |s|
    decreases |s|
  {
    if s == [] then [] else Insert(SortDescending(s[..|s| - 1], key), s[|s| - 1], key)
  }

  /** Where insertion puts x: after s[..j] and before s[j..]. */
  lemma {:induction false} InsertAt<T>(s: seq<T>, x: T, key: T -> int, j: int)
    requires 0 <= j <= |s|
    requires j == 0 || key(s[j - 1]) >= key(x)
    requires forall k :: j <= k < |s| ==> key(s[k]) < key(x)
    ensures Insert(s, x, key) == s[..j] + [x] + s[j..]
    decreases |s|
  {
    if j < |s| {
      var init := s[..|s| - 1];
      InsertAt(init, x, key, j);
      assert init[..j] == s[..j];
      assert s[j..] == init[j..] + [s[|s| - 1]];
    } else {
      assert s[..j] == s;
    }
  }

  lemma {:induction false} InsertPermutes<T>(s: seq<T>, x: T, key: T -> int)
    ensures multiset(Insert(s, x, key)) == multiset(s) + multiset{x}
    decreases |s|
  {
    if !(s == [] || key(s[|s| - 1]) >= key(x)) {
      var init := s[..|s| - 1];
      InsertPermutes(init, x, key);
      assert s == init + [s[|s| - 1]];
    }
  }

  /** The sort rearranges: the same elements, each as often. */
  lemma {:induction false} SortPermutes<T>(s: seq<T>, key: T -> int)
    ensures multiset(SortDescending(s, key)) == multiset(s)
    decreases |s|
  {
    if s != [] {
      var init := s[..|s| - 1];
      SortPermutes(init, key);
      InsertPermutes(SortDescending(init, key), s[|s| - 1], key);
      assert s == init + [s[|s| - 1]];
    }
  }

  /** Every element of the insertion is x or an element of s. */
  lemma InsertMembers<T>(s: seq<T>, x: T, key: T -> int, k: int)
    requires 0 <= k <= |s|
    ensures var r := Insert(s, x, key);
      r[k] == x || exists m :: 0 <= m < |s| && s[m] == r[k]
  {
    var r := Insert(s, x, key);
    InsertPermutes(s, x, key);
    assert r[k] in multiset(r);
  }

  lemma {:induction false} InsertKeepsOrder<T>(s: seq<T>, x: T, key: T -> int)
    requires Descending(s, key)
    ensures Descending(Insert(s, x, key), key)
    decreases |s|
  {
    if !(s == [] || key(s[|s| - 1]) >= key(x)) {
      var init, last := s[..|s| - 1], s[|s| - 1];
      var r := Insert(init, x, key);
      InsertKeepsOrder(init, x, key);
      forall k | 0 <= k < |r|
        ensures key(r[k]) >= key(last)
      {
        InsertMembers(init, x, key, k);
        if r[k] != x {
          var m :| 0 <= m < |init| && init[m] == r[k];
          assert s[m] == r[k];
        }
      }
    }
  }

  /** The sort puts the largest key first. */
  lemma {:induction false} SortOrders<T>(s: seq<T>, key: T -> int)
    ensures Descending(SortDescending(s, key), key)
    decreases |s|
  {
    if s != [] {
      SortOrders(s[..|s| - 1], key);
      InsertKeepsOrder(SortDescending(s[..|s| - 1], key), s[|s| - 1], key);
    }
  }

  lemma FilterSingle<T>(x: T, p: T -> bool)
    ensures Filter([x], p) == if p(x) then [x] else []
  {
    assert [x][1..] == [];
  }

  /** Two elements that do not both pass p filter alike in either order. */
  lemma FilterSwap<T>(x: T, y: T, p: T -> bool)
    requires !(p(x) && p(y))
    ensures Filter([x], p) + Filter([y], p) == Filter([y], p) + Filter([x], p)
  {
    FilterSingle(x, p);
    FilterSingle(y, p);
  }

  lemma {:induction false} InsertKeepsTies<T>(s: seq<T>, x: T, key: T -> int, t: int)
    ensures Filter(Insert(s, x, key), KeyIs(key, t)) == Filter(s + [x], KeyIs(key, t))
    decreases |s|
  {
    var p := KeyIs(key, t);
    if !(s == [] || key(s[|s| - 1]) >= key(x)) {
      var init, last := s[..|s| - 1], s[|s| - 1];
      assert s == init + [last];
      assert Insert(s, x, key) == Insert(init, x, key) + [last];
      calc {
        Filter(Insert(init, x, key) + [last], p);
        { FilterConcat(Insert(init, x, key), [last], p); }
        Filter(Insert(init, x, key), p) + Filter([last], p);
        { InsertKeepsTies(init, x, key, t); FilterConcat(init, [x], p); }
        Filter(init, p) + Filter([x], p) + Filter([last], p);
        { FilterSwap(x, last, p); }
        Filter(init, p) + Filter([last], p) + Filter([x], p);
        { FilterConcat(init, [last], p); }
        Filter(s, p) + Filter([x], p);
        { FilterConcat(s, [x], p); }
        Filter(s + [x], p);
      }
    }
  }

  /** The sort is stable: the elements sharing a key keep their relative order. */
  lemma {:induction false} SortStable<T>(s: seq<T>, key: T -> int, t: int)
    ensures Filter(SortDescending(s, key), KeyIs(key, t)) == Filter(s, KeyIs(key, t))
    decreases |s|
  {
    if s != [] {
      var init, last := s[..|s| - 1], s[|s| - 1];
      var p := KeyIs(key, t);
      SortStable(init, key, t);
      InsertKeepsTies(SortDescending(init, key), last, key, t);
      FilterConcat(SortDescending(init, key), [last], p);
      FilterConcat(init, [last], p);
      assert s == init + [last];
    }
  }

  /** One step of the in-place insertion sort: a[i] moves left past the elements of the
      sorted a[..i] with smaller keys, which shift one slot right. */
  method InsertInPlace<T>(a: array<T>, i: int, key: T -> int)
    requires 0 <= i < a.Length
    modifies a
    ensures a[..i + 1] == Insert(old(a[..i]), old(a[i]), key)
    ensures forall k :: i < k < a.Length ==> a[k] == old(a[k])
  {
    ghost var sorted := a[..i];
    var x := a[i];
    var j := i;
    while j > 0 && key(a[j - 1]) < key(x)
      invariant 0 <= j <= i
      invariant forall k :: 0 <= k < j ==> a[k] == sorted[k]
      invariant forall k :: j < k <= i ==> a[k] == sorted[k - 1]
      invariant forall k :: i < k < a.Length ==> a[k] == old(a[k])
      invariant forall k :: j <= k < i ==> key(sorted[k]) < key(x)
    {
      a[j] := a[j - 1];
      j := j - 1;
    }
    a[j] := x;
    InsertAt(sorted, x, key, j);
    assert a[..i + 1] == sorted[..j] + [x] + sorted[j..];
  }

  /** The sort on the array in place: an insertion sort. */
  method SortInPlace<T>(a: array<T>, key: T -> int)
    modifies a
    ensures a[..] == SortDescending(old(a[..]), key)
  {
    ghost var s := a[..];
    var i := 0;
    while i < a.Length
      invariant 0 <= i <= a.Length
      invariant a[..i] == SortDescending(s[..i], key)
      invariant forall k :: i <= k < a.Length ==> a[k] == s[k]
    {
      InsertInPlace(a, i, key);
      assert s[..i + 1][..i] == s[..i];
      i := i + 1;
    }
    assert s[..a.Length] == s;
  }
}
