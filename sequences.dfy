/** What the stores do with query results: filtering, ordering by a key (ORDER BY
    ... ASC/DESC) and cutting out one page (PageRequest.of(page, size)). */
module Sequences {
  import opened Common

  /** No two elements of `s` share a key (a primary key). */
  predicate UniqueKeys<T>(s: seq<T>, key: T -> int) {
    forall i, j :: 0 <= i < j < |s| ==> key(s[i]) != key(s[j])
  }

  /** The position of the first element of `s` whose key is `k` (findById). */
  function IndexOf<T>(s: seq<T>, key: T -> int, k: int): (r: Option<nat>)
    ensures r.Some? ==> r.value < |s| && key(s[r.value]) == k
    ensures r.Some? ==> forall i :: 0 <= i < r.value ==> key(s[i]) != k
    ensures r.None? ==> forall i :: 0 <= i < |s| ==> key(s[i]) != k
  {
    if s == [] then None
    else if key(s[0]) == k then Some(0)
    else match IndexOf(s[1..], key, k)
      case None => None
      case Some(j) => Some(j + 1)
  }

  /** With unique keys, the element with key k is found at its own position. */
  lemma IndexOfUnique<T>(s: seq<T>, key: T -> int, i: int)
    requires UniqueKeys(s, key) && 0 <= i < |s|
    ensures IndexOf(s, key, key(s[i])) == Some(i)
  {
    var r := IndexOf(s, key, key(s[i]));
    assert r.Some?;
  }

  /** The elements of `s` that satisfy `p`, in their original order. */
  function Filter<T(!new)>(s: seq<T>, p: T -> bool): (r: seq<T>)
    ensures |r| <= |s|
    ensures forall x :: x in r <==> x in s && p(x)
    ensures forall x :: multiset(r)[x] == if p(x) then multiset(s)[x] else 0
  {
    if s == [] then []
    else
      var rest := Filter(s[1..], p);
      assert s == [s[0]] + s[1..];
      assert multiset(s) == multiset{s[0]} + multiset(s[1..]);
      if p(s[0]) then [s[0]] + rest else rest
  }

  /** `a` may come before `b` when ordering by `key`, ascending or descending. */
  predicate Ordered<T>(a: T, b: T, key: T -> int, descending: bool) {
    if descending then key(a) >= key(b) else key(a) <= key(b)
  }

  predicate SortedBy<T>(s: seq<T>, key: T -> int, descending: bool) {
    forall i, j :: 0 <= i < j < |s| ==> Ordered(s[i], s[j], key, descending)
  }

  /** The tail of a sorted sequence is sorted. */
  lemma SortedTail<T>(s: seq<T>, key: T -> int, descending: bool)
    requires s != [] && SortedBy(s, key, descending)
    ensures SortedBy(s[1..], key, descending)
  {
    forall i, j | 0 <= i < j < |s| - 1 ensures Ordered(s[1..][i], s[1..][j], key, descending) {
      assert s[1..][i] == s[i + 1] && s[1..][j] == s[j + 1];
    }
  }

  /** An element that may precede every element of a sorted sequence can head it. */
  lemma SortedCons<T>(h: T, t: seq<T>, key: T -> int, descending: bool)
    requires SortedBy(t, key, descending)
    requires forall y :: y in t ==> Ordered(h, y, key, descending)
    ensures SortedBy([h] + t, key, descending)
  {
    var r := [h] + t;
    forall i, j | 0 <= i < j < |r| ensures Ordered(r[i], r[j], key, descending) {
      assert r[j] == t[j - 1];
      if i > 0 {
        assert r[i] == t[i - 1];
      }
    }
  }

  /** Puts `x` into the sorted `s`, before the first element it may precede. */
  function Insert<T(!new)>(x: T, s: seq<T>, key: T -> int, descending: bool): (r: seq<T>)
    requires SortedBy(s, key, descending)
    ensures SortedBy(r, key, descending)
    ensures multiset(r) == multiset(s) + multiset{x}
    ensures forall y :: y in r <==> y == x || y in s
  {
    if s == [] || Ordered(x, s[0], key, descending) then
      assert forall y :: y in s ==> Ordered(x, y, key, descending) by {
        forall y | y in s ensures Ordered(x, y, key, descending) {
          var j :| 0 <= j < |s| && s[j] == y;
          if j > 0 {
            assert Ordered(s[0], s[j], key, descending);
          }
        }
      }
      SortedCons(x, s, key, descending);
      [x] + s
    else
      SortedTail(s, key, descending);
      var rest := Insert(x, s[1..], key, descending);
      assert s == [s[0]] + s[1..];
      assert forall y :: y in s[1..] ==> Ordered(s[0], y, key, descending) by {
        forall y | y in s[1..] ensures Ordered(s[0], y, key, descending) {
          var j :| 0 <= j < |s[1..]| && s[1..][j] == y;
          assert s[j + 1] == y;
        }
      }
      SortedCons(s[0], rest, key, descending);
      [s[0]] + rest
  }

  /** The elements of `s` ordered by `key`; elements with equal keys keep their order. */
  function SortBy<T(!new)>(s: seq<T>, key: T -> int, descending: bool): (r: seq<T>)
    ensures SortedBy(r, key, descending)
    ensures multiset(r) == multiset(s)
    ensures |r| == |s|
  {
    if s == [] then []
    else
      assert s == [s[0]] + s[1..];
      Insert(s[0], SortBy(s[1..], key, descending), key, descending)
  }

  /** The first element of a sorted sequence may precede each of its elements. */
  lemma SortedHeadFirst<T>(s: seq<T>, key: T -> int, descending: bool, x: T)
    requires SortedBy(s, key, descending) && x in s
    ensures Ordered(s[0], x, key, descending)
  {
    var j :| 0 <= j < |s| && s[j] == x;
    if j > 0 {
      assert Ordered(s[0], s[j], key, descending);
    }
  }

  /** The first element after ordering by `key` (ORDER BY ... then findFirst): none
      exactly for an empty input, otherwise an element that may precede all others. */
  function First<T(!new)>(s: seq<T>, key: T -> int, descending: bool): (r: Option<T>)
    ensures r.None? <==> s == []
    ensures r.Some? ==> r.value in s && forall y :: y in s ==> Ordered(r.value, y, key, descending)
  {
    var sorted := SortBy(s, key, descending);
    if sorted == [] then
      assert |s| == 0;
      None
    else
      assert sorted[0] in multiset(s);
      assert forall y :: y in s ==> Ordered(sorted[0], y, key, descending) by {
        forall y | y in s ensures Ordered(sorted[0], y, key, descending) {
          assert y in multiset(sorted);
          SortedHeadFirst(sorted, key, descending, y);
        }
      }
      Some(sorted[0])
  }

  /** Page number `page` of `size` elements (a zero-based page index, as in
      PageRequest.of): the elements from position page * size on, at most `size`. */
  function Page<T>(s: seq<T>, page: nat, size: nat): (r: seq<T>)
    requires size > 0
    ensures |r| == if page * size >= |s| then 0
                   else if |s| - page * size < size then |s| - page * size
                   else size
    ensures forall i :: 0 <= i < |r| ==> r[i] == s[page * size + i]
    ensures forall x :: x in r ==> x in s
  {
    if page * size >= |s| then []
    else if |s| - page * size < size then s[page * size..]
    else s[page * size..page * size + size]
  }

  /** A page of a sorted sequence is sorted. */
  lemma PageSorted<T>(s: seq<T>, page: nat, size: nat, key: T -> int, descending: bool)
    requires size > 0 && SortedBy(s, key, descending)
    ensures SortedBy(Page(s, page, size), key, descending)
  {
    var r := Page(s, page, size);
    forall i, j | 0 <= i < j < |r| ensures Ordered(r[i], r[j], key, descending) {
      assert r[i] == s[page * size + i] && r[j] == s[page * size + j];
    }
  }

  /** The end of the first n pages: n * size, or the length of `s` if shorter. */
  function PagesEnd(n: nat, size: nat, len: nat): (e: nat)
    ensures e <= len
  {
    if n * size < len then n * size else len
  }

  /** Page number `page` is the slice between the ends of the pages before and up to it. */
  lemma PageIsSlice<T>(s: seq<T>, page: nat, size: nat)
    requires size > 0
    ensures PagesEnd(page, size, |s|) <= PagesEnd(page + 1, size, |s|)
    ensures Page(s, page, size) == s[PagesEnd(page, size, |s|)..PagesEnd(page + 1, size, |s|)]
  {
    assert (page + 1) * size == page * size + size;
  }

  /** Pages 0 to n - 1, one after the other. */
  function FirstPages<T>(s: seq<T>, n: nat, size: nat): seq<T>
    requires size > 0
  {
    if n == 0 then [] else FirstPages(s, n - 1, size) + Page(s, n - 1, size)
  }

  /** Reading the pages in order gives back the whole sequence: no element is
      skipped or repeated by paging. */
  lemma {:induction false} PagesTile<T>(s: seq<T>, n: nat, size: nat)
    requires size > 0
    ensures FirstPages(s, n, size) == s[..PagesEnd(n, size, |s|)]
  {
    if n > 0 {
      var m := n - 1;
      PagesTile(s, m, size);
      PageIsSlice(s, m, size);
      var lo, hi := PagesEnd(m, size, |s|), PagesEnd(m + 1, size, |s|);
      assert FirstPages(s, n, size) == FirstPages(s, m, size) + Page(s, m, size);
      SliceJoin(s, lo, hi);
    }
  }

  lemma SliceJoin<T>(s: seq<T>, lo: nat, hi: nat)
    requires lo <= hi <= |s|
    ensures s[..lo] + s[lo..hi] == s[..hi]
  {
  }
}
