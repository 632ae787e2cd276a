/** A stand-in for the C library's `qsort`: any routine that leaves a sorted permutation will do,
    this one inserts.  As in C the comparison must be consistent on the elements it meets. */
module Qsort {

  ghost predicate Consistent<T(!new)>(cmp: (T, T) -> int, elems: set<T>)
  {
    && (forall x, y :: x in elems && y in elems ==> cmp(x, y) <= 0 || cmp(y, x) <= 0)
    && (forall x, y, z :: x in elems && y in elems && z in elems && cmp(x, y) <= 0 && cmp(y, z) <= 0
                          ==> cmp(x, z) <= 0)
  }

  ghost function Elems<T>(s: seq<T>): set<T>
  {
    set x | x in s
  }

  ghost predicate Sorted<T>(cmp: (T, T) -> int, s: seq<T>)
  {
    forall i, j :: 0 <= i < j < |s| ==> cmp(s[i], s[j]) <= 0
  }

  function Insert<T>(cmp: (T, T) -> int, x: T, s: seq<T>): (r: seq<T>)
    ensures |r| == |s| + 1
    ensures multiset(r) == multiset{x} + multiset(s)
  {
    if s == [] then [x]
    else if cmp(x, s[0]) <= 0 then [x] + s
    else
      assert s == [s[0]] + s[1..];
      [s[0]] + Insert(cmp, x, s[1..])
  }

  function Sort<T>(cmp: (T, T) -> int, s: seq<T>): (r: seq<T>)
    ensures |r| == |s|
    ensures multiset(r) == multiset(s)
  {
    if s == [] then []
    else
      assert s == [s[0]] + s[1..];
      Insert(cmp, s[0], Sort(cmp, s[1..]))
  }

  lemma SameElems<T>(r: seq<T>, s: seq<T>)
    requires multiset(r) == multiset(s)
    ensures forall x :: x in r <==> x in s
  {
    forall x ensures x in r <==> x in s {
      assert x in r <==> x in multiset(r);
      assert x in s <==> x in multiset(s);
    }
  }

  ghost predicate Below<T>(cmp: (T, T) -> int, x: T, s: seq<T>)
  {
    forall j :: 0 <= j < |s| ==> cmp(x, s[j]) <= 0
  }

  lemma SortedCons<T>(cmp: (T, T) -> int, x: T, s: seq<T>)
    requires Sorted(cmp, s) && Below(cmp, x, s)
    ensures Sorted(cmp, [x] + s)
  {
  }

  lemma {:induction false} BelowInsert<T>(cmp: (T, T) -> int, h: T, x: T, s: seq<T>)
    requires cmp(h, x) <= 0 && Below(cmp, h, s)
    ensures Below(cmp, h, Insert(cmp, x, s))
  {
    if s != [] {
      BelowInsert(cmp, h, x, s[1..]);
    }
  }

  lemma BelowHead<T(!new)>(cmp: (T, T) -> int, x: T, s: seq<T>, elems: set<T>)
    requires Consistent(cmp, elems) && Sorted(cmp, s)
    requires x in elems && forall y :: y in s ==> y in elems
    requires s != [] && cmp(x, s[0]) <= 0
    ensures Below(cmp, x, s)
  {
    forall j | 0 < j < |s| ensures cmp(x, s[j]) <= 0 {
      assert s[0] in elems && s[j] in elems && cmp(s[0], s[j]) <= 0;
    }
  }

  lemma {:induction false} InsertSorted<T(!new)>(cmp: (T, T) -> int, x: T, s: seq<T>, elems: set<T>)
    requires Consistent(cmp, elems) && Sorted(cmp, s)
    requires x in elems && forall y :: y in s ==> y in elems
    ensures Sorted(cmp, Insert(cmp, x, s))
  {
    if s == [] {
    } else if cmp(x, s[0]) <= 0 {
      BelowHead(cmp, x, s, elems);
      SortedCons(cmp, x, s);
    } else {
      InsertSorted(cmp, x, s[1..], elems);
      assert s[0] in elems;
      BelowInsert(cmp, s[0], x, s[1..]);
      SortedCons(cmp, s[0], Insert(cmp, x, s[1..]));
    }
  }

  lemma {:induction false} SortSorted<T(!new)>(cmp: (T, T) -> int, s: seq<T>, elems: set<T>)
    requires Consistent(cmp, elems) && forall y :: y in s ==> y in elems
    ensures Sorted(cmp, Sort(cmp, s))
  {
    if s != [] {
      SortSorted(cmp, s[1..], elems);
      SameElems(Sort(cmp, s[1..]), s[1..]);
      InsertSorted(cmp, s[0], Sort(cmp, s[1..]), elems);
    }
  }

  /** Sorts the first `n` slots in place. */
  method Qsort<T(!new)>(a: array<T>, n: nat, cmp: (T, T) -> int)
    requires n <= a.Length && Consistent(cmp, Elems(a[..n]))
    modifies a
    ensures Sorted(cmp, a[..n]) && multiset(a[..n]) == old(multiset(a[..n]))
    ensures a[n..] == old(a[n..])
  {
    var r := Sort(cmp, a[..n]);
    SortSorted(cmp, a[..n], Elems(a[..n]));
    forall i | 0 <= i < n {
      a[i] := r[i];
    }
    assert a[..n] == r;
  }
}
