/**
 The `Array.sort` calls of the services: sorting by a total preorder, and the fact that the
 sorted arrangement of a collection is unique, so that which algorithm sorts it does not matter.
 */
module Sorting {

  ghost predicate TotalPreorder<T(!new)>(le: (T, T) -> bool) {
    && (forall x, y :: le(x, y) || le(y, x))
    && (forall x, y, z :: le(x, y) && le(y, z) ==> le(x, z))
  }

  ghost predicate Sorted<T>(le: (T, T) -> bool, s: seq<T>) {
    forall i, j :: 0 <= i < j < |s| ==> le(s[i], s[j])
  }

  /** Two elements of `s` that order both ways are the same element. */
  ghost predicate AntisymmetricOn<T>(le: (T, T) -> bool, s: seq<T>) {
    forall x, y :: x in s && y in s && le(x, y) && le(y, x) ==> x == y
  }

  ghost predicate NoDuplicates<T>(s: seq<T>) {
    forall i, j :: 0 <= i < j < |s| ==> s[i] != s[j]
  }

  function Insert<T>(le: (T, T) -> bool, x: T, s: seq<T>): (r: seq<T>)
    ensures multiset(r) == multiset(s) + multiset{x}
  {
    if s == [] then [x]
    else if le(x, s[0]) then [x] + s
    else
      assert s == [s[0]] + s[1..];
      [s[0]] + Insert(le, x, s[1..])
  }

  function Sort<T>(le: (T, T) -> bool, s: seq<T>): (r: seq<T>)
    ensures multiset(r) == multiset(s)
    ensures |r| == |s|
  {
    if s == [] then []
    else
      assert s == [s[0]] + s[1..];
      var r := Insert(le, s[0], Sort(le, s[1..]));
      assert |r| == |multiset(r)| && |s| == |multiset(s)|;
      r
  }

  lemma {:induction false} InsertKeepsSorted<T(!new)>(le: (T, T) -> bool, x: T, s: seq<T>)
    requires TotalPreorder(le) && Sorted(le, s)
    ensures Sorted(le, Insert(le, x, s))
  {
    if s != [] && !le(x, s[0]) {
      InsertKeepsSorted(le, x, s[1..]);
      var r := Insert(le, x, s[1..]);
      forall j | 0 <= j < |r|
        ensures le(s[0], r[j])
      {
        assert r[j] in multiset(r);
        if r[j] != x {
          assert r[j] in multiset(s[1..]);
        }
      }
    }
  }

  lemma {:induction false} SortSorts<T(!new)>(le: (T, T) -> bool, s: seq<T>)
    requires TotalPreorder(le)
    ensures Sorted(le, Sort(le, s))
  {
    if s != [] {
      SortSorts(le, s[1..]);
      InsertKeepsSorted(le, s[0], Sort(le, s[1..]));
    }
  }

  lemma FirstIsLeast<T(!new)>(le: (T, T) -> bool, s: seq<T>, x: T)
    requires Sorted(le, s) && x in multiset(s)
    ensures x in s && (x == s[0] || le(s[0], x))
  {
  }

  /** A collection has one sorted arrangement. */
  lemma {:induction false} SortedIsUnique<T(!new)>(le: (T, T) -> bool, a: seq<T>, b: seq<T>)
    requires Sorted(le, a) && Sorted(le, b) && multiset(a) == multiset(b)
    requires AntisymmetricOn(le, a)
    ensures a == b
  {
    SameSize(a, b);
    if a != [] {
      SameLeast(le, a, b);
      SameTails(a, b);
      TailIsSorted(le, a);
      TailIsSorted(le, b);
      SortedIsUnique(le, a[1..], b[1..]);
      HeadAndTail(a, b);
    }
  }

  lemma SameLeast<T(!new)>(le: (T, T) -> bool, a: seq<T>, b: seq<T>)
    requires Sorted(le, a) && Sorted(le, b) && multiset(a) == multiset(b)
    requires a != [] && b != [] && AntisymmetricOn(le, a)
    ensures a[0] == b[0]
  {
    assert a[0] in multiset(a) && b[0] in multiset(b);
    FirstIsLeast(le, a, b[0]);
    FirstIsLeast(le, b, a[0]);
  }

  lemma SameSize<T>(a: seq<T>, b: seq<T>)
    requires multiset(a) == multiset(b)
    ensures |a| == |b|
  {
    assert |a| == |multiset(a)| && |b| == |multiset(b)|;
  }

  lemma TailIsSorted<T(!new)>(le: (T, T) -> bool, s: seq<T>)
    requires Sorted(le, s) && s != []
    ensures Sorted(le, s[1..]) && (AntisymmetricOn(le, s) ==> AntisymmetricOn(le, s[1..]))
  {
    forall x | x in s[1..]
      ensures x in s
    {
    }
  }

  lemma SameTails<T>(a: seq<T>, b: seq<T>)
    requires a != [] && b != [] && a[0] == b[0] && multiset(a) == multiset(b)
    ensures multiset(a[1..]) == multiset(b[1..])
  {
    assert a == [a[0]] + a[1..] && b == [b[0]] + b[1..];
    assert multiset(a[1..]) == multiset(a) - multiset{a[0]} && multiset(b[1..]) == multiset(b) - multiset{b[0]};
  }

  lemma HeadAndTail<T>(a: seq<T>, b: seq<T>)
    requires a != [] && b != [] && a[0] == b[0] && a[1..] == b[1..]
    ensures a == b
  {
    assert a == [a[0]] + a[1..] && b == [b[0]] + b[1..];
  }

  /** Sorting forgets the arrangement it started from. */
  lemma {:induction false} SortIgnoresOrder<T(!new)>(le: (T, T) -> bool, s: seq<T>, t: seq<T>)
    requires TotalPreorder(le) && multiset(s) == multiset(t) && AntisymmetricOn(le, s)
    ensures Sort(le, s) == Sort(le, t)
  {
    SortSorts(le, s);
    SortSorts(le, t);
    forall x | x in Sort(le, s)
      ensures x in s
    {
      assert x in multiset(Sort(le, s));
    }
    SortedIsUnique(le, Sort(le, s), Sort(le, t));
  }

  lemma IndexIn<T>(x: T, s: seq<T>, t: seq<T>) returns (k: nat)
    requires x in s && multiset(s) == multiset(t)
    ensures k < |t| && t[k] == x
  {
    assert x in multiset(t);
    k :| k < |t| && t[k] == x;
  }

  lemma {:induction false} NoDuplicatesIsMultisetOfSet<T>(s: seq<T>)
    requires NoDuplicates(s)
    ensures multiset(s) == multiset(set x | x in s)
  {
    if s != [] {
      assert s == [s[0]] + s[1..];
      NoDuplicatesIsMultisetOfSet(s[1..]);
      assert (set x | x in s) == {s[0]} + (set x | x in s[1..]);
    }
  }

  /** The converse reading: equal multisets share the absence of duplicates. */
  lemma MultisetKeepsNoDuplicates<T>(s: seq<T>, t: seq<T>)
    requires NoDuplicates(s) && multiset(s) == multiset(t)
    ensures NoDuplicates(t)
  {
    forall i, j | 0 <= i < j < |t|
      ensures t[i] != t[j]
    {
      if t[i] == t[j] {
        assert t == t[..i] + [t[i]] + t[i + 1..j] + [t[j]] + t[j + 1..];
        assert multiset(t)[t[i]] >= 2;
        NoDuplicatesIsMultisetOfSet(s);
        assert false;
      }
    }
  }

  // Lexicographic order of strings, as `Array.sort` compares them.
  predicate StringLe(a: string, b: string) {
    if a == "" then true
    else if b == "" then false
    else if a[0] != b[0] then a[0] < b[0]
    else StringLe(a[1..], b[1..])
  }

  lemma {:induction false} StringLeTotal(a: string, b: string)
    ensures StringLe(a, b) || StringLe(b, a)
    ensures StringLe(a, b) && StringLe(b, a) ==> a == b
  {
    if a != "" && b != "" && a[0] == b[0] {
      StringLeTotal(a[1..], b[1..]);
      assert a == [a[0]] + a[1..] && b == [b[0]] + b[1..];
    }
  }

  lemma {:induction false} StringLeTransitive(a: string, b: string, c: string)
    requires StringLe(a, b) && StringLe(b, c)
    ensures StringLe(a, c)
  {
    if a != "" && a[0] == b[0] && b[0] == c[0] {
      StringLeTransitive(a[1..], b[1..], c[1..]);
    }
  }

  lemma StringLeIsTotalPreorder()
    ensures TotalPreorder(StringLe)
  {
    forall x, y
      ensures StringLe(x, y) || StringLe(y, x)
    {
      StringLeTotal(x, y);
    }
    forall x, y, z | StringLe(x, y) && StringLe(y, z)
      ensures StringLe(x, z)
    {
      StringLeTransitive(x, y, z);
    }
  }
}
