/** `sorted` for a total order: a stable insertion sort and the facts the callers rely on. */
module Sorting {

  ghost predicate Total<T(!new)>(le: (T, T) -> bool) {
    forall x, y :: le(x, y) || le(y, x)
  }

  ghost predicate Transitive<T(!new)>(le: (T, T) -> bool) {
    forall x, y, z :: le(x, y) && le(y, z) ==> le(x, z)
  }

  ghost predicate Antisymmetric<T(!new)>(le: (T, T) -> bool) {
    forall x, y :: le(x, y) && le(y, x) ==> x == y
  }

  /** No two different elements of `s` tie. */
  ghost predicate NoTies<T>(s: seq<T>, le: (T, T) -> bool) {
    forall x, y :: x in s && y in s && le(x, y) && le(y, x) ==> x == y
  }

  ghost predicate Sorted<T>(s: seq<T>, le: (T, T) -> bool) {
    forall i, j :: 0 <= i < j < |s| ==> le(s[i], s[j])
  }

  ghost predicate Distinct<T>(s: seq<T>) {
    forall i, j :: 0 <= i < j < |s| ==> s[i] != s[j]
  }

  /** `x` goes before the first element that is not smaller, so equal keys keep their order. */
  function Insert<T>(x: T, s: seq<T>, le: (T, T) -> bool): seq<T> {
    if s == [] then [x]
    else if le(x, s[0]) then [x] + s
    else [s[0]] + Insert(x, s[1..], le)
  }

  function SortBy<T>(s: seq<T>, le: (T, T) -> bool): seq<T> {
    if s == [] then [] else Insert(s[0], SortBy(s[1..], le), le)
  }

  lemma {:induction false} InsertKeepsElements<T>(x: T, s: seq<T>, le: (T, T) -> bool)
    ensures multiset(Insert(x, s, le)) == multiset([x]) + multiset(s)
  {
    if s == [] {
    } else if le(x, s[0]) {
    } else {
      InsertKeepsElements(x, s[1..], le);
      assert s == [s[0]] + s[1..];
    }
  }

  lemma {:induction false} InsertSorts<T(!new)>(x: T, s: seq<T>, le: (T, T) -> bool)
    requires Total(le) && Transitive(le) && Sorted(s, le)
    ensures Sorted(Insert(x, s, le), le)
  {
    if s == [] {
    } else if le(x, s[0]) {
    } else {
      InsertSorts(x, s[1..], le);
      var rest := Insert(x, s[1..], le);
      forall k | 0 <= k < |rest|
        ensures le(s[0], rest[k])
      {
        InsertKeepsElements(x, s[1..], le);
        assert rest[k] in multiset(rest);
        assert rest[k] == x || rest[k] in s[1..];
      }
    }
  }

  /** Sorting rearranges its input into order. */
  lemma {:induction false} SortBySorts<T(!new)>(s: seq<T>, le: (T, T) -> bool)
    requires Total(le) && Transitive(le)
    ensures Sorted(SortBy(s, le), le)
    ensures multiset(SortBy(s, le)) == multiset(s)
    ensures |SortBy(s, le)| == |s|
  {
    if s == [] {
    } else {
      SortBySorts(s[1..], le);
      InsertSorts(s[0], SortBy(s[1..], le), le);
      InsertKeepsElements(s[0], SortBy(s[1..], le), le);
      assert s == [s[0]] + s[1..];
      assert |multiset(SortBy(s, le))| == |multiset(s)|;
    }
  }

  /** The elements of `s` that tie with `x`, in order. */
  function Tying<T>(s: seq<T>, x: T, le: (T, T) -> bool): seq<T> {
    if s == [] then []
    else (if le(x, s[0]) && le(s[0], x) then [s[0]] else []) + Tying(s[1..], x, le)
  }

  lemma TyingFirst<T>(y: T, s: seq<T>, x: T, le: (T, T) -> bool)
    ensures Tying([y] + s, x, le) == (if le(x, y) && le(y, x) then [y] else []) + Tying(s, x, le)
  {
    assert ([y] + s)[1..] == s;
  }

  lemma {:induction false} InsertIsStable<T(!new)>(y: T, s: seq<T>, x: T, le: (T, T) -> bool)
    requires Transitive(le)
    ensures Tying(Insert(y, s, le), x, le) == Tying([y] + s, x, le)
  {
    if s == [] {
    } else if le(y, s[0]) {
    } else {
      InsertIsStable(y, s[1..], x, le);
      var z := s[0];
      assert le(y, x) && le(x, z) ==> le(y, z);
      hide Tying;
      assert s == [s[0]] + s[1..];
      TyingFirst(s[0], Insert(y, s[1..], le), x, le);
      TyingFirst(s[0], s[1..], x, le);
      TyingFirst(y, s[1..], x, le);
      TyingFirst(y, s, x, le);
    }
  }

  /** Elements that tie keep their order. */
  lemma {:induction false} SortByIsStable<T(!new)>(s: seq<T>, x: T, le: (T, T) -> bool)
    requires Transitive(le)
    ensures Tying(SortBy(s, le), x, le) == Tying(s, x, le)
  {
    if s == [] {
    } else {
      SortByIsStable(s[1..], x, le);
      InsertIsStable(s[0], SortBy(s[1..], le), x, le);
      TyingFirst(s[0], SortBy(s[1..], le), x, le);
      TyingFirst(s[0], s[1..], x, le);
      assert s == [s[0]] + s[1..];
    }
  }

  lemma SortedHead<T>(a: seq<T>, b: seq<T>, le: (T, T) -> bool)
    requires a != [] && b != [] && NoTies(a, le)
    requires Sorted(a, le) && Sorted(b, le) && multiset(a) == multiset(b)
    ensures a[0] == b[0]
  {
    assert a[0] in multiset(b) && b[0] in multiset(a);
    var i :| 0 <= i < |b| && b[i] == a[0];
    var j :| 0 <= j < |a| && a[j] == b[0];
  }

  lemma TailMultiset<T>(a: seq<T>)
    requires a != []
    ensures multiset(a[1..]) == multiset(a) - multiset([a[0]])
  {
    assert a == [a[0]] + a[1..];
  }

  /** Without ties a multiset has only one sorted enumeration. */
  lemma {:induction false} SortedUnique<T>(a: seq<T>, b: seq<T>, le: (T, T) -> bool)
    requires NoTies(a, le)
    requires Sorted(a, le) && Sorted(b, le) && multiset(a) == multiset(b)
    ensures a == b
  {
    assert |multiset(a)| == |multiset(b)|;
    if a == [] {
    } else {
      SortedHead(a, b, le);
      TailMultiset(a);
      TailMultiset(b);
      SortedUnique(a[1..], b[1..], le);
      assert a == [a[0]] + a[1..] && b == [b[0]] + b[1..];
    }
  }

  /** Rearrangements of the same elements sort to the same sequence. */
  lemma SortByOrderIndependent<T(!new)>(s: seq<T>, t: seq<T>, le: (T, T) -> bool)
    requires Total(le) && Transitive(le) && NoTies(s, le)
    requires multiset(s) == multiset(t)
    ensures SortBy(s, le) == SortBy(t, le)
  {
    SortBySorts(s, le);
    SortBySorts(t, le);
    forall x | x in SortBy(s, le)
      ensures x in s
    {
      assert x in multiset(SortBy(s, le));
    }
    SortedUnique(SortBy(s, le), SortBy(t, le), le);
  }

  lemma {:induction false} DistinctMultiset<T>(s: seq<T>, x: T)
    requires Distinct(s)
    ensures multiset(s)[x] == if x in s then 1 else 0
  {
    if s == [] {
    } else {
      DistinctMultiset(s[1..], x);
      assert s == [s[0]] + s[1..];
    }
  }

  /** A sequence is free of duplicates exactly when its multiset is. */
  lemma {:induction false} DistinctFromMultiset<T>(s: seq<T>)
    requires forall x :: x in s ==> multiset(s)[x] == 1
    ensures Distinct(s)
  {
    if s == [] {
    } else {
      assert s == [s[0]] + s[1..];
      forall x | x in s[1..]
        ensures multiset(s[1..])[x] == 1
      {
        assert x in s && multiset(s)[x] == multiset([s[0]])[x] + multiset(s[1..])[x];
        assert x in multiset(s[1..]);
      }
      DistinctFromMultiset(s[1..]);
      assert multiset(s)[s[0]] == 1 + multiset(s[1..])[s[0]];
      assert s[0] !in multiset(s[1..]);
    }
  }

  lemma SortByDistinct<T(!new)>(s: seq<T>, le: (T, T) -> bool)
    requires Total(le) && Transitive(le) && Distinct(s)
    ensures Distinct(SortBy(s, le))
  {
    var sorted := SortBy(s, le);
    SortBySorts(s, le);
    forall x | x in sorted
      ensures multiset(sorted)[x] == 1
    {
      assert x in multiset(sorted);
      DistinctMultiset(s, x);
    }
    DistinctFromMultiset(sorted);
  }
}
