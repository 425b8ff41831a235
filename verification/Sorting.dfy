/** The stable sort the program takes from its standard library. */
module Sorting {
  import opened Collections

  ghost predicate TotalPreorder<T(!new)>(le: (T, T) -> bool) {
    && (forall a, b :: le(a, b) || le(b, a))
    && (forall a, b, c :: le(a, b) && le(b, c) ==> le(a, c))
  }

  ghost predicate Ascending<T>(s: seq<T>, le: (T, T) -> bool) {
    forall i, j :: 0 <= i < j < |s| ==> le(s[i], s[j])
  }

  function Insert<T>(x: T, s: seq<T>, le: (T, T) -> bool): (r: seq<T>)
    ensures |r| == |s| + 1
    ensures multiset(r) == multiset(s) + multiset{x}
  {
    if s == [] then [x]
    else
      assert s == [s[0]] + s[1..];
      if le(x, s[0]) then [x] + s
      else [s[0]] + Insert(x, s[1..], le)
  }

  function Sort<T>(s: seq<T>, le: (T, T) -> bool): (r: seq<T>)
    ensures |r| == |s|
    ensures multiset(r) == multiset(s)
  {
    if s == [] then []
    else
      assert s == [s[0]] + s[1..];
      Insert(s[0], Sort(s[1..], le), le)
  }

  lemma {:induction false} InsertAscends<T(!new)>(x: T, s: seq<T>, le: (T, T) -> bool)
    requires TotalPreorder(le) && Ascending(s, le)
    ensures Ascending(Insert(x, s, le), le)
  {
    if s != [] && !le(x, s[0]) {
      InsertAscends(x, s[1..], le);
      var r := Insert(x, s[1..], le);
      forall y | y in r ensures le(s[0], y) {
        assert y in multiset(s[1..]) + multiset{x};
      }
    }
  }

  lemma {:induction false} SortAscends<T(!new)>(s: seq<T>, le: (T, T) -> bool)
    requires TotalPreorder(le)
    ensures Ascending(Sort(s, le), le)
  {
    if s != [] {
      SortAscends(s[1..], le);
      InsertAscends(s[0], Sort(s[1..], le), le);
    }
  }

  /** A reordering of different things has no repeats. */
  lemma DistinctIsPreserved<T(!new)>(a: seq<T>, b: seq<T>)
    requires Distinct(a) && multiset(a) == multiset(b)
    ensures Distinct(b)
  {
    forall i, j | 0 <= i < j < |b| ensures b[i] != b[j] {
      var x := b[j];
      assert b == b[..j] + [x] + b[j + 1..];
      assert b[i] in b[..j];
      assert b[i] == x ==> multiset(b[..j])[x] >= 1 && multiset(b)[x] >= 2;
      CountsOnce(a, x);
    }
  }

  lemma {:induction false} CountsOnce<T(!new)>(a: seq<T>, x: T)
    requires Distinct(a)
    ensures multiset(a)[x] <= 1
    decreases |a|
  {
    if a != [] {
      var front := a[..|a| - 1];
      assert a == front + [a[|a| - 1]];
      CountsOnce(front, x);
      if a[|a| - 1] == x { assert x !in front; }
    }
  }
}
