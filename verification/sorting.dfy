/** ORDER BY over an already-read row sequence: a stable insertion sort under
    a total preorder. SQL leaves the order of rows that tie on every ORDER BY
    key unspecified; this model keeps them in scan order. */
module Sorting {

  /** `le` orders every pair and is transitive. */
  ghost predicate TotalPreorder<T(!new)>(le: (T, T) -> bool)
  {
    && (forall a, b :: le(a, b) || le(b, a))
    && (forall a, b, c :: le(a, b) && le(b, c) ==> le(a, c))
  }

  predicate Sorted<T>(s: seq<T>, le: (T, T) -> bool)
  {
    forall i, j :: 0 <= i < j < |s| ==> le(s[i], s[j])
  }

  /** `x` placed before the first element it does not follow. */
  function InsertSorted<T(!new)>(x: T, s: seq<T>, le: (T, T) -> bool): (r: seq<T>)
    requires TotalPreorder(le) && Sorted(s, le)
    ensures Sorted(r, le)
    ensures multiset(r) == multiset(s) + multiset{x}
    ensures |r| == |s| + 1
  {
    if s == [] then [x]
    else if le(x, s[0]) then
      BelowHead(x, s, le);
      SortedCons(x, s, le);
      [x] + s
    else
      var rest := InsertSorted(x, s[1..], le);
      assert s == [s[0]] + s[1..];
      HeadBelowAll(x, s, rest, le);
      SortedCons(s[0], rest, le);
      [s[0]] + rest
  }

  /** Below the head of a sorted sequence is below all of it. */
  lemma BelowHead<T(!new)>(x: T, s: seq<T>, le: (T, T) -> bool)
    requires TotalPreorder(le) && Sorted(s, le)
    requires s != [] && le(x, s[0])
    ensures forall j :: 0 <= j < |s| ==> le(x, s[j])
  {
    forall j | 0 <= j < |s|
      ensures le(x, s[j])
    {
      if j > 0 {
        assert le(s[0], s[j]);
      }
    }
  }

  lemma SortedCons<T>(a: T, s: seq<T>, le: (T, T) -> bool)
    requires Sorted(s, le)
    requires forall j :: 0 <= j < |s| ==> le(a, s[j])
    ensures Sorted([a] + s, le)
  {
    var r := [a] + s;
    assert forall j :: 1 <= j < |r| ==> r[j] == s[j - 1];
  }

  /** Elements of `rest` are `x` or come from `s[1..]`. */
  lemma FromInsert<T>(x: T, s: seq<T>, rest: seq<T>, j: nat)
    requires s != [] && j < |rest|
    requires multiset(rest) == multiset(s[1..]) + multiset{x}
    ensures rest[j] == x || exists k :: 1 <= k < |s| && s[k] == rest[j]
  {
    assert rest[j] in multiset(rest);
    if rest[j] != x {
      assert rest[j] in multiset(s[1..]);
      assert rest[j] in s[1..];
      var k :| 0 <= k < |s[1..]| && s[1..][k] == rest[j];
      assert s[k + 1] == rest[j];
    }
  }

  /** When `x` goes after the head, the head precedes everything inserted
      after it. */
  lemma HeadBelowAll<T(!new)>(x: T, s: seq<T>, rest: seq<T>, le: (T, T) -> bool)
    requires TotalPreorder(le) && Sorted(s, le)
    requires s != [] && !le(x, s[0])
    requires multiset(rest) == multiset(s[1..]) + multiset{x}
    ensures forall j :: 0 <= j < |rest| ==> le(s[0], rest[j])
  {
    forall j | 0 <= j < |rest|
      ensures le(s[0], rest[j])
    {
      FromInsert(x, s, rest, j);
    }
  }

  /** The rows in ORDER BY order: a sorted permutation of the input. */
  function Sort<T(!new)>(s: seq<T>, le: (T, T) -> bool): (r: seq<T>)
    requires TotalPreorder(le)
    ensures Sorted(r, le)
    ensures multiset(r) == multiset(s)
    ensures |r| == |s|
  {
    if s == [] then []
    else
      assert s == [s[0]] + s[1..];
      InsertSorted(s[0], Sort(s[1..], le), le)
  }

  /** Every element of the sorted sequence comes from the input, and back. */
  lemma SortKeepsElements<T(!new)>(s: seq<T>, le: (T, T) -> bool)
    requires TotalPreorder(le)
    ensures forall x :: x in Sort(s, le) <==> x in s
  {
    var r := Sort(s, le);
    forall x
      ensures x in r <==> x in s
    {
      assert x in r <==> x in multiset(r);
      assert x in s <==> x in multiset(s);
    }
  }

  /** `f` summed over `s`. */
  function Sum<T>(s: seq<T>, f: T -> real): real
  {
    if s == [] then 0.0 else f(s[0]) + Sum(s[1..], f)
  }

  lemma {:induction false} SumOfInsert<T(!new)>(x: T, s: seq<T>, le: (T, T) -> bool, f: T -> real)
    requires TotalPreorder(le) && Sorted(s, le)
    ensures Sum(InsertSorted(x, s, le), f) == f(x) + Sum(s, f)
  {
    if s != [] && !le(x, s[0]) {
      var rest := InsertSorted(x, s[1..], le);
      assert InsertSorted(x, s, le) == [s[0]] + rest;
      assert ([s[0]] + rest)[1..] == rest;
      SumOfInsert(x, s[1..], le, f);
    } else if s != [] {
      assert ([x] + s)[1..] == s;
    }
  }

  /** Sorting does not change a sum over the rows. */
  lemma {:induction false} SortKeepsSum<T(!new)>(s: seq<T>, le: (T, T) -> bool, f: T -> real)
    requires TotalPreorder(le)
    ensures Sum(Sort(s, le), f) == Sum(s, f)
  {
    if s != [] {
      SortKeepsSum(s[1..], le, f);
      SumOfInsert(s[0], Sort(s[1..], le), le, f);
    }
  }

  /** No two elements share a key. */
  ghost predicate DistinctKeys<T, K>(s: seq<T>, key: T -> K)
  {
    forall i, j :: 0 <= i < j < |s| ==> key(s[i]) != key(s[j])
  }

  lemma {:induction false} InsertKeepsDistinctKeys<T(!new), K>(x: T, s: seq<T>, le: (T, T) -> bool, key: T -> K)
    requires TotalPreorder(le) && Sorted(s, le)
    requires DistinctKeys(s, key)
    requires forall i :: 0 <= i < |s| ==> key(s[i]) != key(x)
    ensures DistinctKeys(InsertSorted(x, s, le), key)
  {
    if s == [] {
    } else if le(x, s[0]) {
      ConsDistinct(x, s, key);
    } else {
      var tail := s[1..];
      assert forall i :: 1 <= i < |s| ==> tail[i - 1] == s[i];
      InsertKeepsDistinctKeys(x, tail, le, key);
      var rest := InsertSorted(x, tail, le);
      forall j | 0 <= j < |rest|
        ensures key(rest[j]) != key(s[0])
      {
        FromInsert(x, s, rest, j);
      }
      ConsDistinct(s[0], rest, key);
    }
  }

  /** A key absent from a sequence with distinct keys can go in front. */
  lemma ConsDistinct<T, K>(a: T, s: seq<T>, key: T -> K)
    requires DistinctKeys(s, key)
    requires forall j :: 0 <= j < |s| ==> key(s[j]) != key(a)
    ensures DistinctKeys([a] + s, key)
  {
    var r := [a] + s;
    assert forall j :: 1 <= j < |r| ==> r[j] == s[j - 1];
  }

  /** Sorting keeps the keys of a grouping distinct. */
  lemma {:induction false} SortKeepsDistinctKeys<T(!new), K>(s: seq<T>, le: (T, T) -> bool, key: T -> K)
    requires TotalPreorder(le)
    requires DistinctKeys(s, key)
    ensures DistinctKeys(Sort(s, le), key)
  {
    if s != [] {
      var tail := s[1..];
      assert forall i :: 1 <= i < |s| ==> tail[i - 1] == s[i];
      SortKeepsDistinctKeys(tail, le, key);
      var st := Sort(tail, le);
      forall i | 0 <= i < |st|
        ensures key(st[i]) != key(s[0])
      {
        assert st[i] in multiset(tail);
        var k :| 0 <= k < |tail| && tail[k] == st[i];
        assert s[k + 1] == st[i];
      }
      InsertKeepsDistinctKeys(s[0], st, le, key);
    }
  }
}
