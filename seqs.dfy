/** Sequence operations behind the queries: filtering, ordering, `take` and
    `skip`, and finding the first match. */
module Seqs {
  import opened Base

  /** `s.filter(p)`. */
  function Filter<T(!new)>(s: seq<T>, p: T -> bool): (r: seq<T>)
    ensures |r| <= |s|
    ensures forall x :: x in r <==> x in s && p(x)
    ensures multiset(r) <= multiset(s)
    ensures forall i :: 0 <= i < |r| ==> p(r[i])
  {
    if s == [] then []
    else
      var rest := Filter(s[1..], p);
      assert s == [s[0]] + s[1..];
      if p(s[0]) then [s[0]] + rest else rest
  }

  /** Filtering keeps every element that passes exactly as often as it
      occurs, and drops every other. */
  lemma {:induction false} FilterCount<T(!new)>(s: seq<T>, p: T -> bool)
    ensures forall x :: multiset(Filter(s, p))[x] == if p(x) then multiset(s)[x] else 0
    decreases |s|
  {
    if s != [] {
      FilterCount(s[1..], p);
      MultisetCons(s);
      FilterCons(s, p);
    }
  }

  /** Filtering distributes over concatenation, so it keeps the survivors in
      their original order. */
  lemma {:induction false} FilterAppend<T(!new)>(s: seq<T>, t: seq<T>, p: T -> bool)
    ensures Filter(s + t, p) == Filter(s, p) + Filter(t, p)
    decreases |s|
  {
    if s == [] {
      assert s + t == t;
    } else {
      assert (s + t)[1..] == s[1..] + t;
      FilterAppend(s[1..], t, p);
    }
  }

  /** Two complementary filters split a sequence: every element lands in
      exactly one of them. */
  lemma {:induction false} FilterPartition<T(!new)>(s: seq<T>, p: T -> bool, q: T -> bool)
    requires forall x :: q(x) == !p(x)
    ensures multiset(Filter(s, p)) + multiset(Filter(s, q)) == multiset(s)
    decreases |s|
  {
    if s != [] {
      FilterPartition(s[1..], p, q);
      PartitionHead(s, p, q);
    }
  }

  /** The step of `FilterPartition`: the head goes to exactly one side. */
  lemma PartitionHead<T(!new)>(s: seq<T>, p: T -> bool, q: T -> bool)
    requires s != [] && q(s[0]) == !p(s[0])
    requires multiset(Filter(s[1..], p)) + multiset(Filter(s[1..], q)) == multiset(s[1..])
    ensures multiset(Filter(s, p)) + multiset(Filter(s, q)) == multiset(s)
  {
    MultisetCons(s);
    FilterCons(s, p);
    FilterCons(s, q);
  }

  /** One step of `Filter`, on the head of the sequence. */
  lemma FilterCons<T(!new)>(s: seq<T>, p: T -> bool)
    requires s != []
    ensures p(s[0]) ==> multiset(Filter(s, p)) == multiset{s[0]} + multiset(Filter(s[1..], p))
    ensures !p(s[0]) ==> Filter(s, p) == Filter(s[1..], p)
  {
  }

  /** A total preorder: any two elements are comparable, and comparison chains. */
  ghost predicate TotalPreorder<T(!new)>(le: (T, T) -> bool)
  {
    && (forall a, b :: le(a, b) || le(b, a))
    && (forall a, b, c :: le(a, b) && le(b, c) ==> le(a, c))
  }

  predicate SortedBy<T>(s: seq<T>, le: (T, T) -> bool)
  {
    forall i, j :: 0 <= i < j < |s| ==> le(s[i], s[j])
  }

  function InsertSorted<T(!new)>(x: T, s: seq<T>, le: (T, T) -> bool): (r: seq<T>)
    requires TotalPreorder(le) && SortedBy(s, le)
    ensures multiset(r) == multiset(s) + multiset{x}
    ensures SortedBy(r, le)
    decreases |s|
  {
    if s == [] then [x]
    else if le(x, s[0]) then
      ConsSorted(x, s, le);
      [x] + s
    else
      var rest := InsertSorted(x, s[1..], le);
      HeadBelowInsert(s, x, rest, le);
      ConsSorted(s[0], rest, le);
      MultisetCons(s);
      [s[0]] + rest
  }

  /** Putting in front an element that is `le` the first of a sorted sequence
      keeps it sorted. */
  lemma ConsSorted<T(!new)>(y: T, t: seq<T>, le: (T, T) -> bool)
    requires TotalPreorder(le) && SortedBy(t, le)
    requires t != [] ==> le(y, t[0])
    ensures SortedBy([y] + t, le)
  {
    var r := [y] + t;
    forall i, j | 0 <= i < j < |r| ensures le(r[i], r[j]) {
      if i == 0 {
        if j > 1 {
          assert le(t[0], t[j - 1]);
        }
      } else {
        assert r[i] == t[i - 1] && r[j] == t[j - 1];
      }
    }
  }

  /** When `x` goes after the head of `s`, the head is `le` the first element
      of the rest with `x` inserted. */
  lemma HeadBelowInsert<T(!new)>(s: seq<T>, x: T, rest: seq<T>, le: (T, T) -> bool)
    requires TotalPreorder(le) && SortedBy(s, le) && s != [] && !le(x, s[0])
    requires multiset(rest) == multiset(s[1..]) + multiset{x}
    ensures rest != [] ==> le(s[0], rest[0])
  {
    if rest != [] {
      assert rest[0] in multiset(rest);
      if rest[0] != x {
        assert rest[0] in multiset(s[1..]);
        var k :| 0 <= k < |s[1..]| && s[1..][k] == rest[0];
        assert s[k + 1] == rest[0];
      }
    }
  }

  lemma MultisetCons<T>(s: seq<T>)
    requires s != []
    ensures multiset(s) == multiset{s[0]} + multiset(s[1..])
  {
    assert s == [s[0]] + s[1..];
  }

  /** Sorting by `le`: the result is a permutation of the input in which every
      element is `le` those after it. Which of several equal elements comes
      first is not fixed, as with `Array.prototype.sort` and an `orderBy`. */
  function SortBy<T(!new)>(s: seq<T>, le: (T, T) -> bool): (r: seq<T>)
    requires TotalPreorder(le)
    ensures multiset(r) == multiset(s)
    ensures |r| == |s|
    ensures forall x :: x in r <==> x in s
    ensures SortedBy(r, le)
    decreases |s|
  {
    if s == [] then []
    else
      assert s == [s[0]] + s[1..];
      var r := InsertSorted(s[0], SortBy(s[1..], le), le);
      SameElements(r, s);
      r
  }

  /** Two sequences with the same multiset have the same elements. */
  lemma SameElements<T>(r: seq<T>, s: seq<T>)
    requires multiset(r) == multiset(s)
    ensures forall x :: x in r <==> x in s
  {
    forall x ensures x in r <==> x in s {
      assert x in r <==> x in multiset(r);
      assert x in s <==> x in multiset(s);
    }
  }

  /** No element occurs twice. */
  predicate NoDuplicates<T(==)>(s: seq<T>)
  {
    forall i, j :: 0 <= i < j < |s| ==> s[i] != s[j]
  }

  lemma NoDuplicatesCons<T>(s: seq<T>)
    requires s != []
    ensures NoDuplicates(s) <==> s[0] !in s[1..] && NoDuplicates(s[1..])
  {
    if NoDuplicates(s) {
      forall k | 0 <= k < |s[1..]| ensures s[1..][k] != s[0] {
        assert s[1..][k] == s[k + 1];
      }
    }
    if s[0] !in s[1..] && NoDuplicates(s[1..]) {
      forall i, j | 0 <= i < j < |s| ensures s[i] != s[j] {
        assert s[j] == s[1..][j - 1];
        if i > 0 {
          assert s[i] == s[1..][i - 1];
        }
      }
    }
  }

  /** Having no duplicates is occurring at most once. */
  lemma {:induction false} NoDuplicatesCount<T>(s: seq<T>)
    ensures NoDuplicates(s) <==> forall x :: multiset(s)[x] <= 1
    decreases |s|
  {
    if s != [] {
      NoDuplicatesCount(s[1..]);
      NoDuplicatesCons(s);
      MultisetCons(s);
      if forall x :: multiset(s)[x] <= 1 {
        assert multiset(s)[s[0]] == 1 + multiset(s[1..])[s[0]];
        assert multiset(s)[s[0]] <= 1;
        assert forall x :: multiset(s[1..])[x] <= multiset(s)[x];
      }
    }
  }

  /** A part of a sequence without duplicates has none: sorting, filtering
      and taking a prefix never repeat an element. */
  lemma SubMultisetNoDuplicates<T>(r: seq<T>, s: seq<T>)
    requires multiset(r) <= multiset(s) && NoDuplicates(s)
    ensures NoDuplicates(r)
  {
    NoDuplicatesCount(s);
    NoDuplicatesCount(r);
  }

  lemma AppendNoDuplicates<T>(s: seq<T>, x: T)
    requires NoDuplicates(s) && x !in s
    ensures NoDuplicates(s + [x])
  {
    var r := s + [x];
    forall i, j | 0 <= i < j < |r| ensures r[i] != r[j] {
      assert r[i] == s[i];
      if j < |s| {
        assert r[j] == s[j];
      }
    }
  }

  /** A key that tells the elements of `s` apart tells those of any sub-multiset apart. */
  lemma SubMultisetKeysDistinct<T, K>(r: seq<T>, s: seq<T>, key: T -> K)
    requires multiset(r) <= multiset(s)
    requires forall i, j :: 0 <= i < j < |s| ==> key(s[i]) != key(s[j])
    ensures forall i, j :: 0 <= i < j < |r| ==> key(r[i]) != key(r[j])
  {
    SubMultisetNoDuplicates(r, s);
    forall i, j | 0 <= i < j < |r| ensures key(r[i]) != key(r[j]) {
      assert r[i] in multiset(r) && r[j] in multiset(r);
      var a :| 0 <= a < |s| && s[a] == r[i];
      var b :| 0 <= b < |s| && s[b] == r[j];
    }
  }

  /** `take: n` of a query. */
  function Take<T>(s: seq<T>, n: nat): (r: seq<T>)
    ensures |r| == Min(n, |s|)
    ensures r == s[..|r|]
  {
    if n <= |s| then s[..n] else s
  }

  /** `skip: k, take: n` of a query. */
  function Slice<T>(s: seq<T>, skip: nat, n: nat): (r: seq<T>)
    ensures |r| == Max(0, Min(n, |s| - skip))
    ensures forall i :: 0 <= i < |r| ==> r[i] == s[skip + i]
  {
    if skip >= |s| then [] else Take(s[skip..], n)
  }

  /** A window of a sorted sequence is sorted. */
  lemma SliceOfSorted<T>(s: seq<T>, skip: nat, n: nat, le: (T, T) -> bool)
    requires SortedBy(s, le)
    ensures SortedBy(Slice(s, skip, n), le)
  {
    var r := Slice(s, skip, n);
    forall i, j | 0 <= i < j < |r| ensures le(r[i], r[j]) {
      assert r[i] == s[skip + i] && r[j] == s[skip + j];
    }
  }

  /** A prefix of a sorted sequence holds the smallest elements: anything
      left out is `le`-after everything kept, and is left out only because the
      prefix is full. */
  lemma TakeOfSorted<T(!new)>(s: seq<T>, n: nat, le: (T, T) -> bool)
    requires SortedBy(s, le)
    ensures SortedBy(Take(s, n), le)
    ensures forall x :: x in s && x !in Take(s, n) ==>
              |Take(s, n)| == n && forall y :: y in Take(s, n) ==> le(y, x)
  {
    var r := Take(s, n);
    forall x | x in s && x !in r
      ensures |r| == n && forall y :: y in r ==> le(y, x)
    {
      var j :| 0 <= j < |s| && s[j] == x;
      assert j >= |r|;
      forall y | y in r ensures le(y, x) {
        var i :| 0 <= i < |r| && r[i] == y;
        assert s[i] == y;
      }
    }
  }

  /** The first `n` elements of `s` in `le` order: `orderBy` followed by `take`. */
  function TopBy<T(!new)>(s: seq<T>, le: (T, T) -> bool, n: nat): (r: seq<T>)
    requires TotalPreorder(le)
    ensures |r| == Min(n, |s|)
    ensures SortedBy(r, le)
    ensures multiset(r) <= multiset(s)
    ensures forall x :: x in r ==> x in s
    ensures forall x :: x in s && x !in r ==> |r| == n && forall y :: y in r ==> le(y, x)
  {
    var sorted := SortBy(s, le);
    TakeOfSorted(sorted, n, le);
    var r := Take(sorted, n);
    assert sorted == r + sorted[|r|..];
    assert multiset(sorted) == multiset(r) + multiset(sorted[|r|..]);
    forall x | x in s ensures x in sorted {
      assert x in multiset(s);
    }
    forall x | x in r ensures x in s {
      assert x in multiset(sorted);
    }
    r
  }

  /** The first element of `s` satisfying `p` (`findFirst`, `findUnique`). */
  function Find<T(!new)>(s: seq<T>, p: T -> bool): (r: Option<T>)
    ensures r.Some? ==> r.value in s && p(r.value)
    ensures r.None? <==> forall x :: x in s ==> !p(x)
    decreases |s|
  {
    if s == [] then None
    else if p(s[0]) then Some(s[0])
    else
      var r := Find(s[1..], p);
      assert forall x :: x in s ==> x == s[0] || x in s[1..];
      r
  }
}
