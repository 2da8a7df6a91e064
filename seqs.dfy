/**
 * Sequence tools standing in for the SQL the bot sends: a WHERE clause is a
 * filter that keeps table order, ORDER BY is a sort by a total preorder, and
 * LIMIT n keeps a prefix.
 */
module Seqs {
  import opened Base

  /** The rows of `s` satisfying `p`, in their original order. */
  function Filter<T>(s: seq<T>, p: T -> bool): (r: seq<T>)
    ensures |r| <= |s|
    ensures forall i :: 0 <= i < |r| ==> r[i] in s && p(r[i])
    ensures forall i :: 0 <= i < |s| && p(s[i]) ==> s[i] in r
  {
    if s == [] then [] else (if p(s[0]) then [s[0]] else []) + Filter(s[1..], p)
  }

  lemma {:induction false} FilterAppend<T>(a: seq<T>, b: seq<T>, p: T -> bool)
    ensures Filter(a + b, p) == Filter(a, p) + Filter(b, p)
  {
    if a == [] {
      assert a + b == b;
    } else {
      assert (a + b)[1..] == a[1..] + b;
      FilterAppend(a[1..], b, p);
    }
  }

  /** Filtering a sequence grown by one element grows the result by that element when it qualifies. */
  lemma FilterSnoc<T>(s: seq<T>, x: T, p: T -> bool)
    ensures Filter(s + [x], p) == Filter(s, p) + (if p(x) then [x] else [])
  {
    FilterAppend(s, [x], p);
    assert [x][1..] == [];
  }

  lemma {:induction false} FilterAll<T>(s: seq<T>, p: T -> bool)
    requires forall i :: 0 <= i < |s| ==> p(s[i])
    ensures Filter(s, p) == s
  {
    if s != [] {
      FilterAll(s[1..], p);
    }
  }

  lemma {:induction false} FilterNone<T>(s: seq<T>, p: T -> bool)
    requires forall i :: 0 <= i < |s| ==> !p(s[i])
    ensures Filter(s, p) == []
  {
    if s != [] {
      FilterNone(s[1..], p);
    }
  }

  /** A filter that rejects exactly one position cuts out that element. */
  lemma {:induction false} FilterOneOut<T>(s: seq<T>, p: T -> bool, k: nat)
    requires k < |s| && !p(s[k])
    requires forall i :: 0 <= i < |s| && i != k ==> p(s[i])
    ensures Filter(s, p) == s[..k] + s[k + 1..]
  {
    var tail := s[1..];
    if k == 0 {
      forall i | 0 <= i < |tail| ensures p(tail[i]) {
        assert tail[i] == s[i + 1];
      }
      FilterAll(tail, p);
    } else {
      forall i | 0 <= i < |tail| && i != k - 1 ensures p(tail[i]) {
        assert tail[i] == s[i + 1];
      }
      FilterOneOut(tail, p, k - 1);
      assert p(s[0]);
      assert [s[0]] + (tail[..k - 1] + tail[k..]) == s[..k] + s[k + 1..];
    }
  }

  /** A filter removes nothing exactly when every element passes it. */
  lemma {:induction false} FilterRemovesNothing<T>(s: seq<T>, p: T -> bool)
    ensures |Filter(s, p)| == |s| <==> forall i :: 0 <= i < |s| ==> p(s[i])
  {
    if s != [] {
      FilterRemovesNothing(s[1..], p);
      assert |Filter(s[1..], p)| <= |s[1..]|;
      if forall i :: 0 <= i < |s| ==> p(s[i]) {
        assert forall i :: 0 <= i < |s[1..]| ==> p(s[1..][i]) by {
          forall i | 0 <= i < |s[1..]| ensures p(s[1..][i]) {
            assert s[1..][i] == s[i + 1];
          }
        }
      } else if p(s[0]) {
        var k :| 0 <= k < |s| && !p(s[k]);
        assert s[1..][k - 1] == s[k];
      }
    }
  }

  /** A filter removes something exactly when some element fails it. */
  lemma FilterShrinksIff<T>(s: seq<T>, p: T -> bool)
    ensures |Filter(s, p)| < |s| <==> exists i :: 0 <= i < |s| && !p(s[i])
  {
    FilterRemovesNothing(s, p);
  }

  lemma {:induction false} FilterMultiset<T>(s: seq<T>, p: T -> bool)
    ensures multiset(Filter(s, p)) <= multiset(s)
  {
    if s != [] {
      FilterMultiset(s[1..], p);
      MultisetHead(s);
      assert Filter(s, p) == (if p(s[0]) then [s[0]] else []) + Filter(s[1..], p);
    }
  }

  lemma FilterTail<T>(s: seq<T>, p: T -> bool)
    requires s != [] && !p(s[0]) && forall i :: 1 <= i < |s| ==> p(s[i])
    ensures Filter(s, p) == s[1..]
  {
    var tail := s[1..];
    forall i | 0 <= i < |tail| ensures p(tail[i]) {
      assert tail[i] == s[i + 1];
    }
    FilterAll(tail, p);
  }

  lemma MultisetHead<T>(s: seq<T>)
    requires s != []
    ensures multiset(s) == multiset(s[1..]) + multiset{s[0]}
  {
    assert s == [s[0]] + s[1..];
  }

  /** A filter that rejects the head and keeps the rest removes just the head. */
  lemma FilterDropsHead<T>(s: seq<T>, p: T -> bool)
    requires s != [] && !p(s[0]) && forall i :: 1 <= i < |s| ==> p(s[i])
    ensures multiset(s) == multiset(Filter(s, p)) + multiset{s[0]}
  {
    FilterTail(s, p);
    MultisetHead(s);
  }

  /** A filter that keeps the head removes from `s` what it removes from the rest. */
  lemma FilterKeepsHead<T>(s: seq<T>, p: T -> bool, x: T)
    requires s != [] && p(s[0])
    requires multiset(s[1..]) == multiset(Filter(s[1..], p)) + multiset{x}
    ensures multiset(s) == multiset(Filter(s, p)) + multiset{x}
  {
    assert s == [s[0]] + s[1..];
    assert Filter(s, p) == [s[0]] + Filter(s[1..], p);
  }

  /** Every pair of elements, in order, is related by `rel`. */
  predicate Pairwise<T>(s: seq<T>, rel: (T, T) -> bool) {
    forall i, j :: 0 <= i < j < |s| ==> rel(s[i], s[j])
  }

  /** A relation holding between all ordered pairs keeps holding under any filter. */
  lemma {:induction false} FilterPairwise<T>(s: seq<T>, p: T -> bool, rel: (T, T) -> bool)
    requires Pairwise(s, rel)
    ensures Pairwise(Filter(s, p), rel)
  {
    if s != [] {
      FilterPairwise(s[1..], p, rel);
      var rest := Filter(s[1..], p);
      forall j | 0 <= j < |rest| ensures rel(s[0], rest[j]) {
        assert rest[j] in s[1..];
      }
    }
  }

  /** Appending one element keeps a pairwise relation when it relates to everything before. */
  lemma PairwiseSnoc<T>(s: seq<T>, x: T, rel: (T, T) -> bool)
    requires Pairwise(s, rel)
    requires forall i :: 0 <= i < |s| ==> rel(s[i], x)
    ensures Pairwise(s + [x], rel)
  {
  }

  ghost predicate Total<T(!new)>(le: (T, T) -> bool) {
    forall a, b :: le(a, b) || le(b, a)
  }

  ghost predicate Transitive<T(!new)>(le: (T, T) -> bool) {
    forall a, b, c :: le(a, b) && le(b, c) ==> le(a, c)
  }

  ghost predicate TotalPreorder<T(!new)>(le: (T, T) -> bool) {
    Total(le) && Transitive(le)
  }

  predicate SortedBy<T>(s: seq<T>, le: (T, T) -> bool) {
    forall i, j :: 0 <= i < j < |s| ==> le(s[i], s[j])
  }

  /** `x` placed before the first element it is `le` to. */
  function Insert<T>(x: T, s: seq<T>, le: (T, T) -> bool): (r: seq<T>)
    ensures multiset(r) == multiset{x} + multiset(s)
    ensures |r| == |s| + 1
  {
    if s == [] then [x]
    else if le(x, s[0]) then [x] + s
    else
      assert s == [s[0]] + s[1..];
      [s[0]] + Insert(x, s[1..], le)
  }

  /** Insertion sort: the reference definition of ORDER BY. */
  function SortBy<T>(s: seq<T>, le: (T, T) -> bool): (r: seq<T>)
    ensures multiset(r) == multiset(s)
    ensures |r| == |s|
  {
    if s == [] then []
    else
      assert s == [s[0]] + s[1..];
      Insert(s[0], SortBy(s[1..], le), le)
  }

  lemma {:induction false} InsertSorted<T(!new)>(x: T, s: seq<T>, le: (T, T) -> bool)
    requires TotalPreorder(le) && SortedBy(s, le)
    ensures SortedBy(Insert(x, s, le), le)
  {
    if s != [] && !le(x, s[0]) {
      var tail := Insert(x, s[1..], le);
      InsertSorted(x, s[1..], le);
      forall j | 0 <= j < |tail| ensures le(s[0], tail[j]) {
        assert tail[j] in multiset(tail);
        if tail[j] != x {
          assert tail[j] in multiset(s[1..]);
          assert tail[j] in s[1..];
        }
      }
    }
  }

  /** ORDER BY yields a sorted permutation of its input. */
  lemma {:induction false} SortBySorted<T(!new)>(s: seq<T>, le: (T, T) -> bool)
    requires TotalPreorder(le)
    ensures SortedBy(SortBy(s, le), le)
  {
    if s != [] {
      SortBySorted(s[1..], le);
      InsertSorted(s[0], SortBy(s[1..], le), le);
    }
  }

  /** LIMIT n. */
  function Take<T>(s: seq<T>, n: nat): (r: seq<T>)
    ensures |r| == Min(n, |s|)
    ensures r == s[..|r|]
  {
    s[..Min(n, |s|)]
  }

  /** The rows of `s` satisfying `p`, ordered by `le`, at most `n` of them. */
  function Query<T>(s: seq<T>, p: T -> bool, le: (T, T) -> bool, n: nat): seq<T> {
    Take(SortBy(Filter(s, p), le), n)
  }

  /** A prefix of a sorted sequence is sorted and precedes everything after it. */
  lemma PrefixSorted<T>(all: seq<T>, k: nat, le: (T, T) -> bool)
    requires SortedBy(all, le) && k <= |all|
    ensures SortedBy(all[..k], le)
    ensures forall i, j :: 0 <= i < k <= j < |all| ==> le(all[..k][i], all[j])
  {
  }

  /** LIMIT keeps some of the rows it is given, never adds any. */
  lemma TakeSub<T>(all: seq<T>, n: nat)
    ensures multiset(Take(all, n)) <= multiset(all)
    ensures forall x :: x in Take(all, n) ==> x in all
  {
    var r := Take(all, n);
    assert all == r + all[|r|..];
  }

  /** ORDER BY returns the rows it is given. */
  lemma SortByMembers<T>(s: seq<T>, le: (T, T) -> bool)
    ensures forall x :: x in SortBy(s, le) ==> x in s
  {
    forall x | x in SortBy(s, le) ensures x in s {
      assert x in multiset(SortBy(s, le));
    }
  }

  /** What a SELECT … WHERE … ORDER BY … LIMIT n returns: at most n qualifying rows
      of the table, sorted, and no qualifying row left out precedes a listed one. */
  lemma QueryProperties<T(!new)>(s: seq<T>, p: T -> bool, le: (T, T) -> bool, n: nat)
    requires TotalPreorder(le)
    ensures |Query(s, p, le, n)| == Min(n, |Filter(s, p)|)
    ensures SortedBy(Query(s, p, le, n), le)
    ensures forall i :: 0 <= i < |Query(s, p, le, n)| ==> Query(s, p, le, n)[i] in s && p(Query(s, p, le, n)[i])
    ensures multiset(Query(s, p, le, n)) <= multiset(Filter(s, p))
    ensures forall i, j :: 0 <= i < |Query(s, p, le, n)| <= j < |SortBy(Filter(s, p), le)| ==>
      le(Query(s, p, le, n)[i], SortBy(Filter(s, p), le)[j])
  {
    var f := Filter(s, p);
    var all := SortBy(f, le);
    SortBySorted(f, le);
    var r := Take(all, n);
    PrefixSorted(all, |r|, le);
    TakeSub(all, n);
    SortByMembers(f, le);
    forall i | 0 <= i < |r| ensures r[i] in s && p(r[i]) {
      assert r[i] in r;
    }
  }
}
