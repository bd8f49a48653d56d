/**
 Stable insertion sort under a caller's comparator (the model of
 `Vec::sort_by` and `Vec::sort`) and order-preserving filtering (the model of
 `iter().filter(..)` and of splitting a batch into groups).
 */
module Sequences {

  /** `le` is what a comparator must be for `sort_by` to sort: total and transitive. */
  ghost predicate TotalPreorder<T(!new)>(le: (T, T) -> bool) {
    && (forall a, b :: le(a, b) || le(b, a))
    && (forall a, b, c :: le(a, b) && le(b, c) ==> le(a, c))
  }

  predicate Sorted<T>(s: seq<T>, le: (T, T) -> bool) {
    forall i, j :: 0 <= i < j < |s| ==> le(s[i], s[j])
  }

  /** Inserts `x` after every leading element that is `le` it (so after its equals: stable). */
  function Insert<T>(x: T, s: seq<T>, le: (T, T) -> bool): (r: seq<T>)
    ensures multiset(r) == multiset(s) + multiset{x}
    ensures |r| == |s| + 1
  {
    if |s| == 0 then [x]
    else if le(s[0], x) then
      assert s == [s[0]] + s[1..];
      [s[0]] + Insert(x, s[1..], le)
    else
      [x] + s
  }

  /** A sorted sequence stays sorted under a new head that precedes all of it. */
  lemma SortedCons<T>(h: T, t: seq<T>, le: (T, T) -> bool)
    requires Sorted(t, le) && forall j :: 0 <= j < |t| ==> le(h, t[j])
    ensures Sorted([h] + t, le)
  {
    var r := [h] + t;
    forall i, j | 0 <= i < j < |r| ensures le(r[i], r[j]) {
      if i == 0 {
        assert r[j] == t[j - 1];
      } else {
        assert r[i] == t[i - 1] && r[j] == t[j - 1];
      }
    }
  }

  /** What `Insert` returns is `x` or came from `s`. */
  lemma InsertFrom<T>(x: T, s: seq<T>, le: (T, T) -> bool, j: nat)
    requires j < |Insert(x, s, le)|
    ensures Insert(x, s, le)[j] == x || Insert(x, s, le)[j] in s
  {
    var r := Insert(x, s, le);
    assert r[j] in multiset(r);
  }

  lemma {:induction false} InsertKeepsSorted<T(!new)>(x: T, s: seq<T>, le: (T, T) -> bool)
    requires TotalPreorder(le) && Sorted(s, le)
    ensures Sorted(Insert(x, s, le), le)
    decreases |s|
  {
    if |s| > 0 && le(s[0], x) {
      InsertKeepsSorted(x, s[1..], le);
      var tail := Insert(x, s[1..], le);
      forall j | 0 <= j < |tail| ensures le(s[0], tail[j]) {
        InsertFrom(x, s[1..], le, j);
        if tail[j] != x {
          var k :| 0 <= k < |s[1..]| && s[1..][k] == tail[j];
          assert s[k + 1] == tail[j];
        }
      }
      SortedCons(s[0], tail, le);
    } else if |s| > 0 {
      forall j | 0 <= j < |s| ensures le(x, s[j]) {
        if j > 0 {
          assert le(s[0], s[j]);
        }
      }
      SortedCons(x, s, le);
    }
  }

  /** Insertion sort: a permutation of `s`. */
  function Sort<T>(s: seq<T>, le: (T, T) -> bool): (r: seq<T>)
    ensures multiset(r) == multiset(s)
    ensures |r| == |s|
  {
    if |s| == 0 then []
    else
      assert s == s[..|s| - 1] + [s[|s| - 1]];
      Insert(s[|s| - 1], Sort(s[..|s| - 1], le), le)
  }

  /** Under a total preorder the sort is sorted. */
  lemma {:induction false} SortSorts<T(!new)>(s: seq<T>, le: (T, T) -> bool)
    requires TotalPreorder(le)
    ensures Sorted(Sort(s, le), le)
    decreases |s|
  {
    if |s| > 0 {
      SortSorts(s[..|s| - 1], le);
      InsertKeepsSorted(s[|s| - 1], Sort(s[..|s| - 1], le), le);
    }
  }

  /** Positions of the elements of `s` that `keep` accepts, in increasing order. */
  function KeptIndices<T>(s: seq<T>, keep: T -> bool): (r: seq<nat>)
    ensures forall k :: 0 <= k < |r| ==> r[k] < |s| && keep(s[r[k]])
    ensures forall k, l :: 0 <= k < l < |r| ==> r[k] < r[l]
    ensures forall i :: 0 <= i < |s| && keep(s[i]) ==> i in r
  {
    if |s| == 0 then []
    else
      var front := KeptIndices(s[..|s| - 1], keep);
      if keep(s[|s| - 1]) then front + [|s| - 1] else front
  }

  /** The elements `keep` accepts, in their original order. */
  function Filter<T>(s: seq<T>, keep: T -> bool): (r: seq<T>)
    ensures |r| <= |s|
  {
    if |s| == 0 then []
    else
      var front := Filter(s[..|s| - 1], keep);
      if keep(s[|s| - 1]) then front + [s[|s| - 1]] else front
  }

  function Negate<T>(keep: T -> bool): T -> bool {
    x => !keep(x)
  }

  /** `Filter` returns exactly the accepted elements, at their positions' order. */
  lemma {:induction false} FilterIsKept<T>(s: seq<T>, keep: T -> bool)
    ensures |Filter(s, keep)| == |KeptIndices(s, keep)|
    ensures forall k :: 0 <= k < |Filter(s, keep)| ==> Filter(s, keep)[k] == s[KeptIndices(s, keep)[k]]
  {
    if |s| > 0 {
      var front := s[..|s| - 1];
      FilterIsKept(front, keep);
      var f := Filter(front, keep);
      var ki := KeptIndices(front, keep);
      forall k | 0 <= k < |f| ensures f[k] == s[ki[k]] {
        assert ki[k] < |front|;
      }
    }
  }

  /** Splitting by a predicate loses and invents nothing. */
  lemma {:induction false} FilterPartition<T>(s: seq<T>, keep: T -> bool)
    ensures multiset(Filter(s, keep)) + multiset(Filter(s, Negate(keep))) == multiset(s)
  {
    if |s| > 0 {
      var front := s[..|s| - 1];
      var last := s[|s| - 1];
      FilterPartition(front, keep);
      assert s == front + [last];
      assert multiset(s) == multiset(front) + multiset{last};
      assert Negate(keep)(last) == !keep(last);
      if keep(last) {
        assert Filter(s, keep) == Filter(front, keep) + [last];
        assert Filter(s, Negate(keep)) == Filter(front, Negate(keep));
      } else {
        assert Filter(s, keep) == Filter(front, keep);
        assert Filter(s, Negate(keep)) == Filter(front, Negate(keep)) + [last];
      }
    }
  }

  /** Everything `Filter` returns is accepted. */
  lemma FilterAccepts<T>(s: seq<T>, keep: T -> bool)
    ensures forall y :: y in Filter(s, keep) ==> keep(y)
  {
    var r := Filter(s, keep);
    FilterIsKept(s, keep);
    forall y | y in r ensures keep(y) {
      var k :| 0 <= k < |r| && r[k] == y;
    }
  }

  /** Sorting keeps a property every element has. */
  lemma SortKeepsAll<T>(s: seq<T>, keep: T -> bool, le: (T, T) -> bool)
    requires forall y :: y in s ==> keep(y)
    ensures forall i :: 0 <= i < |Sort(s, le)| ==> keep(Sort(s, le)[i])
  {
    var r := Sort(s, le);
    forall i | 0 <= i < |r| ensures keep(r[i]) {
      assert r[i] in multiset(r);
      assert r[i] in s;
    }
  }

  /** Every element of a sorted selection is accepted. */
  lemma SortedFilterAccepts<T>(s: seq<T>, keep: T -> bool, le: (T, T) -> bool)
    ensures forall i :: 0 <= i < |Sort(Filter(s, keep), le)| ==> keep(Sort(Filter(s, keep), le)[i])
  {
    FilterAccepts(s, keep);
    SortKeepsAll(Filter(s, keep), keep, le);
  }

  /** Nothing in a sorted selection of the rejected elements is accepted. */
  lemma SortedFilterRejects<T>(s: seq<T>, keep: T -> bool, le: (T, T) -> bool)
    ensures forall i :: 0 <= i < |Sort(Filter(s, Negate(keep)), le)| ==> !keep(Sort(Filter(s, Negate(keep)), le)[i])
  {
    var r := Sort(Filter(s, Negate(keep)), le);
    SortedFilterAccepts(s, Negate(keep), le);
    forall i | 0 <= i < |r| ensures !keep(r[i]) {
      assert Negate(keep)(r[i]);
    }
  }

  /** Filtering a concatenation filters each part. */
  lemma {:induction false} FilterAppend<T>(a: seq<T>, b: seq<T>, keep: T -> bool)
    ensures Filter(a + b, keep) == Filter(a, keep) + Filter(b, keep)
    decreases |b|
  {
    if |b| > 0 {
      var b0 := b[..|b| - 1];
      FilterAppend(a, b0, keep);
      assert (a + b)[..|a + b| - 1] == a + b0;
      assert (a + b)[|a + b| - 1] == b[|b| - 1];
    } else {
      assert a + b == a;
    }
  }

  /** A filter that accepts every element changes nothing. */
  lemma {:induction false} FilterAll<T>(s: seq<T>, keep: T -> bool)
    requires forall i :: 0 <= i < |s| ==> keep(s[i])
    ensures Filter(s, keep) == s
  {
    if |s| > 0 {
      FilterAll(s[..|s| - 1], keep);
      assert s == s[..|s| - 1] + [s[|s| - 1]];
    }
  }

  /** A filter that accepts no element returns nothing. */
  lemma {:induction false} FilterNone<T>(s: seq<T>, keep: T -> bool)
    requires forall i :: 0 <= i < |s| ==> !keep(s[i])
    ensures Filter(s, keep) == []
  {
    if |s| > 0 {
      FilterNone(s[..|s| - 1], keep);
    }
  }
}
