/** The partition generator of SumsToN.java: `getSums` records, once each,
    every non-decreasing list of positive integers that adds up to `n`. */
module SumsToN {

  /** The sum of a list of integers. */
  function Sum(s: seq<int>): int
  {
    if s == [] then 0 else s[0] + Sum(s[1..])
  }

  predicate NonDecreasing(s: seq<int>)
  {
    forall j, k :: 0 <= j < k < |s| ==> s[j] <= s[k]
  }

  /** `t` is a non-empty, non-decreasing list whose first (and so smallest)
      element is at least `lo` and whose elements add up to `rest`: the
      part a call with lower bound `lo` still has to supply. */
  predicate Completes(t: seq<int>, rest: int, lo: int)
  {
    t != [] && NonDecreasing(t) && lo <= t[0] && Sum(t) == rest
  }

  /** A partition of `n` listed in non-decreasing order. */
  predicate IsPartition(n: int, l: seq<int>)
  {
    Completes(l, n, 1)
  }

  /** No list occurs twice. */
  predicate Distinct(lists: seq<seq<int>>)
  {
    forall j, k :: 0 <= j < k < |lists| ==> lists[j] != lists[k]
  }

  /** The lists that the loop of `getSums(prevList, prevSum, prevI)`
      records from iteration `i` on, in the order it records them. */
  function Gen(n: int, prevList: seq<int>, prevSum: int, i: int): seq<seq<int>>
    requires 1 <= i
    decreases n - prevSum, n - i + 1, 1
  {
    if i > n then [] else Branch(n, prevList, prevSum, i) + Gen(n, prevList, prevSum, i + 1)
  }

  /** The lists that iteration `i` records: `prevList + [i]` when it
      reaches `n`, whatever the recursive call records while it stays
      below `n`, and nothing once it passes `n`. */
  function Branch(n: int, prevList: seq<int>, prevSum: int, i: int): seq<seq<int>>
    requires 1 <= i
    decreases n - prevSum, n - i + 1, 0
  {
    if prevSum + i == n then [prevList + [i]]
    else if prevSum + i < n then Gen(n, prevList + [i], prevSum + i, i)
    else []
  }

  /** The generator object: the target `n` and the lists found so far. */
  class Sums {
    const n: int
    var sumsList: seq<seq<int>>

    constructor(n: int)
      ensures this.n == n && sumsList == []
    {
      this.n := n;
      sumsList := [];
    }

    /** `getSums()`: starts the search with an empty list, sum 0 and
        smallest part 1. */
    method GetSums()
      modifies this
      ensures sumsList == old(sumsList) + Gen(n, [], 0, 1)
    {
      GetSumsFrom([], 0, 1);
    }

    /** `getSums(prevList, prevSum, prevI)`: appends every completion of
        `prevList` whose new parts are at least `prevI`. */
    method GetSumsFrom(prevList: seq<int>, prevSum: int, prevI: int)
      requires 1 <= prevI
      modifies this
      ensures sumsList == old(sumsList) + Gen(n, prevList, prevSum, prevI)
      decreases n - prevSum
    {
      var i := prevI;
      while i <= n
        invariant prevI <= i && (i <= n + 1 || i == prevI)
        invariant sumsList + Gen(n, prevList, prevSum, i) == old(sumsList) + Gen(n, prevList, prevSum, prevI)
        decreases n - i
      {
        ghost var before := sumsList;
        var newList := prevList + [i];
        var newSum := prevSum + i;
        if newSum == n {
          sumsList := sumsList + [newList];
        }
        if newSum < n {
          GetSumsFrom(newList, newSum, i);
        }
        assert sumsList == before + Branch(n, prevList, prevSum, i);
        assert Gen(n, prevList, prevSum, i) == Branch(n, prevList, prevSum, i) + Gen(n, prevList, prevSum, i + 1);
        i := i + 1;
      }
    }
  }

  lemma {:induction false} SumAppend(a: seq<int>, b: seq<int>)
    ensures Sum(a + b) == Sum(a) + Sum(b)
  {
    if a != [] {
      assert (a + b)[1..] == a[1..] + b;
      SumAppend(a[1..], b);
    } else {
      assert a + b == b;
    }
  }

  /** In a non-decreasing list of positive integers every element is at
      most the sum, and a proper tail sums to at least 1. */
  lemma {:induction false} ElementAtMostSum(t: seq<int>, k: int)
    requires t != [] && NonDecreasing(t) && 1 <= t[0] && 0 <= k < |t|
    ensures t[k] <= Sum(t)
    ensures |t| > 1 ==> Sum(t[1..]) >= 1
  {
    if |t| > 1 {
      assert t[1..][0] == t[1];
      if k > 0 {
        ElementAtMostSum(t[1..], k - 1);
      } else {
        ElementAtMostSum(t[1..], 0);
      }
    }
  }

  /** Taking the first part off a completion. */
  lemma CompletesFirst(t: seq<int>, rest: int, i: int)
    requires 1 <= i && t != [] && t[0] == i
    ensures Completes(t, rest, i) <==>
      (|t| == 1 && rest == i) || (|t| > 1 && Completes(t[1..], rest - i, i))
  {
    if |t| == 1 {
      assert t[1..] == [];
    }
    if |t| > 1 && Completes(t[1..], rest - i, i) {
      assert t[1..][0] == t[1];
      forall j, k | 0 <= j < k < |t|
        ensures t[j] <= t[k]
      {
        if j > 0 {
          assert t[1..][j - 1] == t[j] && t[1..][k - 1] == t[k];
        } else {
          assert t[1..][k - 1] == t[k];
        }
      }
    }
    if Completes(t, rest, i) {
      if |t| > 1 {
        assert t[1..][0] == t[1];
        assert NonDecreasing(t[1..]);
      } else {
        assert t[1..] == [] && Sum(t) == t[0] + Sum(t[1..]);
      }
    }
  }

  /** How a list extending `prevList` reads after one more part. */
  lemma ExtendedPrefix(l: seq<int>, prevList: seq<int>, i: int)
    requires |l| > |prevList| && l[..|prevList|] == prevList
    ensures l[..|prevList| + 1] == prevList + [i] <==> l[|prevList|] == i
    ensures l[|prevList|..][0] == l[|prevList|]
    ensures l == prevList + [i] <==> l[|prevList|..] == [i]
    ensures |l| > |prevList| + 1 ==> l[|prevList|..][1..] == l[|prevList| + 1..]
  {
    var m := |prevList|;
    assert l[..m + 1] == l[..m] + [l[m]];
    assert l == l[..m] + l[m..];
  }

  /** Exactly the completions of `prevList` whose first new part is `i`
      are recorded by iteration `i`. */
  lemma {:induction false} BranchMembers(n: int, prevList: seq<int>, prevSum: int, i: int, l: seq<int>)
    requires 1 <= i && 0 <= prevSum
    ensures l in Branch(n, prevList, prevSum, i) <==>
      |l| > |prevList| && l[..|prevList|] == prevList && l[|prevList|] == i &&
      Completes(l[|prevList|..], n - prevSum, i)
    decreases n - prevSum, n - i + 1, 0
  {
    var m := |prevList|;
    if prevSum + i < n {
      GenMembers(n, prevList + [i], prevSum + i, i, l);
    }
    if l == prevList + [i] {
      assert l[..m] == prevList;
    }
    if |l| > m && l[..m] == prevList && l[m] == i {
      var t := l[m..];
      ExtendedPrefix(l, prevList, i);
      CompletesFirst(t, n - prevSum, i);
      if Completes(t, n - prevSum, i) {
        ElementAtMostSum(t, 0);
      }
      if |l| > m + 1 {
        assert (prevList + [i])[..m] == prevList;
      }
    }
  }

  /** Exactly the completions of `prevList` are generated: a list is in
      `Gen(n, prevList, prevSum, i)` iff it is `prevList` followed by a
      non-decreasing list of parts at least `i` adding up to `n - prevSum`. */
  lemma {:induction false} GenMembers(n: int, prevList: seq<int>, prevSum: int, i: int, l: seq<int>)
    requires 1 <= i && 0 <= prevSum
    ensures l in Gen(n, prevList, prevSum, i) <==>
      |l| > |prevList| && l[..|prevList|] == prevList && Completes(l[|prevList|..], n - prevSum, i)
    decreases n - prevSum, n - i + 1, 1
  {
    var m := |prevList|;
    if i > n {
      if |l| > m && Completes(l[m..], n - prevSum, i) {
        ElementAtMostSum(l[m..], 0);
      }
    } else {
      BranchMembers(n, prevList, prevSum, i, l);
      GenMembers(n, prevList, prevSum, i + 1, l);
      if |l| > m && l[..m] == prevList {
        ExtendedPrefix(l, prevList, i);
      }
    }
  }

  lemma DistinctConcat(a: seq<seq<int>>, b: seq<seq<int>>)
    requires Distinct(a) && Distinct(b)
    requires forall x :: x in a ==> x !in b
    ensures Distinct(a + b)
  {
    forall j, k | 0 <= j < k < |a + b|
      ensures (a + b)[j] != (a + b)[k]
    {
      if j < |a| && k >= |a| {
        assert (a + b)[j] in a && (a + b)[k] in b;
      }
    }
  }

  lemma {:induction false} BranchDistinct(n: int, prevList: seq<int>, prevSum: int, i: int)
    requires 1 <= i && 0 <= prevSum
    ensures Distinct(Branch(n, prevList, prevSum, i))
    decreases n - prevSum, n - i + 1, 0
  {
    if prevSum + i < n {
      GenDistinct(n, prevList + [i], prevSum + i, i);
    }
  }

  /** No list is recorded twice. */
  lemma {:induction false} GenDistinct(n: int, prevList: seq<int>, prevSum: int, i: int)
    requires 1 <= i && 0 <= prevSum
    ensures Distinct(Gen(n, prevList, prevSum, i))
    decreases n - prevSum, n - i + 1, 1
  {
    if i <= n {
      BranchDistinct(n, prevList, prevSum, i);
      GenDistinct(n, prevList, prevSum, i + 1);
      forall l | l in Branch(n, prevList, prevSum, i)
        ensures l !in Gen(n, prevList, prevSum, i + 1)
      {
        BranchMembers(n, prevList, prevSum, i, l);
        GenMembers(n, prevList, prevSum, i + 1, l);
        ExtendedPrefix(l, prevList, i);
      }
      DistinctConcat(Branch(n, prevList, prevSum, i), Gen(n, prevList, prevSum, i + 1));
    }
  }

  /** What `getSums()` records: every list adds up to `n` and has its parts
      in 1..n in non-decreasing order; every such list is recorded; none
      twice. */
  lemma GetSumsRecordsPartitions(n: int)
    ensures forall l :: l in Gen(n, [], 0, 1) <==> IsPartition(n, l)
    ensures forall l, x :: l in Gen(n, [], 0, 1) && x in l ==> 1 <= x <= n
    ensures Distinct(Gen(n, [], 0, 1))
  {
    forall l
      ensures l in Gen(n, [], 0, 1) <==> IsPartition(n, l)
    {
      GenMembers(n, [], 0, 1, l);
      assert l[0..] == l;
    }
    forall l, x | l in Gen(n, [], 0, 1) && x in l
      ensures 1 <= x <= n
    {
      var k :| 0 <= k < |l| && l[k] == x;
      ElementAtMostSum(l, k);
    }
    GenDistinct(n, [], 0, 1);
  }

  /** With `prevSum` the sum of `prevList`, as the source carries it, every
      list generated adds up to exactly `n`. */
  lemma GenListsSumToN(n: int, prevList: seq<int>, prevSum: int, i: int, l: seq<int>)
    requires 1 <= i && 0 <= prevSum && Sum(prevList) == prevSum
    requires l in Gen(n, prevList, prevSum, i)
    ensures Sum(l) == n
  {
    GenMembers(n, prevList, prevSum, i, l);
    assert l == prevList + l[|prevList|..];
    SumAppend(prevList, l[|prevList|..]);
  }

  /** For `n <= 0` nothing is recorded. */
  lemma NothingBelowOne(n: int)
    requires n <= 0
    ensures Gen(n, [], 0, 1) == []
  {
  }
}
