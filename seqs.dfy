/** Sequence helpers standing for the array methods the source uses:
    `filter`, `reverse`, `reduce` with `+`, and `sort` on numbers. */
module Seqs {

  /** `s.filter(p)`: the elements of `s` satisfying `p`, in their order. */
  function Filter<T(!new)>(s: seq<T>, p: T -> bool): (r: seq<T>)
    ensures |r| <= |s|
    ensures forall x :: x in r <==> x in s && p(x)
  {
    if |s| == 0 then [] else (if p(s[0]) then [s[0]] else []) + Filter(s[1..], p)
  }

  /** Filtering distributes over concatenation, so it keeps relative order. */
  lemma {:induction false} FilterAppend<T(!new)>(a: seq<T>, b: seq<T>, p: T -> bool)
    ensures Filter(a + b, p) == Filter(a, p) + Filter(b, p)
  {
    if |a| == 0 {
      assert a + b == b;
    } else {
      assert (a + b)[1..] == a[1..] + b;
      FilterAppend(a[1..], b, p);
    }
  }

  /** Filtering a sequence grown by one element, as a loop over a prefix sees it. */
  lemma FilterSnoc<T(!new)>(s: seq<T>, x: T, p: T -> bool)
    ensures Filter(s + [x], p) == Filter(s, p) + (if p(x) then [x] else [])
  {
    FilterAppend(s, [x], p);
  }

  /** If nothing in `s` satisfies `p`, the filter is empty; if everything does, it is `s`. */
  lemma {:induction false} FilterAll<T(!new)>(s: seq<T>, p: T -> bool)
    requires forall i :: 0 <= i < |s| ==> p(s[i])
    ensures Filter(s, p) == s
  {
    if |s| > 0 {
      FilterAll(s[1..], p);
    }
  }

  /** Filtering on a test nothing passes leaves nothing. */
  lemma {:induction false} FilterNone<T(!new)>(s: seq<T>, p: T -> bool)
    requires forall i :: 0 <= i < |s| ==> !p(s[i])
    ensures Filter(s, p) == []
  {
    if |s| > 0 {
      FilterNone(s[1..], p);
    }
  }

  /** Replacing one element by another that `p` judges the same way keeps
      the number of elements `p` selects. */
  lemma {:induction false} FilterUpdate<T(!new)>(s: seq<T>, k: nat, y: T, p: T -> bool)
    requires k < |s| && p(y) == p(s[k])
    ensures |Filter(s[k := y], p)| == |Filter(s, p)|
  {
    if k > 0 {
      assert s[k := y][1..] == s[1..][k - 1 := y];
      FilterUpdate(s[1..], k - 1, y, p);
    } else {
      assert s[k := y][1..] == s[1..];
    }
  }

  /** `s.findIndex(p)`: the first position whose element satisfies `p`, or -1. */
  function FindIndex<T>(s: seq<T>, p: T -> bool): (k: int)
    ensures -1 <= k < |s|
    ensures k == -1 <==> forall i :: 0 <= i < |s| ==> !p(s[i])
    ensures k >= 0 ==> p(s[k]) && forall j :: 0 <= j < k ==> !p(s[j])
  {
    if |s| == 0 then -1
    else if p(s[0]) then 0
    else
      var k := FindIndex(s[1..], p);
      assert forall i :: 1 <= i < |s| ==> s[1..][i - 1] == s[i];
      if k == -1 then -1 else k + 1
  }

  /** The number of elements of `s` satisfying `p`. */
  function Count<T(!new)>(s: seq<T>, p: T -> bool): nat
  {
    |Filter(s, p)|
  }

  /** `s.reduce((sum, x) => sum + x, 0)` over naturals. */
  function Sum(s: seq<nat>): nat
  {
    if |s| == 0 then 0 else Sum(s[..|s| - 1]) + s[|s| - 1]
  }

  /** `s.reverse()`. */
  function Reverse<T>(s: seq<T>): (r: seq<T>)
    ensures |r| == |s|
    ensures forall i :: 0 <= i < |s| ==> r[i] == s[|s| - 1 - i]
  {
    if |s| == 0 then [] else [s[|s| - 1]] + Reverse(s[..|s| - 1])
  }

  predicate SortedAsc(s: seq<int>)
  {
    forall i, j :: 0 <= i < j < |s| ==> s[i] <= s[j]
  }

  /** Places `x` in front of the first element not smaller than it. */
  function Insert(x: int, s: seq<int>): (r: seq<int>)
    ensures |r| == |s| + 1
  {
    if |s| == 0 then [x]
    else if x <= s[0] then [x] + s
    else [s[0]] + Insert(x, s[1..])
  }

  /** Inserting adds exactly one occurrence of `x`. */
  lemma {:induction false} InsertMultiset(x: int, s: seq<int>)
    ensures multiset(Insert(x, s)) == multiset(s) + multiset{x}
  {
    if |s| > 0 && x > s[0] {
      InsertMultiset(x, s[1..]);
      assert s == [s[0]] + s[1..];
    }
  }

  /** A lower bound of `x` and of every element bounds the result. */
  lemma {:induction false} InsertBound(x: int, s: seq<int>, b: int)
    requires b <= x && forall k :: 0 <= k < |s| ==> b <= s[k]
    ensures forall k :: 0 <= k < |Insert(x, s)| ==> b <= Insert(x, s)[k]
  {
    if |s| > 0 && x > s[0] {
      InsertBound(x, s[1..], b);
    }
  }

  /** Inserting into an ascending sequence keeps it ascending. */
  lemma {:induction false} InsertSorted(x: int, s: seq<int>)
    requires SortedAsc(s)
    ensures SortedAsc(Insert(x, s))
  {
    if |s| > 0 {
      if x <= s[0] {
        ConsSorted(x, s);
      } else {
        var tail := s[1..];
        assert SortedAsc(tail);
        InsertSorted(x, tail);
        assert forall k :: 0 <= k < |tail| ==> s[0] <= tail[k];
        InsertBound(x, tail, s[0]);
        ConsSorted(s[0], Insert(x, tail));
      }
    }
  }

  /** Putting an element no larger than the first in front keeps a sequence ascending. */
  lemma ConsSorted(a: int, s: seq<int>)
    requires SortedAsc(s)
    requires |s| > 0 ==> a <= s[0]
    ensures SortedAsc([a] + s)
  {
    var r := [a] + s;
    forall i, j | 0 <= i < j < |r|
      ensures r[i] <= r[j]
    {
      assert r[j] == s[j - 1];
      if i > 0 {
        assert r[i] == s[i - 1];
      } else {
        assert s[0] <= s[j - 1];
      }
    }
  }

  /** `sort()` on day numbers: an ascending permutation of `s`. */
  function Sort(s: seq<int>): (r: seq<int>)
    ensures |r| == |s|
    ensures SortedAsc(r)
    ensures multiset(r) == multiset(s)
  {
    if |s| == 0 then []
    else
      assert s == [s[0]] + s[1..];
      var rest := Sort(s[1..]);
      InsertSorted(s[0], rest);
      InsertMultiset(s[0], rest);
      Insert(s[0], rest)
  }

  /** An ascending sequence whose elements occur once each rises strictly. */
  lemma StrictWhenDistinct(s: seq<int>, i: int)
    requires SortedAsc(s)
    requires forall x :: multiset(s)[x] <= 1
    requires 0 <= i && i + 1 < |s|
    ensures s[i] < s[i + 1]
  {
    assert s == s[..i] + [s[i], s[i + 1]] + s[i + 2..];
    var pair := multiset{s[i], s[i + 1]};
    assert multiset(s) == multiset(s[..i]) + pair + multiset(s[i + 2..]);
    assert s[i] == s[i + 1] ==> pair[s[i]] == 2;
    assert multiset(s)[s[i]] >= pair[s[i]];
    assert multiset(s)[s[i]] <= 1;
  }

  /** Pairwise different elements occur once each. */
  lemma {:induction false} DistinctMultiset(s: seq<int>)
    requires forall i, j :: 0 <= i < j < |s| ==> s[i] != s[j]
    ensures forall x :: multiset(s)[x] <= 1
  {
    if |s| > 0 {
      var t := s[..|s| - 1];
      assert s == t + [s[|s| - 1]];
      DistinctMultiset(t);
      assert s[|s| - 1] !in t;
      assert multiset(t)[s[|s| - 1]] == 0;
    }
  }

  /** Sorting keeps exactly the elements it was given. */
  lemma SortMembers(s: seq<int>)
    ensures forall x :: x in Sort(s) <==> x in s
  {
    var r := Sort(s);
    forall x
      ensures x in r <==> x in s
    {
      assert x in r <==> x in multiset(r);
      assert x in s <==> x in multiset(s);
    }
  }

  /** Reversing keeps exactly the elements it was given. */
  lemma ReverseMembers<T>(s: seq<T>)
    ensures forall x :: x in Reverse(s) <==> x in s
  {
    var r := Reverse(s);
    forall x | x in s
      ensures x in r
    {
      var i :| 0 <= i < |s| && s[i] == x;
      assert r[|s| - 1 - i] == x;
    }
  }

  /** There is only one ascending arrangement of a multiset, so `sort()` is
      determined by the elements alone. */
  lemma {:induction false} SortedUnique(a: seq<int>, b: seq<int>)
    requires SortedAsc(a) && SortedAsc(b) && multiset(a) == multiset(b)
    ensures a == b
    decreases |a|
  {
    assert |a| == |multiset(a)| && |b| == |multiset(b)|;
    if |a| > 0 {
      SortedHeadIsLeast(a, b[0]);
      SortedHeadIsLeast(b, a[0]);
      assert a == [a[0]] + a[1..] && b == [b[0]] + b[1..];
      assert multiset(a) == multiset{a[0]} + multiset(a[1..]);
      assert multiset(b) == multiset{b[0]} + multiset(b[1..]);
      assert a[0] == b[0];
      assert multiset(a[1..]) == multiset(a) - multiset{a[0]};
      assert multiset(b[1..]) == multiset(b) - multiset{b[0]};
      SortedUnique(a[1..], b[1..]);
    }
  }

  lemma SortedHeadIsLeast(s: seq<int>, x: int)
    requires SortedAsc(s) && x in multiset(s)
    ensures s[0] <= x
  {
    var j :| 0 <= j < |s| && s[j] == x;
    assert s[0] <= s[j];
  }

  /** The last element of an ascending sequence is its greatest. */
  lemma SortedLastIsGreatest(s: seq<int>)
    requires SortedAsc(s) && |s| > 0
    ensures forall x :: x in s ==> x <= s[|s| - 1]
  {
    forall x | x in s
      ensures x <= s[|s| - 1]
    {
      var j :| 0 <= j < |s| && s[j] == x;
    }
  }

  lemma {:induction false} SumZero(s: seq<nat>)
    requires forall i :: 0 <= i < |s| ==> s[i] == 0
    ensures Sum(s) == 0
  {
    if |s| > 0 {
      SumZero(s[..|s| - 1]);
    }
  }

  /** Adding one to one entry adds one to the sum. */
  lemma {:induction false} SumIncrement(s: seq<nat>, k: nat)
    requires k < |s|
    ensures Sum(s[k := s[k] + 1]) == Sum(s) + 1
  {
    var t := s[k := s[k] + 1];
    if k < |s| - 1 {
      assert t[..|t| - 1] == s[..|s| - 1][k := s[k] + 1];
      SumIncrement(s[..|s| - 1], k);
    } else {
      assert t[..|t| - 1] == s[..|s| - 1];
    }
  }

  /** A subset is no larger than its superset. */
  lemma {:induction false} SubsetCard<T>(a: set<T>, b: set<T>)
    requires a <= b
    ensures |a| <= |b|
    decreases |b|
  {
    if a != {} {
      var x :| x in a;
      SubsetCard(a - {x}, b - {x});
    }
  }

  /** The integers from `lo` to `hi` inclusive; there are `hi - lo + 1` of them. */
  function Interval(lo: int, hi: int): (r: set<int>)
    ensures forall x :: x in r <==> lo <= x <= hi
    ensures |r| == if hi < lo then 0 else hi - lo + 1
    decreases hi - lo
  {
    if hi < lo then {} else Interval(lo, hi - 1) + {hi}
  }

  /** `new Set(s).size` is at most `s.length`. */
  lemma {:induction false} SeqSetCard<T>(s: seq<T>)
    ensures |set x | x in s| <= |s|
  {
    if |s| > 0 {
      var t := s[..|s| - 1];
      assert (set x | x in s) == (set x | x in t) + {s[|s| - 1]};
      SeqSetCard(t);
    } else {
      assert (set x | x in s) == {};
    }
  }
}
