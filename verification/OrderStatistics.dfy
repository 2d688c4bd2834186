/** Sorting and order statistics over sequences of integers.

    The source sorts with Go's library routine and then indexes the result. A library sort of
    integers is determined by its contract, so it is the function `Sort` here, and `Kth` is the
    order statistic read off it. `KthIff` is the count-based characterisation every caller uses. */
module OrderStatistics {

  ghost predicate Sorted(s: seq<int>) {
    forall i, j :: 0 <= i < j < |s| ==> s[i] <= s[j]
  }

  function Insert(x: int, s: seq<int>): seq<int> {
    if s == [] || x <= s[0] then [x] + s else [s[0]] + Insert(x, s[1..])
  }

  function Sort(s: seq<int>): seq<int> {
    if s == [] then [] else Insert(s[0], Sort(s[1..]))
  }

  /** How many elements are below v. */
  ghost function Below(s: seq<int>, v: int): nat {
    if s == [] then 0 else (if s[0] < v then 1 else 0) + Below(s[1..], v)
  }

  /** How many elements are at most v. */
  ghost function AtMost(s: seq<int>, v: int): nat {
    Below(s, v + 1)
  }

  lemma {:induction false} InsertPermutes(x: int, s: seq<int>)
    ensures multiset(Insert(x, s)) == multiset{x} + multiset(s)
  {
    if s == [] || x <= s[0] {
    } else {
      InsertPermutes(x, s[1..]);
      assert s == [s[0]] + s[1..];
    }
  }

  lemma {:induction false} InsertSorts(x: int, s: seq<int>)
    requires Sorted(s)
    ensures Sorted(Insert(x, s))
  {
    if s == [] || x <= s[0] {
    } else {
      InsertSorts(x, s[1..]);
      InsertPermutes(x, s[1..]);
      var t := Insert(x, s[1..]);
      forall j | 0 <= j < |t| ensures s[0] <= t[j] {
        assert t[j] in multiset{x} + multiset(s[1..]);
        assert t[j] == x || t[j] in s[1..];
      }
    }
  }

  /** The sort returns its input in nondecreasing order: a permutation, nothing lost or added. */
  lemma {:induction false} SortIsSortedPermutation(s: seq<int>)
    ensures Sorted(Sort(s))
    ensures multiset(Sort(s)) == multiset(s)
    ensures |Sort(s)| == |s|
  {
    if s != [] {
      SortIsSortedPermutation(s[1..]);
      InsertSorts(s[0], Sort(s[1..]));
      InsertPermutes(s[0], Sort(s[1..]));
      assert s == [s[0]] + s[1..];
    }
    assert |multiset(Sort(s))| == |Sort(s)| && |multiset(s)| == |s|;
  }

  lemma TailMultiset(s: seq<int>)
    requires s != []
    ensures multiset(s[1..]) == multiset(s) - multiset{s[0]}
  {
    assert s == [s[0]] + s[1..];
  }

  lemma FirstIsLeast(s: seq<int>, x: int)
    requires Sorted(s) && x in multiset(s)
    ensures s != [] && s[0] <= x
  {
    var i :| 0 <= i < |s| && s[i] == x;
  }

  lemma SortedTail(s: seq<int>)
    requires Sorted(s) && s != []
    ensures Sorted(s[1..])
  {}

  lemma SameHeadAndTail(a: seq<int>, b: seq<int>)
    requires a != [] && b != [] && a[0] == b[0] && a[1..] == b[1..]
    ensures a == b
  {
    assert a == [a[0]] + a[1..] && b == [b[0]] + b[1..];
  }

  lemma TailsSameMultiset(a: seq<int>, b: seq<int>)
    requires a != [] && b != [] && a[0] == b[0] && multiset(a) == multiset(b)
    ensures multiset(a[1..]) == multiset(b[1..])
  {
    TailMultiset(a);
    TailMultiset(b);
  }

  lemma {:induction false} SortedIsDetermined(a: seq<int>, b: seq<int>)
    requires Sorted(a) && Sorted(b) && multiset(a) == multiset(b)
    ensures a == b
  {
    hide Sorted;
    assert |multiset(a)| == |a| && |multiset(b)| == |b|;
    if a != [] {
      assert a[0] in multiset(b) && b[0] in multiset(a);
      FirstIsLeast(a, b[0]);
      FirstIsLeast(b, a[0]);
      TailsSameMultiset(a, b);
      SortedTail(a);
      SortedTail(b);
      SortedIsDetermined(a[1..], b[1..]);
      SameHeadAndTail(a, b);
    }
  }

  /** Sorting forgets the order of its input, so anything read off the sorted list does too. */
  lemma SortForgetsOrder(a: seq<int>, b: seq<int>)
    requires multiset(a) == multiset(b)
    ensures Sort(a) == Sort(b)
  {
    SortIsSortedPermutation(a);
    SortIsSortedPermutation(b);
    SortedIsDetermined(Sort(a), Sort(b));
  }

  lemma {:induction false} BelowInsert(x: int, s: seq<int>, v: int)
    ensures Below(Insert(x, s), v) == (if x < v then 1 else 0) + Below(s, v)
  {
    if s == [] || x <= s[0] {
      assert ([x] + s)[1..] == s;
    } else {
      BelowInsert(x, s[1..], v);
      assert Insert(x, s)[1..] == Insert(x, s[1..]);
    }
  }

  lemma {:induction false} BelowSort(s: seq<int>, v: int)
    ensures Below(Sort(s), v) == Below(s, v)
  {
    if s != [] {
      BelowSort(s[1..], v);
      BelowInsert(s[0], Sort(s[1..]), v);
    }
  }

  lemma {:induction false} BelowBound(s: seq<int>, v: int)
    ensures Below(s, v) <= |s|
  {
    if s != [] { BelowBound(s[1..], v); }
  }

  /** In a sorted list the elements below v are exactly a prefix. */
  lemma {:induction false} BelowIsPrefix(s: seq<int>, v: int)
    requires Sorted(s)
    ensures Below(s, v) <= |s|
    ensures forall i :: 0 <= i < |s| ==> (i < Below(s, v) <==> s[i] < v)
  {
    if s == [] {
    } else if s[0] < v {
      BelowIsPrefix(s[1..], v);
      forall i | 0 <= i < |s| ensures i < Below(s, v) <==> s[i] < v {
        if i > 0 { assert s[i] == s[1..][i - 1]; }
      }
    } else {
      AllAbove(s, v);
    }
  }

  lemma {:induction false} BelowAppend(s: seq<int>, x: int, v: int)
    ensures Below(s + [x], v) == Below(s, v) + (if x < v then 1 else 0)
  {
    if s != [] {
      assert (s + [x])[1..] == s[1..] + [x];
      BelowAppend(s[1..], x, v);
    } else {
      assert s + [x] == [x];
    }
  }

  lemma {:induction false} AllAbove(s: seq<int>, v: int)
    requires forall i :: 0 <= i < |s| ==> v <= s[i]
    ensures Below(s, v) == 0
  {
    if s != [] {
      assert forall i :: 0 <= i < |s[1..]| ==> s[1..][i] == s[i + 1];
      AllAbove(s[1..], v);
    }
  }

  /** The k-th smallest element, counting from 1. */
  function Kth(s: seq<int>, k: nat): int
    requires 1 <= k <= |s|
  {
    SortIsSortedPermutation(s);
    Sort(s)[k - 1]
  }

  /** v is the k-th smallest exactly when it occurs, fewer than k elements are below it and at
      least k are at most it. */
  lemma KthIff(s: seq<int>, k: nat, v: int)
    requires 1 <= k <= |s|
    ensures v == Kth(s, k) <==> v in s && Below(s, v) < k <= AtMost(s, v)
  {
    var t := Sort(s);
    SortIsSortedPermutation(s);
    BelowSort(s, v);
    BelowSort(s, v + 1);
    BelowIsPrefix(t, v);
    BelowIsPrefix(t, v + 1);
    assert v in s <==> v in multiset(s);
    assert v in t <==> v in multiset(t);
    if v == Kth(s, k) {
      assert t[k - 1] == v;
    }
  }

  lemma KthMonotone(s: seq<int>, j: nat, k: nat)
    requires 1 <= j <= k <= |s|
    ensures Kth(s, j) <= Kth(s, k)
  {
    SortIsSortedPermutation(s);
  }

  /** When no element lies strictly between lo and hi, passing from lo to hi adds exactly the
      occurrences of hi: one step of a cumulative walk over the distinct values. */
  lemma {:induction false} AtMostStep(s: seq<int>, lo: int, hi: int)
    requires lo < hi
    requires forall i :: 0 <= i < |s| ==> s[i] <= lo || hi <= s[i]
    ensures Below(s, hi) == AtMost(s, lo)
    ensures AtMost(s, hi) == AtMost(s, lo) + multiset(s)[hi]
  {
    if s != [] {
      assert s == [s[0]] + s[1..];
      assert forall i :: 0 <= i < |s[1..]| ==> s[1..][i] == s[i + 1];
      AtMostStep(s[1..], lo, hi);
    }
  }

  lemma {:induction false} AtMostAll(s: seq<int>, v: int)
    requires forall i :: 0 <= i < |s| ==> s[i] <= v
    ensures AtMost(s, v) == |s|
  {
    if s != [] {
      assert forall i :: 0 <= i < |s[1..]| ==> s[1..][i] == s[i + 1];
      AtMostAll(s[1..], v);
    }
  }
}
