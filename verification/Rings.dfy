/** Fixed-size rings that summarise an unbounded log: the recent picks of the load balancer and the
    latency samples of a backend. Both write at an index that wraps and count up to the capacity. */
module Rings {
  import opened Basics
  import opened OrderStatistics

  /** The last n elements of a log, oldest first. */
  function LastN<T>(log: seq<T>, n: nat): seq<T> {
    if |log| <= n then log else log[|log| - n..]
  }

  /** The ring (slots, next index, fill) holds exactly the end of the log: read from the next index
      round to the one before it, the filled slots are the last |slots| elements in order. */
  ghost predicate Summarises<T>(slots: seq<T>, idx: nat, fill: nat, log: seq<T>) {
    && idx < |slots| && fill <= |slots|
    && (fill < |slots| ==> idx == fill)
    && slots[idx..fill] + slots[..idx] == LastN(log, |slots|)
  }

  lemma LastNPush<T>(log: seq<T>, n: nat, x: T)
    requires n > 0
    ensures LastN(log + [x], n) ==
            if |log| < n then LastN(log, n) + [x] else LastN(log, n)[1..] + [x]
  {}

  lemma PushLast<T>(slots: seq<T>, fill: nat, log: seq<T>, x: T)
    requires slots != [] && |slots| - 1 <= fill <= |slots|
    requires Summarises(slots, |slots| - 1, fill, log)
    ensures Summarises(slots[|slots| - 1 := x], 0, |slots|, log + [x])
  {
    var cap, slots' := |slots|, slots[|slots| - 1 := x];
    LastNPush(log, cap, x);
    assert slots'[0..cap] == slots[..cap - 1] + [x];
  }

  lemma PushFilling<T>(slots: seq<T>, idx: nat, log: seq<T>, x: T)
    requires idx + 1 < |slots| && Summarises(slots, idx, idx, log)
    ensures Summarises(slots[idx := x], idx + 1, idx + 1, log + [x])
  {
    LastNPush(log, |slots|, x);
    assert slots[idx..idx] + slots[..idx] == slots[..idx];
    assert slots[idx := x][idx + 1..idx + 1] + slots[idx := x][..idx + 1] == slots[..idx] + [x];
  }

  lemma PushFull<T>(slots: seq<T>, idx: nat, log: seq<T>, x: T)
    requires idx + 1 < |slots| && Summarises(slots, idx, |slots|, log)
    ensures Summarises(slots[idx := x], idx + 1, |slots|, log + [x])
  {
    LastNPush(log, |slots|, x);
    var head, tail := slots[..idx], slots[idx..|slots|];
    assert (tail + head)[1..] + [x] == tail[1..] + (head + [x]);
    assert slots[idx := x][idx + 1..|slots|] == tail[1..];
    assert slots[idx := x][..idx + 1] == head + [x];
  }

  /** Writing at the index and moving on keeps the summary, for the log with x appended. */
  lemma PushSummarises<T>(slots: seq<T>, idx: nat, fill: nat, log: seq<T>, x: T)
    requires idx < |slots| && fill <= |slots| && (fill < |slots| ==> idx == fill)
    requires Summarises(slots, idx, fill, log)
    ensures Summarises(slots[idx := x], (idx + 1) % |slots|, if fill < |slots| then fill + 1 else fill,
                       log + [x])
  {
    hide Summarises;
    if idx + 1 == |slots| {
      PushLast(slots, fill, log, x);
    } else {
      WrapsTo(idx + 1, |slots|, 0);
      if fill < |slots| {
        PushFilling(slots, idx, log, x);
      } else {
        PushFull(slots, idx, log, x);
      }
    }
  }

  /** The k-th most recent element sits k+1 slots behind the next index, going round. */
  lemma BackwardWalk<T>(slots: seq<T>, idx: nat, fill: nat, log: seq<T>, k: nat)
    requires idx < |slots| && fill <= |slots| && (fill < |slots| ==> idx == fill)
    requires Summarises(slots, idx, fill, log) && k < fill
    ensures fill <= |log| && fill == |LastN(log, |slots|)|
    ensures 0 <= (idx - 1 - k + |slots|) % |slots| < |slots|
    ensures slots[(idx - 1 - k + |slots|) % |slots|] == log[|log| - 1 - k]
  {
    var cap, window := |slots|, LastN(log, |slots|);
    var p := idx - 1 - k;
    assert window == slots[idx..fill] + slots[..idx];
    assert window[fill - 1 - k] == log[|log| - 1 - k];
    if p >= 0 {
      assert (p + cap) % cap == p by { WrapsTo(p, cap, 1); }
      assert window[fill - 1 - k] == slots[..idx][p];
    } else {
      assert (p + cap) % cap == p + cap by { WrapsTo(p + cap, cap, 0); }
      assert window[fill - 1 - k] == slots[idx..fill][fill - 1 - k];
    }
  }

  lemma RingBounds<T>(slots: seq<T>, idx: nat, fill: nat, log: seq<T>)
    requires Summarises(slots, idx, fill, log)
    ensures idx < |slots| && fill <= |slots| && (fill < |slots| ==> idx == fill)
    ensures fill == |LastN(log, |slots|)| == if |log| <= |slots| then |log| else |slots|
  {
    assert |slots[idx..fill] + slots[..idx]| == fill;
  }

  lemma WrapsTo(r: nat, m: nat, n: nat)
    requires r < m && n <= 1
    ensures (r + n * m) % m == r
  {
    assert (r + n * m) / m == n;
  }

  /** As a multiset, the filled slots are the last |slots| elements, whatever the rotation. */
  lemma SlotsAreWindow<T>(slots: seq<T>, idx: nat, fill: nat, log: seq<T>)
    requires idx < |slots| && fill <= |slots| && (fill < |slots| ==> idx == fill)
    requires Summarises(slots, idx, fill, log)
    ensures multiset(slots[..fill]) == multiset(LastN(log, |slots|))
  {
    assert idx <= fill;
    assert slots[..fill] == slots[..idx] + slots[idx..fill];
  }

  // ---------------------------------------------------------------------------------------------
  // The recent picks

  const RECENT_PICKS_CAP: nat := 100

  datatype PickRecord = PickRecord(time: int, winner: Option<nat>, cls: string, threshold: int, poolSize: nat,
                                   eligible: nat)

  class RecentPicks {
    const slots: array<PickRecord>
    var idx: nat
    var len: nat
    ghost var log: seq<PickRecord>

    ghost predicate Valid()
      reads this, slots
    {
      && slots.Length == RECENT_PICKS_CAP
      && Summarises(slots[..], idx, len, log)
    }

    constructor ()
      ensures Valid() && fresh(slots) && log == []
    {
      slots := new PickRecord[RECENT_PICKS_CAP];
      idx, len, log := 0, 0, [];
    }

    method Record(rec: PickRecord)
      requires Valid()
      modifies this, slots
      ensures Valid() && log == old(log) + [rec]
    {
      hide Summarises, LastN;
      RingBounds(slots[..], idx, len, log);
      PushSummarises(slots[..], idx, len, log, rec);
      slots[idx] := rec;
      idx := (idx + 1) % RECENT_PICKS_CAP;
      if len < RECENT_PICKS_CAP {
        len := len + 1;
      }
      log := log + [rec];
    }

    /** The debug snapshot: the last min(100, N) recorded picks, newest first. */
    method Snapshot() returns (picks: seq<PickRecord>)
      requires Valid()
      ensures |picks| == if |log| <= 100 then |log| else 100
      ensures forall k :: 0 <= k < |picks| ==> picks[k] == log[|log| - 1 - k]
    {
      hide Summarises, LastN;
      picks := [];
      RingBounds(slots[..], idx, len, log);
      for k := 0 to len
        invariant |picks| == k
        invariant forall j :: 0 <= j < k ==> picks[j] == log[|log| - 1 - j]
      {
        BackwardWalk(slots[..], idx, len, log, k);
        picks := picks + [slots[(idx - 1 - k + RECENT_PICKS_CAP) % RECENT_PICKS_CAP]];
      }
    }
  }

  // ---------------------------------------------------------------------------------------------
  // The latency ring of a backend

  const LATENCY_RING_SIZE: nat := 256
  const RIF_WINDOW_DELTA: int := 2

  datatype LatencySample = LatencySample(latencyUs: int, rifAtArrival: int)

  predicate Near(s: LatencySample, currentRif: int) {
    -RIF_WINDOW_DELTA <= s.rifAtArrival - currentRif <= RIF_WINDOW_DELTA
  }

  function Latencies(s: seq<LatencySample>): seq<int> {
    if s == [] then [] else Latencies(s[..|s| - 1]) + [s[|s| - 1].latencyUs]
  }

  function NearLatencies(s: seq<LatencySample>, currentRif: int): seq<int> {
    if s == [] then []
    else
      NearLatencies(s[..|s| - 1], currentRif) +
      (if Near(s[|s| - 1], currentRif) then [s[|s| - 1].latencyUs] else [])
  }

  /** The upper median: the element at index floor(m/2) of the sorted list. */
  function Median(s: seq<int>): int
    requires s != []
  {
    Kth(s, |s| / 2 + 1)
  }

  /** The estimate from a window of samples: the median of those taken at a RIF within 2 of the
      current one, of all of them when there are none, and 0 without samples. */
  function Estimate(window: seq<LatencySample>, currentRif: int): int {
    var near := NearLatencies(window, currentRif);
    if near != [] then Median(near)
    else if window != [] then LatenciesNonEmpty(window); Median(Latencies(window))
    else 0
  }

  lemma LatenciesNonEmpty(s: seq<LatencySample>)
    ensures |Latencies(s)| == |s|
    decreases |s|
  {
    if s != [] { LatenciesNonEmpty(s[..|s| - 1]); }
  }

  lemma {:induction false} LatenciesAppend(a: seq<LatencySample>, b: seq<LatencySample>, rif: int)
    ensures Latencies(a + b) == Latencies(a) + Latencies(b)
    ensures NearLatencies(a + b, rif) == NearLatencies(a, rif) + NearLatencies(b, rif)
    decreases |b|
  {
    if b == [] {
      assert a + b == a;
    } else {
      var n := |b| - 1;
      assert (a + b)[..|a + b| - 1] == a + b[..n];
      LatenciesAppend(a, b[..n], rif);
    }
  }

  lemma MedianForgetsOrder(a: seq<int>, b: seq<int>)
    requires a != [] && multiset(a) == multiset(b)
    ensures |a| == |b| && Median(a) == Median(b)
  {
    assert |multiset(a)| == |a| && |multiset(b)| == |b|;
    SortForgetsOrder(a, b);
  }

  /** Rotating the window does not change the estimate. */
  lemma EstimateForgetsRotation(a: seq<LatencySample>, b: seq<LatencySample>, rif: int)
    ensures Estimate(a + b, rif) == Estimate(b + a, rif)
  {
    hide Latencies, NearLatencies, Median;
    LatenciesAppend(a, b, rif);
    LatenciesAppend(b, a, rif);
    LatenciesNonEmpty(a + b);
    LatenciesNonEmpty(b + a);
    var p, q := NearLatencies(a + b, rif), NearLatencies(b + a, rif);
    assert multiset(p) == multiset(q);
    assert |multiset(p)| == |p| && |multiset(q)| == |q|;
    if p != [] {
      MedianForgetsOrder(p, q);
    } else if a + b != [] {
      MedianForgetsOrder(Latencies(a + b), Latencies(b + a));
    }
  }

  /** How many samples taken at a RIF within 2 of this one have a latency below v. */
  ghost function NearBelow(w: seq<LatencySample>, rif: int, v: int): nat {
    if w == [] then 0
    else
      var last := w[|w| - 1];
      NearBelow(w[..|w| - 1], rif, v) + (if -2 <= last.rifAtArrival - rif <= 2 && last.latencyUs < v then 1 else 0)
  }

  ghost function NearCount(w: seq<LatencySample>, rif: int): nat {
    if w == [] then 0
    else NearCount(w[..|w| - 1], rif) + (if -2 <= w[|w| - 1].rifAtArrival - rif <= 2 then 1 else 0)
  }

  ghost function AllBelow(w: seq<LatencySample>, v: int): nat {
    if w == [] then 0 else AllBelow(w[..|w| - 1], v) + (if w[|w| - 1].latencyUs < v then 1 else 0)
  }

  lemma {:induction false} LatencyCounts(w: seq<LatencySample>, v: int)
    ensures |Latencies(w)| == |w| && Below(Latencies(w), v) == AllBelow(w, v)
    ensures v in Latencies(w) ==> AllHas(w, v)
  {
    if w != [] {
      var n := |w| - 1;
      LatencyCounts(w[..n], v);
      BelowAppend(Latencies(w[..n]), w[n].latencyUs, v);
      if AllHas(w[..n], v) {
        var i :| 0 <= i < n && w[..n][i].latencyUs == v;
        assert w[i] == w[..n][i];
      }
    }
  }

  lemma {:induction false} NearCounts(w: seq<LatencySample>, rif: int, v: int)
    ensures |NearLatencies(w, rif)| == NearCount(w, rif)
    ensures Below(NearLatencies(w, rif), v) == NearBelow(w, rif, v)
    ensures v in NearLatencies(w, rif) ==> NearHas(w, rif, v)
  {
    if w != [] {
      var n := |w| - 1;
      NearCounts(w[..n], rif, v);
      BelowAppend(NearLatencies(w[..n], rif), w[n].latencyUs, v);
      if NearHas(w[..n], rif, v) {
        var i :| 0 <= i < n && w[..n][i].latencyUs == v && -2 <= w[..n][i].rifAtArrival - rif <= 2;
        assert w[i] == w[..n][i];
      }
      assert !Near(w[n], rif) ==> NearLatencies(w, rif) == NearLatencies(w[..n], rif);
    }
  }

  ghost predicate AllHas(w: seq<LatencySample>, v: int) {
    exists i :: 0 <= i < |w| && w[i].latencyUs == v
  }

  ghost predicate NearHas(w: seq<LatencySample>, rif: int, v: int) {
    exists i :: 0 <= i < |w| && w[i].latencyUs == v && -2 <= w[i].rifAtArrival - rif <= 2
  }

  /** What the estimate is, counted on the samples: the latency of a sample near the current RIF with
      floor(m/2) of the m near latencies at most before it in order; of any sample when none is near. */
  lemma EstimateIsMedian(w: seq<LatencySample>, rif: int)
    ensures var v, m := Estimate(w, rif), NearCount(w, rif);
            && (m > 0 ==> NearHas(w, rif, v) && NearBelow(w, rif, v) <= m / 2 < NearBelow(w, rif, v + 1))
            && (m == 0 && w != [] ==>
                  AllHas(w, v) && AllBelow(w, v) <= |w| / 2 < AllBelow(w, v + 1))
            && (w == [] ==> v == 0)
  {
    hide NearLatencies, Latencies, NearBelow, NearCount, AllBelow, NearHas, AllHas, Median;
    var v := Estimate(w, rif);
    NearCounts(w, rif, v);
    NearCounts(w, rif, v + 1);
    LatencyCounts(w, v);
    LatencyCounts(w, v + 1);
    if NearLatencies(w, rif) != [] {
      MedianIs(NearLatencies(w, rif));
    } else if w != [] {
      MedianIs(Latencies(w));
    }
  }

  lemma MedianIs(s: seq<int>)
    requires s != []
    ensures Median(s) in s && Below(s, Median(s)) <= |s| / 2 < Below(s, Median(s) + 1)
  {
    KthIff(s, |s| / 2 + 1, Median(s));
  }

  /** The end of a log: its last elements in order, as many as there are up to n. */
  lemma LastNMeaning<T>(log: seq<T>, n: nat)
    ensures |LastN(log, n)| == (if |log| <= n then |log| else n)
    ensures forall k :: 0 <= k < |LastN(log, n)| ==> LastN(log, n)[k] == log[|log| - |LastN(log, n)| + k]
  {}

  class LatencyRing {
    const slots: array<LatencySample>
    var idx: nat
    var fill: nat
    ghost var log: seq<LatencySample>

    ghost predicate Valid()
      reads this, slots
    {
      && slots.Length == LATENCY_RING_SIZE
      && Summarises(slots[..], idx, fill, log)
    }

    constructor ()
      ensures Valid() && fresh(slots) && log == []
    {
      slots := new LatencySample[LATENCY_RING_SIZE];
      idx, fill, log := 0, 0, [];
    }

    method RecordLatency(latencyUs: int, rifAtArrival: int)
      requires Valid()
      modifies this, slots
      ensures Valid() && log == old(log) + [LatencySample(latencyUs, rifAtArrival)]
      ensures fill == (if |log| <= 256 then |log| else 256)
      ensures multiset(slots[..fill]) == multiset(LastN(log, 256))
    {
      hide Summarises, LastN;
      RingBounds(slots[..], idx, fill, log);
      PushSummarises(slots[..], idx, fill, log, LatencySample(latencyUs, rifAtArrival));
      slots[idx] := LatencySample(latencyUs, rifAtArrival);
      idx := (idx + 1) % LATENCY_RING_SIZE;
      if fill < LATENCY_RING_SIZE {
        fill := fill + 1;
      }
      log := log + [LatencySample(latencyUs, rifAtArrival)];
      RingBounds(slots[..], idx, fill, log);
      SlotsAreWindow(slots[..], idx, fill, log);
    }

    /** The median over the ring is the estimate from the last min(256, N) samples of the log. */
    method MedianLatencyUs(currentRif: int) returns (median: int)
      requires Valid()
      ensures median == Estimate(LastN(log, 256), currentRif)
    {
      var all: seq<int>, near: seq<int> := [], [];
      for i := 0 to fill
        invariant all == Latencies(slots[..i])
        invariant near == NearLatencies(slots[..i], currentRif)
      {
        var s := slots[i];
        assert slots[..i + 1][..i] == slots[..i];
        all := all + [s.latencyUs];
        var d := s.rifAtArrival - currentRif;
        if d < 0 {
          d := -d;
        }
        if d <= RIF_WINDOW_DELTA {
          near := near + [s.latencyUs];
        }
      }
      assert slots[..][..idx] + slots[..][idx..fill] == slots[..fill];
      EstimateForgetsRotation(slots[..][idx..fill], slots[..][..idx], currentRif);
      LatenciesNonEmpty(slots[..fill]);
      if |near| == 0 {
        if |all| == 0 {
          return 0;
        }
        SortIsSortedPermutation(all);
        all := Sort(all);
        return all[|all| / 2];
      }
      SortIsSortedPermutation(near);
      near := Sort(near);
      return near[|near| / 2];
    }
  }
}
