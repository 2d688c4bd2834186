/** The incremental RIF distribution: a sample slice over a backing array, a histogram kept up to
    date by every append and eviction, and a cached last answer. Each method is proved against the
    step of the same name in RifWindow. */
module RifDistribution {
  import opened Basics
  import opened OrderStatistics
  import opened RifWindow

  /** How often the histogram says r occurs. */
  function Tally(counts: map<Int32, int>, r: Int32): int {
    if r in counts then counts[r] else 0
  }

  /** counts holds exactly the distinct values with their numbers of occurrences, and no zeros. */
  ghost predicate IsHistogram(counts: map<Int32, int>, rifs: seq<Int32>) {
    && (forall r: Int32 :: Tally(counts, r) == multiset(rifs)[r])
    && (forall r: Int32 :: r in counts ==> counts[r] > 0)
  }

  lemma HistogramKeys(counts: map<Int32, int>, rifs: seq<Int32>, r: Int32)
    requires IsHistogram(counts, rifs)
    ensures r in counts <==> r in rifs
    ensures r in counts ==> counts[r] == multiset(rifs)[r]
  {
    assert Tally(counts, r) == multiset(rifs)[r];
    assert r in rifs <==> r in multiset(rifs);
  }

  lemma HistogramGains(counts: map<Int32, int>, rifs: seq<Int32>, r: Int32)
    requires IsHistogram(counts, rifs)
    ensures IsHistogram(counts[r := Tally(counts, r) + 1], rifs + [r])
  {
    assert multiset(rifs + [r]) == multiset(rifs) + multiset{r};
    forall x: Int32
      ensures Tally(counts[r := Tally(counts, r) + 1], x) == multiset(rifs + [r])[x]
    {
      assert Tally(counts, x) == multiset(rifs)[x];
    }
  }

  function Decremented(counts: map<Int32, int>, r: Int32): map<Int32, int>
    requires r in counts
  {
    if counts[r] == 1 then counts - {r} else counts[r := counts[r] - 1]
  }

  lemma HistogramLosesFirst(counts: map<Int32, int>, rifs: seq<Int32>)
    requires IsHistogram(counts, rifs) && rifs != []
    ensures rifs[0] in counts && IsHistogram(Decremented(counts, rifs[0]), rifs[1..])
  {
    var r: Int32, rest: seq<Int32> := rifs[0], rifs[1..];
    HistogramKeys(counts, rifs, r);
    assert rifs == [r] + rest;
    assert multiset(rifs) == multiset{r} + multiset(rest);
    forall x: Int32 ensures Tally(Decremented(counts, r), x) == multiset(rest)[x] {
      assert Tally(counts, x) == multiset(rifs)[x];
    }
  }

  lemma RifsAppend(s: seq<Sample>, x: Sample)
    ensures Rifs(s + [x]) == Rifs(s) + [x.rif]
  {}

  lemma RifsSlice(s: seq<Sample>, k: nat)
    requires k <= |s|
    ensures Rifs(s[k..]) == Rifs(s)[k..]
  {}

  ghost predicate StrictlyIncreasing(s: seq<int>) {
    forall i, j :: 0 <= i < j < |s| ==> s[i] < s[j]
  }

  lemma RepeatedIsCounted(s: seq<int>, i: nat, j: nat)
    requires i < j < |s| && s[i] == s[j]
    ensures multiset(s)[s[i]] >= 2
  {
    assert s == s[..j] + [s[j]] + s[j + 1..];
    assert s[..j][i] == s[i];
  }

  /** Sorting a list without repetitions leaves no ties. */
  lemma SortOfDistinct(keys: seq<Int32>, distinct: set<Int32>) returns (sorted: seq<Int32>)
    requires multiset(keys) == multiset(distinct)
    ensures sorted == Sort(keys)
    ensures StrictlyIncreasing(sorted)
    ensures multiset(sorted) == multiset(distinct)
  {
    var t := Sort(keys);
    SortIsSortedPermutation(keys);
    forall i | 0 <= i < |t| ensures -0x8000_0000 <= t[i] <= 0x7FFF_FFFF {
      assert t[i] in multiset(keys);
    }
    sorted := t;
    forall i, j | 0 <= i < j < |t| ensures t[i] < t[j] {
      if t[i] == t[j] {
        RepeatedIsCounted(t, i, j);
      }
    }
  }

  /** keys and rifs have the same elements. */
  ghost predicate SameElements(keys: seq<Int32>, rifs: seq<Int32>) {
    && (forall i :: 0 <= i < |keys| ==> keys[i] in rifs)
    && (forall i :: 0 <= i < |rifs| ==> rifs[i] in keys)
  }

  /** The walk invariant: keys[..i] summed so far, without reaching the target. */
  ghost predicate Walked(rifs: seq<Int32>, keys: seq<Int32>, i: nat, acc: int) {
    && i <= |keys|
    && StrictlyIncreasing(keys)
    && SameElements(keys, rifs)
    && acc == if i == 0 then 0 else AtMost(rifs, keys[i - 1])
  }

  lemma WalkStart(rifs: seq<Int32>, keys: seq<Int32>)
    requires StrictlyIncreasing(keys) && SameElements(keys, rifs)
    ensures Walked(rifs, keys, 0, 0)
  {}

  lemma WalkStep(rifs: seq<Int32>, keys: seq<Int32>, i: nat, acc: int)
    requires Walked(rifs, keys, i, acc) && i < |keys|
    ensures Below(rifs, keys[i]) == acc
    ensures AtMost(rifs, keys[i]) == acc + multiset(rifs)[keys[i]]
    ensures Walked(rifs, keys, i + 1, acc + multiset(rifs)[keys[i]])
  {
    var first: int := keys[0];
    var lo: int := if i == 0 then first - 1 else keys[i - 1];
    forall p | 0 <= p < |rifs| ensures rifs[p] <= lo || keys[i] <= rifs[p] {
      assert rifs[p] in rifs && rifs[p] in keys;
      var m :| 0 <= m < |keys| && keys[m] == rifs[p];
      if m < i - 1 { assert keys[m] < keys[i - 1]; }
      if m > i { assert keys[i] < keys[m]; }
    }
    AtMostStep(rifs, lo, keys[i]);
    if i == 0 {
      forall p | 0 <= p < |rifs| ensures keys[0] <= rifs[p] {
        assert rifs[p] in rifs && rifs[p] in keys;
      }
      AllAbove(rifs, keys[0]);
    }
  }

  lemma WalkComplete(rifs: seq<Int32>, keys: seq<Int32>, acc: int)
    requires Walked(rifs, keys, |keys|, acc) && rifs != []
    ensures acc == |rifs|
  {
    assert rifs[0] in rifs && rifs[0] in keys;
    forall p | 0 <= p < |rifs| ensures rifs[p] <= keys[|keys| - 1] {
      assert rifs[p] in rifs && rifs[p] in keys;
    }
    AtMostAll(rifs, keys[|keys| - 1]);
  }

  /** The first key at which the running count reaches the target is the order statistic of the
      target's rank. */
  lemma FirstReachingIsKth(rifs: seq<Int32>, target: real, keys: seq<Int32>, i: nat, acc: int)
    requires rifs != [] && target < |rifs| as real
    requires Walked(rifs, keys, i, acc) && i < |keys|
    requires i > 0 ==> acc as real < target
    requires (acc + multiset(rifs)[keys[i]]) as real >= target
    ensures keys[i] == Kth(rifs, Rank(target))
  {
    var v := keys[i];
    WalkStep(rifs, keys, i, acc);
    OccursIsCounted(rifs, v);
    KthIff(rifs, Rank(target), v);
  }

  lemma {:induction false} OccursIsCounted(rifs: seq<Int32>, v: int)
    ensures AtMost(rifs, v) == Below(rifs, v) + multiset(rifs)[v]
    ensures v in rifs ==> Below(rifs, v) < AtMost(rifs, v)
  {
    if rifs != [] {
      assert rifs == [rifs[0]] + rifs[1..];
      OccursIsCounted(rifs[1..], v);
    }
  }

  /** Go's copy for two overlapping ranges of one array, the source not before the target. */
  method CopyWithin(buf: array<Sample>, target: nat, source: nat, n: nat)
    requires target <= source && source + n <= buf.Length
    modifies buf
    ensures buf[target..target + n] == old(buf[source..source + n])
  {
    ghost var was, shift := buf[..], source - target;
    for i := 0 to n
      invariant forall k {:trigger buf[k]} :: target <= k < target + i ==> buf[k] == was[k + shift]
      invariant forall k {:trigger buf[k]} :: target + i <= k < buf.Length ==> buf[k] == was[k]
    {
      buf[target + i] := buf[source + i];
    }
    ghost var copied, original := buf[target..target + n], was[source..source + n];
    forall k | 0 <= k < n ensures copied[k] == original[k] {
      assert buf[target + k] == was[target + k + shift];
    }
  }

  class RIFDistribution {
    // A Go slice: `len` samples starting at `off` in a backing array.
    var buf: array<Sample>
    var off: nat
    var len: nat
    var counts: map<Int32, int>
    const maxAge: int
    var cache: Option<CachedAnswer>

    ghost predicate Valid()
      reads this, buf
    {
      && off + len <= buf.Length
      && IsHistogram(counts, Rifs(Samples()))
    }

    ghost function Samples(): seq<Sample>
      reads this, buf
      requires off + len <= buf.Length
    {
      buf[off..off + len]
    }

    ghost function Model(): Distribution
      reads this, buf
      requires off + len <= buf.Length
    {
      Distribution(Samples(), cache)
    }

    constructor (window: int)
      ensures Valid() && fresh(buf) && maxAge == window
      ensures Model() == Distribution([], None)
    {
      buf := new Sample[256];
      off, len := 0, 0;
      counts := map[];
      maxAge := window;
      cache := None;
    }

    method Observe(rif: Int32, now: int)
      requires Valid()
      modifies this, buf
      ensures Valid() && (buf == old(buf) || fresh(buf))
      ensures Model() == RifWindow.Observe(old(Model()), rif, now)
    {
      hide IsHistogram, Rifs, Tally;
      ghost var was, tally := Samples(), counts;
      HistogramGains(tally, Rifs(was), rif);
      RifsAppend(was, Sample(rif, now));
      Append(Sample(rif, now));
      counts := counts[rif := Tally(counts, rif) + 1];
    }

    /** Go's append: in place while the backing array has room. */
    method Append(s: Sample)
      requires off + len <= buf.Length
      modifies this`buf, this`off, this`len, buf
      ensures off + len <= buf.Length && (buf == old(buf) || fresh(buf))
      ensures Samples() == old(Samples()) + [s]
    {
      if off + len == buf.Length {
        var bigger := Enlarged();
        buf, off := bigger, 0;
      }
      buf[off + len] := s;
      len := len + 1;
    }

    /** append has used up the backing array: the same samples at the start of a larger one. */
    method Enlarged() returns (bigger: array<Sample>)
      requires off + len <= buf.Length
      ensures fresh(bigger) && len < bigger.Length
      ensures bigger[0..len] == Samples()
    {
      bigger := new Sample[2 * len + 1];
      for i := 0 to len
        modifies bigger
        invariant forall k :: 0 <= k < i ==> bigger[k] == buf[off + k]
      {
        bigger[i] := buf[off + i];
      }
    }

    /** Drops the longest stale prefix and its counts; all three ways of compacting the slice leave
        the same samples. */
    method EvictLocked(cutoff: int)
      requires Valid()
      modifies this, buf
      ensures Valid() && buf == old(buf) && cache == old(cache)
      ensures Samples() == Evict(old(Samples()), cutoff)
    {
      ghost var was := Samples();
      var cut := UncountStale(cutoff);
      EvictDropsLongestStalePrefix(was, cutoff, cut);
      DropFirst(cut);
    }

    /** The three ways of compacting the slice: truncate, copy down, reslice. */
    method DropFirst(cut: nat)
      requires off + len <= buf.Length && cut <= len
      modifies this`off, this`len, buf
      ensures off + len <= buf.Length
      ensures Samples() == old(Samples()[cut..])
    {
      if cut == 0 {
        return;
      }
      if cut >= len {
        len := 0;
        return;
      }
      if cut > len / 2 {
        // more goes than stays, so the samples kept move down clear of where they were
        assert len - cut <= cut;
        CopyWithin(buf, off, off + cut, len - cut);
        len := len - cut;
      } else {
        off, len := off + cut, len - cut;
      }
    }

    /** The eviction loop: uncounts the stale prefix and returns its length. */
    method UncountStale(cutoff: int) returns (cut: nat)
      requires Valid()
      modifies this`counts
      ensures LongestStalePrefix(Samples(), cutoff, cut)
      ensures IsHistogram(counts, Rifs(Samples()[cut..]))
    {
      hide IsHistogram;
      ghost var was := Samples();
      assert was[0..] == was;
      cut := 0;
      while cut < len && !(buf[off + cut].t > cutoff)
        invariant cut <= len
        invariant forall i :: 0 <= i < cut ==> Stale(was[i], cutoff)
        invariant IsHistogram(counts, Rifs(was[cut..]))
      {
        var r := buf[off + cut].rif;
        ghost var rest := was[cut..];
        assert r == Rifs(rest)[0];
        RifsSlice(rest, 1);
        assert rest[1..] == was[cut + 1..];
        HistogramLosesFirst(counts, Rifs(rest));
        ghost var next := Decremented(counts, r);
        counts := counts[r := counts[r] - 1];
        if counts[r] == 0 {
          counts := counts - {r};
        }
        assert counts == next;
        cut := cut + 1;
      }
    }

    /** Evicts, then walks the sorted histogram keys to the answer the reference gives. */
    method ComputeQuantile(q: real, now: int) returns (answer: Answer)
      requires Valid()
      modifies this, buf
      ensures Valid() && buf == old(buf) && cache == old(cache)
      ensures Samples() == Evict(old(Samples()), now - maxAge)
      ensures answer == NaiveQuantile(Rifs(Samples()), q) && (answer.valid <==> |Samples()| >= 16)
    {
      hide IsHistogram, Evict, Kth;
      answer := Answer(0, false);
      EvictLocked(now - maxAge);
      if len < MIN_RIF_SAMPLES {
        return;
      }
      if q >= 1.0 {
        return Answer(MAX_INT32, true);
      }
      var theta := Walk(Target(q, len));
      answer := Answer(theta, true);
    }

    /** The cumulative walk over the sorted histogram keys. */
    method Walk(target: real) returns (theta: int)
      requires Valid() && len > 0 && target < len as real
      ensures theta == Kth(Rifs(Samples()), Rank(target))
    {
      hide Walked, Kth, IsHistogram, StrictlyIncreasing, SameElements;
      theta := 0;
      var keys := SortedKeys();
      ghost var rifs := Rifs(Samples());
      var acc := 0;
      WalkStart(rifs, keys);
      for i := 0 to |keys|
        invariant Walked(rifs, keys, i, acc)
        invariant i > 0 ==> acc as real < target
      {
        WalkStep(rifs, keys, i, acc);
        HistogramKeys(counts, rifs, keys[i]);
        if (acc + counts[keys[i]]) as real >= target {
          FirstReachingIsKth(rifs, target, keys, i, acc);
          return keys[i];
        }
        acc := acc + counts[keys[i]];
      }
      // the source's final fall-through return is never reached
      WalkComplete(rifs, keys, acc);
      assert false;
    }

    method SortedKeys() returns (keys: seq<Int32>)
      requires Valid()
      ensures StrictlyIncreasing(keys)
      ensures SameElements(keys, Rifs(Samples()))
    {
      var unsorted: seq<Int32> := [];
      var left := counts.Keys;
      ghost var seen: set<Int32> := {};
      while left != {}
        invariant seen + left == counts.Keys && seen !! left
        invariant multiset(unsorted) == multiset(seen)
        decreases left
      {
        var r: Int32 :| r in left;
        unsorted := unsorted + [r];
        left, seen := left - {r}, seen + {r};
      }
      ghost var sorted := SortOfDistinct(unsorted, seen);
      keys := Sort(unsorted);
      ghost var rifs := Rifs(Samples());
      forall i | 0 <= i < |keys| ensures keys[i] in rifs {
        assert keys[i] in multiset(seen);
        HistogramKeys(counts, rifs, keys[i]);
      }
      forall i | 0 <= i < |rifs| ensures rifs[i] in keys {
        var r := rifs[i];
        HistogramKeys(counts, rifs, r);
        assert r in multiset(keys);
      }
    }

    method Quantile(q: real, now: int) returns (answer: Answer)
      requires Valid()
      modifies this, buf
      ensures Valid() && buf == old(buf)
      ensures (Model(), answer) == Query(old(Model()), maxAge, q, now)
    {
      hide IsHistogram, Evict, NaiveQuantile, Rifs;
      if cache.Some? && cache.value.q == q && now - cache.value.computedAt < QUANTILE_CACHE_TTL {
        return cache.value.answer;
      }
      answer := ComputeQuantile(q, now);
      cache := Some(CachedAnswer(q, answer, now));
    }
  }
}
