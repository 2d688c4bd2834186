/** The lists the pool is made of, as the source has them: slices of arrays of pointers to entries.
    Published arrays are never written; every operation builds a fresh array or moves a bound. */
module PoolSlices {
  import opened Basics
  import opened OrderStatistics
  import opened HotCold
  import opened Removal
  import opened ProbePool

  class ProbePoolEntry {
    ghost const id: nat
    const server: nat
    const receivedAt: int
    const latency: int
    var rif: int
    var remainingUses: int

    constructor (ghost id: nat, server: nat, receivedAt: int, rif: int, latency: int, uses: int)
      ensures View() == Entry(id, server, receivedAt, rif, latency, uses)
    {
      this.id, this.server, this.receivedAt, this.latency := id, server, receivedAt, latency;
      this.rif, this.remainingUses := rif, uses;
    }

    ghost function View(): Entry
      reads this
    {
      Entry(id, server, receivedAt, rif, latency, remainingUses)
    }
  }

  ghost function Views(es: seq<ProbePoolEntry>): seq<Entry>
    reads es
  {
    seq(|es|, i requires 0 <= i < |es| reads es => es[i].View())
  }

  lemma ViewsSize(es: seq<ProbePoolEntry>)
    ensures |Views(es)| == |es|
  {}

  /** A Go slice of entry pointers. */
  datatype Slice = Slice(arr: array<ProbePoolEntry>, lo: nat, hi: nat) {
    predicate Valid() { lo <= hi <= arr.Length }

    function Len(): nat
      requires Valid()
    {
      hi - lo
    }

    ghost function Elements(): seq<ProbePoolEntry>
      reads arr
      requires Valid()
    {
      arr[lo..hi]
    }

    function At(i: nat): (e: ProbePoolEntry)
      reads arr
      requires Valid() && i < Len()
      ensures e == Elements()[i]
    {
      arr[lo + i]
    }
  }

  /** A new backing array holding these elements. */
  method FreshSlice(elements: seq<ProbePoolEntry>) returns (s: Slice)
    ensures s.Valid() && fresh(s.arr) && s.Elements() == elements
  {
    var arr := new ProbePoolEntry[|elements|](i requires 0 <= i < |elements| => elements[i]);
    s := Slice(arr, 0, |elements|);
  }

  lemma ViewsOfAppend(es: seq<ProbePoolEntry>, e: ProbePoolEntry, cap: nat)
    ensures Views(AppendPool(es, e, cap)) == AppendPool(Views(es), e.View(), cap)
  {
    ViewsAppend(es, e);
    assert |es + [e]| > cap ==> Views((es + [e])[1..]) == Views(es + [e])[1..];
  }

  method AppendEntry(pool: Slice, entry: ProbePoolEntry, cap: nat) returns (next: Slice)
    requires pool.Valid()
    ensures next.Valid() && fresh(next.arr)
    ensures next.Elements() == AppendPool(pool.Elements(), entry, cap)
  {
    next := FreshSlice(pool.arr[pool.lo..pool.hi] + [entry]);
    if next.Len() > cap {
      next := next.(lo := next.lo + 1);
    }
  }

  lemma ViewsAppend(es: seq<ProbePoolEntry>, e: ProbePoolEntry)
    ensures Views(es + [e]) == Views(es) + [e.View()]
  {}

  lemma PruneAppend(pool: seq<Entry>, e: Entry, cutoff: Option<int>)
    ensures Prune(pool + [e], cutoff) == Prune(pool, cutoff) + (if Keeps(e, cutoff) then [e] else [])
  {
    assert (pool + [e])[..|pool|] == pool;
  }

  /** Entries received after the cutoff, in order, in a fresh array. */
  method PruneEntries(cur: Slice, cutoff: int) returns (pruned: Slice)
    requires cur.Valid() && cur.Len() > 0
    ensures pruned.Valid() && fresh(pruned.arr)
    ensures Views(pruned.Elements()) == Prune(Views(cur.Elements()), Some(cutoff))
    ensures forall e :: e in pruned.Elements() ==> e in cur.Elements()
  {
    hide Prune;
    var filler := cur.At(0);
    var arr := new ProbePoolEntry[cur.Len()](i => filler);
    var m := 0;
    ghost var views, kept := Views(cur.Elements()), [];
    assert Prune(views[..0], Some(cutoff)) == [] by { PruneNone(Some(cutoff)); }
    for i := 0 to cur.Len()
      invariant m <= i && arr[..m] == kept
      invariant Views(kept) == Prune(views[..i], Some(cutoff))
      invariant forall e :: e in kept ==> e in cur.Elements()
    {
      var e := cur.At(i);
      assert views[..i + 1] == views[..i] + [e.View()];
      PruneAppend(views[..i], e.View(), Some(cutoff));
      if e.receivedAt > cutoff {
        ViewsAppend(kept, e);
        arr[m] := e;
        m := m + 1;
        kept := kept + [e];
      }
    }
    assert views[..cur.Len()] == views;
    pruned := Slice(arr, 0, m);
  }

  lemma PruneNone(cutoff: Option<int>)
    ensures Prune([], cutoff) == []
  {}

  lemma WithoutAppend(pool: seq<Entry>, e: Entry, id: nat)
    ensures Without(pool + [e], id) == Without(pool, id) + (if e.id == id then [] else [e])
    ensures Without([], id) == []
  {
    assert (pool + [e])[..|pool|] == pool;
  }

  /** Everything but one entry, in order, in a fresh array. */
  method DropEntry(cur: Slice, used: ProbePoolEntry) returns (next: Slice)
    requires cur.Valid()
    requires forall e :: e in cur.Elements() && e.id == used.id ==> e == used
    ensures next.Valid() && fresh(next.arr)
    ensures Views(next.Elements()) == Without(Views(cur.Elements()), used.id)
    ensures forall e :: e in next.Elements() ==> e in cur.Elements()
  {
    hide Without;
    var arr := new ProbePoolEntry[cur.Len()](i => used);
    var m := 0;
    ghost var views, kept := Views(cur.Elements()), [];
    WithoutAppend([], used.View(), used.id);
    assert views[..0] == [];
    for i := 0 to cur.Len()
      invariant m <= i && arr[..m] == kept
      invariant Views(kept) == Without(views[..i], used.id)
      invariant forall e :: e in kept ==> e in cur.Elements()
    {
      var e := cur.At(i);
      assert views[..i + 1] == views[..i] + [e.View()];
      WithoutAppend(views[..i], e.View(), used.id);
      if e != used {
        ViewsAppend(kept, e);
        arr[m] := e;
        m := m + 1;
        kept := kept + [e];
      }
    }
    assert views[..cur.Len()] == views;
    next := Slice(arr, 0, m);
  }

  method RemoveOldestEntry(pool: Slice) returns (next: Slice)
    requires pool.Valid()
    ensures next.Valid() && next.arr == pool.arr
    ensures Views(next.Elements()) == RemoveOldest(Views(pool.Elements()))
    ensures forall e :: e in next.Elements() ==> e in pool.Elements()
  {
    if pool.Len() == 0 {
      return pool;
    }
    next := pool.(lo := pool.lo + 1);
    assert next.Elements() == pool.Elements()[1..];
  }

  /** append(pool[:v], pool[v+1:]) into a fresh array. */
  method WithoutPosition(pool: Slice, v: nat) returns (next: Slice)
    requires pool.Valid() && v < pool.Len()
    ensures next.Valid() && fresh(next.arr)
    ensures next.Elements() == Delete(pool.Elements(), v)
  {
    ghost var es := pool.Elements();
    next := FreshSlice(pool.arr[pool.lo..pool.lo + v] + pool.arr[pool.lo + v + 1..pool.hi]);
    assert es[..v] == pool.arr[pool.lo..pool.lo + v];
    assert es[v + 1..] == pool.arr[pool.lo + v + 1..pool.hi];
  }

  /** The RIFs of the pool, sorted, indexed at the quantile. */
  method PoolThreshold(pool: Slice, q: real) returns (theta: int)
    requires pool.Valid() && pool.Len() > 0
    ensures theta == Threshold(Views(pool.Elements()), q)
  {
    var rifs: seq<int> := [];
    for i := 0 to pool.Len()
      invariant rifs == PoolRifs(Views(pool.Elements()[..i]))
    {
      rifs := rifs + [pool.At(i).rif];
      assert pool.Elements()[..i + 1] == pool.Elements()[..i] + [pool.At(i)];
    }
    assert pool.Elements()[..pool.Len()] == pool.Elements();
    SortIsSortedPermutation(rifs);
    rifs := Sort(rifs);
    var raw := Trunc(Share(q, |rifs| - 1));
    if raw < 0 {
      raw := 0;
    }
    if raw >= |rifs| {
      raw := |rifs| - 1;
    }
    theta := rifs[raw];
  }

  lemma RemoveWorstIsDelete(pool: seq<Entry>, q: real, v: nat)
    requires pool != [] && v < |pool| && Victim(pool, Threshold(pool, q)) == Some(v)
    ensures RemoveWorst(pool, q) == Delete(pool, v)
  {}

  lemma ViewsDelete(es: seq<ProbePoolEntry>, v: nat)
    requires v < |es|
    ensures Views(Delete(es, v)) == Delete(Views(es), v)
    ensures forall e :: e in Delete(es, v) ==> e in es
  {}

  method RemoveWorstEntry(pool: Slice, q: real) returns (next: Slice)
    requires pool.Valid()
    ensures next.Valid() && (next.arr == pool.arr || fresh(next.arr))
    ensures Views(next.Elements()) == RemoveWorst(Views(pool.Elements()), q)
    ensures forall e :: e in next.Elements() ==> e in pool.Elements()
  {
    if pool.Len() == 0 {
      return pool;
    }
    hide RemoveWorst, Threshold, Victim, Delete;
    var theta := PoolThreshold(pool, q);
    var victim := FindVictim(pool, theta);
    RemoveWorstIsDelete(Views(pool.Elements()), q, victim);
    next := WithoutPosition(pool, victim);
    ViewsDelete(pool.Elements(), victim);
  }

  /** The removal scan; the source's no-victim return is never reached. */
  method FindVictim(pool: Slice, theta: int) returns (victim: nat)
    requires pool.Valid() && pool.Len() > 0
    ensures Victim(Views(pool.Elements()), theta) == Some(victim) && victim < pool.Len()
  {
    ghost var views := Views(pool.Elements());
    var worstHotRif, worstColdLatency := 0, 0;
    var worstHotIdx, worstColdIdx := -1, -1;
    for i := 0 to pool.Len()
      invariant -1 <= worstHotIdx < i && -1 <= worstColdIdx < i
      invariant WorstScan(views[..i], theta) ==
                Scan(i, AsCandidate(worstHotIdx, worstHotRif), AsCandidate(worstColdIdx, worstColdLatency))
    {
      var e := pool.At(i);
      assert views[..i + 1][..i] == views[..i] && views[..i + 1][i] == e.View();
      if e.rif > theta {
        if worstHotIdx == -1 || e.rif > worstHotRif {
          worstHotIdx, worstHotRif := i, e.rif;
        }
      } else {
        if worstColdIdx == -1 || e.latency > worstColdLatency {
          worstColdIdx, worstColdLatency := i, e.latency;
        }
      }
    }
    assert views[..pool.Len()] == views;
    ScanFindsFirstWorst(views, theta);
    var victimIdx := worstHotIdx;
    if victimIdx == -1 {
      victimIdx := worstColdIdx;
    }
    victim := victimIdx;
  }

  /** The scan variables of the source: index -1 means no candidate. */
  function AsCandidate(idx: int, key: int): Option<Candidate>
    requires idx >= -1
  {
    if idx == -1 then None else Some(Candidate(idx, key))
  }
}
