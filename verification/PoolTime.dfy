/** Time in the probe pool: probes handled in time order keep the pool in time order, and the pruning
    an insertion does is invisible to any later selection. */
module PoolTime {
  import opened Basics
  import opened HotCold
  import opened Removal
  import opened Subsequences
  import opened ProbePool

  ghost predicate Ordered(pool: seq<Entry>) {
    forall i, j :: 0 <= i < j < |pool| ==> pool[i].receivedAt <= pool[j].receivedAt
  }

  /** Probe results are handled in nondecreasing order of their timestamps. */
  ghost predicate StampsOrdered(es: seq<Event>) {
    forall i, j :: 0 <= i < j < |es| && es[i].Probed? && es[j].Probed? ==> es[i].stamp <= es[j].stamp
  }

  ghost predicate StampsUpTo(es: seq<Event>, bound: int) {
    forall i :: 0 <= i < |es| && es[i].Probed? ==> es[i].stamp <= bound
  }

  ghost predicate PoolUpTo(pool: seq<Entry>, bound: int) {
    forall i :: 0 <= i < |pool| ==> pool[i].receivedAt <= bound
  }

  lemma SubOrdered(a: seq<Entry>, b: seq<Entry>, bound: int)
    requires Subsequence(a, b) && Ordered(b) && PoolUpTo(b, bound)
    ensures Ordered(a) && PoolUpTo(a, bound)
  {
    var f: seq<nat> :| Embeds(a, b, f);
  }

  lemma ConsumeOrdered(pool: seq<Entry>, w: nat, bound: int)
    requires w < |pool| && Ordered(pool) && PoolUpTo(pool, bound) && DistinctIds(pool)
    ensures Ordered(Consume(pool, w)) && PoolUpTo(Consume(pool, w), bound)
  {
    hide Subsequence;
    var spent := Spend(BumpServer(pool, pool[w].server), w);
    assert Ordered(spent) && PoolUpTo(spent, bound) && DistinctIds(spent);
    if spent[w].uses <= 0 {
      WithoutIsDelete(spent, w);
      SubsequenceDelete(spent, w);
      SubOrdered(Delete(spent, w), spent, bound);
    }
  }

  lemma InsertOrdered(pool: seq<Entry>, e: Entry, cutoff: Option<int>, cap: nat)
    requires Ordered(pool) && PoolUpTo(pool, e.receivedAt)
    ensures Ordered(AppendPool(Prune(pool, cutoff), e, cap))
    ensures PoolUpTo(AppendPool(Prune(pool, cutoff), e, cap), e.receivedAt)
  {
    hide Subsequence, Prune;
    PruneSub(pool, cutoff);
    SubOrdered(Prune(pool, cutoff), pool, e.receivedAt);
  }

  lemma {:induction false} RunOrderedUpTo(cfg: Config, es: seq<Event>, bound: int)
    requires StampsOrdered(es) && StampsUpTo(es, bound)
    ensures Ordered(Run(cfg, es).pool) && PoolUpTo(Run(cfg, es).pool, bound)
  {
    hide Subsequence;
    if es != [] {
      var init, last := es[..|es| - 1], es[|es| - 1];
      var m := Run(cfg, init);
      match last
      case Probed(server, rif, latency, stamp, now, nServers, draw) =>
        RunOrderedUpTo(cfg, init, stamp);
        InsertOrdered(m.pool, Entry(m.nextId, server, stamp, rif, latency, ReuseBudget(cfg, nServers, draw)),
                      Cutoff(cfg, now), cfg.poolCap);
      case Asked(theta, now) =>
        RunOrderedUpTo(cfg, init, bound);
        AskOrdered(cfg, init, theta, now, bound);
    }
  }

  lemma AskOrdered(cfg: Config, es: seq<Event>, theta: int, now: int, bound: int)
    requires Ordered(Run(cfg, es).pool) && PoolUpTo(Run(cfg, es).pool, bound)
    ensures var pool := Select(Run(cfg, es), cfg, theta, now).pool;
            Ordered(pool) && PoolUpTo(pool, bound)
  {
    hide Subsequence;
    var m := Run(cfg, es);
    EveryRunBalances(cfg, es);
    ShrinkBalanced(m, cfg);
    ShrinkSub(m, cfg);
    var s := Shrink(m, cfg);
    SubOrdered(s.pool, m.pool, bound);
    var d := Decide(s.pool, theta, Cutoff(cfg, now));
    if d.Chosen? {
      ConsumeOrdered(s.pool, d.pos, bound);
    }
  }

  ghost function Latest(es: seq<Event>): int {
    if es == [] then 0
    else
      var rest, last := Latest(es[..|es| - 1]), es[|es| - 1];
      if last.Probed? && last.stamp > rest then last.stamp else rest
  }

  lemma {:induction false} LatestBounds(es: seq<Event>)
    ensures StampsUpTo(es, Latest(es))
  {
    if es != [] {
      LatestBounds(es[..|es| - 1]);
      assert forall i :: 0 <= i < |es| - 1 ==> es[..|es| - 1][i] == es[i];
    }
  }

  /** When results are handled in time order the pool stays in time order. */
  lemma RunOrdered(cfg: Config, es: seq<Event>)
    requires StampsOrdered(es)
    ensures var pool := Run(cfg, es).pool;
            && Ordered(pool)
            && forall i :: 0 <= i < |RemoveOldest(pool)| ==>
                 pool[0].receivedAt <= RemoveOldest(pool)[i].receivedAt
  {
    LatestBounds(es);
    RunOrderedUpTo(cfg, es, Latest(es));
  }

  /** The pool after the first k rounds of a removal loop. */
  ghost function AfterRounds(pool: seq<Entry>, oldestNext: bool, k: nat, q: real): seq<Entry> {
    ShedN(pool, oldestNext, k, q).pool
  }

  /** On an ordered pool every oldest-first round of a removal loop, whatever the worst-first rounds
      between have taken, takes the first entry and nothing else, and that was received no later than
      everything it leaves. */
  lemma {:induction false} RoundsTakeOldest(pool: seq<Entry>, oldestNext: bool, n: nat, q: real, k: nat)
    requires Ordered(pool) && k < n && k < |pool|
    ensures k < |ShedN(pool, oldestNext, n, q).removed|
    ensures var before, after := AfterRounds(pool, oldestNext, k, q), AfterRounds(pool, oldestNext, k + 1, q);
            ShedN(pool, oldestNext, n, q).removed[k] == Oldest ==>
              && before != [] && after == before[1..]
              && forall i :: 0 <= i < |after| ==> before[0].receivedAt <= after[i].receivedAt
    decreases n
  {
    hide RemoveWorst, Subsequence;
    ShedNCounts(pool, oldestNext, n, q);
    var shorter := if oldestNext then RemoveOldest(pool) else RemoveWorst(pool, q);
    if k > 0 {
      RoundSub(pool, oldestNext, q);
      PartOrdered(shorter, pool);
      RoundsTakeOldest(shorter, !oldestNext, n - 1, q, k - 1);
    } else {
      assert AfterRounds(pool, oldestNext, 1, q) == ShedN(shorter, !oldestNext, 0, q).pool;
    }
  }

  lemma PartOrdered(a: seq<Entry>, b: seq<Entry>)
    requires Subsequence(a, b) && Ordered(b)
    ensures Ordered(a)
  {
    var f: seq<nat> :| Embeds(a, b, f);
  }

  /** So in time order every oldest removal of every query takes a true oldest entry. */
  lemma OldestRemovalsTakeOldest(cfg: Config, es: seq<Event>, k: nat)
    requires StampsOrdered(es) && cfg.rRemove > 0.0
    requires var m := Run(cfg, es);
             k < |ApplyRRemove(m.remover, m.pool, cfg.rRemove, cfg.qrif).removed|
    ensures var m := Run(cfg, es);
            var o := ApplyRRemove(m.remover, m.pool, cfg.rRemove, cfg.qrif);
            var before := AfterRounds(m.pool, m.remover.oldestNext, k, cfg.qrif);
            var after := AfterRounds(m.pool, m.remover.oldestNext, k + 1, cfg.qrif);
            && o.pool == AfterRounds(m.pool, m.remover.oldestNext, Demand(m.remover, cfg.rRemove), cfg.qrif)
            && (o.removed[k] == Oldest ==>
                  && before != [] && after == before[1..]
                  && forall i :: 0 <= i < |after| ==> before[0].receivedAt <= after[i].receivedAt)
  {
    hide ShedN, Demand, Ordered, Run;
    RunOrdered(cfg, es);
    var m := Run(cfg, es);
    ShedNCounts(m.pool, m.remover.oldestNext, Demand(m.remover, cfg.rRemove), cfg.qrif);
    RoundsTakeOldest(m.pool, m.remover.oldestNext, Demand(m.remover, cfg.rRemove), cfg.qrif, k);
  }

  /** An insertion at the capacity drops the first entry and no other, and that was received no later
      than anything it keeps. */
  lemma OverflowDropsOldest(cfg: Config, es: seq<Event>, p: Event)
    requires p.Probed? && StampsOrdered(es + [p])
    ensures var m := Run(cfg, es);
            var kept := Prune(m.pool, Cutoff(cfg, p.now));
            var next := Run(cfg, es + [p]).pool;
            |kept| >= cfg.poolCap && kept != [] ==>
              && |next| == |kept| && next[..|next| - 1] == kept[1..] && next[|next| - 1].id == m.nextId
              && forall i :: 0 <= i < |next| ==> kept[0].receivedAt <= next[i].receivedAt
  {
    hide Subsequence, Balanced, PoolBalanced, Prune, Run, AppendPool, StampsOrdered, StampsUpTo, ReuseBudget;
    var m, kept := Run(cfg, es), Prune(Run(cfg, es).pool, Cutoff(cfg, p.now));
    var e := Entry(m.nextId, p.server, p.stamp, p.rif, p.latency, ReuseBudget(cfg, p.nServers, p.draw));
    PrefixStamps(es, p);
    RunOrderedUpTo(cfg, es, p.stamp);
    PruneSub(m.pool, Cutoff(cfg, p.now));
    SubOrdered(kept, m.pool, p.stamp);
    PruneWithinCapacity(cfg, es, p.now);
    ProbedRun(cfg, es, p);
    if |kept| >= cfg.poolCap && kept != [] {
      FullAppend(kept, e, cfg.poolCap);
    }
  }

  lemma ProbedRun(cfg: Config, es: seq<Event>, p: Event)
    requires p.Probed?
    ensures var m := Run(cfg, es);
            var e := Entry(m.nextId, p.server, p.stamp, p.rif, p.latency, ReuseBudget(cfg, p.nServers, p.draw));
            Run(cfg, es + [p]).pool == AppendPool(Prune(m.pool, Cutoff(cfg, p.now)), e, cfg.poolCap)
  {
    assert (es + [p])[..|es|] == es;
  }

  lemma FullAppend(kept: seq<Entry>, e: Entry, cap: nat)
    requires |kept| == cap && kept != []
    ensures AppendPool(kept, e, cap) == kept[1..] + [e]
  {}

  lemma PrefixStamps(es: seq<Event>, p: Event)
    requires p.Probed? && StampsOrdered(es + [p])
    ensures StampsOrdered(es) && StampsUpTo(es, p.stamp)
  {
    var all := es + [p];
    assert all[|es|] == p && forall i :: 0 <= i < |es| ==> all[i] == es[i];
  }

  lemma PruneWithinCapacity(cfg: Config, es: seq<Event>, now: int)
    ensures |Prune(Run(cfg, es).pool, Cutoff(cfg, now))| <= cfg.poolCap
  {
    hide Subsequence, PoolBalanced;
    var m := Run(cfg, es);
    EveryRunBalances(cfg, es);
    PruneSub(m.pool, Cutoff(cfg, now));
    SubBalanced(m, Prune(m.pool, Cutoff(cfg, now)));
  }

  // ---------------------------------------------------------------------------------------------
  // Pruning and selection

  /** Both scans hold the same entry for a class, at possibly different positions. */
  ghost predicate SameCandidate(a: Option<Candidate>, p: seq<Entry>, b: Option<Candidate>, q: seq<Entry>) {
    && (a.Some? <==> b.Some?)
    && (a.Some? ==> && a.value.key == b.value.key
                    && a.value.pos < |p| && b.value.pos < |q|
                    && p[a.value.pos] == q[b.value.pos])
  }

  ghost predicate SameScan(a: Scan, p: seq<Entry>, b: Scan, q: seq<Entry>) {
    a.seen == b.seen && SameCandidate(a.hot, p, b.hot, q) && SameCandidate(a.cold, p, b.cold, q)
  }

  lemma BothSee(a: Scan, p: seq<Entry>, b: Scan, q: seq<Entry>, e: Entry, theta: int, cutoff: Option<int>)
    requires SameScan(a, p, b, q)
    ensures SameScan(BestStep(a, |p|, Fresh(e, cutoff), e.rif, e.latency, theta), p + [e],
                     BestStep(b, |q|, Fresh(e, cutoff), e.rif, e.latency, theta), q + [e])
  {}

  lemma OneSkips(a: Scan, p: seq<Entry>, b: Scan, q: seq<Entry>, e: Entry)
    requires SameScan(a, p, b, q)
    ensures SameScan(a, p + [e], b, q)
  {}

  lemma {:induction false} ScanIgnoresPruned(pool: seq<Entry>, theta: int, pruned: int, skipped: int)
    requires forall i :: 0 <= i < |pool| ==> Keeps(pool[i], Some(pruned)) || !Fresh(pool[i], Some(skipped))
    ensures SameScan(BestScan(pool, theta, Some(skipped)), pool,
                     BestScan(Prune(pool, Some(pruned)), theta, Some(skipped)), Prune(pool, Some(pruned)))
  {
    if pool != [] {
      hide SameScan;
      var n := |pool| - 1;
      var init, e, kept := pool[..n], pool[n], Prune(pool[..n], Some(pruned));
      var a, b := BestScan(init, theta, Some(skipped)), BestScan(kept, theta, Some(skipped));
      assert pool == init + [e];
      ScanIgnoresPruned(init, theta, pruned, skipped);
      if Keeps(e, Some(pruned)) {
        BothSee(a, init, b, kept, e, theta, Some(skipped));
        assert (kept + [e])[..|kept|] == kept;
      } else {
        OneSkips(a, init, b, kept, e);
        assert Prune(pool, Some(pruned)) == kept;
      }
    }
  }

  ghost function CountAt(pool: seq<Entry>, t: int): nat {
    if pool == [] then 0
    else CountAt(pool[..|pool| - 1], t) + (if pool[|pool| - 1].receivedAt == t then 1 else 0)
  }

  lemma {:induction false} PruneLosesCutoff(pool: seq<Entry>, cutoff: int)
    ensures FreshCount(pool, Some(cutoff)) ==
            FreshCount(Prune(pool, Some(cutoff)), Some(cutoff)) + CountAt(pool, cutoff)
  {
    if pool != [] {
      var n := |pool| - 1;
      var kept := Prune(pool[..n], Some(cutoff));
      PruneLosesCutoff(pool[..n], cutoff);
      if Keeps(pool[n], Some(cutoff)) {
        assert (kept + [pool[n]])[..|kept|] == kept;
      } else {
        assert Prune(pool, Some(cutoff)) == kept;
      }
    }
  }

  lemma {:induction false} CountAtZeroIff(pool: seq<Entry>, t: int)
    ensures CountAt(pool, t) == 0 <==> forall i :: 0 <= i < |pool| ==> pool[i].receivedAt != t
  {
    if pool != [] {
      var n := |pool| - 1;
      CountAtZeroIff(pool[..n], t);
      assert forall i :: 0 <= i < n ==> pool[..n][i] == pool[i];
      assert pool[n].receivedAt == t ==> CountAt(pool, t) > 0;
    }
  }

  /** Whether pruning at one instant shows in a selection at the same instant or later: the scan sees
      as many fresh entries and holds the same entry for each class, so the decision and the winner
      are the same, unless the two instants coincide and an entry stands exactly at the cutoff, which
      pruning drops and selection would still use. */
  lemma PruneVisibleIff(cfg: Config, pool: seq<Entry>, theta: int, t1: int, t2: int)
    requires cfg.poolTTL > 0 && t1 <= t2
    ensures var pruned := Prune(pool, Cutoff(cfg, t1));
            SameScan(BestScan(pool, theta, Cutoff(cfg, t2)), pool,
                     BestScan(pruned, theta, Cutoff(cfg, t2)), pruned)
            <==> (t1 < t2 || forall i :: 0 <= i < |pool| ==> pool[i].receivedAt != t1 - cfg.poolTTL)
  {
    var c1, c2 := t1 - cfg.poolTTL, t2 - cfg.poolTTL;
    if t1 < t2 || forall i :: 0 <= i < |pool| ==> pool[i].receivedAt != c1 {
      ScanIgnoresPruned(pool, theta, c1, c2);
    } else {
      PruneLosesCutoff(pool, c1);
      CountAtZeroIff(pool, c1);
      BestScanLeads(pool, theta, Some(c1));
      BestScanLeads(Prune(pool, Some(c1)), theta, Some(c1));
    }
  }

  /** Two entries exactly at the cutoff: pruning at an instant takes both, and the selection at the
      same instant, which would have chosen one of them, finds no pool. */
  lemma EntriesAtCutoff(cfg: Config, theta: int, t: int)
    requires cfg.poolTTL > 0
    ensures var e := Entry(0, 0, t - cfg.poolTTL, 0, 0, 1);
            var pool := [e, e.(id := 1)];
            && Decide(pool, theta, Cutoff(cfg, t)) == Chosen(0)
            && Decide(Prune(pool, Cutoff(cfg, t)), theta, Cutoff(cfg, t)) == NoPool
  {
    var e, c := Entry(0, 0, t - cfg.poolTTL, 0, 0, 1), Cutoff(cfg, t);
    var pool := [e, e.(id := 1)];
    assert pool[..1] == [e];
    assert Prune(pool[..1], c) == [] by { assert [e][..0] == []; }
    assert FreshCount(pool[..1], c) == 1 by { assert [e][..0] == []; }
    ScanFindsFirstBest(pool, theta, c);
    assert FirstBest(pool, 0, theta, c);
  }

  /** The same scan is the same decision on the same entry. */
  lemma SameScanSameDecision(a: seq<Entry>, b: seq<Entry>, theta: int, cutoff: Option<int>)
    requires SameScan(BestScan(a, theta, cutoff), a, BestScan(b, theta, cutoff), b)
    ensures var da, db := Decide(a, theta, cutoff), Decide(b, theta, cutoff);
            && (da.Chosen? <==> db.Chosen?)
            && (da.Chosen? ==> a[da.pos] == b[db.pos])
  {
    ScanFindsFirstBest(a, theta, cutoff);
    ScanFindsFirstBest(b, theta, cutoff);
  }
}
