/** The load balancer object with its fields, and the operations that update them in place. Each
    operation is proved to take the step of the machine in ProbePool, RifWindow or RoundRobin that
    the theorems there are about. Instants are parameters where the source reads the clock, and
    random draws are parameters where it draws. */
module LoadBalancer {
  import opened Basics
  import opened HotCold
  import opened Removal
  import opened ProbePool
  import opened PoolSlices
  import opened PoolSteps
  import opened Rings
  import RifWindow
  import RifDistribution
  import RoundRobin
  import SelectionRule

  datatype Algorithm = Prequal | RoundRobinOrder

  /** What a successful probe reports. */
  datatype ProbeResult = ProbeResult(timestamp: int, rif: Int32, latency: int)

  lemma BalancedDistinct(m: Machine, cfg: Config)
    requires Balanced(m, cfg)
    ensures DistinctIds(m.pool)
  {}

  lemma ShedNothing(pool: seq<Entry>, oldestNext: bool, n: nat, q: real)
    requires n == 0 || pool == []
    ensures ShedN(pool, oldestNext, n, q) == Shed(pool, oldestNext, [])
  {}

  lemma {:induction false} PruneWithoutCutoff(pool: seq<Entry>)
    ensures Prune(pool, None) == pool
  {
    hide Prune;
    if pool == [] {
      PruneNone(None);
    } else {
      var n := |pool| - 1;
      PruneWithoutCutoff(pool[..n]);
      PruneAppend(pool[..n], pool[n], None);
      assert pool == pool[..n] + [pool[n]];
    }
  }

  /** Different identities are different objects. */
  lemma IdentityIsId(es: seq<ProbePoolEntry>, w: nat)
    requires DistinctIds(Views(es)) && w < |es|
    ensures forall e :: e in es && e.id == es[w].id ==> e == es[w]
  {
    forall e | e in es && e.id == es[w].id ensures e == es[w] {
      var k :| 0 <= k < |es| && es[k] == e;
      assert Views(es)[k].id == Views(es)[w].id;
    }
  }

  lemma ShedStep(pool: seq<Entry>, oldestNext: bool, n: nat, q: real)
    requires n > 0 && pool != []
    ensures var rest := ShedN(if oldestNext then RemoveOldest(pool) else RemoveWorst(pool, q), !oldestNext, n - 1, q);
            && ShedN(pool, oldestNext, n, q).pool == rest.pool
            && ShedN(pool, oldestNext, n, q).oldestNext == rest.oldestNext
  {}

  /** One round of the removal loop. */
  method ShedOne(cur: Slice, oldest: bool, q: real) returns (next: Slice)
    requires cur.Valid()
    ensures next.Valid()
    ensures Views(next.Elements()) ==
            if oldest then RemoveOldest(Views(cur.Elements())) else RemoveWorst(Views(cur.Elements()), q)
    ensures forall e :: e in next.Elements() ==> e in cur.Elements()
  {
    if oldest {
      next := RemoveOldestEntry(cur);
    } else {
      next := RemoveWorstEntry(cur, q);
    }
  }

  function ServerOf(pool: seq<Entry>, d: Decision, servers: seq<nat>, draw: nat): Option<nat>
    requires d.Chosen? ==> d.pos < |pool|
    requires servers != [] ==> draw < |servers|
  {
    match d
    case NoPool => if servers == [] then None else Some(servers[draw])
    case Chosen(w) => Some(pool[w].server)
  }

  function PickClass(pool: seq<Entry>, d: Decision, theta: int): string
    requires d.Chosen? ==> d.pos < |pool|
  {
    match d
    case NoPool => "no-pool"
    case Chosen(w) => if Hot(pool[w], theta) then "hot" else "cold"
  }

  /** What a query at this threshold is answered and what is recorded of it. */
  function PickFrom(pool: seq<Entry>, theta: int, cutoff: Option<int>, servers: seq<nat>, draw: nat, now: int)
    : PickRecord
    requires servers != [] ==> draw < |servers|
  {
    var d := Decide(pool, theta, cutoff);
    PickRecord(now, ServerOf(pool, d, servers, draw), PickClass(pool, d, theta), theta, |pool|,
               FreshCount(pool, cutoff))
  }

  /** The answer to a query: the server of the first best fresh entry, or with fewer than two fresh
      entries the drawn server. */
  ghost predicate Answers(server: Option<nat>, pool: seq<Entry>, theta: int, cutoff: Option<int>, servers: seq<nat>,
                          draw: nat)
    requires servers != [] ==> draw < |servers|
  {
    && (FreshCount(pool, cutoff) < 2 ==> server == if servers == [] then None else Some(servers[draw]))
    && (FreshCount(pool, cutoff) >= 2 ==>
          forall w: nat :: FirstBest(pool, w, theta, cutoff) ==> server == Some(pool[w].server))
  }

  /** The answer is the one the ledger's last record speaks of. */
  ghost predicate AgreesWithLog(server: Option<nat>, log: seq<Record>, servers: seq<nat>, draw: nat)
    requires servers != [] ==> draw < |servers|
  {
    && log != []
    && match log[|log| - 1]
       case Picked(_, s) => server == Some(s)
       case FellBack => server == if servers == [] then None else Some(servers[draw])
       case Inserted(_, _, _, _) => false
  }

  /** The record of a pick: what was chosen and from what. */
  ghost predicate Describes(rec: PickRecord, server: Option<nat>, pool: seq<Entry>, theta: int, cutoff: Option<int>,
                            now: int)
  {
    && rec.time == now && rec.winner == server && rec.threshold == theta
    && rec.poolSize == |pool| && rec.eligible == FreshCount(pool, cutoff)
    && (FreshCount(pool, cutoff) < 2 ==> rec.cls == "no-pool")
    && (FreshCount(pool, cutoff) >= 2 ==>
          forall w: nat :: FirstBest(pool, w, theta, cutoff) ==>
            rec.cls == if pool[w].rif > theta then "hot" else "cold")
  }

  lemma PickFromMeaning(pool: seq<Entry>, theta: int, cutoff: Option<int>, servers: seq<nat>, draw: nat, now: int)
    requires servers != [] ==> draw < |servers|
    ensures var pick := PickFrom(pool, theta, cutoff, servers, draw, now);
            && Answers(pick.winner, pool, theta, cutoff, servers, draw)
            && Describes(pick, pick.winner, pool, theta, cutoff, now)
  {
    var d := Decide(pool, theta, cutoff);
    forall w: nat | d.Chosen? && FirstBest(pool, w, theta, cutoff) ensures w == d.pos {
      FirstBestUnique(pool, w, d.pos, theta, cutoff);
    }
  }

  lemma AnswersAgree(server: Option<nat>, s: Machine, cfg: Config, theta: int, now: int, s': Machine,
                     servers: seq<nat>, draw: nat)
    requires servers != [] ==> draw < |servers|
    requires Answers(server, s.pool, theta, Cutoff(cfg, now), servers, draw) && Serves(s, cfg, theta, now, s')
    ensures AgreesWithLog(server, s'.log, servers, draw)
  {
    hide FirstBest, FreshCount, HandsOut;
  }

  /** All of it, for the query that follows from a balanced machine. */
  lemma SelectMeaning(m: Machine, cfg: Config, theta: int, now: int, servers: seq<nat>, draw: nat, nowPick: int)
    requires DebtValid(m.remover) && Balanced(m, cfg) && (servers != [] ==> draw < |servers|)
    ensures var s, m' := Shrink(m, cfg), Select(m, cfg, theta, now);
            var pick := PickFrom(s.pool, theta, Cutoff(cfg, now), servers, draw, nowPick);
            && AsksThrough(m, cfg, theta, now, s, m')
            && Answers(pick.winner, s.pool, theta, Cutoff(cfg, now), servers, draw)
            && Describes(pick, pick.winner, s.pool, theta, Cutoff(cfg, now), nowPick)
            && AgreesWithLog(pick.winner, m'.log, servers, draw)
  {
    hide Balanced, RemovesDue, Serves, Answers, Describes, Shrink, Select, PickFrom;
    SelectAsks(m, cfg, theta, now);
    var s := Shrink(m, cfg);
    PickFromMeaning(s.pool, theta, Cutoff(cfg, now), servers, draw, nowPick);
    AnswersAgree(PickFrom(s.pool, theta, Cutoff(cfg, now), servers, draw, nowPick).winner, s, cfg, theta, now,
                 Select(m, cfg, theta, now), servers, draw);
  }

  class LoadBalancer {
    const algorithm: Algorithm
    const cfg: Config
    const enablePickLog: bool
    var servers: seq<nat>
    var pool: Slice
    var removeDebt: real
    var removeAltOldest: bool
    var rrIndex: nat
    const picks: RecentPicks
    const rifDist: RifDistribution.RIFDistribution
    ghost var nextId: nat
    ghost var log: seq<Record>

    /** The ledger of ProbePool balances at all times: in particular the pool is within its capacity
        and its entries have uses left. */
    ghost predicate Valid()
      reads this, pool.arr, pool.arr[..], picks, picks.slots, rifDist, rifDist.buf
    {
      && pool.Valid()
      && Balanced(Model(), cfg)
      && 0.0 <= removeDebt < 1.0
      && rrIndex < RoundRobin.TWO32
      && picks.Valid() && rifDist.Valid()
    }

    ghost function Model(): Machine
      reads this, pool.arr, pool.arr[..]
      requires pool.Valid()
    {
      Machine(Views(pool.Elements()), Remover(removeDebt, removeAltOldest), nextId, log)
    }

    constructor (algorithm: Algorithm, cfg: Config, enablePickLog: bool, rifWindow: int)
      ensures Valid() && fresh(pool.arr) && fresh(picks) && fresh(picks.slots) && fresh(rifDist) && fresh(rifDist.buf)
      ensures this.algorithm == algorithm && this.cfg == cfg && this.enablePickLog == enablePickLog
      ensures Model() == START && servers == [] && rrIndex == 0 && picks.log == []
      ensures rifDist.Model() == RifWindow.Distribution([], None)
      ensures rifDist.maxAge == if rifWindow <= 0 then cfg.poolTTL else rifWindow
    {
      this.algorithm, this.cfg, this.enablePickLog := algorithm, cfg, enablePickLog;
      var window := if rifWindow <= 0 then cfg.poolTTL else rifWindow;
      servers := [];
      rifDist := new RifDistribution.RIFDistribution(window);
      picks := new RecentPicks();
      removeDebt, removeAltOldest, rrIndex := 0.0, false, 0;
      nextId, log := 0, [];
      var empty := FreshSlice([]);
      pool := empty;
    }

    method AddServer(server: nat)
      requires Valid()
      modifies this`servers
      ensures Valid() && Model() == old(Model()) && servers == old(servers) + [server]
    {
      servers := servers + [server];
    }

    // -------------------------------------------------------------------------------------------
    // Probe results

    /** A failed probe changes nothing; a successful one inserts an entry and is observed. */
    method HandleProbeResult(srv: nat, result: Option<ProbeResult>, now: int, draw: real)
      requires Valid()
      modifies this`pool, this`nextId, this`log, rifDist, rifDist.buf
      ensures Valid()
      ensures result.None? ==> Model() == old(Model()) && rifDist.Model() == old(rifDist.Model())
      ensures result.Some? ==>
                && Model() == InsertProbe(old(Model()), cfg, srv, result.value.rif, result.value.latency,
                                          result.value.timestamp, now, ReuseBudget(cfg, |servers|, draw))
                && rifDist.Model() == RifWindow.Observe(old(rifDist.Model()), result.value.rif, result.value.timestamp)
      ensures result.Some? ==>
                Inserts(old(Model()), cfg,
                        Entry(old(nextId), srv, result.value.timestamp, result.value.rif, result.value.latency,
                              ReuseBudget(cfg, |servers|, draw)),
                        now, Model())
    {
      hide Balanced, InsertProbe, Inserts, Summarises, RifDistribution.IsHistogram;
      if result.None? {
        return;
      }
      var r := result.value;
      BalancedIsDistinct(Model(), cfg);
      InsertProbeInserts(Model(), cfg, srv, r.rif, r.latency, r.timestamp, now, ReuseBudget(cfg, |servers|, draw));
      var entry := new ProbePoolEntry(nextId, srv, r.timestamp, r.rif, r.latency, ReuseBudget(cfg, |servers|, draw));
      InsertEntry(entry, now);
      rifDist.Observe(r.rif, r.timestamp);
    }

    /** The part of it under the write lock. */
    method InsertEntry(entry: ProbePoolEntry, now: int)
      requires Valid() && entry.id == nextId && 1 <= entry.remainingUses <= MaxBudget(cfg)
      modifies this`pool, this`nextId, this`log
      ensures Valid()
      ensures Model() == InsertProbe(old(Model()), cfg, entry.server, entry.rif, entry.latency, entry.receivedAt,
                                     now, entry.remainingUses)
    {
      hide Balanced, AppendPool, Prune;
      InsertBalanced(Model(), cfg, entry.server, entry.rif, entry.latency, entry.receivedAt, now, entry.remainingUses);
      var next := PoolWith(entry, now);
      log := log + [Inserted(nextId, entry.server, entry.rif, entry.remainingUses)];
      nextId := nextId + 1;
      pool := next;
    }

    /** The pruned pool with the entry appended, in a fresh array. */
    method PoolWith(entry: ProbePoolEntry, now: int) returns (next: Slice)
      requires pool.Valid()
      ensures next.Valid() && fresh(next.arr)
      ensures Views(next.Elements()) ==
              AppendPool(Prune(Views(pool.Elements()), Cutoff(cfg, now)), entry.View(), cfg.poolCap)
    {
      hide AppendPool, Prune;
      var cur := PrunedPool(now);
      next := AppendEntry(cur, entry, cfg.poolCap);
      ViewsOfAppend(cur.Elements(), entry, cfg.poolCap);
    }

    method PrunedPool(now: int) returns (cur: Slice)
      requires pool.Valid()
      ensures cur.Valid()
      ensures Views(cur.Elements()) == Prune(Views(pool.Elements()), Cutoff(cfg, now))
    {
      hide Prune;
      cur := pool;
      if cfg.poolTTL > 0 && cur.Len() > 0 {
        cur := PruneEntries(cur, now - cfg.poolTTL);
      } else if cfg.poolTTL > 0 {
        assert Views(cur.Elements()) == [];
        PruneNone(Cutoff(cfg, now));
      } else {
        PruneWithoutCutoff(Views(cur.Elements()));
      }
    }

    // -------------------------------------------------------------------------------------------
    // Removal

    /** The whole removals that are due; their debt is spent whether or not anything can be removed. */
    method Accrue() returns (n: nat)
      requires 0.0 <= removeDebt < 1.0 && cfg.rRemove > 0.0
      modifies this`removeDebt
      ensures n == Demand(Remover(old(removeDebt), removeAltOldest), cfg.rRemove)
      ensures 0.0 <= removeDebt < 1.0 && removeDebt == old(removeDebt) + cfg.rRemove - n as real
    {
      removeDebt := removeDebt + cfg.rRemove;
      n := Trunc(removeDebt);
      removeDebt := removeDebt - n as real;
    }

    method ApplyRRemove()
      requires Valid()
      modifies this`pool, this`removeDebt, this`removeAltOldest
      ensures Valid()
      ensures Model() == Shrink(old(Model()), cfg) && RemovesDue(old(Model()), cfg, Model())
      ensures forall e :: e in pool.Elements() ==> e in old(pool.Elements())
    {
      hide Balanced, ShedN, Demand, Summarises, RifDistribution.IsHistogram, RemovesDue;
      ShrinkRemovesDue(Model(), cfg);
      ShrinkBalanced(Model(), cfg);
      if cfg.rRemove <= 0.0 {
        return;
      }
      ghost var before := Model();
      var n := Accrue();
      if n == 0 || pool.Len() == 0 {
        ShedNothing(before.pool, removeAltOldest, n, cfg.qrif);
        return;
      }
      var next, oldestNext := ShedEntries(n);
      pool, removeAltOldest := next, oldestNext;
    }

    /** The removal loop on a copy of the published list. */
    method ShedEntries(n: nat) returns (next: Slice, oldestNext: bool)
      requires pool.Valid()
      ensures next.Valid()
      ensures var shed := ShedN(Views(pool.Elements()), removeAltOldest, n, cfg.qrif);
              Views(next.Elements()) == shed.pool && oldestNext == shed.oldestNext
      ensures forall e :: e in next.Elements() ==> e in pool.Elements()
    {
      hide ShedN, RemoveWorst, RemoveOldest;
      next := FreshSlice(pool.arr[pool.lo..pool.hi]);
      oldestNext := removeAltOldest;
      ghost var all := ShedN(Views(pool.Elements()), removeAltOldest, n, cfg.qrif);
      var i := 0;
      while i < n && next.Len() > 0
        invariant 0 <= i <= n && next.Valid()
        invariant var rest := ShedN(Views(next.Elements()), oldestNext, n - i, cfg.qrif);
                  rest.pool == all.pool && rest.oldestNext == all.oldestNext
        invariant forall e :: e in next.Elements() ==> e in pool.Elements()
      {
        ShedStep(Views(next.Elements()), oldestNext, n - i, cfg.qrif);
        next := ShedOne(next, oldestNext, cfg.qrif);
        oldestNext := !oldestNext;
        i := i + 1;
      }
      ShedNothing(Views(next.Elements()), oldestNext, n - i, cfg.qrif);
    }

    // -------------------------------------------------------------------------------------------
    // Selection

    /** Bumps the server's pooled entries and spends a use of the chosen one, which leaves the pool when
        it has none left, unless it has left before. */
    method ConsumeEntry(used: ProbePoolEntry)
      requires pool.Valid() && DistinctIds(Views(pool.Elements()))
      requires forall e :: e in pool.Elements() && e.id == used.id ==> e == used
      modifies this`pool, pool.Elements(), used
      ensures pool.Valid()
      ensures Views(pool.Elements()) == ConsumeUsed(old(Views(pool.Elements())), old(used.View()))
      ensures used.remainingUses == old(used.remainingUses) - 1
      ensures forall e :: e in pool.Elements() ==> e in old(pool.Elements())
    {
      hide SpendId, BumpServer, Without;
      SpendEntry(used);
      if used.remainingUses > 0 {
        return;
      }
      var next := DropEntry(pool, used);
      WithoutNothing(Views(pool.Elements()), used.id);
      if next.Len() != pool.Len() {
        pool := next;
      }
    }

    /** The counters: the server's entries bumped, the chosen entry decremented. */
    method SpendEntry(used: ProbePoolEntry)
      requires pool.Valid() && DistinctIds(Views(pool.Elements()))
      requires forall e :: e in pool.Elements() && e.id == used.id ==> e == used
      modifies pool.Elements(), used
      ensures Views(pool.Elements()) == SpendId(BumpServer(old(Views(pool.Elements())), used.server), used.id)
      ensures used.remainingUses == old(used.remainingUses) - 1
    {
      BumpEntries(used.server);
      used.remainingUses := used.remainingUses - 1;
    }

    method BumpEntries(server: nat)
      requires pool.Valid() && DistinctIds(Views(pool.Elements()))
      modifies pool.Elements()
      ensures Views(pool.Elements()) == BumpServer(old(Views(pool.Elements())), server)
      ensures forall e :: e in pool.Elements() ==> e.remainingUses == old(e.remainingUses)
    {
      ghost var es, views := pool.Elements(), Views(pool.Elements());
      for i := 0 to pool.Len()
        invariant pool.Elements() == es
        invariant forall k :: 0 <= k < i ==> es[k].View() == BumpServer(views, server)[k]
        invariant forall k :: i <= k < |es| ==> es[k].View() == views[k]
        invariant forall e :: e in es ==> e.remainingUses == old(e.remainingUses)
      {
        var e := pool.At(i);
        if e.server == server {
          e.rif := e.rif + 1;
        }
      }
    }

    /** The selection loop over the published list. */
    method FindWinner(theta: int, now: int) returns (winner: nat, hot: bool, eligible: nat)
      requires pool.Valid()
      ensures eligible == FreshCount(Views(pool.Elements()), Cutoff(cfg, now))
      ensures Decide(Views(pool.Elements()), theta, Cutoff(cfg, now)) ==
              if eligible < 2 then NoPool else Chosen(winner)
      ensures eligible >= 2 ==> winner < |pool.Elements()| && hot == Hot(pool.Elements()[winner].View(), theta)
    {
      hide FirstBest, FreshCount;
      ghost var views, cutoff := Views(pool.Elements()), Cutoff(cfg, now);
      var bestHot, bestCold, bestHotRif, bestColdLatency := -1, -1, 0, 0;
      eligible := 0;
      for i := 0 to pool.Len()
        invariant -1 <= bestHot < i && -1 <= bestCold < i
        invariant BestScan(views[..i], theta, cutoff) ==
                  Scan(eligible, AsCandidate(bestHot, bestHotRif), AsCandidate(bestCold, bestColdLatency))
      {
        var e := pool.At(i);
        assert views[..i + 1][..i] == views[..i] && views[..i + 1][i] == e.View();
        if cfg.poolTTL > 0 && e.receivedAt < now - cfg.poolTTL {
          continue;
        }
        eligible := eligible + 1;
        if e.rif > theta {
          if bestHot == -1 || e.rif < bestHotRif {
            bestHot, bestHotRif := i, e.rif;
          }
        } else {
          if bestCold == -1 || e.latency < bestColdLatency {
            bestCold, bestColdLatency := i, e.latency;
          }
        }
      }
      assert views[..pool.Len()] == views;
      ScanFindsFirstBest(views, theta, cutoff);
      BestScanLeads(views, theta, cutoff);
      hot := bestCold == -1;
      winner := if !hot then bestCold else if bestHot != -1 then bestHot else 0;
    }

    method RandomServer(draw: nat) returns (server: Option<nat>)
      requires servers != [] ==> draw < |servers|
      ensures server == ServerOf([], NoPool, servers, draw)
    {
      server := if servers == [] then None else Some(servers[draw]);
    }

    /** A fallback leaves the pool alone. */
    method FallBack()
      requires Valid()
      modifies this`log
      ensures Valid() && Model() == Take(old(Model()), NoPool)
    {
      hide Balanced;
      FallBackBalanced(Model(), cfg);
      log := log + [FellBack];
    }

    method HandOut(w: nat)
      requires Valid() && w < |pool.Elements()|
      modifies this`pool, this`log, pool.Elements()
      ensures Valid() && Model() == Take(old(Model()), Chosen(w))
    {
      hide Balanced, Consume, ConsumeUsed;
      TakeBalanced(Model(), cfg, Chosen(w));
      var used := pool.At(w);
      ghost var picked := Picked(used.id, used.server);
      BalancedDistinct(Model(), cfg);
      IdentityIsId(pool.Elements(), w);
      ConsumeUsedMeaning(Views(pool.Elements()), used.View());
      ConsumeEntry(used);
      log := log + [picked];
    }

    method RecordPick(rec: PickRecord)
      requires picks.Valid()
      modifies picks, picks.slots
      ensures picks.Valid() && picks.log == old(picks.log) + if enablePickLog then [rec] else []
    {
      if enablePickLog {
        picks.Record(rec);
      }
    }

    /** The choice at a given threshold and the counters. */
    method Choose(theta: int, now: int, draw: nat) returns (server: Option<nat>, cls: string, eligible: nat)
      requires Valid() && (servers != [] ==> draw < |servers|)
      modifies this`pool, this`log, pool.Elements()
      ensures Valid()
      ensures var m, cutoff := old(Model()), Cutoff(cfg, now);
              var d := Decide(m.pool, theta, cutoff);
              && Model() == Take(m, d)
              && server == ServerOf(m.pool, d, servers, draw)
              && cls == PickClass(m.pool, d, theta)
              && eligible == FreshCount(m.pool, cutoff)
    {
      hide Balanced, FreshCount, Take, Decide;
      var winner, hot;
      winner, hot, eligible := FindWinner(theta, now);
      if eligible < 2 {
        cls := "no-pool";
        server := RandomServer(draw);
        FallBack();
      } else {
        cls := if hot then "hot" else "cold";
        server := Some(pool.At(winner).server);
        HandOut(winner);
      }
    }

    /** The second half of a selection: the choice, and the log of picks. */
    method Serve(theta: int, nowCutoff: int, nowPick: int, draw: nat) returns (server: Option<nat>)
      requires Valid() && (servers != [] ==> draw < |servers|)
      modifies this`pool, this`log, pool.Elements(), picks, picks.slots
      ensures Valid()
      ensures Model() == Take(old(Model()), Decide(old(Model()).pool, theta, Cutoff(cfg, nowCutoff)))
      ensures var pick := PickFrom(old(Model()).pool, theta, Cutoff(cfg, nowCutoff), servers, draw, nowPick);
              server == pick.winner && picks.log == old(picks.log) + if enablePickLog then [pick] else []
    {
      hide Balanced, FreshCount, Take, Decide, ServerOf, PickClass, Summarises, Views, RifDistribution.IsHistogram;
      var poolSize := pool.Len();
      ViewsSize(pool.Elements());
      var cls, eligible;
      server, cls, eligible := Choose(theta, nowCutoff, draw);
      RecordPick(PickRecord(nowPick, server, cls, theta, poolSize, eligible));
    }

    /** The hot threshold a query at this instant uses. */
    ghost function ThresholdAt(now: int): int
      reads this, rifDist, rifDist.buf
      requires rifDist.Valid()
    {
      SelectionRule.HotThreshold(RifWindow.Query(rifDist.Model(), rifDist.maxAge, cfg.qrif, now).1)
    }

    method HotThreshold(now: int) returns (theta: int)
      requires rifDist.Valid()
      modifies rifDist, rifDist.buf
      ensures rifDist.Valid() && rifDist.buf == old(rifDist.buf) && theta == old(ThresholdAt(now))
      ensures rifDist.Model() == RifWindow.Query(old(rifDist.Model()), rifDist.maxAge, cfg.qrif, now).0
    {
      var answer := rifDist.Quantile(cfg.qrif, now);
      theta := if answer.valid then answer.theta else -1;
    }

    /** The first half of a selection: due removals, then the threshold. */
    method Prepare(now: int) returns (theta: int)
      requires Valid()
      modifies this`pool, this`removeDebt, this`removeAltOldest, rifDist, rifDist.buf
      ensures Valid() && rifDist.buf == old(rifDist.buf)
      ensures Model() == Shrink(old(Model()), cfg) && theta == old(ThresholdAt(now))
      ensures rifDist.Model() == RifWindow.Query(old(rifDist.Model()), rifDist.maxAge, cfg.qrif, now).0
      ensures forall i :: 0 <= i < |pool.Elements()| ==> pool.Elements()[i] in old(pool.Elements())
    {
      hide Balanced, Shrink, RifWindow.Query, Summarises, RifDistribution.IsHistogram;
      ApplyRRemove();
      theta := HotThreshold(now);
    }

    /** The server of a query: hot-cold choice over the fresh pooled entries, at the threshold of the
        RIF distribution (-1 when it has no answer); with fewer than two of them, a random server.
        The instants are those of the threshold, of the expiry test and of the log entry. */
    method SelectServerPrequal(nowTheta: int, nowCutoff: int, nowPick: int, draw: nat)
      returns (server: Option<nat>)
      requires Valid() && (servers != [] ==> draw < |servers|)
      modifies this`pool, this`removeDebt, this`removeAltOldest, this`log, pool.Elements(), rifDist, rifDist.buf,
               picks, picks.slots
      ensures Valid()
      ensures Model() == Select(old(Model()), cfg, old(ThresholdAt(nowTheta)), nowCutoff)
      ensures rifDist.Model() == RifWindow.Query(old(rifDist.Model()), rifDist.maxAge, cfg.qrif, nowTheta).0
      ensures var pick := PickFrom(Shrink(old(Model()), cfg).pool, old(ThresholdAt(nowTheta)),
                                   Cutoff(cfg, nowCutoff), servers, draw, nowPick);
              && server == pick.winner && picks.log == old(picks.log) + (if enablePickLog then [pick] else [])
              && Describes(pick, server, Shrink(old(Model()), cfg).pool, old(ThresholdAt(nowTheta)),
                           Cutoff(cfg, nowCutoff), nowPick)
      ensures AsksThrough(old(Model()), cfg, old(ThresholdAt(nowTheta)), nowCutoff, Shrink(old(Model()), cfg), Model())
      ensures Answers(server, Shrink(old(Model()), cfg).pool, old(ThresholdAt(nowTheta)), Cutoff(cfg, nowCutoff),
                      servers, draw)
      ensures AgreesWithLog(server, log, servers, draw)
    {
      hide Balanced, Shrink, Take, Decide, PickFrom, RifWindow.Query;
      hide Summarises, RifDistribution.IsHistogram, RemovesDue, Serves, Answers, Describes, AgreesWithLog;
      SelectMeaning(Model(), cfg, ThresholdAt(nowTheta), nowCutoff, servers, draw, nowPick);
      var theta := Prepare(nowTheta);
      server := Serve(theta, nowCutoff, nowPick, draw);
    }

    // -------------------------------------------------------------------------------------------
    // Round robin, and the choice between the two

    method SelectServerRR() returns (server: Option<nat>)
      requires Valid()
      modifies this`rrIndex
      ensures Valid() && Model() == old(Model())
      ensures servers == [] ==> server == None && rrIndex == old(rrIndex)
      ensures servers != [] ==>
                && server == Some(servers[RoundRobin.PickAt(old(rrIndex), 0, |servers|)])
                && server == Some(servers[old(rrIndex) % |servers|])
                && rrIndex == RoundRobin.CounterAt(old(rrIndex), 1) == (old(rrIndex) + 1) % 0x1_0000_0000
    {
      hide Balanced;
      if servers == [] {
        return None;
      }
      RoundRobin.OnePick(rrIndex, |servers|);
      rrIndex := RoundRobin.Advance(rrIndex);
      server := Some(servers[RoundRobin.Previous(rrIndex) % |servers|]);
    }

    /** Every query is answered as soon as there is a server. */
    method SelectServer(nowTheta: int, nowCutoff: int, nowPick: int, draw: nat) returns (server: Option<nat>)
      requires Valid() && (servers != [] ==> draw < |servers|)
      modifies this`pool, this`removeDebt, this`removeAltOldest, this`log, this`rrIndex, pool.Elements(), rifDist,
               rifDist.buf, picks, picks.slots
      ensures Valid()
      ensures algorithm == RoundRobinOrder ==>
                && Model() == old(Model()) && rifDist.Model() == old(rifDist.Model()) && picks.log == old(picks.log)
                && server == (if servers == [] then None
                              else Some(servers[RoundRobin.PickAt(old(rrIndex), 0, |servers|)]))
                && rrIndex == RoundRobin.CounterAt(old(rrIndex), if servers == [] then 0 else 1)
      ensures algorithm == Prequal ==>
                var theta, m := old(ThresholdAt(nowTheta)), old(Model());
                var pick := PickFrom(Shrink(m, cfg).pool, theta, Cutoff(cfg, nowCutoff), servers, draw, nowPick);
                && rrIndex == old(rrIndex)
                && Model() == Select(m, cfg, theta, nowCutoff)
                && rifDist.Model() == RifWindow.Query(old(rifDist.Model()), rifDist.maxAge, cfg.qrif, nowTheta).0
                && server == pick.winner
                && picks.log == old(picks.log) + (if enablePickLog then [pick] else [])
                && Describes(pick, server, Shrink(m, cfg).pool, theta, Cutoff(cfg, nowCutoff), nowPick)
                && AsksThrough(m, cfg, theta, nowCutoff, Shrink(m, cfg), Model())
                && Answers(server, Shrink(m, cfg).pool, theta, Cutoff(cfg, nowCutoff), servers, draw)
                && AgreesWithLog(server, log, servers, draw)
      ensures server.None? ==> servers == []
    {
      hide Balanced, Shrink, Take, Decide, FreshCount, RemovesDue, Serves, Answers, Describes, AgreesWithLog;
      if algorithm == RoundRobinOrder {
        server := SelectServerRR();
      } else {
        server := SelectServerPrequal(nowTheta, nowCutoff, nowPick, draw);
      }
    }
  }
}
