/** What one probe result or one query does to the pool, said entry by entry and without the functions
    that compute it; and that every step of every run of the machine does exactly that. */
module PoolSteps {
  import opened Basics
  import opened HotCold
  import opened Removal
  import opened Subsequences
  import opened ProbePool

  // ---------------------------------------------------------------------------------------------
  // Expiry

  /** With a lifetime, insertion keeps what was received after the cutoff and selection uses what was
      received at it as well; without one, both take everything. */
  lemma CutoffMeaning(cfg: Config, now: int, e: Entry)
    ensures Keeps(e, Cutoff(cfg, now)) <==> (cfg.poolTTL > 0 ==> e.receivedAt > now - cfg.poolTTL)
    ensures Fresh(e, Cutoff(cfg, now)) <==> (cfg.poolTTL > 0 ==> e.receivedAt >= now - cfg.poolTTL)
  {}

  // ---------------------------------------------------------------------------------------------
  // A query hands out an entry

  /** What becomes of entry i when entry w is handed out. */
  function Touched(before: seq<Entry>, w: nat, i: nat): Entry
    requires w < |before| && i < |before|
  {
    before[i].(rif := before[i].rif + (if before[i].server == before[w].server then 1 else 0),
               uses := before[i].uses - (if i == w then 1 else 0))
  }

  /** All entries of w's server count one more request in flight, only w loses a use, and only w goes,
      when that was its last. */
  ghost predicate HandsOut(before: seq<Entry>, w: nat, after: seq<Entry>)
    requires w < |before|
  {
    if before[w].uses > 1 then
      && |after| == |before|
      && forall i :: 0 <= i < |before| ==> after[i] == Touched(before, w, i)
    else
      && |after| == |before| - 1
      && (forall i :: 0 <= i < w ==> after[i] == Touched(before, w, i))
      && (forall i :: w < i < |before| ==> after[i - 1] == Touched(before, w, i))
  }

  lemma ConsumeHandsOut(pool: seq<Entry>, w: nat)
    requires DistinctIds(pool) && w < |pool|
    ensures HandsOut(pool, w, Consume(pool, w))
  {
    hide Touched, Without, DistinctIds;
    SpentIsTouched(pool, w);
    var spent := Spend(BumpServer(pool, pool[w].server), w);
    if spent[w].uses <= 0 {
      WithoutIsDelete(spent, w);
      assert Delete(spent, w) == spent[..w] + spent[w + 1..];
    }
  }

  lemma SpentIsTouched(pool: seq<Entry>, w: nat)
    requires DistinctIds(pool) && w < |pool|
    ensures var spent := Spend(BumpServer(pool, pool[w].server), w);
            && |spent| == |pool| && DistinctIds(spent) && spent[w].id == pool[w].id
            && spent[w].uses == pool[w].uses - 1
            && forall i :: 0 <= i < |pool| ==> spent[i] == Touched(pool, w, i)
  {}

  /** The machine after a query's removals, and after its choice. */
  ghost predicate Serves(s: Machine, cfg: Config, theta: int, now: int, s': Machine) {
    var c := Cutoff(cfg, now);
    && s'.remover == s.remover && s'.nextId == s.nextId
    && (FreshCount(s.pool, c) < 2 ==> s'.pool == s.pool && s'.log == s.log + [FellBack])
    && (FreshCount(s.pool, c) >= 2 ==>
          exists w: nat ::
            && FirstBest(s.pool, w, theta, c)
            && HandsOut(s.pool, w, s'.pool)
            && s'.log == s.log + [Picked(s.pool[w].id, s.pool[w].server)])
  }

  lemma TakeServes(s: Machine, cfg: Config, theta: int, now: int)
    requires DistinctIds(s.pool)
    ensures Serves(s, cfg, theta, now, Take(s, Decide(s.pool, theta, Cutoff(cfg, now))))
  {
    hide FirstBest, FreshCount, Consume, HandsOut;
    var d := Decide(s.pool, theta, Cutoff(cfg, now));
    if d.Chosen? {
      DecidedIsPooled(s.pool, theta, Cutoff(cfg, now));
      ConsumeHandsOut(s.pool, d.pos);
    }
  }

  lemma DecidedIsPooled(pool: seq<Entry>, theta: int, c: Option<int>)
    ensures var d := Decide(pool, theta, c); d.Chosen? ==> d.pos < |pool|
  {}

  // ---------------------------------------------------------------------------------------------
  // The removals due

  /** One removal: the first entry, or the first maximum of the preorder at the pool's own quantile. */
  ghost predicate Round(before: seq<Entry>, oldest: bool, q: real, after: seq<Entry>) {
    && before != []
    && (if oldest then after == before[1..] else exists v: nat :: TakesWorst(before, v, q, after))
  }

  ghost predicate TakesWorst(before: seq<Entry>, v: nat, q: real, after: seq<Entry>)
    requires before != []
  {
    FirstWorst(before, v, Threshold(before, q)) && after == before[..v] + before[v + 1..]
  }

  /** Whose turn it is after k removals. */
  function TurnAfter(oldest: bool, k: nat): bool {
    if k == 0 then oldest else !TurnAfter(oldest, k - 1)
  }

  /** A pool taken down one removal at a time, the turn changing with each. */
  ghost predicate Rounds(ps: seq<seq<Entry>>, oldest: bool, q: real) {
    forall k :: 0 <= k < |ps| - 1 ==> Round(ps[k], TurnAfter(oldest, k), q, ps[k + 1])
  }

  ghost predicate TakesDown(before: seq<Entry>, oldest: bool, q: real, n: nat, after: seq<Entry>) {
    exists ps: seq<seq<Entry>> :: TakesDownBy(before, oldest, q, n, after, ps)
  }

  ghost predicate TakesDownBy(before: seq<Entry>, oldest: bool, q: real, n: nat, after: seq<Entry>,
                              ps: seq<seq<Entry>>)
  {
    && |ps| == n + 1 && ps[0] == before && ps[n] == after
    && Rounds(ps, oldest, q)
  }

  lemma {:induction false} TurnShifts(oldest: bool, k: nat)
    ensures TurnAfter(!oldest, k) == TurnAfter(oldest, k + 1)
  {
    if k > 0 { TurnShifts(oldest, k - 1); }
  }

  lemma TakesOneMore(first: seq<Entry>, before: seq<Entry>, oldest: bool, q: real, n: nat, after: seq<Entry>)
    requires Round(first, oldest, q, before) && TakesDown(before, !oldest, q, n, after)
    ensures TakesDown(first, oldest, q, n + 1, after)
  {
    hide Round;
    var ps :| TakesDownBy(before, !oldest, q, n, after, ps);
    var qs := [first] + ps;
    forall k | 0 <= k < |qs| - 1 ensures Round(qs[k], TurnAfter(oldest, k), q, qs[k + 1]) {
      if k > 0 {
        TurnShifts(oldest, k - 1);
        assert Round(ps[k - 1], TurnAfter(!oldest, k - 1), q, ps[k]);
      }
    }
    assert TakesDownBy(first, oldest, q, n + 1, after, qs);
  }

  lemma RoundTaken(pool: seq<Entry>, oldest: bool, q: real)
    requires pool != []
    ensures var rest := if oldest then RemoveOldest(pool) else RemoveWorst(pool, q);
            Round(pool, oldest, q, rest) && |rest| == |pool| - 1
  {
    if !oldest {
      var v := RemoveWorstDeletesFirstWorst(pool, q);
      assert TakesWorst(pool, v, q, RemoveWorst(pool, q));
    }
  }

  function AtMostSize(n: nat, size: nat): nat { if n <= size then n else size }

  lemma {:induction false} ShedTakesDown(pool: seq<Entry>, oldest: bool, n: nat, q: real)
    ensures var s, k := ShedN(pool, oldest, n, q), AtMostSize(n, |pool|);
            && TakesDown(pool, oldest, q, k, s.pool)
            && s.oldestNext == TurnAfter(oldest, k)
            && |s.pool| == |pool| - k
    decreases n
  {
    hide TakesDown, Round, RemoveWorst, RemoveOldest;
    if n == 0 || pool == [] {
      NothingTakenDown(pool, oldest, q);
    } else {
      var shorter := if oldest then RemoveOldest(pool) else RemoveWorst(pool, q);
      RoundTaken(pool, oldest, q);
      ShedTakesDown(shorter, !oldest, n - 1, q);
      TakesOneMore(pool, shorter, oldest, q, AtMostSize(n - 1, |shorter|), ShedN(shorter, !oldest, n - 1, q).pool);
      TurnShifts(oldest, AtMostSize(n - 1, |shorter|));
    }
  }

  lemma NothingTakenDown(pool: seq<Entry>, oldest: bool, q: real)
    ensures TakesDown(pool, oldest, q, 0, pool)
  {
    assert TakesDownBy(pool, oldest, q, 0, pool, [pool]);
  }

  /** What a query removes first: nothing without a removal rate; otherwise the whole part of the debt
      is due, as much of it as the pool has is taken down, and the fraction stays owed. */
  ghost predicate RemovesDue(m: Machine, cfg: Config, s: Machine) {
    && s.nextId == m.nextId && s.log == m.log
    && (cfg.rRemove <= 0.0 ==> s.pool == m.pool && s.remover == m.remover)
    && (cfg.rRemove > 0.0 ==>
          var due := (m.remover.debt + cfg.rRemove).Floor;
          var k := if due <= |m.pool| then due else |m.pool|;
          && due >= 0
          && s.remover.debt == m.remover.debt + cfg.rRemove - due as real
          && s.remover.oldestNext == TurnAfter(m.remover.oldestNext, k)
          && |s.pool| == |m.pool| - k
          && TakesDown(m.pool, m.remover.oldestNext, cfg.qrif, k, s.pool))
  }

  lemma ShrinkRemovesDue(m: Machine, cfg: Config)
    requires DebtValid(m.remover)
    ensures RemovesDue(m, cfg, Shrink(m, cfg))
  {
    hide TakesDown;
    if cfg.rRemove > 0.0 {
      ShedTakesDown(m.pool, m.remover.oldestNext, Demand(m.remover, cfg.rRemove), cfg.qrif);
    }
  }

  /** A query. */
  ghost predicate AsksFor(m: Machine, cfg: Config, theta: int, now: int, m': Machine) {
    exists s: Machine :: AsksThrough(m, cfg, theta, now, s, m')
  }

  ghost predicate AsksThrough(m: Machine, cfg: Config, theta: int, now: int, s: Machine, m': Machine) {
    RemovesDue(m, cfg, s) && Serves(s, cfg, theta, now, m')
  }

  lemma SelectAsks(m: Machine, cfg: Config, theta: int, now: int)
    requires DebtValid(m.remover) && Balanced(m, cfg)
    ensures AsksThrough(m, cfg, theta, now, Shrink(m, cfg), Select(m, cfg, theta, now))
  {
    hide RemovesDue, Serves, Shrink, Take, Decide, Balanced;
    ShrinkRemovesDue(m, cfg);
    ShrinkBalanced(m, cfg);
    BalancedIsDistinct(Shrink(m, cfg), cfg);
    TakeServes(Shrink(m, cfg), cfg, theta, now);
  }

  lemma BalancedIsDistinct(m: Machine, cfg: Config)
    requires Balanced(m, cfg)
    ensures DistinctIds(m.pool) && |m.pool| <= cfg.poolCap
  {}

  // ---------------------------------------------------------------------------------------------
  // A probe result is inserted

  /** kept is what of the pool has not expired, in order. */
  ghost predicate Unexpired(pool: seq<Entry>, cfg: Config, now: int, kept: seq<Entry>) {
    && Subsequence(kept, pool)
    && (forall i :: 0 <= i < |kept| ==> Lives(kept[i], cfg, now))
    && (forall i :: 0 <= i < |pool| && Lives(pool[i], cfg, now) ==> pool[i] in kept)
  }

  predicate Lives(e: Entry, cfg: Config, now: int) {
    cfg.poolTTL > 0 ==> e.receivedAt > now - cfg.poolTTL
  }

  /** The new entry comes last behind what has not expired; only at the capacity the first of that makes
      room for it. */
  ghost predicate Inserts(m: Machine, cfg: Config, e: Entry, now: int, m': Machine) {
    && e.id == m.nextId && m'.nextId == m.nextId + 1 && m'.remover == m.remover
    && m'.log == m.log + [Inserted(e.id, e.server, e.rif, e.uses)]
    && exists kept: seq<Entry> ::
         && Unexpired(m.pool, cfg, now, kept)
         && |kept| <= cfg.poolCap
         && m'.pool == if |kept| < cfg.poolCap then kept + [e] else if kept != [] then kept[1..] + [e] else []
  }

  lemma InsertProbeInserts(m: Machine, cfg: Config, server: nat, rif: int, latency: int, stamp: int, now: int,
                           budget: int)
    requires |m.pool| <= cfg.poolCap
    ensures Inserts(m, cfg, Entry(m.nextId, server, stamp, rif, latency, budget), now,
                    InsertProbe(m, cfg, server, rif, latency, stamp, now, budget))
  {
    var kept := Prune(m.pool, Cutoff(cfg, now));
    PruneUnexpired(m.pool, cfg, now);
    assert kept != [] ==> (kept + [Entry(m.nextId, server, stamp, rif, latency, budget)])[1..]
                          == kept[1..] + [Entry(m.nextId, server, stamp, rif, latency, budget)];
  }

  lemma PruneUnexpired(pool: seq<Entry>, cfg: Config, now: int)
    ensures Unexpired(pool, cfg, now, Prune(pool, Cutoff(cfg, now)))
    ensures |Prune(pool, Cutoff(cfg, now))| <= |pool|
  {
    hide Subsequence, Keeps, Cutoff, Prune;
    var kept := Prune(pool, Cutoff(cfg, now));
    PruneSub(pool, Cutoff(cfg, now));
    PruneShorter(pool, Cutoff(cfg, now));
    forall i | 0 <= i < |kept| ensures Lives(kept[i], cfg, now) {
      CutoffMeaning(cfg, now, kept[i]);
    }
    forall i | 0 <= i < |pool| && Lives(pool[i], cfg, now) ensures pool[i] in kept {
      CutoffMeaning(cfg, now, pool[i]);
    }
  }

  lemma {:induction false} PruneShorter(pool: seq<Entry>, cutoff: Option<int>)
    ensures |Prune(pool, cutoff)| <= |pool|
  {
    if pool != [] { PruneShorter(pool[..|pool| - 1], cutoff); }
  }

  // ---------------------------------------------------------------------------------------------
  // Every run

  /** What an event does. */
  ghost predicate Happens(m: Machine, cfg: Config, e: Event, m': Machine) {
    match e
    case Probed(server, rif, latency, stamp, now, nServers, draw) =>
      Inserts(m, cfg, Entry(m.nextId, server, stamp, rif, latency, ReuseBudget(cfg, nServers, draw)), now, m')
    case Asked(theta, now) => AsksFor(m, cfg, theta, now, m')
  }

  /** A run starts from an empty pool that owes nothing and whose next removal is the worst. */
  lemma RunsStart(cfg: Config)
    ensures Run(cfg, []) == Machine([], Remover(0.0, false), 0, [])
  {}

  /** Every step of every run is what its event does. */
  lemma RunsHappen(cfg: Config, es: seq<Event>, e: Event)
    ensures Happens(Run(cfg, es), cfg, e, Run(cfg, es + [e]))
  {
    hide Inserts, AsksThrough, Balanced, Select, InsertProbe;
    assert (es + [e])[..|es|] == es;
    var m := Run(cfg, es);
    EveryRunBalances(cfg, es);
    match e
    case Probed(server, rif, latency, stamp, now, nServers, draw) =>
      BalancedIsDistinct(m, cfg);
      InsertProbeInserts(m, cfg, server, rif, latency, stamp, now, ReuseBudget(cfg, nServers, draw));
    case Asked(theta, now) =>
      SelectAsks(m, cfg, theta, now);
  }

  ghost function Asks(es: seq<Event>): nat {
    if es == [] then 0 else Asks(es[..|es| - 1]) + (if es[|es| - 1].Asked? then 1 else 0)
  }

  /** How many entries the removals of a run have taken: each query as many as are due and pooled. */
  ghost function TakenDown(cfg: Config, es: seq<Event>): nat {
    if es == [] then 0
    else
      var m, taken := Run(cfg, es[..|es| - 1]), TakenDown(cfg, es[..|es| - 1]);
      if es[|es| - 1].Probed? || cfg.rRemove <= 0.0 then taken
      else
        var due := (m.remover.debt + cfg.rRemove).Floor;
        taken + if due <= |m.pool| then due else |m.pool|
  }

  lemma TurnAdds(oldest: bool, a: nat, b: nat)
    ensures TurnAfter(TurnAfter(oldest, a), b) == TurnAfter(oldest, a + b)
    decreases b
  {
    if b > 0 { TurnAdds(oldest, a, b - 1); }
  }

  /** The fraction of a growing total, from one term to the next. */
  lemma FractionStep(total: real, rate: real, debt: real)
    requires debt == total - total.Floor as real
    ensures debt + rate - (debt + rate).Floor as real == total + rate - (total + rate).Floor as real
  {
    assert (total + rate).Floor == (debt + rate).Floor + total.Floor;
  }

  lemma AskedRemover(m: Machine, cfg: Config, theta: int, now: int, m': Machine)
    requires AsksFor(m, cfg, theta, now, m')
    ensures cfg.rRemove <= 0.0 ==> m'.remover == m.remover
    ensures cfg.rRemove > 0.0 ==>
              var due := (m.remover.debt + cfg.rRemove).Floor;
              && due >= 0
              && m'.remover.debt == m.remover.debt + cfg.rRemove - due as real
              && m'.remover.oldestNext ==
                 TurnAfter(m.remover.oldestNext, if due <= |m.pool| then due else |m.pool|)
  {
    hide TakesDown, FirstBest, HandsOut, FreshCount;
    var s: Machine :| AsksThrough(m, cfg, theta, now, s, m');
  }

  /** After a run with k queries, the debt is the fraction of k times the removal rate, whatever was
      pooled, and the turn has changed with every entry taken down. */
  lemma {:induction false} RunOwes(cfg: Config, es: seq<Event>)
    ensures var r := Run(cfg, es).remover;
            && (cfg.rRemove > 0.0 ==>
                  r.debt == Share(cfg.rRemove, Asks(es)) - Share(cfg.rRemove, Asks(es)).Floor as real)
            && (cfg.rRemove <= 0.0 ==> r.debt == 0.0)
            && r.oldestNext == TurnAfter(false, TakenDown(cfg, es))
  {
    hide Share, Inserts, AsksFor, Run;
    if es == [] {
      RunsStart(cfg);
      NothingOwed(cfg);
    } else {
      var init, e := es[..|es| - 1], es[|es| - 1];
      assert es == init + [e];
      RunOwes(cfg, init);
      RunsHappen(cfg, init, e);
      if e.Asked? {
        AskedRemover(Run(cfg, init), cfg, e.theta, e.now, Run(cfg, es));
        ShareSucc(cfg.rRemove, Asks(init));
        if cfg.rRemove > 0.0 {
          FractionStep(Share(cfg.rRemove, Asks(init)), cfg.rRemove, Run(cfg, init).remover.debt);
        }
        TurnAdds(false, TakenDown(cfg, init), TakenDown(cfg, es) - TakenDown(cfg, init));
      } else {
        InsertsKeepsRemover(cfg, init, e);
      }
    }
  }

  lemma NothingOwed(cfg: Config)
    ensures Share(cfg.rRemove, 0) == 0.0
  {}

  lemma InsertsKeepsRemover(cfg: Config, es: seq<Event>, e: Event)
    requires e.Probed? && Happens(Run(cfg, es), cfg, e, Run(cfg, es + [e]))
    ensures Run(cfg, es + [e]).remover == Run(cfg, es).remover
  {}
}
