/** The probe pool as a machine: probes are inserted, queries consume entries. The machine keeps a
    ledger of everything that happened; the theorems say what every reachable pool owes to it. */
module ProbePool {
  import opened Basics
  import opened HotCold
  import opened Removal
  import opened Subsequences

  /** The settings the pool depends on. */
  datatype Config = Config(qrif: real, rProbe: real, rRemove: real, delta: real, maxReusePool: int,
                           poolCap: nat, poolTTL: int)

  function Cutoff(cfg: Config, now: int): Option<int> {
    if cfg.poolTTL > 0 then Some(now - cfg.poolTTL) else None
  }

  // ---------------------------------------------------------------------------------------------
  // Operations on a pool

  predicate Keeps(e: Entry, cutoff: Option<int>) {
    cutoff.None? || e.receivedAt > cutoff.value
  }

  /** Insertion drops what was received at the cutoff or before. */
  function Prune(pool: seq<Entry>, cutoff: Option<int>): seq<Entry> {
    if pool == [] then []
    else
      var n := |pool| - 1;
      Prune(pool[..n], cutoff) + (if Keeps(pool[n], cutoff) then [pool[n]] else [])
  }

  /** At the capacity the oldest position makes room. */
  function AppendPool<T>(pool: seq<T>, e: T, cap: nat): seq<T> {
    var next := pool + [e];
    if |next| > cap then next[1..] else next
  }

  function BumpServer(pool: seq<Entry>, server: nat): seq<Entry> {
    seq(|pool|, i requires 0 <= i < |pool| =>
      if pool[i].server == server then pool[i].(rif := pool[i].rif + 1) else pool[i])
  }

  function Without(pool: seq<Entry>, id: nat): seq<Entry> {
    if pool == [] then []
    else
      var n := |pool| - 1;
      Without(pool[..n], id) + (if pool[n].id == id then [] else [pool[n]])
  }

  function Spend(pool: seq<Entry>, w: nat): seq<Entry>
    requires w < |pool|
  {
    pool[w := pool[w].(uses := pool[w].uses - 1)]
  }

  /** Handing out entry w: every pooled entry of its server counts one more request in flight, w
      loses a use, and leaves when it has none left. */
  function Consume(pool: seq<Entry>, w: nat): seq<Entry>
    requires w < |pool|
  {
    var spent := Spend(BumpServer(pool, pool[w].server), w);
    if spent[w].uses > 0 then spent else Without(spent, pool[w].id)
  }

  function SpendId(pool: seq<Entry>, id: nat): seq<Entry> {
    seq(|pool|, i requires 0 <= i < |pool| =>
      if pool[i].id == id then pool[i].(uses := pool[i].uses - 1) else pool[i])
  }

  /** Handing out an entry that may have left the pool since it was chosen: the server's pooled entries
      are bumped all the same. */
  function ConsumeUsed(pool: seq<Entry>, used: Entry): seq<Entry> {
    var spent := SpendId(BumpServer(pool, used.server), used.id);
    if used.uses - 1 > 0 then spent else Without(spent, used.id)
  }

  function MaxBudget(cfg: Config): nat {
    if cfg.maxReusePool < 1 then 1 else cfg.maxReusePool
  }

  /** The uses an entry would get if uses could be fractional. */
  function WantedUses(cfg: Config): real {
    var limit := cfg.maxReusePool as real;
    var denom := cfg.rProbe - cfg.rRemove;
    var wanted := if denom > 0.0 && (1.0 + cfg.delta) / denom < limit then (1.0 + cfg.delta) / denom else limit;
    if wanted < 1.0 then 1.0 else wanted
  }

  /** How many uses a new entry gets; draw is the random number in [0, 1) that rounds it. Rounding
      up never exceeds the configured limit, and no entry is useless. */
  function ReuseBudget(cfg: Config, nServers: nat, draw: real): (budget: int)
    ensures 1 <= budget <= MaxBudget(cfg)
  {
    if nServers == 0 then 1
    else
      var b := WantedUses(cfg);
      var whole := Trunc(b);
      var frac := b - whole as real;
      var rounded := if frac > 0.0 && draw < frac then whole + 1 else whole;
      if rounded < 1 then 1 else rounded
  }

  // ---------------------------------------------------------------------------------------------
  // The machine

  datatype Record =
    | Inserted(id: nat, server: nat, rif: int, budget: int)
    | Picked(id: nat, server: nat)
    | FellBack

  datatype Machine = Machine(pool: seq<Entry>, remover: Remover, nextId: nat, log: seq<Record>)

  const START := Machine([], NEW_REMOVER, 0, [])

  /** A successful probe result reaches the pool. */
  function InsertProbe(m: Machine, cfg: Config, server: nat, rif: int, latency: int, stamp: int, now: int,
                       budget: int): Machine
  {
    var e := Entry(m.nextId, server, stamp, rif, latency, budget);
    m.(pool := AppendPool(Prune(m.pool, Cutoff(cfg, now)), e, cfg.poolCap),
       nextId := m.nextId + 1,
       log := m.log + [Inserted(m.nextId, server, rif, budget)])
  }

  /** What the selection loop concludes: too few fresh entries, or the entry at a position. */
  datatype Decision = NoPool | Chosen(pos: nat)

  function Decide(pool: seq<Entry>, theta: int, cutoff: Option<int>): (d: Decision)
    ensures d.Chosen? ==> FirstBest(pool, d.pos, theta, cutoff)
    ensures d.NoPool? <==> FreshCount(pool, cutoff) < 2
  {
    ScanFindsFirstBest(pool, theta, cutoff);
    if BestScan(pool, theta, cutoff).seen < 2 then NoPool else Chosen(Winner(pool, theta, cutoff).value)
  }

  function Shrink(m: Machine, cfg: Config): Machine
    requires DebtValid(m.remover)
  {
    var o := ApplyRRemove(m.remover, m.pool, cfg.rRemove, cfg.qrif);
    m.(pool := o.pool, remover := o.remover)
  }

  function Take(m: Machine, d: Decision): Machine
    requires d.Chosen? ==> d.pos < |m.pool|
  {
    match d
    case NoPool => m.(log := m.log + [FellBack])
    case Chosen(w) => m.(pool := Consume(m.pool, w), log := m.log + [Picked(m.pool[w].id, m.pool[w].server)])
  }

  /** A query selects a server; theta is the hot threshold, -1 when there is none. */
  function Select(m: Machine, cfg: Config, theta: int, now: int): Machine
    requires DebtValid(m.remover)
  {
    var s := Shrink(m, cfg);
    Take(s, Decide(s.pool, theta, Cutoff(cfg, now)))
  }

  datatype Event =
    | Probed(server: nat, rif: int, latency: int, stamp: int, now: int, nServers: nat, draw: real)
    | Asked(theta: int, now: int)

  function Step(m: Machine, cfg: Config, e: Event): Machine
    requires DebtValid(m.remover)
  {
    match e
    case Probed(server, rif, latency, stamp, now, nServers, draw) =>
      InsertProbe(m, cfg, server, rif, latency, stamp, now, ReuseBudget(cfg, nServers, draw))
    case Asked(theta, now) => Select(m, cfg, theta, now)
  }

  ghost function Run(cfg: Config, es: seq<Event>): (m: Machine)
    ensures DebtValid(m.remover)
  {
    if es == [] then START
    else Step(Run(cfg, es[..|es| - 1]), cfg, es[|es| - 1])
  }

  // ---------------------------------------------------------------------------------------------
  // The ledger, read from the log

  ghost function InsertionOf(log: seq<Record>, id: nat): Option<Record> {
    if log == [] then None
    else
      var last := log[|log| - 1];
      if last.Inserted? && last.id == id then Some(last) else InsertionOf(log[..|log| - 1], id)
  }

  /** Pool picks of this entry. */
  ghost function PicksOf(log: seq<Record>, id: nat): nat {
    if log == [] then 0
    else
      var last := log[|log| - 1];
      PicksOf(log[..|log| - 1], id) + (if last.Picked? && last.id == id then 1 else 0)
  }

  /** Pool picks of this server since the entry was inserted. */
  ghost function PicksSince(log: seq<Record>, id: nat, server: nat): nat {
    if log == [] then 0
    else
      var last := log[|log| - 1];
      if last.Inserted? && last.id == id then 0
      else PicksSince(log[..|log| - 1], id, server) + (if last.Picked? && last.server == server then 1 else 0)
  }

  ghost function Picks(log: seq<Record>): nat {
    if log == [] then 0
    else Picks(log[..|log| - 1]) + (if log[|log| - 1].Picked? then 1 else 0)
  }

  ghost function Probes(log: seq<Record>): nat {
    if log == [] then 0
    else Probes(log[..|log| - 1]) + (if log[|log| - 1].Inserted? then 1 else 0)
  }

  /** An entry agrees with the log: its RIF is what its probe reported plus the pool picks of its
      server since, and its uses are its budget less the picks of it. */
  ghost predicate Agrees(log: seq<Record>, e: Entry) {
    var i := InsertionOf(log, e.id);
    && i.Some? && i.value.Inserted? && i.value.server == e.server
    && e.rif == i.value.rif + PicksSince(log, e.id, e.server)
    && e.uses + PicksOf(log, e.id) == i.value.budget
  }

  ghost predicate DistinctIds(pool: seq<Entry>) {
    forall i, j :: 0 <= i < j < |pool| ==> pool[i].id != pool[j].id
  }

  ghost function TotalUses(pool: seq<Entry>): int {
    if pool == [] then 0 else TotalUses(pool[..|pool| - 1]) + pool[|pool| - 1].uses
  }

  /** The picks that this many probes can pay for. */
  ghost function Allowance(limit: nat, probes: nat): nat { limit * probes }

  lemma AllowanceGrows(limit: nat, probes: nat)
    ensures Allowance(limit, probes + 1) == Allowance(limit, probes) + limit
  {}

  /** Everything ever inserted was handed out within its budget, and its budget within the limit. */
  ghost predicate BudgetKept(log: seq<Record>, cfg: Config, id: nat) {
    var i := InsertionOf(log, id);
    && i.Some? && i.value.Inserted?
    && 1 <= i.value.budget <= MaxBudget(cfg)
    && PicksOf(log, id) <= i.value.budget
  }

  ghost predicate PoolBalanced(m: Machine) {
    && DistinctIds(m.pool)
    && forall i :: 0 <= i < |m.pool| ==>
         m.pool[i].id < m.nextId && Agrees(m.log, m.pool[i]) && m.pool[i].uses >= 1
  }

  ghost predicate Balanced(m: Machine, cfg: Config) {
    && PoolBalanced(m)
    && |m.pool| <= cfg.poolCap
    && (forall id: nat :: m.nextId <= id ==> PicksOf(m.log, id) == 0)
    && (forall id: nat :: id < m.nextId ==> BudgetKept(m.log, cfg, id))
    && Picks(m.log) + TotalUses(m.pool) <= Allowance(MaxBudget(cfg), Probes(m.log))
  }

  // ---------------------------------------------------------------------------------------------
  // Pools only ever lose entries, except for the one appended

  lemma {:induction false} PruneSub(pool: seq<Entry>, cutoff: Option<int>)
    ensures Subsequence(Prune(pool, cutoff), pool)
    ensures forall i :: 0 <= i < |Prune(pool, cutoff)| ==> Keeps(Prune(pool, cutoff)[i], cutoff)
    ensures forall i :: 0 <= i < |pool| && Keeps(pool[i], cutoff) ==> pool[i] in Prune(pool, cutoff)
  {
    if pool == [] {
      SubsequenceRefl(pool);
    } else {
      var n := |pool| - 1;
      var kept := Prune(pool[..n], cutoff);
      PruneSub(pool[..n], cutoff);
      SubsequenceSnoc(kept, pool[..n], pool[n]);
      assert pool[..n] + [pool[n]] == pool;
      SubsequenceDelete(kept + [pool[n]], |kept|);
      assert (kept + [pool[n]])[..|kept|] + (kept + [pool[n]])[|kept| + 1..] == kept;
      SubsequenceTrans(kept, kept + [pool[n]], pool);
    }
  }

  lemma RoundSub(pool: seq<Entry>, oldestNext: bool, q: real)
    requires pool != []
    ensures Subsequence(if oldestNext then RemoveOldest(pool) else RemoveWorst(pool, q), pool)
  {
    if oldestNext {
      SubsequenceTail(pool);
    } else {
      var v := RemoveWorstDeletesFirstWorst(pool, q);
      SubsequenceDelete(pool, v);
    }
  }

  lemma {:induction false} ShedSub(pool: seq<Entry>, oldestNext: bool, n: nat, q: real)
    ensures Subsequence(ShedN(pool, oldestNext, n, q).pool, pool)
    decreases n
  {
    hide Subsequence, RemoveWorst;
    if n == 0 || pool == [] {
      SubsequenceRefl(pool);
    } else {
      var shorter := if oldestNext then RemoveOldest(pool) else RemoveWorst(pool, q);
      RoundSub(pool, oldestNext, q);
      ShedSub(shorter, !oldestNext, n - 1, q);
      SubsequenceTrans(ShedN(shorter, !oldestNext, n - 1, q).pool, shorter, pool);
    }
  }

  lemma ShrinkSub(m: Machine, cfg: Config)
    requires DebtValid(m.remover)
    ensures Subsequence(Shrink(m, cfg).pool, m.pool)
  {
    if cfg.rRemove > 0.0 {
      ShedSub(m.pool, m.remover.oldestNext, Demand(m.remover, cfg.rRemove), cfg.qrif);
    } else {
      SubsequenceRefl(m.pool);
    }
  }

  /** Removing by identity is removing by position. */
  lemma {:induction false} WithoutIsDelete(pool: seq<Entry>, w: nat)
    requires DistinctIds(pool) && w < |pool|
    ensures Without(pool, pool[w].id) == Delete(pool, w)
  {
    var n, id := |pool| - 1, pool[w].id;
    if w == n {
      WithoutAbsent(pool[..n], id);
    } else {
      WithoutIsDelete(pool[..n], w);
      assert Delete(pool, w) == Delete(pool[..n], w) + [pool[n]];
    }
  }

  lemma {:induction false} WithoutAbsent(pool: seq<Entry>, id: nat)
    requires forall i :: 0 <= i < |pool| ==> pool[i].id != id
    ensures Without(pool, id) == pool
  {
    if pool != [] {
      WithoutAbsent(pool[..|pool| - 1], id);
      assert pool == pool[..|pool| - 1] + [pool[|pool| - 1]];
    }
  }

  /** An entry still pooled is consumed at its position, and one that has left changes nothing but the
      RIFs of its server. */
  lemma ConsumeUsedMeaning(pool: seq<Entry>, used: Entry)
    requires DistinctIds(pool)
    ensures forall w :: 0 <= w < |pool| && pool[w] == used ==> ConsumeUsed(pool, used) == Consume(pool, w)
    ensures (forall i :: 0 <= i < |pool| ==> pool[i].id != used.id) ==>
              ConsumeUsed(pool, used) == BumpServer(pool, used.server)
  {
    var bumped := BumpServer(pool, used.server);
    forall w | 0 <= w < |pool| && pool[w] == used ensures ConsumeUsed(pool, used) == Consume(pool, w) {
      assert SpendId(bumped, used.id) == Spend(bumped, w);
    }
    if forall i :: 0 <= i < |pool| ==> pool[i].id != used.id {
      assert SpendId(bumped, used.id) == bumped;
      WithoutAbsent(bumped, used.id);
    }
  }

  /** Removing by identity removes nothing when the length stays. */
  lemma {:induction false} WithoutNothing(pool: seq<Entry>, id: nat)
    ensures |Without(pool, id)| <= |pool|
    ensures |Without(pool, id)| == |pool| ==> Without(pool, id) == pool
  {
    if pool != [] {
      WithoutNothing(pool[..|pool| - 1], id);
      assert pool == pool[..|pool| - 1] + [pool[|pool| - 1]];
    }
  }

  // ---------------------------------------------------------------------------------------------
  // Total remaining uses

  lemma {:induction false} TotalUsesSub(a: seq<Entry>, b: seq<Entry>)
    requires Subsequence(a, b)
    requires forall i :: 0 <= i < |b| ==> b[i].uses >= 0
    ensures TotalUses(a) <= TotalUses(b)
    ensures |a| <= |b|
    decreases |b|
  {
    var f: seq<nat> :| Embeds(a, b, f);
    if b != [] {
      EmbedsTail(a, b, f);
      TotalUsesHead(b);
      if a != [] && f[0] == 0 {
        TotalUsesHead(a);
        TotalUsesSub(a[1..], b[1..]);
      } else {
        TotalUsesSub(a, b[1..]);
      }
    }
  }

  lemma {:induction false} TotalUsesHead(pool: seq<Entry>)
    requires pool != []
    ensures TotalUses(pool) == pool[0].uses + TotalUses(pool[1..])
  {
    var n := |pool| - 1;
    if n > 0 {
      TotalUsesHead(pool[..n]);
      assert pool[..n][1..] == pool[1..][..n - 1];
    } else {
      assert pool[..n] == [] && pool[1..] == [];
    }
  }

  lemma {:induction false} TotalUsesSame(a: seq<Entry>, b: seq<Entry>)
    requires |a| == |b| && forall i :: 0 <= i < |a| ==> a[i].uses == b[i].uses
    ensures TotalUses(a) == TotalUses(b)
  {
    if a != [] { TotalUsesSame(a[..|a| - 1], b[..|b| - 1]); }
  }

  lemma {:induction false} TotalUsesSpend(pool: seq<Entry>, w: nat)
    requires w < |pool|
    ensures TotalUses(Spend(pool, w)) == TotalUses(pool) - 1
  {
    var n := |pool| - 1;
    if w == n {
      assert Spend(pool, w)[..n] == pool[..n];
    } else {
      TotalUsesSpend(pool[..n], w);
      assert Spend(pool, w)[..n] == Spend(pool[..n], w);
    }
  }

  // ---------------------------------------------------------------------------------------------
  // Every reachable machine balances

  lemma SubBalanced(m: Machine, pool: seq<Entry>)
    requires PoolBalanced(m) && Subsequence(pool, m.pool)
    ensures PoolBalanced(m.(pool := pool))
    ensures TotalUses(pool) <= TotalUses(m.pool) && |pool| <= |m.pool|
  {
    var f: seq<nat> :| Embeds(pool, m.pool, f);
    TotalUsesSub(pool, m.pool);
  }

  lemma InsertionAgrees(log: seq<Record>, r: Record, e: Entry)
    requires r.Inserted? && e.id != r.id && Agrees(log, e)
    ensures Agrees(log + [r], e)
  {
    assert (log + [r])[..|log|] == log;
  }

  lemma PickAgrees(log: seq<Record>, r: Record, e: Entry)
    requires r.Picked? && Agrees(log, e)
    ensures var bumped := if e.server == r.server then e.(rif := e.rif + 1) else e;
            Agrees(log + [r], if e.id == r.id then bumped.(uses := bumped.uses - 1) else bumped)
  {
    assert (log + [r])[..|log|] == log;
  }

  /** Appending a new entry to a balanced pool, before any room is made. */
  lemma AppendBalanced(m: Machine, e: Entry, r: Record)
    requires PoolBalanced(m) && PicksOf(m.log, m.nextId) == 0
    requires e.id == m.nextId && e.uses >= 1 && r == Inserted(e.id, e.server, e.rif, e.uses)
    ensures PoolBalanced(Machine(m.pool + [e], m.remover, m.nextId + 1, m.log + [r]))
    ensures TotalUses(m.pool + [e]) == TotalUses(m.pool) + e.uses
  {
    var log' := m.log + [r];
    assert log'[..|m.log|] == m.log;
    forall i | 0 <= i < |m.pool| ensures Agrees(log', m.pool[i]) {
      InsertionAgrees(m.log, r, m.pool[i]);
    }
    assert (m.pool + [e])[..|m.pool|] == m.pool;
  }

  lemma InsertBalanced(m: Machine, cfg: Config, server: nat, rif: int, latency: int, stamp: int, now: int,
                       budget: int)
    requires Balanced(m, cfg) && 1 <= budget <= MaxBudget(cfg)
    ensures Balanced(InsertProbe(m, cfg, server, rif, latency, stamp, now, budget), cfg)
  {
    hide PoolBalanced, BudgetKept, Allowance, Subsequence, PicksOf;
    var r := Inserted(m.nextId, server, rif, budget);
    InsertPoolBalanced(m, cfg, server, rif, latency, stamp, now, budget);
    InsertKeepsBooks(m, cfg, r);
    AllowanceGrows(MaxBudget(cfg), Probes(m.log));
    var m' := InsertProbe(m, cfg, server, rif, latency, stamp, now, budget);
    assert forall id: nat :: m'.nextId <= id ==> PicksOf(m'.log, id) == 0;
    assert forall id: nat :: id < m'.nextId ==> BudgetKept(m'.log, cfg, id);
    assert Balanced(m', cfg);
  }

  lemma InsertPoolBalanced(m: Machine, cfg: Config, server: nat, rif: int, latency: int, stamp: int, now: int,
                           budget: int)
    requires PoolBalanced(m) && |m.pool| <= cfg.poolCap && PicksOf(m.log, m.nextId) == 0
    requires 1 <= budget <= MaxBudget(cfg)
    ensures var m' := InsertProbe(m, cfg, server, rif, latency, stamp, now, budget);
            && PoolBalanced(m') && |m'.pool| <= cfg.poolCap
            && TotalUses(m'.pool) <= TotalUses(m.pool) + MaxBudget(cfg)
  {
    hide PoolBalanced, Subsequence, Prune, TotalUses;
    var e, r := Entry(m.nextId, server, stamp, rif, latency, budget), Inserted(m.nextId, server, rif, budget);
    var kept := Prune(m.pool, Cutoff(cfg, now));
    PruneSub(m.pool, Cutoff(cfg, now));
    SubBalanced(m, kept);
    AppendBalanced(m.(pool := kept), e, r);
    var full := Machine(kept + [e], m.remover, m.nextId + 1, m.log + [r]);
    SubsequenceTail(full.pool);
    SubBalanced(full, full.pool[1..]);
  }

  /** What an insertion does to the entries no longer pooled: nothing. */
  lemma InsertKeepsBooks(m: Machine, cfg: Config, r: Record)
    requires Balanced(m, cfg)
    requires r.Inserted? && r.id == m.nextId && 1 <= r.budget <= MaxBudget(cfg)
    ensures var m' := m.(nextId := m.nextId + 1, log := m.log + [r]);
            && (forall id: nat :: m'.nextId <= id ==> PicksOf(m'.log, id) == 0)
            && (forall id: nat :: id < m'.nextId ==> BudgetKept(m'.log, cfg, id))
            && Picks(m'.log) == Picks(m.log) && Probes(m'.log) == Probes(m.log) + 1
  {
    var m' := m.(nextId := m.nextId + 1, log := m.log + [r]);
    assert m'.log[..|m.log|] == m.log;
    forall id: nat | id < m'.nextId ensures BudgetKept(m'.log, cfg, id) {
      if id < m.nextId {
        assert BudgetKept(m.log, cfg, id);
      } else {
        assert PicksOf(m.log, id) == 0;
      }
    }
  }

  lemma ShrinkBalanced(m: Machine, cfg: Config)
    requires Balanced(m, cfg) && DebtValid(m.remover)
    ensures Balanced(Shrink(m, cfg), cfg)
  {
    ShrinkSub(m, cfg);
    SubBalanced(m, Shrink(m, cfg).pool);
    var s := Shrink(m, cfg);
    forall id: nat | id < s.nextId ensures BudgetKept(s.log, cfg, id) {
      assert BudgetKept(m.log, cfg, id);
    }
  }

  /** Before the spent entry leaves, every pooled entry agrees with the extended log, w included. */
  lemma SpendAgrees(m: Machine, w: nat)
    requires PoolBalanced(m) && w < |m.pool|
    ensures var r := Picked(m.pool[w].id, m.pool[w].server);
            var spent := Spend(BumpServer(m.pool, m.pool[w].server), w);
            && DistinctIds(spent)
            && (forall i :: 0 <= i < |spent| ==> spent[i].id == m.pool[i].id && Agrees(m.log + [r], spent[i]))
            && (forall i :: 0 <= i < |spent| && i != w ==> spent[i].uses == m.pool[i].uses)
            && spent[w].uses == m.pool[w].uses - 1
            && TotalUses(spent) == TotalUses(m.pool) - 1
  {
    var r := Picked(m.pool[w].id, m.pool[w].server);
    var bumped := BumpServer(m.pool, m.pool[w].server);
    var spent := Spend(bumped, w);
    forall i | 0 <= i < |spent| ensures Agrees(m.log + [r], spent[i]) {
      PickAgrees(m.log, r, m.pool[i]);
    }
    TotalUsesSame(bumped, m.pool);
    TotalUsesSpend(bumped, w);
  }

  /** A pick on a balanced machine: the total of the remaining uses drops by exactly one. */
  lemma ConsumeBalanced(m: Machine, w: nat)
    requires PoolBalanced(m) && w < |m.pool|
    ensures var m' := Take(m, Chosen(w));
            && PoolBalanced(m')
            && TotalUses(m'.pool) == TotalUses(m.pool) - 1
            && |m'.pool| <= |m.pool|
  {
    hide Agrees;
    SpendAgrees(m, w);
    var spent := Spend(BumpServer(m.pool, m.pool[w].server), w);
    if spent[w].uses <= 0 {
      WithoutIsDelete(spent, w);
      TotalUsesDelete(spent, w);
      DeleteBalanced(m.(pool := spent, log := m.log + [Picked(m.pool[w].id, m.pool[w].server)]), w);
    }
  }

  /** The exhausted entry is the only one that may be out of uses; without it the pool balances. */
  lemma DeleteBalanced(m: Machine, w: nat)
    requires DistinctIds(m.pool) && w < |m.pool|
    requires forall i :: 0 <= i < |m.pool| ==>
               m.pool[i].id < m.nextId && Agrees(m.log, m.pool[i]) && (i != w ==> m.pool[i].uses >= 1)
    ensures PoolBalanced(m.(pool := Delete(m.pool, w)))
  {
    hide Agrees;
    var rest := Delete(m.pool, w);
    forall i | 0 <= i < |rest|
      ensures rest[i].id < m.nextId && Agrees(m.log, rest[i]) && rest[i].uses >= 1
    {
      var k := if i < w then i else i + 1;
      assert rest[i] == m.pool[k];
    }
    forall i, j | 0 <= i < j < |rest| ensures rest[i].id != rest[j].id {
      assert rest[i] == m.pool[if i < w then i else i + 1];
      assert rest[j] == m.pool[if j < w then j else j + 1];
    }
  }

  lemma {:induction false} TotalUsesDelete(pool: seq<Entry>, w: nat)
    requires w < |pool|
    ensures TotalUses(Delete(pool, w)) == TotalUses(pool) - pool[w].uses
  {
    var n := |pool| - 1;
    if w == n {
      assert Delete(pool, w) == pool[..n];
    } else {
      TotalUsesDelete(pool[..n], w);
      assert Delete(pool, w)[..n - 1] == Delete(pool[..n], w);
    }
  }

  lemma TakeKeepsBooks(m: Machine, cfg: Config, w: nat)
    requires Balanced(m, cfg) && w < |m.pool|
    ensures var m' := Take(m, Chosen(w));
            && (forall id: nat :: m'.nextId <= id ==> PicksOf(m'.log, id) == 0)
            && (forall id: nat :: id < m'.nextId ==> BudgetKept(m'.log, cfg, id))
            && Picks(m'.log) == Picks(m.log) + 1 && Probes(m'.log) == Probes(m.log)
  {
    var m' := Take(m, Chosen(w));
    assert m'.log[..|m.log|] == m.log;
    forall id: nat | id < m'.nextId ensures BudgetKept(m'.log, cfg, id) {
      assert BudgetKept(m.log, cfg, id);
      if id == m.pool[w].id {
        assert Agrees(m.log, m.pool[w]) && m.pool[w].uses >= 1;
      }
    }
  }

  lemma TakeBalanced(m: Machine, cfg: Config, d: Decision)
    requires Balanced(m, cfg) && (d.Chosen? ==> d.pos < |m.pool|)
    ensures Balanced(Take(m, d), cfg)
  {
    match d
    case NoPool =>
      FallBackBalanced(m, cfg);
    case Chosen(w) =>
      ConsumeBalanced(m, w);
      TakeKeepsBooks(m, cfg, w);
  }

  /** A fallback pick bumps nothing and spends nothing. */
  lemma FallBackBalanced(m: Machine, cfg: Config)
    requires Balanced(m, cfg)
    ensures Balanced(Take(m, NoPool), cfg)
  {
    hide Allowance;
    var m' := Take(m, NoPool);
    assert m'.log[..|m.log|] == m.log;
    assert Probes(m'.log) == Probes(m.log);
    assert Picks(m'.log) == Picks(m.log);
    forall i | 0 <= i < |m.pool| ensures Agrees(m'.log, m.pool[i]) {
      assert Agrees(m.log, m.pool[i]);
    }
    forall id: nat | id < m'.nextId ensures BudgetKept(m'.log, cfg, id) {
      assert BudgetKept(m.log, cfg, id);
    }
    assert forall id: nat :: m'.nextId <= id ==> PicksOf(m'.log, id) == 0;
    assert Balanced(m', cfg);
  }

  /** The ledger theorem. After any run of probes and queries: every pooled entry's RIF is its probed
      RIF plus the pool picks of its server since; its uses plus the picks of it are its budget; no
      entry, pooled or gone, was handed out more often than its budget, which lies between 1 and the
      limit; all pool picks together stay within limit times probes; and the pool is within its
      capacity. */
  lemma {:induction false} EveryRunBalances(cfg: Config, es: seq<Event>)
    ensures Balanced(Run(cfg, es), cfg)
    ensures Picks(Run(cfg, es).log) <= MaxBudget(cfg) * Probes(Run(cfg, es).log)
  {
    hide Balanced;
    if es == [] {
      StartBalanced(cfg);
    } else {
      var m, last := Run(cfg, es[..|es| - 1]), es[|es| - 1];
      EveryRunBalances(cfg, es[..|es| - 1]);
      match last
      case Probed(server, rif, latency, stamp, now, nServers, draw) =>
        InsertBalanced(m, cfg, server, rif, latency, stamp, now, ReuseBudget(cfg, nServers, draw));
      case Asked(theta, now) =>
        ShrinkBalanced(m, cfg);
        var s := Shrink(m, cfg);
        TakeBalanced(s, cfg, Decide(s.pool, theta, Cutoff(cfg, now)));
    }
    BalancedBoundsPicks(Run(cfg, es), cfg);
  }

  /** The RIF ledger, entry by entry. */
  lemma RifLedger(cfg: Config, es: seq<Event>, i: nat)
    requires i < |Run(cfg, es).pool|
    ensures var m := Run(cfg, es);
            var e := m.pool[i];
            var probed := InsertionOf(m.log, e.id);
            && probed.Some? && probed.value.Inserted? && probed.value.server == e.server
            && e.rif == probed.value.rif + PicksSince(m.log, e.id, e.server)
  {
    EveryRunBalances(cfg, es);
  }

  /** The use ledger, entry by entry: what is left and what was handed out make up a budget between 1
      and the limit, and something is left. */
  lemma UseLedger(cfg: Config, es: seq<Event>, i: nat)
    requires i < |Run(cfg, es).pool|
    ensures var m := Run(cfg, es);
            var e := m.pool[i];
            var probed := InsertionOf(m.log, e.id);
            && probed.Some? && probed.value.Inserted?
            && 1 <= probed.value.budget <= MaxBudget(cfg)
            && e.uses >= 1 && e.uses + PicksOf(m.log, e.id) == probed.value.budget
  {
    EveryRunBalances(cfg, es);
    assert BudgetKept(Run(cfg, es).log, cfg, Run(cfg, es).pool[i].id);
  }

  /** No entry, pooled or gone, is handed out more than its budget, nor more than the limit. */
  lemma NeverOverspent(cfg: Config, es: seq<Event>, id: nat)
    ensures var m := Run(cfg, es);
            var probed := InsertionOf(m.log, id);
            && PicksOf(m.log, id) <= MaxBudget(cfg)
            && (id >= m.nextId ==> PicksOf(m.log, id) == 0)
            && (id < m.nextId ==>
                  probed.Some? && probed.value.Inserted? && PicksOf(m.log, id) <= probed.value.budget)
  {
    EveryRunBalances(cfg, es);
    var m := Run(cfg, es);
    if id < m.nextId {
      assert BudgetKept(m.log, cfg, id);
    } else {
      assert PicksOf(m.log, id) == 0;
    }
  }

  lemma StartBalanced(cfg: Config)
    ensures Balanced(START, cfg)
  {}

  lemma {:induction false} TotalUsesNonnegative(pool: seq<Entry>)
    requires forall i :: 0 <= i < |pool| ==> pool[i].uses >= 0
    ensures TotalUses(pool) >= 0
  {
    if pool != [] { TotalUsesNonnegative(pool[..|pool| - 1]); }
  }

  lemma BalancedBoundsPicks(m: Machine, cfg: Config)
    requires Balanced(m, cfg)
    ensures Picks(m.log) <= MaxBudget(cfg) * Probes(m.log)
  {
    TotalUsesNonnegative(m.pool);
  }
}
