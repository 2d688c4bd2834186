/** What the uses of an entry are for: at the configured rates, probes must be reused just often enough
    to keep the pool supplied. */
module ReuseBudgets {
  import opened Basics
  import opened ProbePool
  import ProbeRate

  /** Between 1 and the limit, the wanted uses balance supply and demand: each query brings in
      rProbe - rRemove entries that survive removal, and their uses make up 1 + delta picks. It is
      the limit that is wanted when removal outpaces probing. */
  lemma WantedUsesBalanceRates(cfg: Config)
    ensures 1.0 <= WantedUses(cfg) <= MaxBudget(cfg) as real
    ensures 1.0 < WantedUses(cfg) < cfg.maxReusePool as real ==>
              WantedUses(cfg) * (cfg.rProbe - cfg.rRemove) == 1.0 + cfg.delta
    ensures cfg.rProbe <= cfg.rRemove ==> WantedUses(cfg) == MaxBudget(cfg) as real
  {
    var denom := cfg.rProbe - cfg.rRemove;
    if denom > 0.0 {
      assert (1.0 + cfg.delta) / denom * denom == 1.0 + cfg.delta;
    }
  }

  /** Exactly how many uses are wanted: one when that, or the limit, is enough; the limit when the rates
      ask for more or removal outpaces probing; else what makes the uses of the entries that survive
      removal add up to 1 + delta picks a query. */
  lemma WantedUsesExactly(cfg: Config)
    ensures var r, net, limit := WantedUses(cfg), cfg.rProbe - cfg.rRemove, cfg.maxReusePool as real;
            && (net > 0.0 && 1.0 + cfg.delta <= net ==> r == 1.0)
            && (limit <= 1.0 ==> r == 1.0)
            && (net > 0.0 && limit >= 1.0 && net <= 1.0 + cfg.delta <= Times(net, limit) ==>
                  Times(net, r) == 1.0 + cfg.delta)
            && (net > 0.0 && limit >= 1.0 && Times(net, limit) <= 1.0 + cfg.delta ==> r == limit)
            && (net <= 0.0 && limit >= 1.0 ==> r == limit)
  {
    var net, limit := cfg.rProbe - cfg.rRemove, cfg.maxReusePool as real;
    if net > 0.0 {
      var x := (1.0 + cfg.delta) / net;
      assert Times(net, x) == 1.0 + cfg.delta by { assert x * net == 1.0 + cfg.delta; }
      TimesOrder(net, x, 1.0);
      TimesOrder(net, x, limit);
    }
  }

  function Times(a: real, b: real): real { a * b }

  lemma TimesOrder(a: real, x: real, y: real)
    requires a > 0.0
    ensures x < y <==> Times(a, x) < Times(a, y)
    ensures Times(a, 1.0) == a
  {
    if x < y { assert a * x < a * y; }
    if y < x { assert a * y < a * x; }
  }

  /** With no servers known an entry has one use. */
  lemma BudgetWithoutServers(cfg: Config, draw: real)
    ensures ReuseBudget(cfg, 0, draw) == 1
  {}

  /** The budget is the wanted uses rounded the way the number of probes is: to their floor or their
      ceiling, and not at all when they are whole. */
  lemma BudgetRounds(cfg: Config, nServers: nat, draw: real)
    requires nServers > 0
    ensures ReuseBudget(cfg, nServers, draw) == ProbeRate.ProbeCount(WantedUses(cfg), draw)
    ensures WantedUses(cfg) - 1.0 < ReuseBudget(cfg, nServers, draw) as real < WantedUses(cfg) + 1.0
  {}

  /** The budgets of the first m of N equally spaced draws. */
  function BudgetTotal(cfg: Config, nServers: nat, m: nat, N: nat): int
    requires N > 0
  {
    if m == 0 then 0
    else BudgetTotal(cfg, nServers, m - 1, N) + ReuseBudget(cfg, nServers, ProbeRate.GridPoint(m - 1, N))
  }

  lemma {:induction false} BudgetTotalIsGrid(cfg: Config, nServers: nat, m: nat, N: nat)
    requires nServers > 0 && N > 0
    ensures BudgetTotal(cfg, nServers, m, N) == ProbeRate.GridTotal(WantedUses(cfg), m, N)
  {
    if m > 0 {
      BudgetTotalIsGrid(cfg, nServers, m - 1, N);
      BudgetRounds(cfg, nServers, ProbeRate.GridPoint(m - 1, N));
    }
  }

  /** Over any N equally spaced draws with N times the wanted uses whole, the rounding is exact. */
  lemma BudgetAverage(cfg: Config, nServers: nat, N: nat, total: int)
    requires nServers > 0 && N > 0 && Share(WantedUses(cfg), N) == total as real
    ensures BudgetTotal(cfg, nServers, N, N) == total
  {
    BudgetTotalIsGrid(cfg, nServers, N, N);
    ProbeRate.GridAverage(WantedUses(cfg), N, total);
  }
}
