/** Fractional removal: every call adds the removal rate to a debt, takes the whole part of the debt
    off the pool, and alternates between throwing away the worst entry and the oldest one. */
module Removal {
  import opened Basics
  import opened OrderStatistics
  import opened HotCold

  function PoolRifs(pool: seq<Entry>): seq<int> {
    seq(|pool|, i requires 0 <= i < |pool| => pool[i].rif)
  }

  /** The index of the pool's own RIF quantile, kept inside the list for any q. */
  function QuantileIndex(n: nat, q: real): (i: nat)
    requires n > 0
    ensures i < n
  {
    var raw := Trunc(Share(q, n - 1));
    if raw < 0 then 0 else if raw >= n then n - 1 else raw
  }

  function Threshold(pool: seq<Entry>, q: real): int
    requires pool != []
  {
    Kth(PoolRifs(pool), QuantileIndex(|pool|, q) + 1)
  }

  function RemoveOldest(pool: seq<Entry>): seq<Entry> {
    if pool == [] then pool else pool[1..]
  }

  function Delete<T>(s: seq<T>, i: nat): seq<T>
    requires i < |s|
  {
    s[..i] + s[i + 1..]
  }

  function RemoveWorst(pool: seq<Entry>, q: real): (rest: seq<Entry>)
    ensures pool != [] ==> |rest| == |pool| - 1
  {
    if pool == [] then pool
    else
      var theta := Threshold(pool, q);
      ScanFindsFirstWorst(pool, theta);
      var v := Victim(pool, theta).value;
      assert FirstWorst(pool, v, theta);
      Delete(pool, v)
  }

  /** On a non-empty pool exactly one entry goes, the others keep their order, and it is the first
      maximum of the hot-cold preorder at the pool's own quantile. */
  lemma RemoveWorstDeletesFirstWorst(pool: seq<Entry>, q: real) returns (v: nat)
    requires pool != []
    ensures FirstWorst(pool, v, Threshold(pool, q))
    ensures RemoveWorst(pool, q) == Delete(pool, v) == pool[..v] + pool[v + 1..]
    ensures (exists j :: 0 <= j < |pool| && pool[j].rif > Threshold(pool, q)) ==>
              forall j :: 0 <= j < |pool| ==>
                pool[j].rif <= pool[v].rif && (j < v ==> pool[j].rif < pool[v].rif)
    ensures (forall j :: 0 <= j < |pool| ==> pool[j].rif <= Threshold(pool, q)) ==>
              forall j :: 0 <= j < |pool| ==>
                pool[j].latency <= pool[v].latency && (j < v ==> pool[j].latency < pool[v].latency)
  {
    var theta := Threshold(pool, q);
    ScanFindsFirstWorst(pool, theta);
    v := Victim(pool, theta).value;
    VictimMeaning(pool, theta, v);
  }

  /** The threshold is the order statistic of the pool's RIFs at floor((n-1)*q), counting from 0, for
      a quantile in [0, 1]: no more than that many RIFs are below it and more than that many at most it.
      Outside that range it is the least or the greatest RIF. */
  lemma ThresholdShare(pool: seq<Entry>, q: real)
    requires pool != []
    ensures var theta, rifs := Threshold(pool, q), PoolRifs(pool);
            var i := if q <= 0.0 then 0 else if q >= 1.0 then |pool| - 1 else Share(q, |pool| - 1).Floor;
            && |rifs| == |pool| && (forall k :: 0 <= k < |pool| ==> rifs[k] == pool[k].rif)
            && 0 <= i < |pool|
            && theta in rifs && theta == Kth(rifs, i + 1)
            && Below(rifs, theta) <= i < AtMost(rifs, theta)
  {
    var n := |pool|;
    QuantileIndexIs(n, q);
    KthIff(PoolRifs(pool), QuantileIndex(n, q) + 1, Threshold(pool, q));
  }

  lemma QuantileIndexIs(n: nat, q: real)
    requires n > 0
    ensures QuantileIndex(n, q) ==
            if q <= 0.0 then 0 else if q >= 1.0 then n - 1 else Share(q, n - 1).Floor
  {
    if 0.0 <= q <= 1.0 {
      ShareWithin(q, n - 1);
    } else if q > 1.0 {
      ShareMonotone(1.0, q, n - 1);
    }
  }

  // ---------------------------------------------------------------------------------------------
  // One call

  datatype Kind = Worst | Oldest

  /** The lock-protected removal state. */
  datatype Remover = Remover(debt: real, oldestNext: bool)

  const NEW_REMOVER := Remover(0.0, false)

  datatype Shed = Shed(pool: seq<Entry>, oldestNext: bool, removed: seq<Kind>)

  /** The removal loop: n rounds, or until the pool is empty. */
  function ShedN(pool: seq<Entry>, oldestNext: bool, n: nat, q: real): Shed
    decreases n
  {
    if n == 0 || pool == [] then Shed(pool, oldestNext, [])
    else
      var shorter := if oldestNext then RemoveOldest(pool) else RemoveWorst(pool, q);
      var rest := ShedN(shorter, !oldestNext, n - 1, q);
      rest.(removed := [if oldestNext then Oldest else Worst] + rest.removed)
  }

  predicate DebtValid(r: Remover) { 0.0 <= r.debt < 1.0 }

  function Demand(r: Remover, rate: real): nat
    requires DebtValid(r) && rate > 0.0
  {
    (r.debt + rate).Floor
  }

  datatype Outcome = Outcome(remover: Remover, pool: seq<Entry>, removed: seq<Kind>)

  function ApplyRRemove(r: Remover, pool: seq<Entry>, rate: real, q: real): Outcome
    requires DebtValid(r)
  {
    if rate <= 0.0 then Outcome(r, pool, [])
    else
      var n := Demand(r, rate);
      var s := ShedN(pool, r.oldestNext, n, q);
      Outcome(Remover(r.debt + rate - n as real, s.oldestNext), s.pool, s.removed)
  }

  // ---------------------------------------------------------------------------------------------
  // Runs of calls

  function KindOf(oldest: bool): Kind { if oldest then Oldest else Worst }

  /** The removals strictly alternate, beginning with `first`. */
  ghost predicate Alternates(removed: seq<Kind>, first: Kind) {
    && (removed != [] ==> removed[0] == first)
    && forall i :: 0 < i < |removed| ==> removed[i] != removed[i - 1]
  }

  /** Whose turn it is after these removals. */
  function Turn(removed: seq<Kind>, first: Kind): Kind {
    if removed == [] then first
    else if removed[|removed| - 1] == Worst then Oldest else Worst
  }

  lemma AlternatesJoin(a: seq<Kind>, b: seq<Kind>, first: Kind)
    requires Alternates(a, first) && Alternates(b, Turn(a, first))
    ensures Alternates(a + b, first)
    ensures Turn(a + b, first) == Turn(b, Turn(a, first))
  {
    var c := a + b;
    forall i | 0 < i < |c| ensures c[i] != c[i - 1] {
      if i > |a| { assert c[i] == b[i - |a|] && c[i - 1] == b[i - 1 - |a|]; }
    }
  }

  lemma {:induction false} ShedNCounts(pool: seq<Entry>, oldestNext: bool, n: nat, q: real)
    ensures var s := ShedN(pool, oldestNext, n, q);
            && |s.removed| == (if n <= |pool| then n else |pool|)
            && |s.pool| == |pool| - |s.removed|
    decreases n
  {
    if n > 0 && pool != [] {
      ShedNCounts(if oldestNext then RemoveOldest(pool) else RemoveWorst(pool, q), !oldestNext, n - 1, q);
    }
  }

  lemma {:induction false} ShedNAlternates(pool: seq<Entry>, oldestNext: bool, n: nat, q: real)
    ensures var s := ShedN(pool, oldestNext, n, q);
            && Alternates(s.removed, KindOf(oldestNext))
            && Turn(s.removed, KindOf(oldestNext)) == KindOf(s.oldestNext)
    decreases n
  {
    if n > 0 && pool != [] {
      var shorter := if oldestNext then RemoveOldest(pool) else RemoveWorst(pool, q);
      ShedNAlternates(shorter, !oldestNext, n - 1, q);
      AlternatesJoin([KindOf(oldestNext)], ShedN(shorter, !oldestNext, n - 1, q).removed, KindOf(oldestNext));
    }
  }

  /** What a run of calls has added up to. */
  datatype Tally = Tally(remover: Remover, demanded: nat, removed: seq<Kind>)

  /** One call for each pool; what happens to the pool between calls is arbitrary. */
  ghost function Calls(pools: seq<seq<Entry>>, rate: real, q: real): (t: Tally)
    requires rate > 0.0
    ensures DebtValid(t.remover)
  {
    if pools == [] then Tally(NEW_REMOVER, 0, [])
    else
      var t := Calls(pools[..|pools| - 1], rate, q);
      var o := ApplyRRemove(t.remover, pools[|pools| - 1], rate, q);
      Tally(o.remover, t.demanded + Demand(t.remover, rate), t.removed + o.removed)
  }

  /** Over k calls the demands add up to exactly floor(k*rate) and the debt is the fraction left
      over, whatever the pools were. */
  lemma {:induction false} CallsConserveDebt(pools: seq<seq<Entry>>, rate: real, q: real)
    requires rate > 0.0
    ensures var t := Calls(pools, rate, q);
            && t.demanded == Share(rate, |pools|).Floor
            && t.remover.debt == Share(rate, |pools|) - t.demanded as real
  {
    if pools != [] {
      CallsConserveDebt(pools[..|pools| - 1], rate, q);
      ShareSucc(rate, |pools| - 1);
    }
  }

  /** Each call takes exactly min(demand, size) entries off the pool, and nothing is taken that is
      not demanded. */
  lemma CallShrinksBy(r: Remover, pool: seq<Entry>, rate: real, q: real)
    requires DebtValid(r) && rate > 0.0
    ensures var o, n := ApplyRRemove(r, pool, rate, q), Demand(r, rate);
            && |o.pool| == (if n <= |pool| then |pool| - n else 0)
            && |o.removed| == |pool| - |o.pool|
            && DebtValid(o.remover)
  {
    ShedNCounts(pool, r.oldestNext, Demand(r, rate), q);
  }

  /** The removals of a run strictly alternate, from one call to the next as within a call, starting
      with the worst: what the pool does in between does not matter, and calls that find it empty
      leave the turn where it was. */
  lemma {:induction false} CallsAlternate(pools: seq<seq<Entry>>, rate: real, q: real)
    requires rate > 0.0
    ensures var t := Calls(pools, rate, q);
            && Alternates(t.removed, Worst)
            && Turn(t.removed, Worst) == KindOf(t.remover.oldestNext)
  {
    if pools != [] {
      var k := |pools| - 1;
      CallsAlternate(pools[..k], rate, q);
      var t := Calls(pools[..k], rate, q);
      var n := Demand(t.remover, rate);
      ShedNAlternates(pools[k], t.remover.oldestNext, n, q);
      AlternatesJoin(t.removed, ShedN(pools[k], t.remover.oldestNext, n, q).removed, Worst);
    }
  }

  function CountKind(removed: seq<Kind>, kind: Kind): nat {
    if removed == [] then 0
    else CountKind(removed[..|removed| - 1], kind) + (if removed[|removed| - 1] == kind then 1 else 0)
  }

  lemma {:induction false} AlternatingBalances(removed: seq<Kind>)
    requires Alternates(removed, Worst)
    ensures CountKind(removed, Worst) - CountKind(removed, Oldest) ==
            if Turn(removed, Worst) == Oldest then 1 else 0
  {
    if removed != [] {
      AlternatingBalances(removed[..|removed| - 1]);
    }
  }

  /** So over any run the two kinds of removal differ by one at most. */
  lemma RemovalsBalance(pools: seq<seq<Entry>>, rate: real, q: real)
    requires rate > 0.0
    ensures var removed := Calls(pools, rate, q).removed;
            0 <= CountKind(removed, Worst) - CountKind(removed, Oldest) <= 1
  {
    CallsAlternate(pools, rate, q);
    AlternatingBalances(Calls(pools, rate, q).removed);
  }
}
