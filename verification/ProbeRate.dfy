/** The adaptive probe rate and the random rounding that turns it into a number of probes. */
module ProbeRate {
  import opened Basics

  datatype RateConfig = RateConfig(rProbe: real, rProbeMin: real, adaptive: bool, loadLow: int, loadHigh: int)

  /** The lowest rate: the configured floor, unless it is above the configured rate. */
  function Floor(cfg: RateConfig): real {
    if cfg.rProbeMin > cfg.rProbe then cfg.rProbe else cfg.rProbeMin
  }

  /** How far into the load band the balancer is, from 0 to 1. */
  function Pressure(low: int, high: int, inflight: int): (p: real)
    requires low < inflight < high
    ensures 0.0 < p < 1.0
  {
    (inflight - low) as real / (high - low) as real
  }

  function Scale(p: real, d: real): real { p * d }

  function Interpolate(top: real, bottom: real, p: real): real {
    top - Scale(p, top - bottom)
  }

  function EffectiveRProbe(cfg: RateConfig, inflight: int): real {
    if !cfg.adaptive then cfg.rProbe
    else if cfg.loadHigh <= cfg.loadLow || inflight <= cfg.loadLow then cfg.rProbe
    else if inflight >= cfg.loadHigh then Floor(cfg)
    else Interpolate(cfg.rProbe, Floor(cfg), Pressure(cfg.loadLow, cfg.loadHigh, inflight))
  }

  lemma ScaleOrdered(p: real, p': real, d: real)
    requires p <= p' && 0.0 <= d
    ensures Scale(p, d) <= Scale(p', d)
    ensures Scale(p', d) - Scale(p, d) == Scale(p' - p, d)
  {}

  lemma ScaleEnds(d: real)
    ensures Scale(0.0, d) == 0.0 && Scale(1.0, d) == d
  {}

  lemma InterpolateWithin(top: real, bottom: real, p: real)
    requires bottom <= top && 0.0 <= p <= 1.0
    ensures bottom <= Interpolate(top, bottom, p) <= top
  {
    hide Scale;
    ScaleEnds(top - bottom);
    ScaleOrdered(0.0, p, top - bottom);
    ScaleOrdered(p, 1.0, top - bottom);
  }

  /** The rate never leaves the band between its floor and the configured rate. */
  lemma RateWithin(cfg: RateConfig, inflight: int)
    ensures Floor(cfg) <= EffectiveRProbe(cfg, inflight) <= cfg.rProbe
  {
    hide Interpolate;
    if cfg.adaptive && cfg.loadLow < inflight < cfg.loadHigh {
      InterpolateWithin(cfg.rProbe, Floor(cfg), Pressure(cfg.loadLow, cfg.loadHigh, inflight));
    }
  }

  /** The rate at every load: the configured rate without adaptation, up to the low mark or without a
      band; the smaller of the two rates from the high mark on; between the marks on the straight line
      through both. */
  lemma RateExactly(cfg: RateConfig, inflight: int)
    ensures var r, low := EffectiveRProbe(cfg, inflight),
                          if cfg.rProbeMin <= cfg.rProbe then cfg.rProbeMin else cfg.rProbe;
            && (!cfg.adaptive || inflight <= cfg.loadLow || cfg.loadHigh <= cfg.loadLow ==> r == cfg.rProbe)
            && (cfg.adaptive && cfg.loadLow < cfg.loadHigh <= inflight ==> r == low)
            && (cfg.adaptive && cfg.loadLow < inflight < cfg.loadHigh ==>
                  Scale((cfg.loadHigh - cfg.loadLow) as real, cfg.rProbe - r) ==
                  Scale((inflight - cfg.loadLow) as real, cfg.rProbe - low))
  {
    if cfg.adaptive && cfg.loadLow < inflight < cfg.loadHigh {
      var w, x, d := (cfg.loadHigh - cfg.loadLow) as real, (inflight - cfg.loadLow) as real, cfg.rProbe - Floor(cfg);
      var p := Pressure(cfg.loadLow, cfg.loadHigh, inflight);
      assert w * p == x;
      assert w * (p * d) == (w * p) * d;
    }
  }

  /** The rate read as a position in the load band: 0 at or below the low mark, 1 at or above the high
      mark, linear in between. */
  function Position(cfg: RateConfig, inflight: int): (p: real)
    ensures 0.0 <= p <= 1.0
  {
    if !cfg.adaptive || cfg.loadHigh <= cfg.loadLow || inflight <= cfg.loadLow then 0.0
    else if inflight >= cfg.loadHigh then 1.0
    else Pressure(cfg.loadLow, cfg.loadHigh, inflight)
  }

  lemma RateIsPosition(cfg: RateConfig, inflight: int)
    ensures EffectiveRProbe(cfg, inflight) == Interpolate(cfg.rProbe, Floor(cfg), Position(cfg, inflight))
  {
    ScaleEnds(cfg.rProbe - Floor(cfg));
  }

  /** One step of the band. */
  function Unit(cfg: RateConfig): (u: real)
    requires cfg.loadLow < cfg.loadHigh
    ensures u > 0.0 && u * (cfg.loadHigh - cfg.loadLow) as real == 1.0
  {
    1.0 / (cfg.loadHigh - cfg.loadLow) as real
  }

  lemma PositionSteps(cfg: RateConfig, inflight: int)
    requires cfg.loadLow < cfg.loadHigh
    ensures 0.0 <= Position(cfg, inflight + 1) - Position(cfg, inflight) <= Unit(cfg)
  {
    var w := (cfg.loadHigh - cfg.loadLow) as real;
    if cfg.adaptive && cfg.loadLow <= inflight < cfg.loadHigh {
      var x := (inflight - cfg.loadLow) as real;
      assert (x + 1.0) / w == x / w + 1.0 / w;
      assert w / w == 1.0;
      assert 0.0 / w == 0.0;
    }
  }

  /** More load never raises the rate, across every branch, and one more forwarded request lowers it
      by no more than (rate - floor) / (high - low). */
  lemma RateFallsGently(cfg: RateConfig, inflight: int)
    ensures EffectiveRProbe(cfg, inflight + 1) <= EffectiveRProbe(cfg, inflight)
    ensures cfg.loadLow < cfg.loadHigh ==>
              EffectiveRProbe(cfg, inflight) - EffectiveRProbe(cfg, inflight + 1)
              <= (cfg.rProbe - Floor(cfg)) / (cfg.loadHigh - cfg.loadLow) as real
  {
    hide Scale, EffectiveRProbe, Position;
    RateIsPosition(cfg, inflight);
    RateIsPosition(cfg, inflight + 1);
    if cfg.loadLow < cfg.loadHigh {
      PositionSteps(cfg, inflight);
      var p, p' := Position(cfg, inflight), Position(cfg, inflight + 1);
      ScaleOrdered(p, p', cfg.rProbe - Floor(cfg));
      ScaledStep(p' - p, Unit(cfg), cfg.rProbe - Floor(cfg), (cfg.loadHigh - cfg.loadLow) as real);
    } else {
      NoBand(cfg, inflight);
    }
  }

  lemma NoBand(cfg: RateConfig, inflight: int)
    requires cfg.loadHigh <= cfg.loadLow
    ensures EffectiveRProbe(cfg, inflight) == EffectiveRProbe(cfg, inflight + 1)
  {}

  lemma ScaledStep(dp: real, u: real, d: real, w: real)
    requires dp <= u && d >= 0.0 && w > 0.0 && u * w == 1.0
    ensures Scale(dp, d) <= d / w
  {
    assert dp * d <= u * d;
    assert (u * d) * w == d;
  }

  lemma {:induction false} RateMonotone(cfg: RateConfig, i: int, j: int)
    requires i <= j
    ensures EffectiveRProbe(cfg, j) <= EffectiveRProbe(cfg, i)
    decreases j - i
  {
    if i < j {
      RateFallsGently(cfg, j - 1);
      RateMonotone(cfg, i, j - 1);
    }
  }

  // ---------------------------------------------------------------------------------------------
  // From rate to number

  /** How many probes one query triggers; draw is the random number in [0, 1). */
  function ProbeCount(r: real, draw: real): int {
    if r <= 0.0 then 0
    else
      var count := Trunc(r);
      var frac := r - count as real;
      if frac > 0.0 && draw < frac then count + 1 else count
  }

  /** The count is the floor or the ceiling of the rate, and the exact rate when that is whole. */
  lemma CountIsFloorOrCeiling(r: real, draw: real)
    requires r > 0.0
    ensures r - 1.0 < ProbeCount(r, draw) as real < r + 1.0
    ensures ProbeCount(r, draw) == r.Floor || ProbeCount(r, draw) == r.Floor + 1
    ensures r == r.Floor as real ==> ProbeCount(r, draw) == r.Floor
    ensures ProbeCount(r, draw) == r.Floor + 1 <==> draw < r - r.Floor as real && r > r.Floor as real
  {}

  /** At a rate of zero or less, none. */
  lemma NoCountWithoutRate(r: real, draw: real)
    requires r <= 0.0
    ensures ProbeCount(r, draw) == 0
  {}

  /** The k-th of N equally spaced draws. */
  function GridPoint(k: nat, N: nat): real
    requires N > 0
  {
    k as real / N as real
  }

  function GridTotal(r: real, m: nat, N: nat): int
    requires N > 0
  {
    if m == 0 then 0 else GridTotal(r, m - 1, N) + ProbeCount(r, GridPoint(m - 1, N))
  }

  lemma GridBelow(k: nat, N: nat, frac: real)
    requires N > 0
    ensures GridPoint(k, N) < frac <==> k as real < Share(frac, N)
  {
    var x, n := GridPoint(k, N), N as real;
    assert x * n == k as real;
    if x < frac { assert x * n < frac * n; }
    if x >= frac { assert x * n >= frac * n; }
  }

  lemma {:induction false} GridTotalUpTo(r: real, m: nat, N: nat, extra: nat)
    requires r > 0.0 && N > 0 && Share(r - r.Floor as real, N) == extra as real
    ensures GridTotal(r, m, N) == Times(m, r.Floor) + (if m <= extra then m else extra)
  {
    if m > 0 {
      hide Share, GridPoint, Times;
      GridTotalUpTo(r, m - 1, N, extra);
      GridBelow(m - 1, N, r - r.Floor as real);
      TimesSucc(m - 1, r.Floor);
      ShareZero(r - r.Floor as real, N);
    }
  }

  lemma ShareZero(q: real, n: nat)
    ensures q == 0.0 ==> Share(q, n) == 0.0
  {}

  function Times(m: int, k: int): int { m * k }

  lemma TimesSucc(m: int, k: int)
    ensures Times(m + 1, k) == Times(m, k) + k
  {}

  /** Averaged over any N equally spaced draws with N*r whole, the rounding is exact: the counts add up
      to N*r. */
  lemma GridAverage(r: real, N: nat, total: int)
    requires r > 0.0 && N > 0 && Share(r, N) == total as real
    ensures GridTotal(r, N, N) == total
  {
    var whole := r.Floor;
    var frac := r - whole as real;
    var extra := total - Times(N, whole);
    assert Share(frac, N) == extra as real by {
      assert frac * N as real == r * N as real - whole as real * N as real;
      assert whole as real * N as real == (N * whole) as real;
    }
    assert 0.0 <= Share(frac, N) <= N as real by { ShareWithin(frac, N); }
    GridTotalUpTo(r, N, N, extra);
  }
}
