/** The selection rule as a whole: the threshold the window answers and the scan that uses it. */
module SelectionRule {
  import opened Basics
  import opened OrderStatistics
  import opened HotCold
  import opened ProbePool
  import RifWindow

  /** The threshold of a query that received this answer. */
  function HotThreshold(a: RifWindow.Answer): int { if a.valid then a.theta else -1 }

  ghost predicate LeastRif(pool: seq<Entry>, w: nat, cutoff: Option<int>) {
    && w < |pool| && Fresh(pool[w], cutoff)
    && forall j :: 0 <= j < |pool| && Fresh(pool[j], cutoff) ==>
         pool[w].rif <= pool[j].rif && (j < w ==> pool[w].rif < pool[j].rif)
  }

  ghost predicate LeastLatency(pool: seq<Entry>, w: nat, cutoff: Option<int>) {
    && w < |pool| && Fresh(pool[w], cutoff)
    && forall j :: 0 <= j < |pool| && Fresh(pool[j], cutoff) ==>
         pool[w].latency <= pool[j].latency && (j < w ==> pool[w].latency < pool[j].latency)
  }

  /** Over any run of the window, whatever was cached: a query whose window has too few samples is sent
      to the first fresh entry of least RIF when no RIF is negative, and with q >= 1 every other query
      is sent to the first fresh entry of least latency. */
  lemma ExtremeQuantiles(maxAge: int, es: seq<RifWindow.Event>, i: nat, pool: seq<Entry>, cutoff: Option<int>,
                         w: nat)
    requires i < |es| && es[i].Queried?
    requires forall j :: 0 <= j < |pool| ==> pool[j].rif <= MAX_INT32
    requires Decide(pool, HotThreshold(RifWindow.AnswerAt(maxAge, es, i)), cutoff) == Chosen(w)
    ensures var a := RifWindow.AnswerAt(maxAge, es, i);
            && (!a.valid && (forall j :: 0 <= j < |pool| ==> pool[j].rif >= 0) ==> LeastRif(pool, w, cutoff))
            && (a.valid && es[i].q >= 1.0 ==> LeastLatency(pool, w, cutoff))
  {
    var a := RifWindow.AnswerAt(maxAge, es, i);
    var j := RifWindow.AnswerHasRecentOrigin(maxAge, es, i);
    assert a.valid && es[i].q >= 1.0 ==> a.theta == MAX_INT32;
    ScanFindsFirstBest(pool, HotThreshold(a), cutoff);
    WinnerMeaning(pool, HotThreshold(a), cutoff, w);
  }

  /** From history to threshold: over every run of the window with ordered times, the threshold of a
      query is -1 when the history had fewer than 16 samples not aged out, as of a query for the same q
      less than 100 ms before; else the greatest 32-bit number when q >= 1; else a RIF of those samples
      with at most a (1-q) share of them above it and less than a q share below. */
  lemma ThresholdOfHistory(maxAge: int, es: seq<RifWindow.Event>, i: nat) returns (j: nat)
    requires RifWindow.TimesOrdered(es) && i < |es| && es[i].Queried?
    ensures j <= i && es[j].Queried? && es[j].q == es[i].q && 0 <= es[i].now - es[j].now < 100_000_000
    ensures var q, theta := es[i].q, HotThreshold(RifWindow.AnswerAt(maxAge, es, i));
            var rifs := RifWindow.Rifs(RifWindow.Fresh(RifWindow.History(es[..j]), es[j].now - maxAge));
            && (|rifs| < 16 ==> theta == -1)
            && (|rifs| >= 16 && q >= 1.0 ==> theta == 0x7FFF_FFFF)
            && (|rifs| >= 16 && 0.0 <= q < 1.0 ==>
                  && theta in rifs
                  && (|rifs| - AtMost(rifs, theta)) as real <= Share(1.0 - q, |rifs|)
                  && (q > 0.0 ==> Below(rifs, theta) as real < Share(q, |rifs|))
                  && (q == 0.0 ==> Below(rifs, theta) == 0))
  {
    hide RifWindow.TimesOrdered, RifWindow.AnswerAt, RifWindow.NaiveQuantile, RifWindow.Fresh, RifWindow.History;
    hide AtMost, Below, Share;
    j := RifWindow.WindowRefinesHistory(maxAge, es, i);
    var rifs := RifWindow.Rifs(RifWindow.Fresh(RifWindow.History(es[..j]), es[j].now - maxAge));
    RifWindow.ValidFrom16(rifs, es[i].q);
    if |rifs| >= 16 && 0.0 <= es[i].q < 1.0 {
      RifWindow.QuantileShares(rifs, es[i].q);
    }
  }
}
