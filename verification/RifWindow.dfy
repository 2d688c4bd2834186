/** The sliding-window RIF distribution, as a specification.

    A distribution is the list of samples still held plus the cached last answer. The reference it
    is measured against keeps the whole history and, on every query, filters it by time, sorts what
    is left and takes one order statistic. */
module RifWindow {
  import opened Basics
  import opened OrderStatistics

  const MIN_RIF_SAMPLES: nat := 16
  // Durations and instants are integers in nanoseconds: 100 ms.
  const QUANTILE_CACHE_TTL: int := 100_000_000
  datatype Sample = Sample(rif: Int32, t: int)

  datatype Answer = Answer(theta: int, valid: bool)

  datatype CachedAnswer = CachedAnswer(q: real, answer: Answer, computedAt: int)

  datatype Distribution = Distribution(samples: seq<Sample>, cache: Option<CachedAnswer>)

  function Rifs(s: seq<Sample>): seq<Int32> {
    seq(|s|, i requires 0 <= i < |s| => s[i].rif)
  }

  // ---------------------------------------------------------------------------------------------
  // The order statistic

  function Ceil(x: real): int { -((-x).Floor) }

  /** The rank, counting from 1, at which a running count first reaches the target. */
  function Rank(target: real): (k: nat)
    ensures k >= 1 && target <= k as real
    ensures k > 1 ==> (k - 1) as real < target
  {
    if target <= 0.0 then 1 else Ceil(target)
  }

  /** The running count quantile q asks for; a negative q counts as zero. */
  function Target(q: real, n: nat): real {
    Share(if q < 0.0 then 0.0 else q, n)
  }

  /** The reference: sort everything and index. */
  function NaiveQuantile(rifs: seq<int>, q: real): Answer {
    if |rifs| < MIN_RIF_SAMPLES then Answer(0, false)
    else if q >= 1.0 then Answer(MAX_INT32, true)
    else Answer(Kth(rifs, Rank(Target(q, |rifs|))), true)
  }

  /** An answer is valid from 16 samples on, whatever q is, and a negative q counts as zero. */
  lemma ValidFrom16(rifs: seq<int>, q: real)
    ensures NaiveQuantile(rifs, q).valid <==> |rifs| >= 16
    ensures |rifs| >= 16 && q >= 1.0 ==> NaiveQuantile(rifs, q).theta == 0x7FFF_FFFF
    ensures q < 0.0 ==> NaiveQuantile(rifs, q) == NaiveQuantile(rifs, 0.0)
  {}

  /** What the answer promises about the samples: it is valid, it is one of them, at most a (1-q) share
      lies above it and less than a q share below it. */
  lemma QuantileShares(rifs: seq<int>, q: real)
    requires |rifs| >= 16 && 0.0 <= q < 1.0
    ensures var theta := NaiveQuantile(rifs, q).theta;
            && NaiveQuantile(rifs, q).valid && theta in rifs
            && (|rifs| - AtMost(rifs, theta)) as real <= Share(1.0 - q, |rifs|)
            && (q > 0.0 ==> Below(rifs, theta) as real < Share(q, |rifs|))
            && (q == 0.0 ==> Below(rifs, theta) == 0)
  {
    var k := Rank(Target(q, |rifs|));
    var theta := Kth(rifs, k);
    KthIff(rifs, k, theta);
    BelowBound(rifs, theta + 1);
    ShareComplement(q, |rifs|);
  }

  /** A larger q never lowers the threshold, across the saturated branch q >= 1 as well. */
  lemma QuantileMonotone(samples: seq<Sample>, q: real, q': real)
    requires q <= q'
    ensures var a, b := NaiveQuantile(Rifs(samples), q), NaiveQuantile(Rifs(samples), q');
            a.valid == b.valid && a.theta <= b.theta
  {
    var rifs := Rifs(samples);
    if |rifs| >= MIN_RIF_SAMPLES && q < 1.0 {
      var k := Rank(Target(q, |rifs|));
      if q' < 1.0 {
        ShareMonotone(if q < 0.0 then 0.0 else q, if q' < 0.0 then 0.0 else q', |rifs|);
        KthMonotone(rifs, k, Rank(Target(q', |rifs|)));
      } else {
        KthIff(rifs, k, Kth(rifs, k));
      }
    }
  }

  // ---------------------------------------------------------------------------------------------
  // Eviction

  ghost predicate Stale(s: Sample, cutoff: int) { s.t <= cutoff }

  /** Drop samples from the front while they are stale. */
  function Evict(s: seq<Sample>, cutoff: int): seq<Sample> {
    if s != [] && s[0].t <= cutoff then Evict(s[1..], cutoff) else s
  }

  /** Keep the samples that are not stale, wherever they stand. */
  function Fresh(s: seq<Sample>, cutoff: int): seq<Sample> {
    if s == [] then []
    else (if s[0].t <= cutoff then [] else [s[0]]) + Fresh(s[1..], cutoff)
  }

  ghost predicate LongestStalePrefix(s: seq<Sample>, cutoff: int, k: nat) {
    && k <= |s|
    && (forall i :: 0 <= i < k ==> Stale(s[i], cutoff))
    && (k < |s| ==> !Stale(s[k], cutoff))
  }

  /** Eviction leaves the suffix after the longest stale prefix, whatever the order of the times. */
  lemma {:induction false} EvictDropsLongestStalePrefix(s: seq<Sample>, cutoff: int, k: nat)
    ensures |Evict(s, cutoff)| <= |s|
    ensures LongestStalePrefix(s, cutoff, k) <==> k == |s| - |Evict(s, cutoff)|
    ensures LongestStalePrefix(s, cutoff, k) ==> Evict(s, cutoff) == s[k..]
  {
    if s != [] && s[0].t <= cutoff {
      var rest := s[1..];
      if k > 0 {
        EvictDropsLongestStalePrefix(rest, cutoff, k - 1);
        if LongestStalePrefix(rest, cutoff, k - 1) {
          forall i | 0 <= i < k ensures Stale(s[i], cutoff) {
            if i > 0 { assert Stale(rest[i - 1], cutoff); }
          }
        }
        if LongestStalePrefix(s, cutoff, k) {
          forall i | 0 <= i < k - 1 ensures Stale(rest[i], cutoff) {
            assert Stale(s[i + 1], cutoff);
          }
          assert rest[k - 1..] == s[k..];
        }
      } else {
        EvictDropsLongestStalePrefix(rest, cutoff, 0);
      }
    } else if k > 0 && s != [] && LongestStalePrefix(s, cutoff, k) {
      assert Stale(s[0], cutoff);
    }
  }

  lemma {:induction false} FreshAll(s: seq<Sample>, cutoff: int)
    requires forall i :: 0 <= i < |s| ==> !Stale(s[i], cutoff)
    ensures Fresh(s, cutoff) == s
  {
    if s != [] { FreshAll(s[1..], cutoff); }
  }

  lemma {:induction false} FreshNone(s: seq<Sample>, cutoff: int)
    requires forall i :: 0 <= i < |s| ==> Stale(s[i], cutoff)
    ensures Fresh(s, cutoff) == []
  {
    if s != [] { FreshNone(s[1..], cutoff); }
  }

  lemma {:induction false} FreshAppend(a: seq<Sample>, b: seq<Sample>, cutoff: int)
    ensures Fresh(a + b, cutoff) == Fresh(a, cutoff) + Fresh(b, cutoff)
  {
    if a == [] {
      assert a + b == b;
    } else {
      assert (a + b)[1..] == a[1..] + b;
      FreshAppend(a[1..], b, cutoff);
    }
  }

  lemma {:induction false} FreshHasNoStale(s: seq<Sample>, cutoff: int)
    ensures forall i :: 0 <= i < |Fresh(s, cutoff)| ==> !Stale(Fresh(s, cutoff)[i], cutoff)
  {
    if s != [] { FreshHasNoStale(s[1..], cutoff); }
  }

  /** The filter keeps exactly the samples taken strictly after the cutoff, as many as there are. */
  lemma {:induction false} FreshMeaning(s: seq<Sample>, cutoff: int)
    ensures forall i :: 0 <= i < |Fresh(s, cutoff)| ==> Fresh(s, cutoff)[i].t > cutoff
    ensures forall i :: 0 <= i < |s| && s[i].t > cutoff ==> s[i] in Fresh(s, cutoff)
    ensures |Fresh(s, cutoff)| == YoungerThan(s, cutoff)
  {
    if s != [] {
      FreshMeaning(s[1..], cutoff);
      assert forall i :: 1 <= i < |s| ==> s[i] == s[1..][i - 1];
    }
  }

  ghost function YoungerThan(s: seq<Sample>, cutoff: int): nat {
    if s == [] then 0 else (if s[0].t > cutoff then 1 else 0) + YoungerThan(s[1..], cutoff)
  }

  /** No stale sample stands behind a fresh one. */
  ghost predicate StaleFirst(s: seq<Sample>, cutoff: int) {
    forall i, j :: 0 <= i < j < |s| && !Stale(s[i], cutoff) ==> !Stale(s[j], cutoff)
  }

  /** Prefix eviction is the time filter exactly when no stale sample stands behind a fresh one. */
  lemma EvictIsFilterIff(s: seq<Sample>, cutoff: int)
    ensures Evict(s, cutoff) == Fresh(s, cutoff) <==> StaleFirst(s, cutoff)
  {
    EvictDropsLongestStalePrefix(s, cutoff, 0);
    var k := |s| - |Evict(s, cutoff)|;
    EvictDropsLongestStalePrefix(s, cutoff, k);
    if StaleFirst(s, cutoff) {
      FilterIsSuffix(s, cutoff, k);
    }
    if Evict(s, cutoff) == Fresh(s, cutoff) {
      FreshHasNoStale(s, cutoff);
      forall i, j | 0 <= i < j < |s| && !Stale(s[i], cutoff) ensures !Stale(s[j], cutoff) {
        assert i >= k;
        assert s[j] == s[k..][j - k];
      }
    }
  }

  lemma FilterIsSuffix(s: seq<Sample>, cutoff: int, k: nat)
    requires StaleFirst(s, cutoff) && LongestStalePrefix(s, cutoff, k)
    ensures Fresh(s, cutoff) == s[k..]
  {
    FreshNone(s[..k], cutoff);
    FreshAppend(s[..k], s[k..], cutoff);
    assert s == s[..k] + s[k..];
    forall j | 0 <= j < |s[k..]| ensures !Stale(s[k..][j], cutoff) {
      assert s[k..][j] == s[k + j];
    }
    FreshAll(s[k..], cutoff);
  }

  // ---------------------------------------------------------------------------------------------
  // The machine and its runs

  function Observe(d: Distribution, rif: Int32, t: int): Distribution {
    d.(samples := d.samples + [Sample(rif, t)])
  }

  ghost predicate CacheHit(d: Distribution, q: real, now: int) {
    d.cache.Some? && d.cache.value.q == q && now - d.cache.value.computedAt < QUANTILE_CACHE_TTL
  }

  /** One call of Quantile: the new state and the answer. */
  ghost function Query(d: Distribution, maxAge: int, q: real, now: int): (Distribution, Answer) {
    if CacheHit(d, q, now) then (d, d.cache.value.answer)
    else
      var kept := Evict(d.samples, now - maxAge);
      var answer := NaiveQuantile(Rifs(kept), q);
      (Distribution(kept, Some(CachedAnswer(q, answer, now))), answer)
  }

  /** A cached answer for the same q serves for 100 ms and changes nothing; any other query evicts,
      answers from what is left and replaces the cached answer. */
  lemma QueryUsesCache(d: Distribution, maxAge: int, q: real, now: int)
    ensures var (d', a) := Query(d, maxAge, q, now);
            if d.cache.Some? && d.cache.value.q == q && now - d.cache.value.computedAt < 100_000_000 then
              d' == d && a == d.cache.value.answer
            else
              && d'.samples == Evict(d.samples, now - maxAge)
              && a == NaiveQuantile(Rifs(d'.samples), q)
              && d'.cache == Some(CachedAnswer(q, a, now))
  {}

  datatype Event = Observed(rif: Int32, t: int) | Queried(q: real, now: int)

  ghost function Step(d: Distribution, maxAge: int, e: Event): Distribution {
    match e
    case Observed(rif, t) => Observe(d, rif, t)
    case Queried(q, now) => Query(d, maxAge, q, now).0
  }

  ghost function Run(maxAge: int, es: seq<Event>): Distribution {
    if es == [] then Distribution([], None)
    else Step(Run(maxAge, es[..|es| - 1]), maxAge, es[|es| - 1])
  }

  /** The answer the i-th event, a query, received. */
  ghost function AnswerAt(maxAge: int, es: seq<Event>, i: nat): Answer
    requires i < |es| && es[i].Queried?
  {
    Query(Run(maxAge, es[..i]), maxAge, es[i].q, es[i].now).1
  }

  /** Every sample ever observed, in arrival order. */
  ghost function History(es: seq<Event>): seq<Sample> {
    if es == [] then []
    else
      History(es[..|es| - 1]) +
      (if es[|es| - 1].Observed? then [Sample(es[|es| - 1].rif, es[|es| - 1].t)] else [])
  }

  /** What the reference would answer to the j-th event. */
  ghost function NaiveAt(maxAge: int, es: seq<Event>, j: nat): Answer
    requires j < |es| && es[j].Queried?
  {
    NaiveQuantile(Rifs(Fresh(History(es[..j]), es[j].now - maxAge)), es[j].q)
  }

  /** Observations are in time order among themselves, and so are queries; nothing is asked about
      how the two interleave. */
  ghost predicate TimesOrdered(es: seq<Event>) {
    && (forall i, j :: 0 <= i < j < |es| && es[i].Observed? && es[j].Observed? ==> es[i].t <= es[j].t)
    && (forall i, j :: 0 <= i < j < |es| && es[i].Queried? && es[j].Queried? ==> es[i].now <= es[j].now)
  }

  ghost predicate SamplesOrdered(s: seq<Sample>) {
    forall i, j :: 0 <= i < j < |s| ==> s[i].t <= s[j].t
  }

  ghost predicate ObservedIn(es: seq<Event>, t: int) {
    exists j :: 0 <= j < |es| && es[j].Observed? && es[j].t == t
  }

  lemma ObservedInLonger(es: seq<Event>, e: Event, t: int)
    requires ObservedIn(es, t)
    ensures ObservedIn(es + [e], t)
  {
    var j :| 0 <= j < |es| && es[j].Observed? && es[j].t == t;
    assert (es + [e])[j] == es[j];
  }

  lemma {:induction false} HistoryOrdered(es: seq<Event>)
    requires TimesOrdered(es)
    ensures SamplesOrdered(History(es))
    ensures forall i :: 0 <= i < |History(es)| ==> ObservedIn(es, History(es)[i].t)
  {
    if es != [] {
      var init, last := es[..|es| - 1], es[|es| - 1];
      assert es == init + [last];
      assert forall i :: 0 <= i < |init| ==> init[i] == es[i];
      HistoryOrdered(init);
      var h, h' := History(init), History(es);
      forall i | 0 <= i < |h'| ensures ObservedIn(es, h'[i].t) {
        if i < |h| {
          ObservedInLonger(init, last, h[i].t);
        } else {
          assert es[|es| - 1].Observed? && es[|es| - 1].t == h'[i].t;
        }
      }
      forall i, j | 0 <= i < j < |h'| ensures h'[i].t <= h'[j].t {
        if j == |h| {
          assert ObservedIn(init, h[i].t);
        }
      }
    }
  }

  /** Some query of the run found this sample too old. */
  ghost predicate AgedOut(maxAge: int, es: seq<Event>, s: Sample) {
    exists j :: 0 <= j < |es| && es[j].Queried? && Stale(s, es[j].now - maxAge)
  }

  lemma AgedOutLonger(maxAge: int, es: seq<Event>, e: Event, s: Sample)
    requires AgedOut(maxAge, es, s)
    ensures AgedOut(maxAge, es + [e], s)
  {
    var j :| 0 <= j < |es| && es[j].Queried? && Stale(s, es[j].now - maxAge);
    assert (es + [e])[j] == es[j];
  }

  ghost predicate HoldsSuffix(maxAge: int, es: seq<Event>) {
    var h, s := History(es), Run(maxAge, es).samples;
    && |s| <= |h|
    && s == h[|h| - |s|..]
    && forall i :: 0 <= i < |h| - |s| ==> AgedOut(maxAge, es, h[i])
  }

  /** After any run, with no assumption on the times, the samples held are a suffix of the history,
      and everything dropped had aged out for some query of the run. */
  lemma {:induction false} RunHoldsSuffix(maxAge: int, es: seq<Event>)
    ensures HoldsSuffix(maxAge, es)
  {
    if es != [] {
      var init, last := es[..|es| - 1], es[|es| - 1];
      assert es == init + [last];
      RunHoldsSuffix(maxAge, init);
      var h := History(init);
      var k := |h| - |Run(maxAge, init).samples|;
      forall i | 0 <= i < k ensures AgedOut(maxAge, es, h[i]) {
        AgedOutLonger(maxAge, init, last, h[i]);
      }
      if last.Queried? && !CacheHit(Run(maxAge, init), last.q, last.now) {
        QueryHoldsSuffix(maxAge, init, last);
      } else {
        assert forall i :: 0 <= i < k ==> History(es)[i] == h[i];
      }
    }
  }

  lemma RunOfMiss(maxAge: int, es: seq<Event>, e: Event)
    requires e.Queried? && !CacheHit(Run(maxAge, es), e.q, e.now)
    ensures Run(maxAge, es + [e]).samples == Evict(Run(maxAge, es).samples, e.now - maxAge)
    ensures History(es + [e]) == History(es)
  {
    assert (es + [e])[..|es|] == es;
  }

  lemma QueryHoldsSuffix(maxAge: int, es: seq<Event>, e: Event)
    requires HoldsSuffix(maxAge, es)
    requires e.Queried? && !CacheHit(Run(maxAge, es), e.q, e.now)
    ensures HoldsSuffix(maxAge, es + [e])
  {
    hide History, Run, Evict, AgedOut;
    var cutoff := e.now - maxAge;
    var h, s := History(es), Run(maxAge, es).samples;
    var n := |Evict(s, cutoff)|;
    var k, k' := |h| - |s|, |h| - n;
    RunOfMiss(maxAge, es, e);
    EvictDropsLongestStalePrefix(s, cutoff, 0);
    EvictDropsLongestStalePrefix(s, cutoff, |s| - n);
    SuffixOfSuffix(h, k, |s| - n);
    forall i | 0 <= i < k' ensures AgedOut(maxAge, es + [e], h[i]) {
      if i < k {
        AgedOutLonger(maxAge, es, e, h[i]);
      } else {
        assert h[i] == s[i - k] && Stale(s[i - k], cutoff);
        AgesOutNow(maxAge, es, e, h[i]);
      }
    }
  }

  lemma SuffixOfSuffix(h: seq<Sample>, k: nat, l: nat)
    requires k + l <= |h|
    ensures h[k..][l..] == h[k + l..]
  {}

  lemma AgesOutNow(maxAge: int, es: seq<Event>, e: Event, s: Sample)
    requires e.Queried? && Stale(s, e.now - maxAge)
    ensures AgedOut(maxAge, es + [e], s)
  {
    var es' := es + [e];
    assert es'[|es|].Queried? && Stale(s, es'[|es|].now - maxAge);
  }

  // ---------------------------------------------------------------------------------------------
  // The window against the whole history

  lemma {:induction false} NothingFresh(s: seq<Sample>, cutoff: int)
    requires Fresh(s, cutoff) == []
    ensures forall i :: 0 <= i < |s| ==> Stale(s[i], cutoff)
  {
    if s != [] { NothingFresh(s[1..], cutoff); }
  }

  /** Evicting from a suffix of a history filters the whole history exactly when no stale sample of the
      suffix stands behind a fresh one and nothing before the suffix is fresh. */
  lemma SuffixIsHistoryIff(h: seq<Sample>, k: nat, cutoff: int)
    requires k <= |h|
    ensures Evict(h[k..], cutoff) == Fresh(h, cutoff)
            <==> StaleFirst(h[k..], cutoff) && forall i :: 0 <= i < k ==> Stale(h[i], cutoff)
  {
    hide Evict, Fresh, StaleFirst;
    var s := h[k..];
    assert h == h[..k] + s;
    FreshAppend(h[..k], s, cutoff);
    EvictIsFilterIff(s, cutoff);
    if forall i :: 0 <= i < k ==> Stale(h[i], cutoff) {
      FreshNone(h[..k], cutoff);
    }
    if Evict(s, cutoff) == Fresh(h, cutoff) {
      FreshHasNoStale(h, cutoff);
      EvictedAllFresh(s, cutoff);
      NothingFresh(h[..k], cutoff);
      forall i | 0 <= i < k ensures Stale(h[i], cutoff) {
        assert h[..k][i] == h[i];
      }
    }
  }

  /** What a query at this instant needs of the run before it: no stale sample stands behind a fresh
      one among those held, and none of those dropped would be fresh again. */
  ghost predicate LosesNothing(maxAge: int, es: seq<Event>, now: int) {
    var h, s := History(es), Run(maxAge, es).samples;
    && StaleFirst(s, now - maxAge)
    && forall i :: 0 <= i < |h| - |s| ==> Stale(h[i], now - maxAge)
  }

  /** After any run, evicting from the samples held filters the whole history by age exactly under
      that condition. */
  lemma WindowIsHistoryIff(maxAge: int, es: seq<Event>, now: int)
    ensures var cutoff := now - maxAge;
            Evict(Run(maxAge, es).samples, cutoff) == Fresh(History(es), cutoff)
            <==> LosesNothing(maxAge, es, now)
  {
    hide Evict, Fresh, History, Run, StaleFirst;
    RunHoldsSuffix(maxAge, es);
    var h, s := History(es), Run(maxAge, es).samples;
    SuffixIsHistoryIff(h, |h| - |s|, now - maxAge);
  }

  /** When eviction leaves no stale sample it is the filter. */
  lemma EvictedAllFresh(s: seq<Sample>, cutoff: int)
    requires forall i :: 0 <= i < |Evict(s, cutoff)| ==> !Stale(Evict(s, cutoff)[i], cutoff)
    ensures Evict(s, cutoff) == Fresh(s, cutoff)
  {
    EvictDropsLongestStalePrefix(s, cutoff, 0);
    var k := |s| - |Evict(s, cutoff)|;
    EvictDropsLongestStalePrefix(s, cutoff, k);
    assert s == s[..k] + s[k..];
    FreshAppend(s[..k], s[k..], cutoff);
    FreshNone(s[..k], cutoff);
    FreshAll(s[k..], cutoff);
  }

  lemma OrderedIsStaleFirst(h: seq<Sample>, k: nat, cutoff: int)
    requires SamplesOrdered(h) && k <= |h|
    ensures StaleFirst(h[k..], cutoff)
  {
    var s := h[k..];
    forall i, j | 0 <= i < j < |s| && !Stale(s[i], cutoff) ensures !Stale(s[j], cutoff) {
      assert h[k + i].t <= h[k + j].t;
    }
  }

  /** Ordered times meet the condition at every query. */
  lemma OrderedLosesNothing(maxAge: int, es: seq<Event>, i: nat)
    requires TimesOrdered(es) && i < |es| && es[i].Queried?
    ensures LosesNothing(maxAge, es[..i], es[i].now)
  {
    var before, cutoff := es[..i], es[i].now - maxAge;
    var h, s := History(before), Run(maxAge, before).samples;
    RunHoldsSuffix(maxAge, before);
    HistoryOrdered(before);
    var k := |h| - |s|;
    forall x | 0 <= x < k ensures Stale(h[x], cutoff) {
      AgedOutStays(maxAge, es, i, h[x]);
    }
    OrderedIsStaleFirst(h, k, cutoff);
  }

  /** A query that misses the cache answers as the reference does on the whole history, whenever
      nothing is lost. */
  lemma MissAnswersFromHistory(maxAge: int, es: seq<Event>, i: nat)
    requires i < |es| && es[i].Queried? && LosesNothing(maxAge, es[..i], es[i].now)
    requires !CacheHit(Run(maxAge, es[..i]), es[i].q, es[i].now)
    ensures AnswerAt(maxAge, es, i) == NaiveAt(maxAge, es, i)
  {
    hide Evict, Fresh, NaiveQuantile, History, Run, Rifs, LosesNothing;
    WindowIsHistoryIff(maxAge, es[..i], es[i].now);
  }

  /** Whether an answer is valid is the history's business too: it takes 16 samples not aged out. */
  lemma MissValidFrom16(maxAge: int, es: seq<Event>, i: nat)
    requires TimesOrdered(es) && i < |es| && es[i].Queried?
    requires !CacheHit(Run(maxAge, es[..i]), es[i].q, es[i].now)
    ensures AnswerAt(maxAge, es, i).valid <==> |Fresh(History(es[..i]), es[i].now - maxAge)| >= 16
  {
    hide CacheHit, History, Fresh, AnswerAt, NaiveQuantile, TimesOrdered;
    MissAnswersNaively(maxAge, es, i);
    ValidFrom16(Rifs(Fresh(History(es[..i]), es[i].now - maxAge)), es[i].q);
  }

  /** In particular when times are ordered. */
  lemma MissAnswersNaively(maxAge: int, es: seq<Event>, i: nat)
    requires TimesOrdered(es) && i < |es| && es[i].Queried?
    requires !CacheHit(Run(maxAge, es[..i]), es[i].q, es[i].now)
    ensures AnswerAt(maxAge, es, i) == NaiveAt(maxAge, es, i)
  {
    hide LosesNothing, TimesOrdered, CacheHit;
    OrderedLosesNothing(maxAge, es, i);
    MissAnswersFromHistory(maxAge, es, i);
  }

  lemma AgedOutStays(maxAge: int, es: seq<Event>, i: nat, s: Sample)
    requires TimesOrdered(es) && i < |es| && es[i].Queried?
    requires AgedOut(maxAge, es[..i], s)
    ensures Stale(s, es[i].now - maxAge)
  {
    var j :| 0 <= j < i && es[..i][j].Queried? && Stale(s, es[..i][j].now - maxAge);
    assert es[j].now <= es[i].now;
  }

  /** The j-th event is the query whose computation produced this cached answer. */
  ghost predicate ComputedBy(maxAge: int, es: seq<Event>, j: nat, c: CachedAnswer) {
    && j < |es| && es[j].Queried? && es[j].q == c.q && es[j].now == c.computedAt
    && !CacheHit(Run(maxAge, es[..j]), es[j].q, es[j].now)
    && AnswerAt(maxAge, es, j) == c.answer
  }

  lemma {:induction false} CacheOrigin(maxAge: int, es: seq<Event>)
    requires Run(maxAge, es).cache.Some?
    ensures exists j: nat :: ComputedBy(maxAge, es, j, Run(maxAge, es).cache.value)
  {
    assert es != [];
    var init, last := es[..|es| - 1], es[|es| - 1];
    var c := Run(maxAge, es).cache.value;
    if last.Queried? && !CacheHit(Run(maxAge, init), last.q, last.now) {
      assert ComputedBy(maxAge, es, |es| - 1, c);
    } else {
      CacheOrigin(maxAge, init);
      var j: nat :| ComputedBy(maxAge, init, j, c);
      assert init[..j] == es[..j];
      assert ComputedBy(maxAge, es, j, c);
    }
  }

  /** Every answer was computed by some call of the same run for the same q, less than the cache
      lifetime before the call that received it: a hit never renews the age. */
  lemma AnswerHasRecentOrigin(maxAge: int, es: seq<Event>, i: nat) returns (j: nat)
    requires i < |es| && es[i].Queried?
    ensures j <= i && es[j].Queried? && es[j].q == es[i].q
    ensures j < i ==> es[i].now - es[j].now < QUANTILE_CACHE_TTL
    ensures !CacheHit(Run(maxAge, es[..j]), es[j].q, es[j].now)
    ensures AnswerAt(maxAge, es, i) == AnswerAt(maxAge, es, j)
  {
    var before := es[..i];
    if CacheHit(Run(maxAge, before), es[i].q, es[i].now) {
      CacheOrigin(maxAge, before);
      j :| ComputedBy(maxAge, before, j, Run(maxAge, before).cache.value);
      assert before[..j] == es[..j];
    } else {
      j := i;
    }
  }

  /** The window refines the reference: over every run with ordered times, each answer is the
      filtered, sorted order statistic of the whole history as of a query of the run less than the
      cache lifetime earlier. */
  lemma WindowRefinesHistory(maxAge: int, es: seq<Event>, i: nat) returns (j: nat)
    requires TimesOrdered(es) && i < |es| && es[i].Queried?
    ensures j <= i && es[j].Queried? && es[j].q == es[i].q
    ensures 0 <= es[i].now - es[j].now < QUANTILE_CACHE_TTL
    ensures AnswerAt(maxAge, es, i) == NaiveAt(maxAge, es, j)
  {
    j := AnswerHasRecentOrigin(maxAge, es, i);
    MissAnswersNaively(maxAge, es, j);
  }

  // ---------------------------------------------------------------------------------------------
  // Runs whose times are out of order

  lemma {:induction false} OnlyObservations(maxAge: int, es: seq<Event>)
    requires forall i :: 0 <= i < |es| ==> es[i].Observed?
    ensures |History(es)| == |es|
    ensures forall i :: 0 <= i < |es| ==> History(es)[i] == Sample(es[i].rif, es[i].t)
    ensures Run(maxAge, es) == Distribution(History(es), None)
  {
    if es != [] { OnlyObservations(maxAge, es[..|es| - 1]); }
  }

  lemma {:induction false} FreshShorter(s: seq<Sample>, cutoff: int)
    ensures |Fresh(s, cutoff)| <= |s|
  {
    if s != [] { FreshShorter(s[1..], cutoff); }
  }

  /** n observations of the same value at the same instant. */
  function Burst(n: nat, t: int): (es: seq<Event>)
    ensures |es| == n && forall i :: 0 <= i < n ==> es[i] == Observed(3, t)
  {
    seq(n, i => Observed(3, t))
  }

  /** A sample handled late: it stands behind fresh ones, outlives its age for as long as they are
      fresh, and makes a window valid that has one sample too few. */
  lemma LateSampleChangesAnswer()
    ensures var es := Burst(15, 20) + [Observed(3, 10), Queried(0.5, 22)];
            && !CacheHit(Run(5, es[..16]), 0.5, 22)
            && !LosesNothing(5, es[..16], 22)
            && AnswerAt(5, es, 16).valid && !NaiveAt(5, es, 16).valid
  {
    var seen := Burst(15, 20) + [Observed(3, 10)];
    assert (Burst(15, 20) + [Observed(3, 10), Queried(0.5, 22)])[..16] == seen;
    OnlyObservations(5, seen);
    var h := History(seen);
    assert h == h[..15] + [h[15]];
    FreshAppend(h[..15], [h[15]], 17);
    FreshNone([h[15]], 17);
    FreshShorter(h[..15], 17);
    assert !Stale(h[0], 17) && Stale(h[15], 17);
  }

  /** A query handled late: an earlier one with a later instant has evicted what it should still see. */
  lemma LateQueryChangesAnswer()
    ensures var es := Burst(16, 10) + [Queried(0.5, 20), Queried(0.25, 12)];
            && !CacheHit(Run(5, es[..17]), 0.25, 12)
            && !LosesNothing(5, es[..17], 12)
            && !AnswerAt(5, es, 17).valid && NaiveAt(5, es, 17).valid
  {
    var burst, seen := Burst(16, 10), Burst(16, 10) + [Queried(0.5, 20)];
    assert (burst + [Queried(0.5, 20), Queried(0.25, 12)])[..17] == seen;
    assert seen[..16] == burst;
    OnlyObservations(5, burst);
    var h := History(burst);
    EvictDropsLongestStalePrefix(h, 15, 16);
    assert LongestStalePrefix(h, 15, 16);
    RunOfMiss(5, burst, Queried(0.5, 20));
    assert Run(5, seen).samples == [] && History(seen) == h;
    FreshAll(h, 7);
    assert !Stale(h[0], 7);
  }
}
