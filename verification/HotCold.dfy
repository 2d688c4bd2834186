/** Hot-cold lexicographic choice: one preorder decides both which entry a query is sent to and
    which entry is thrown away. An entry is hot when its RIF exceeds the threshold; cold entries
    come before hot ones, cold entries compare by latency and hot ones by RIF. */
module HotCold {
  import opened Basics

  /** A pooled probe. `id` stands for the identity of the Go pointer. */
  datatype Entry = Entry(id: nat, server: nat, receivedAt: int, rif: int, latency: int, uses: int)

  predicate Hot(e: Entry, theta: int) { e.rif > theta }

  /** a comes strictly before b. */
  predicate Better(a: Entry, b: Entry, theta: int) {
    if Hot(a, theta) != Hot(b, theta) then Hot(b, theta)
    else if Hot(a, theta) then a.rif < b.rif
    else a.latency < b.latency
  }

  /** Selection skips only what was received strictly before the cutoff; no cutoff, no skipping. */
  predicate Fresh(e: Entry, cutoff: Option<int>) {
    cutoff.None? || e.receivedAt >= cutoff.value
  }

  /** Position and key of the best candidate of one class so far. */
  datatype Candidate = Candidate(pos: nat, key: int)

  /** The variables of a selection or removal scan. */
  datatype Scan = Scan(seen: nat, hot: Option<Candidate>, cold: Option<Candidate>)

  const NOTHING_SEEN := Scan(0, None, None)

  /** The scan's choice between its two candidates. */
  function Prefer(first: Option<Candidate>, second: Option<Candidate>): Option<nat> {
    if first.Some? then Some(first.value.pos)
    else if second.Some? then Some(second.value.pos)
    else None
  }

  /** What entries of one class are compared by. */
  function Key(e: Entry, hot: bool): int {
    if hot then e.rif else e.latency
  }

  /** c is the first entry of the class with the extreme key: greatest for removal, least for
      selection. */
  ghost predicate Leads(pool: seq<Entry>, c: Option<Candidate>, hot: bool, greatest: bool, theta: int,
                        cutoff: Option<int>)
  {
    && (c.None? ==> forall j :: 0 <= j < |pool| ==> !InClass(pool[j], hot, theta, cutoff))
    && (c.Some? ==>
          && c.value.pos < |pool| && InClass(pool[c.value.pos], hot, theta, cutoff)
          && c.value.key == Key(pool[c.value.pos], hot)
          && forall j :: 0 <= j < |pool| && InClass(pool[j], hot, theta, cutoff) ==>
               && !Ahead(Key(pool[j], hot), c.value.key, greatest)
               && (j < c.value.pos ==> Ahead(c.value.key, Key(pool[j], hot), greatest)))
  }

  ghost predicate InClass(e: Entry, hot: bool, theta: int, cutoff: Option<int>) {
    Fresh(e, cutoff) && Hot(e, theta) == hot
  }

  ghost predicate Ahead(a: int, b: int, greatest: bool) {
    if greatest then a > b else a < b
  }

  lemma LeadsStep(pool: seq<Entry>, e: Entry, c: Option<Candidate>, hot: bool, greatest: bool, theta: int,
                  cutoff: Option<int>)
    requires Leads(pool, c, hot, greatest, theta, cutoff)
    ensures Leads(pool + [e],
                  if InClass(e, hot, theta, cutoff) && (c.None? || Ahead(Key(e, hot), c.value.key, greatest))
                  then Some(Candidate(|pool|, Key(e, hot))) else c,
                  hot, greatest, theta, cutoff)
  {}

  // ---------------------------------------------------------------------------------------------
  // The selection scan

  /** One iteration of the selection loop on the entry at pos, whose RIF was read as rif. */
  function BestStep(acc: Scan, pos: nat, eligible: bool, rif: int, latency: int, theta: int): Scan {
    if !eligible then acc
    else if rif > theta then
      acc.(seen := acc.seen + 1,
           hot := if acc.hot.None? || rif < acc.hot.value.key then Some(Candidate(pos, rif)) else acc.hot)
    else
      acc.(seen := acc.seen + 1,
           cold := if acc.cold.None? || latency < acc.cold.value.key then Some(Candidate(pos, latency))
                   else acc.cold)
  }

  function BestScan(pool: seq<Entry>, theta: int, cutoff: Option<int>): Scan {
    if pool == [] then NOTHING_SEEN
    else
      var n := |pool| - 1;
      BestStep(BestScan(pool[..n], theta, cutoff), n, Fresh(pool[n], cutoff), pool[n].rif,
               pool[n].latency, theta)
  }

  /** The position the selection loop ends with. */
  function Winner(pool: seq<Entry>, theta: int, cutoff: Option<int>): Option<nat> {
    var acc := BestScan(pool, theta, cutoff);
    Prefer(acc.cold, acc.hot)
  }

  function FreshCount(pool: seq<Entry>, cutoff: Option<int>): nat {
    if pool == [] then 0
    else FreshCount(pool[..|pool| - 1], cutoff) + (if Fresh(pool[|pool| - 1], cutoff) then 1 else 0)
  }

  /** w is the first minimum of the preorder over the fresh entries. */
  ghost predicate FirstBest(pool: seq<Entry>, w: nat, theta: int, cutoff: Option<int>) {
    && w < |pool| && Fresh(pool[w], cutoff)
    && forall j :: 0 <= j < |pool| && Fresh(pool[j], cutoff) ==>
         !Better(pool[j], pool[w], theta) && (j < w ==> Better(pool[w], pool[j], theta))
  }

  lemma {:induction false} BestScanLeads(pool: seq<Entry>, theta: int, cutoff: Option<int>)
    ensures var acc := BestScan(pool, theta, cutoff);
            && Leads(pool, acc.cold, false, false, theta, cutoff)
            && Leads(pool, acc.hot, true, false, theta, cutoff)
            && acc.seen == FreshCount(pool, cutoff)
  {
    if pool != [] {
      hide Leads;
      var n := |pool| - 1;
      var init, acc := pool[..n], BestScan(pool[..n], theta, cutoff);
      assert pool == init + [pool[n]];
      BestScanLeads(init, theta, cutoff);
      LeadsStep(init, pool[n], acc.cold, false, false, theta, cutoff);
      LeadsStep(init, pool[n], acc.hot, true, false, theta, cutoff);
    }
  }

  lemma FirstBestUnique(pool: seq<Entry>, v: nat, w: nat, theta: int, cutoff: Option<int>)
    requires FirstBest(pool, v, theta, cutoff) && FirstBest(pool, w, theta, cutoff)
    ensures v == w
  {}

  /** The one-pass scan ends on w exactly when w is the first minimum of the preorder over the fresh
      entries, and on nothing exactly when none is fresh. */
  lemma ScanFindsFirstBest(pool: seq<Entry>, theta: int, cutoff: Option<int>)
    ensures BestScan(pool, theta, cutoff).seen == FreshCount(pool, cutoff)
    ensures forall w: nat :: Winner(pool, theta, cutoff) == Some(w) <==> FirstBest(pool, w, theta, cutoff)
    ensures Winner(pool, theta, cutoff).None? <==> FreshCount(pool, cutoff) == 0
  {
    BestScanLeads(pool, theta, cutoff);
    var acc := BestScan(pool, theta, cutoff);
    var win := Prefer(acc.cold, acc.hot);
    if win.Some? {
      assert FirstBest(pool, win.value, theta, cutoff);
      forall w: nat | FirstBest(pool, w, theta, cutoff) ensures w == win.value {
        FirstBestUnique(pool, w, win.value, theta, cutoff);
      }
      SomeFresh(pool, win.value, cutoff);
    } else {
      NoneFresh(pool, cutoff);
    }
  }

  lemma {:induction false} SomeFresh(pool: seq<Entry>, w: nat, cutoff: Option<int>)
    requires w < |pool| && Fresh(pool[w], cutoff)
    ensures FreshCount(pool, cutoff) > 0
  {
    if w < |pool| - 1 { SomeFresh(pool[..|pool| - 1], w, cutoff); }
  }

  lemma {:induction false} NoneFresh(pool: seq<Entry>, cutoff: Option<int>)
    requires forall j :: 0 <= j < |pool| ==> !Fresh(pool[j], cutoff)
    ensures FreshCount(pool, cutoff) == 0
  {
    if pool != [] { NoneFresh(pool[..|pool| - 1], cutoff); }
  }

  /** The number of fresh entries is the number of positions that hold one. */
  lemma {:induction false} FreshCountIsSize(pool: seq<Entry>, cutoff: Option<int>)
    ensures FreshCount(pool, cutoff) == |set i | 0 <= i < |pool| && Fresh(pool[i], cutoff)|
  {
    if pool != [] {
      var n := |pool| - 1;
      FreshCountIsSize(pool[..n], cutoff);
      var before := set i | 0 <= i < |pool[..n]| && Fresh(pool[..n][i], cutoff);
      var now := set i | 0 <= i < |pool| && Fresh(pool[i], cutoff);
      assert now == if Fresh(pool[n], cutoff) then before + {n} else before;
    }
  }

  /** What the winner means: the first fresh entry of least latency among those whose RIF does not
      exceed the threshold and, when there are none, the first fresh entry of least RIF. */
  lemma WinnerIsColdFirst(pool: seq<Entry>, theta: int, cutoff: Option<int>, w: nat)
    requires FirstBest(pool, w, theta, cutoff)
    ensures w < |pool| && Fresh(pool[w], cutoff)
    ensures pool[w].rif <= theta ==>
              forall j :: 0 <= j < |pool| && Fresh(pool[j], cutoff) && pool[j].rif <= theta ==>
                pool[w].latency <= pool[j].latency && (j < w ==> pool[w].latency < pool[j].latency)
    ensures pool[w].rif > theta ==>
              forall j :: 0 <= j < |pool| && Fresh(pool[j], cutoff) ==>
                theta < pool[w].rif <= pool[j].rif && (j < w ==> pool[w].rif < pool[j].rif)
  {}

  /** A hot entry wins only when every fresh entry is hot. With no usable
      threshold (theta = -1) and RIFs that are not negative it is a least-RIF choice; with a
      threshold no RIF exceeds (q >= 1) it is a least-latency choice. */
  lemma WinnerMeaning(pool: seq<Entry>, theta: int, cutoff: Option<int>, w: nat)
    requires Winner(pool, theta, cutoff) == Some(w)
    ensures w < |pool| && Fresh(pool[w], cutoff)
    ensures Hot(pool[w], theta) ==>
              forall j :: 0 <= j < |pool| && Fresh(pool[j], cutoff) ==> Hot(pool[j], theta)
    ensures theta == -1 && (forall j :: 0 <= j < |pool| ==> pool[j].rif >= 0) ==>
              forall j :: 0 <= j < |pool| && Fresh(pool[j], cutoff) ==>
                pool[w].rif <= pool[j].rif && (j < w ==> pool[w].rif < pool[j].rif)
    ensures (forall j :: 0 <= j < |pool| ==> pool[j].rif <= theta) ==>
              forall j :: 0 <= j < |pool| && Fresh(pool[j], cutoff) ==>
                pool[w].latency <= pool[j].latency && (j < w ==> pool[w].latency < pool[j].latency)
  {
    ScanFindsFirstBest(pool, theta, cutoff);
    assert FirstBest(pool, w, theta, cutoff);
  }

  // ---------------------------------------------------------------------------------------------
  // The removal scan

  /** One iteration of the loop that looks for the entry to throw away. */
  function WorstStep(acc: Scan, pos: nat, rif: int, latency: int, theta: int): Scan {
    if rif > theta then
      acc.(seen := acc.seen + 1,
           hot := if acc.hot.None? || rif > acc.hot.value.key then Some(Candidate(pos, rif)) else acc.hot)
    else
      acc.(seen := acc.seen + 1,
           cold := if acc.cold.None? || latency > acc.cold.value.key then Some(Candidate(pos, latency))
                   else acc.cold)
  }

  function WorstScan(pool: seq<Entry>, theta: int): Scan {
    if pool == [] then NOTHING_SEEN
    else
      var n := |pool| - 1;
      WorstStep(WorstScan(pool[..n], theta), n, pool[n].rif, pool[n].latency, theta)
  }

  function Victim(pool: seq<Entry>, theta: int): Option<nat> {
    var acc := WorstScan(pool, theta);
    Prefer(acc.hot, acc.cold)
  }

  /** v is the first maximum of the preorder over the whole pool. */
  ghost predicate FirstWorst(pool: seq<Entry>, v: nat, theta: int) {
    && v < |pool|
    && forall j :: 0 <= j < |pool| ==>
         !Better(pool[v], pool[j], theta) && (j < v ==> Better(pool[j], pool[v], theta))
  }

  lemma {:induction false} WorstScanLeads(pool: seq<Entry>, theta: int)
    ensures var acc := WorstScan(pool, theta);
            && Leads(pool, acc.cold, false, true, theta, None)
            && Leads(pool, acc.hot, true, true, theta, None)
  {
    if pool != [] {
      hide Leads;
      var n := |pool| - 1;
      var init, acc := pool[..n], WorstScan(pool[..n], theta);
      assert pool == init + [pool[n]];
      WorstScanLeads(init, theta);
      LeadsStep(init, pool[n], acc.cold, false, true, theta, None);
      LeadsStep(init, pool[n], acc.hot, true, true, theta, None);
    }
  }

  /** The removal scan ends on v exactly when v is the first maximum of the preorder, and it always
      ends on something unless the pool is empty. */
  lemma ScanFindsFirstWorst(pool: seq<Entry>, theta: int)
    ensures forall v: nat :: Victim(pool, theta) == Some(v) <==> FirstWorst(pool, v, theta)
    ensures Victim(pool, theta).None? <==> pool == []
  {
    WorstScanLeads(pool, theta);
    assert pool != [] ==> InClass(pool[0], Hot(pool[0], theta), theta, None);
    var acc := WorstScan(pool, theta);
    var worst := Prefer(acc.hot, acc.cold);
    if worst.Some? {
      assert FirstWorst(pool, worst.value, theta);
    }
  }

  /** The victim is the earliest entry of maximal RIF in the whole pool when any RIF exceeds the
      threshold, and the earliest entry of maximal latency when none does. */
  lemma VictimMeaning(pool: seq<Entry>, theta: int, v: nat)
    requires Victim(pool, theta) == Some(v)
    ensures v < |pool|
    ensures (exists j :: 0 <= j < |pool| && pool[j].rif > theta) ==>
              forall j :: 0 <= j < |pool| ==>
                pool[j].rif <= pool[v].rif && (j < v ==> pool[j].rif < pool[v].rif)
    ensures (forall j :: 0 <= j < |pool| ==> pool[j].rif <= theta) ==>
              forall j :: 0 <= j < |pool| ==>
                pool[j].latency <= pool[v].latency && (j < v ==> pool[j].latency < pool[v].latency)
  {
    ScanFindsFirstWorst(pool, theta);
    assert FirstWorst(pool, v, theta);
  }
}
