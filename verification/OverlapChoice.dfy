/** What a query chooses when callers overlap: the first best of what it read. The RIFs of a list change
    while it is scanned, so the choice is measured against every entry as the scan read it. */
module OverlapChoice {
  import opened Basics
  import opened HotCold
  import opened Interleaving

  /** What a query has seen since it took its list: the list, the entries as read, and its settings. */
  datatype Look = Look(list: seq<nat>, seen: seq<Entry>, theta: int, cutoff: Option<int>)

  const NO_LOOK := Look([], [], 0, None)

  /** The entry as it stands. */
  function AsRead(s: State, id: nat): Entry
    requires id in s.entries
  {
    var e := s.entries[id];
    Entry(id, e.server, e.receivedAt, e.rif, e.latency, e.uses)
  }

  /** A load starts a new look at what is published; a scan step reads the next entry of the list. */
  function LookStep(l: Look, s: State, a: Action, t: nat): Look {
    if a.t != t then l
    else
      match a
      case LoadSnapshot(_, theta, cutoff) => Look(s.published, [], theta, cutoff)
      case ScanOne(_) =>
        if |l.seen| < |l.list| && l.list[|l.seen|] in s.entries
        then l.(seen := l.seen + [AsRead(s, l.list[|l.seen|])])
        else l
      case _ => l
  }

  /** The last look of call t in a run. */
  ghost function LookOf(acts: seq<Action>, cap: nat, T: nat, t: nat): Look {
    if acts == [] then NO_LOOK
    else
      var init := acts[..|acts| - 1];
      match Exec(init, cap, T)
      case None => NO_LOOK
      case Some(s) => LookStep(LookOf(init, cap, T, t), s, acts[|acts| - 1], t)
  }

  /** The first entries of the list have been read, in its order. */
  ghost predicate ReadInOrder(l: Look) {
    && |l.seen| <= |l.list|
    && forall i :: 0 <= i < |l.seen| ==> l.seen[i].id == l.list[i]
  }

  /** The whole list was read, at least two of the entries were fresh, and this is the first best. */
  ghost predicate Justifies(l: Look, id: nat) {
    && |l.seen| == |l.list| && ReadInOrder(l)
    && FreshCount(l.seen, l.cutoff) >= 2
    && exists w: nat :: FirstBest(l.seen, w, l.theta, l.cutoff) && l.list[w] == id
  }

  /** What a call holds agrees with its look. */
  ghost predicate Follows(c: Call, l: Look) {
    match c
    case Scanning(snap, pos, acc, theta, cutoff) =>
      && l.list == snap && |l.seen| == pos && ReadInOrder(l)
      && l.theta == theta && l.cutoff == cutoff
      && acc == BestScan(l.seen, theta, cutoff)
    case Bumping(winner, _, _) => Justifies(l, winner)
    case _ => true
  }

  lemma OthersStay(s: State, a: Action, cap: nat, t: nat)
    requires Enabled(s, a) && t != a.t
    ensures t in s.calls <==> t in Apply(s, a, cap).calls
    ensures t in s.calls ==> Apply(s, a, cap).calls[t] == s.calls[t]
  {
    hide Next, BestStep, Prefer;
  }

  lemma ReadsOn(l: Look, e: Entry)
    ensures BestScan(l.seen + [e], l.theta, l.cutoff) ==
            BestStep(BestScan(l.seen, l.theta, l.cutoff), |l.seen|, Fresh(e, l.cutoff), e.rif, e.latency, l.theta)
  {
    assert (l.seen + [e])[..|l.seen|] == l.seen;
  }

  lemma ScanFollows(s: State, t: nat, cap: nat, l: Look)
    requires Enabled(s, ScanOne(t)) && Follows(s.calls[t], l)
    ensures Follows(Apply(s, ScanOne(t), cap).calls[t], LookStep(l, s, ScanOne(t), t))
  {
    hide BestScan, BestStep;
    ReadsOn(l, AsRead(s, l.list[|l.seen|]));
  }

  /** The choice is the first best of the look, and there is none exactly when fewer than two of the
      entries read were fresh. */
  lemma ChooseFollows(s: State, t: nat, cap: nat, l: Look)
    requires Enabled(s, Choose(t)) && Follows(s.calls[t], l)
    ensures var s' := Apply(s, Choose(t), cap);
            && |l.seen| == |l.list| && ReadInOrder(l)
            && (FreshCount(l.seen, l.cutoff) < 2 ==> s'.calls[t] == Finished)
            && (FreshCount(l.seen, l.cutoff) >= 2 ==>
                  s'.calls[t].Bumping? && Justifies(l, s'.calls[t].winner))
  {
    hide BestScan, FirstBest;
    ScanFindsFirstBest(l.seen, l.theta, l.cutoff);
    if FreshCount(l.seen, l.cutoff) >= 2 {
      var w := Winner(l.seen, l.theta, l.cutoff).value;
      assert FirstBest(l.seen, w, l.theta, l.cutoff) && l.list[w] == Apply(s, Choose(t), cap).calls[t].winner;
    }
  }

  lemma StepFollows(s: State, a: Action, cap: nat, t: nat, l: Look)
    requires Enabled(s, a) && (t in s.calls ==> Follows(s.calls[t], l))
    ensures t in Apply(s, a, cap).calls ==> Follows(Apply(s, a, cap).calls[t], LookStep(l, s, a, t))
  {
    hide Next, BestStep, BestScan, FirstBest, Justifies;
    if a.t != t {
      OthersStay(s, a, cap, t);
    } else if a.ScanOne? {
      ScanFollows(s, t, cap, l);
    } else if a.Choose? {
      ChooseFollows(s, t, cap, l);
    } else if a.LoadSnapshot? {
      NothingScanned(a.theta, a.cutoff);
    }
  }

  lemma NothingScanned(theta: int, cutoff: Option<int>)
    ensures BestScan([], theta, cutoff) == NOTHING_SEEN
  {}

  lemma {:induction false} RunFollows(acts: seq<Action>, cap: nat, T: nat, t: nat)
    requires Exec(acts, cap, T).Some? && t in Exec(acts, cap, T).value.calls
    ensures Follows(Exec(acts, cap, T).value.calls[t], LookOf(acts, cap, T, t))
  {
    hide Apply, Enabled, Follows, LookStep, Queries;
    if acts != [] {
      var init := acts[..|acts| - 1];
      var s := Exec(init, cap, T).value;
      if t in s.calls {
        RunFollows(init, cap, T, t);
      }
      StepFollows(s, acts[|acts| - 1], cap, t, LookOf(init, cap, T, t));
    }
  }

  lemma ExecSplits(acts: seq<Action>, a: Action, cap: nat, T: nat)
    requires Exec(acts + [a], cap, T).Some?
    ensures Exec(acts, cap, T).Some? && Enabled(Exec(acts, cap, T).value, a)
    ensures Exec(acts + [a], cap, T).value == Apply(Exec(acts, cap, T).value, a, cap)
  {
    hide Apply, Enabled;
    assert (acts + [a])[..|acts|] == acts;
  }

  /** In every interleaving: when a query makes its choice it has read the whole list it took, and it
      goes on with the first best of the entries as it read them; it ends without a pick exactly when
      fewer than two of those were fresh. */
  lemma ChoosesFirstBest(acts: seq<Action>, cap: nat, T: nat, t: nat)
    requires Exec(acts + [Choose(t)], cap, T).Some?
    ensures var s', l := Exec(acts + [Choose(t)], cap, T).value, LookOf(acts, cap, T, t);
            && t in s'.calls
            && |l.seen| == |l.list| && ReadInOrder(l)
            && (FreshCount(l.seen, l.cutoff) < 2 <==> s'.calls[t] == Finished)
            && (FreshCount(l.seen, l.cutoff) >= 2 ==>
                  s'.calls[t].Bumping? && Justifies(l, s'.calls[t].winner))
  {
    hide Justifies, FreshCount;
    ExecSplits(acts, Choose(t), cap, T);
    RunFollows(acts, cap, T, t);
    ChooseFollows(Exec(acts, cap, T).value, t, cap, LookOf(acts, cap, T, t));
  }

  /** In every interleaving, every pick is the first best of what its query read, and it is that entry
      that loses a use. */
  lemma PicksFirstBest(acts: seq<Action>, cap: nat, T: nat, t: nat)
    requires Exec(acts + [SpendUse(t)], cap, T).Some?
    ensures var s, s' := Exec(acts, cap, T), Exec(acts + [SpendUse(t)], cap, T).value;
            && s.Some? && |s'.picks| == |s.value.picks| + 1
            && var id := s'.picks[|s.value.picks|];
               && s'.picks == s.value.picks + [id]
               && Justifies(LookOf(acts, cap, T, t), id)
               && id in s.value.entries
               && s'.entries == s.value.entries[id := s.value.entries[id].(uses := s.value.entries[id].uses - 1)]
  {
    hide Justifies;
    ExecSplits(acts, SpendUse(t), cap, T);
    RunFollows(acts, cap, T, t);
  }
}
