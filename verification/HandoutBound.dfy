/** How often one entry can be handed out when callers overlap. */
module HandoutBound {
  import opened Basics
  import opened Subsequences
  import opened Interleaving

  // ---------------------------------------------------------------------------------------------
  // The calls that matter to one entry

  /** The call may still spend a use of the entry: it holds a list with it, or has chosen it. */
  predicate MaySpend(c: Call, id: nat) {
    (c.Scanning? && id in c.snap) || (c.Bumping? && c.winner == id)
  }

  /** The call has used the entry up and has yet to take it out of the list. */
  predicate Retires(c: Call, id: nat) {
    c.Writing? && c.op == Discard(id) && !c.stage.Stored?
  }

  ghost function Holders(s: State, id: nat): set<nat> {
    set t | t in s.calls && MaySpend(s.calls[t], id)
  }

  ghost function Retiring(s: State, id: nat): set<nat> {
    set t | t in s.calls && Retires(s.calls[t], id)
  }

  lemma SetChange(a: set<nat>, b: set<nat>, t: nat)
    requires a - {t} == b - {t}
    ensures |b| == |a| - (if t in a then 1 else 0) + (if t in b then 1 else 0)
  {
    assert |a - {t}| == |a| - (if t in a then 1 else 0);
    assert |b - {t}| == |b| - (if t in b then 1 else 0);
  }

  /** Nobody can both hold and retire an entry, and both are queries. */
  lemma HoldersAndRetiring(s: State, id: nat)
    ensures |Holders(s, id)| + |Retiring(s, id)| <= |Queries(s)|
  {
    var h, r, q := Holders(s, id), Retiring(s, id), Queries(s);
    assert h !! r && h + r <= q;
    SubsetSize(h + r, q);
    assert |h + r| == |h| + |r|;
  }

  lemma {:induction false} SubsetSize(a: set<nat>, b: set<nat>)
    requires a <= b
    ensures |a| <= |b|
  {
    assert b == a + (b - a);
    assert |b| == |a| + |b - a|;
  }

  // ---------------------------------------------------------------------------------------------
  // The invariant

  /** What the counters of one entry owe to the pending calls. While it is published, every use spent
      below one is covered by a call still on its way to remove it; once it is gone, the calls that
      may still spend it are covered by the uses left and the overlap. */
  ghost predicate Covered(s: State, id: nat, T: nat)
    requires id in s.entries
  {
    var e := s.entries[id];
    && e.budget >= 1
    && e.uses + Handouts(s.picks, id) == e.budget
    && (id !in s.appended ==> e.uses == e.budget)
    && (id in s.published ==> |Retiring(s, id)| >= 1 - e.uses)
    && (id in s.appended && id !in s.published ==> |Holders(s, id)| <= e.uses + T - 1)
  }

  ghost predicate AllCovered(s: State, T: nat) {
    && (forall id: nat :: id in s.entries ==> Covered(s, id, T))
    && (forall id: nat :: id !in s.entries ==> Handouts(s.picks, id) == 0)
  }

  /** Steps that leave the counters, the list and the calls that matter alone. */
  lemma QuietStep(s: State, s': State, T: nat, id: nat)
    requires id in s.entries && id in s'.entries && Covered(s, id, T)
    requires s'.entries[id].uses == s.entries[id].uses && s'.entries[id].budget == s.entries[id].budget
    requires s'.picks == s.picks
    requires id in s'.published <==> id in s.published
    requires id in s'.appended <==> id in s.appended
    requires Holders(s', id) <= Holders(s, id)
    requires Retiring(s, id) <= Retiring(s', id)
    ensures Covered(s', id, T)
  {
    SubsetSize(Holders(s', id), Holders(s, id));
    SubsetSize(Retiring(s, id), Retiring(s', id));
  }

  /** Nobody holds an entry that has not been appended. */
  lemma UnappendedUnheld(s: State, id: nat)
    requires AllKnown(s) && id !in s.appended
    ensures Holders(s, id) == {} && Retiring(s, id) == {}
  {
    forall t | t in s.calls ensures !MaySpend(s.calls[t], id) && !Retires(s.calls[t], id) {
      assert Known(s.calls[t], s.appended, s.entries.Keys);
    }
  }

  /** The use of an entry is spent: the caller stops holding it and, when no use is left, owes its
      removal. */
  lemma SpendCovered(s: State, t: nat, cap: nat, T: nat, id: nat)
    requires AllKnown(s) && Enabled(s, SpendUse(t)) && id in s.entries && Covered(s, id, T)
    ensures Covered(Apply(s, SpendUse(t), cap), id, T)
  {
    var s' := Apply(s, SpendUse(t), cap);
    var w := s.calls[t].winner;
    assert s'.picks[..|s.picks|] == s.picks;
    assert Known(s.calls[t], s.appended, s.entries.Keys);
    assert Holders(s, id) - {t} == Holders(s', id) - {t};
    assert Retiring(s, id) - {t} == Retiring(s', id) - {t};
    SetChange(Holders(s, id), Holders(s', id), t);
    SetChange(Retiring(s, id), Retiring(s', id), t);
  }

  /** A new list is published. An entry that leaves it is held by no more calls than its uses and the
      overlap allow, because the calls that spent it below one are all still pending. */
  lemma StoreCovered(s: State, t: nat, gone: set<nat>, cap: nat, T: nat, id: nat)
    requires AllKnown(s) && Exclusive(s) && |s.published| <= cap && Enabled(s, Store(t, gone))
    requires |Queries(s)| <= T
    requires id in s.entries && Covered(s, id, T)
    ensures Covered(Apply(s, Store(t, gone), cap), id, T)
  {
    var s' := Apply(s, Store(t, gone), cap);
    NextSub(s.published, CommitOf(s.calls[t].op, gone), cap);
    HoldersAndRetiring(s, id);
    assert Known(s.calls[t], s.appended, s.entries.Keys);
    assert Holders(s', id) == Holders(s, id);
    assert Retiring(s, id) - {t} == Retiring(s', id) - {t};
    SetChange(Retiring(s, id), Retiring(s', id), t);
    if id !in s.appended {
      UnappendedUnheld(s, id);
    }
  }

  /** A reader takes the published list: only published entries gain a holder. */
  lemma SnapshotCovered(s: State, a: Action, cap: nat, T: nat, id: nat)
    requires a.LoadSnapshot? && Enabled(s, a) && id in s.entries && Covered(s, id, T)
    ensures Covered(Apply(s, a, cap), id, T)
  {
    var s' := Apply(s, a, cap);
    assert Retiring(s', id) == Retiring(s, id);
    if id !in s.published {
      assert Holders(s', id) == Holders(s, id);
    }
  }

  /** All the other steps are quiet for every entry there was. */
  lemma OtherHolders(s: State, a: Action, cap: nat, id: nat)
    requires Enabled(s, a) && !a.SpendUse? && !a.LoadSnapshot?
    ensures Holders(Apply(s, a, cap), id) <= Holders(s, id) || a.Choose?
  {
    hide Next;
  }

  lemma ChooseHolders(s: State, a: Action, cap: nat, id: nat)
    requires AllKnown(s) && Enabled(s, a) && a.Choose?
    ensures Holders(Apply(s, a, cap), id) <= Holders(s, id)
  {
    assert Known(s.calls[a.t], s.appended, s.entries.Keys);
  }

  lemma OtherRetiring(s: State, a: Action, cap: nat, id: nat)
    requires Exclusive(s) && Enabled(s, a) && !a.SpendUse? && !a.Store?
    ensures Retiring(s, id) <= Retiring(Apply(s, a, cap), id)
  {
    hide Next;
  }

  lemma OtherCovered(s: State, a: Action, cap: nat, T: nat, id: nat)
    requires AllKnown(s) && Exclusive(s) && Enabled(s, a) && id in s.entries && Covered(s, id, T)
    requires !a.SpendUse? && !a.Store? && !a.LoadSnapshot?
    ensures Covered(Apply(s, a, cap), id, T)
  {
    hide Holders, Retiring, Covered, Next;
    if a.Choose? {
      ChooseHolders(s, a, cap, id);
    } else {
      OtherHolders(s, a, cap, id);
    }
    OtherRetiring(s, a, cap, id);
    QuietStep(s, Apply(s, a, cap), T, id);
  }

  lemma StepCovered(s: State, a: Action, cap: nat, T: nat, id: nat)
    requires Serial(s, cap) && Exclusive(s) && Enabled(s, a) && |Queries(s)| <= T
    requires id in s.entries && Covered(s, id, T)
    ensures id in Apply(s, a, cap).entries && Covered(Apply(s, a, cap), id, T)
  {
    hide Covered, AllKnown, Exclusive, Queries, Replay;
    match a
    case SpendUse(t) => SpendCovered(s, t, cap, T, id);
    case Store(t, gone) => StoreCovered(s, t, gone, cap, T, id);
    case LoadSnapshot(_, _, _) => SnapshotCovered(s, a, cap, T, id);
    case _ => OtherCovered(s, a, cap, T, id);
  }

  /** An entry that is just being created is covered: it has all its uses and nobody knows it. */
  lemma CreatedCovered(s: State, a: Action, cap: nat, T: nat, id: nat)
    requires Serial(s, cap) && Exclusive(s) && Enabled(s, a) && AllCovered(s, T)
    requires id !in s.entries
    ensures var s' := Apply(s, a, cap);
            && Handouts(s'.picks, id) == 0
            && (id in s'.entries ==> Covered(s', id, T))
  {
    hide Replay, Next;
    PublishedAppended(s, cap);
    var s' := Apply(s, a, cap);
    if a.SpendUse? {
      assert s'.picks[..|s.picks|] == s.picks;
    }
  }

  // ---------------------------------------------------------------------------------------------
  // Every run

  ghost predicate Inv(s: State, cap: nat, T: nat) {
    && Exclusive(s) && Serial(s, cap) && AllCovered(s, T) && |Queries(s)| <= T
  }

  lemma InitInv(cap: nat, T: nat)
    ensures Inv(INIT, cap, T)
  {
    SubsequenceRefl(INIT.published);
  }

  lemma StepInv(s: State, a: Action, cap: nat, T: nat)
    requires Inv(s, cap, T) && Enabled(s, a) && |Queries(Apply(s, a, cap))| <= T
    ensures Inv(Apply(s, a, cap), cap, T)
  {
    hide Apply, Enabled, Exclusive, Serial, Covered, Queries;
    ExclusiveStep(s, a, cap);
    SerialStep(s, a, cap);
    var s' := Apply(s, a, cap);
    forall id: nat ensures if id in s'.entries then Covered(s', id, T) else Handouts(s'.picks, id) == 0 {
      if id in s.entries {
        StepCovered(s, a, cap, T, id);
      } else {
        CreatedCovered(s, a, cap, T, id);
      }
    }
  }

  lemma {:induction false} RunInv(acts: seq<Action>, cap: nat, T: nat)
    requires Exec(acts, cap, T).Some?
    ensures Inv(Exec(acts, cap, T).value, cap, T)
  {
    hide Inv, Apply, Enabled;
    if acts == [] {
      InitInv(cap, T);
    } else {
      var init := acts[..|acts| - 1];
      RunInv(init, cap, T);
      StepInv(Exec(init, cap, T).value, acts[|acts| - 1], cap, T);
    }
  }

  /** Over every interleaving in which at most T queries overlap, an entry inserted with b uses is
      handed out at most b + T - 1 times, whether it is still published or gone; so at most b times
      when queries do not overlap. */
  lemma HandedOutAtMost(acts: seq<Action>, cap: nat, T: nat, id: nat)
    requires Exec(acts, cap, T).Some? && id in Exec(acts, cap, T).value.entries
    ensures var s := Exec(acts, cap, T).value;
            && Handouts(s.picks, id) <= s.entries[id].budget + T - 1
            && (T == 1 ==> Handouts(s.picks, id) <= s.entries[id].budget)
  {
    RunInv(acts, cap, T);
    var s := Exec(acts, cap, T).value;
    assert Covered(s, id, T);
    HoldersAndRetiring(s, id);
  }

  // ---------------------------------------------------------------------------------------------
  // All entries together

  ghost function AllHandouts(picks: seq<nat>, ids: seq<nat>): nat {
    if ids == [] then 0
    else AllHandouts(picks, ids[..|ids| - 1]) + Handouts(picks, ids[|ids| - 1])
  }

  /** What these entries may be handed out together: budget + T - 1 each. */
  ghost function Allowed(s: State, ids: seq<nat>, T: nat): int
    requires forall i :: 0 <= i < |ids| ==> ids[i] in s.entries
  {
    if ids == [] then 0
    else Allowed(s, ids[..|ids| - 1], T) + s.entries[ids[|ids| - 1]].budget + T - 1
  }

  /** One more pick is one more handout of a listed entry. */
  lemma {:induction false} PickAdds(picks: seq<nat>, x: nat, ids: seq<nat>)
    requires NoDuplicates(ids)
    ensures AllHandouts(picks + [x], ids) == AllHandouts(picks, ids) + (if x in ids then 1 else 0)
  {
    if ids != [] {
      var n := |ids| - 1;
      PickAdds(picks, x, ids[..n]);
      assert (picks + [x])[..|picks|] == picks;
      assert ids == ids[..n] + [ids[n]];
    }
  }

  /** When only listed entries were picked, their handouts are all the picks. */
  lemma {:induction false} PicksAreHandouts(picks: seq<nat>, ids: seq<nat>)
    requires NoDuplicates(ids)
    requires forall i :: 0 <= i < |picks| ==> picks[i] in ids
    ensures |picks| == AllHandouts(picks, ids)
  {
    if picks == [] {
      NoPicksNoHandouts(ids);
    } else {
      var n := |picks| - 1;
      PicksAreHandouts(picks[..n], ids);
      PickAdds(picks[..n], picks[n], ids);
      assert picks == picks[..n] + [picks[n]];
    }
  }

  lemma {:induction false} NoPicksNoHandouts(ids: seq<nat>)
    ensures AllHandouts([], ids) == 0
  {
    if ids != [] { NoPicksNoHandouts(ids[..|ids| - 1]); }
  }

  lemma {:induction false} PickedIsHandedOut(picks: seq<nat>, i: nat)
    requires i < |picks|
    ensures Handouts(picks, picks[i]) > 0
  {
    if i < |picks| - 1 { PickedIsHandedOut(picks[..|picks| - 1], i); }
  }

  lemma {:induction false} HandoutsAllowed(s: State, ids: seq<nat>, T: nat)
    requires forall i :: 0 <= i < |ids| ==>
               ids[i] in s.entries && Handouts(s.picks, ids[i]) <= s.entries[ids[i]].budget + T - 1
    ensures AllHandouts(s.picks, ids) <= Allowed(s, ids, T)
  {
    if ids != [] { HandoutsAllowed(s, ids[..|ids| - 1], T); }
  }

  /** In every interleaving all picks together are no more than budget + T - 1 for each entry ever
      appended, and only appended entries are picked. */
  lemma PicksAtMost(acts: seq<Action>, cap: nat, T: nat)
    requires Exec(acts, cap, T).Some?
    ensures var s := Exec(acts, cap, T).value;
            && (forall i :: 0 <= i < |s.picks| ==> s.picks[i] in s.appended)
            && (forall i :: 0 <= i < |s.appended| ==> s.appended[i] in s.entries)
            && |s.picks| == AllHandouts(s.picks, s.appended) <= Allowed(s, s.appended, T)
  {
    RunInv(acts, cap, T);
    var s := Exec(acts, cap, T).value;
    forall i | 0 <= i < |s.picks| ensures s.picks[i] in s.appended {
      PickedIsHandedOut(s.picks, i);
      assert s.picks[i] in s.entries ==> Covered(s, s.picks[i], T);
    }
    PicksAreHandouts(s.picks, s.appended);
    forall i | 0 <= i < |s.appended|
      ensures Handouts(s.picks, s.appended[i]) <= s.entries[s.appended[i]].budget + T - 1
    {
      HandedOutAtMost(acts, cap, T, s.appended[i]);
    }
    HandoutsAllowed(s, s.appended, T);
  }

  /** An entry still published without a use left always has a call between its decrement and its
      removal; so once no query is in progress, every published entry has a use left. */
  lemma ExhaustedIsBeingRemoved(acts: seq<Action>, cap: nat, T: nat, id: nat)
    requires Exec(acts, cap, T).Some?
    requires id in Exec(acts, cap, T).value.published
    ensures var s := Exec(acts, cap, T).value;
            && id in s.entries
            && (s.entries[id].uses <= 0 ==> exists t :: t in s.calls && Retires(s.calls[t], id))
            && (Queries(s) == {} ==> s.entries[id].uses >= 1)
  {
    RunInv(acts, cap, T);
    var s := Exec(acts, cap, T).value;
    PublishedAppended(s, cap);
    var i :| 0 <= i < |s.published| && s.published[i] == id;
    assert id in s.appended;
    assert Covered(s, id, T);
    HoldersAndRetiring(s, id);
    if s.entries[id].uses <= 0 {
      assert Retiring(s, id) != {};
      var t: nat :| t in Retiring(s, id);
    }
  }

  /** No writer's change is lost: what is published is always the result of doing every published
      change in order, with nobody in between; it is an order-preserving, duplicate-free part of
      everything ever appended, within the capacity. */
  lemma RunsAreSerial(acts: seq<Action>, cap: nat, T: nat)
    requires Exec(acts, cap, T).Some?
    ensures var s := Exec(acts, cap, T).value;
            && s.published == Replay(s.commits, cap)
            && |s.published| <= cap
            && Subsequence(s.published, s.appended)
            && NoDuplicates(s.appended) && NoDuplicates(s.published)
  {
    RunInv(acts, cap, T);
    var s := Exec(acts, cap, T).value;
    var f: seq<nat> :| Embeds(s.published, s.appended, f);
  }

  /** An entry that has left the list never comes back, however the run goes on. */
  lemma {:induction false} RemovedForGood(acts: seq<Action>, k: nat, cap: nat, T: nat, id: nat)
    requires k <= |acts| && Exec(acts, cap, T).Some?
    ensures Exec(acts[..k], cap, T).Some?
    ensures var before, after := Exec(acts[..k], cap, T).value, Exec(acts, cap, T).value;
            id in before.appended && id !in before.published ==> id in after.appended && id !in after.published
  {
    hide Inv, Apply, Enabled;
    if k == |acts| {
      assert acts[..k] == acts;
    } else {
      var init := acts[..|acts| - 1];
      RemovedForGood(init, k, cap, T, id);
      assert init[..k] == acts[..k];
      RunInv(init, cap, T);
      var s := Exec(init, cap, T).value;
      if id in s.appended && id !in s.published {
        RemovedStep(s, acts[|acts| - 1], cap, T, id);
      }
    }
  }

  lemma RemovedStep(s: State, a: Action, cap: nat, T: nat, id: nat)
    requires Inv(s, cap, T) && Enabled(s, a) && id in s.appended && id !in s.published
    ensures id in Apply(s, a, cap).appended && id !in Apply(s, a, cap).published
  {
    RemovedStaysRemoved(s, a, cap, id);
  }

  /** The call has a next step that is possible now. */
  ghost predicate CanMove(s: State, t: nat) {
    exists a: Action :: a.t == t && Enabled(s, a)
  }

  /** No call ever gets stuck: whatever is not waiting for the lock can move, a waiting call can take a
      free lock, and when the lock is taken its holder can move. */
  lemma NobodyStuck(acts: seq<Action>, cap: nat, T: nat, t: nat)
    requires Exec(acts, cap, T).Some? && t in Exec(acts, cap, T).value.calls
    ensures var s := Exec(acts, cap, T).value;
            CanMove(s, t) || (s.lock.Some? && s.lock.value != t && CanMove(s, s.lock.value))
  {
    RunInv(acts, cap, T);
    var s := Exec(acts, cap, T).value;
    if s.calls[t].Writing? && s.calls[t].stage.Waiting? && s.lock.Some? {
      HolderMoves(s, cap, T, s.lock.value);
    } else {
      HolderMoves(s, cap, T, t);
    }
  }

  lemma HolderMoves(s: State, cap: nat, T: nat, t: nat)
    requires Inv(s, cap, T) && t in s.calls
    requires s.calls[t].Writing? && s.calls[t].stage.Waiting? ==> s.lock.None?
    ensures CanMove(s, t)
  {
    assert Known(s.calls[t], s.appended, s.entries.Keys);
    var a := NextAction(s.calls[t], t);
    assert a.t == t && Enabled(s, a);
  }

  /** What a call does next. */
  function NextAction(c: Call, t: nat): Action {
    match c
    case Writing(op, Waiting) => Acquire(t)
    case Writing(op, Locked) => LoadCurrent(t)
    case Writing(op, Loaded(_)) => Store(t, if op.Discard? then {op.id} else {})
    case Writing(op, Stored) => Release(t)
    case Selecting => LoadSnapshot(t, 0, None)
    case Scanning(snap, pos, _, _, _) => if pos < |snap| then ScanOne(t) else Choose(t)
    case Bumping(_, snap, pos) => if pos < |snap| then BumpOne(t) else SpendUse(t)
    case Finished => Return(t)
  }
}
