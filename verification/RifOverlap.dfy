/** What the RIF of a pooled entry is worth when callers overlap. Every query bumps the entries of the
    list it takes after choosing and only then counts as a pick, so a pick may be seen too early, by an
    entry its query has passed, or not at all, by an entry published after its list was taken. */
module RifOverlap {
  import opened Subsequences
  import opened Interleaving
  import opened HandoutBound

  /** The call is handing out an entry of the same server. */
  predicate Serves(s: State, c: Call, id: nat) {
    && c.Bumping? && c.winner in s.entries && id in s.entries
    && s.entries[c.winner].server == s.entries[id].server
  }

  /** The call has bumped the entry. */
  predicate Passed(c: Call, id: nat) {
    c.Bumping? && c.pos <= |c.snap| && id in c.snap[..c.pos]
  }

  /** Calls that have bumped the entry and are not yet picks. */
  ghost function Ahead(s: State, id: nat): set<nat> {
    set t | t in s.calls && Serves(s, s.calls[t], id) && Passed(s.calls[t], id)
  }

  /** Calls that will be picks of the server without bumping the entry. */
  ghost function Outside(s: State, id: nat): set<nat> {
    set t | t in s.calls && Serves(s, s.calls[t], id) && id !in s.calls[t].snap
  }

  /** The step is a pick of the entry's server by a call whose list has the entry, or has it not. */
  predicate PicksServer(s: State, a: Action, id: nat, held: bool) {
    a.SpendUse? && a.t in s.calls && Serves(s, s.calls[a.t], id) && (id in s.calls[a.t].snap <==> held)
  }

  predicate Publishes(s: State, a: Action, id: nat) {
    a.Store? && a.t in s.calls && s.calls[a.t].Writing? && s.calls[a.t].op == Append(id)
  }

  /** Counting one more step. */
  ghost function CountStep(n: nat, s: State, a: Action, id: nat, held: bool): nat {
    if Publishes(s, a, id) then 0 else n + (if PicksServer(s, a, id, held) then 1 else 0)
  }

  /** The picks of the entry's server since the entry was published. */
  ghost function PicksSince(acts: seq<Action>, cap: nat, T: nat, id: nat, held: bool): nat {
    if acts == [] then 0
    else
      var init := acts[..|acts| - 1];
      match Exec(init, cap, T)
      case None => 0
      case Some(s) => CountStep(PicksSince(init, cap, T, id, held), s, acts[|acts| - 1], id, held)
  }

  /** Counting one more step: the queries that were handing out an entry of the server, with a list
      taken before, when this one was published. */
  ghost function LateStep(n: nat, s: State, a: Action, id: nat): nat {
    if Publishes(s, a, id) then |Outside(s, id)| else n
  }

  ghost function LateAtPublication(acts: seq<Action>, cap: nat, T: nat, id: nat): nat {
    if acts == [] then 0
    else
      var init := acts[..|acts| - 1];
      match Exec(init, cap, T)
      case None => 0
      case Some(s) => LateStep(LateAtPublication(init, cap, T, id), s, acts[|acts| - 1], id)
  }

  // ---------------------------------------------------------------------------------------------
  // The invariant

  /** Every pick that held the entry has bumped it once, and so has every call ahead; the picks that
      missed it and the calls that still will are those that were late when it was published. */
  ghost predicate RifCovered(s: State, id: nat, seen: nat, missed: nat, late: nat, T: nat)
    requires id in s.entries
  {
    var e := s.entries[id];
    && (id !in s.appended ==> e.rif == e.probed)
    && (id in s.published ==> e.rif == e.probed + seen + |Ahead(s, id)|)
    && (id in s.published ==> missed + |Outside(s, id)| == late <= T)
  }

  ghost predicate ListsDistinct(s: State) {
    forall t :: t in s.calls && s.calls[t].Bumping? ==> NoDuplicates(s.calls[t].snap)
  }

  lemma PublishedDistinct(s: State, cap: nat)
    requires Serial(s, cap)
    ensures NoDuplicates(s.published)
  {
    var f: seq<nat> :| Embeds(s.published, s.appended, f);
  }

  lemma ListsStayDistinct(s: State, a: Action, cap: nat)
    requires ListsDistinct(s) && NoDuplicates(s.published) && Enabled(s, a)
    ensures ListsDistinct(Apply(s, a, cap))
  {
    hide Next;
    var s' := Apply(s, a, cap);
    forall t | t in s'.calls && s'.calls[t].Bumping? ensures NoDuplicates(s'.calls[t].snap) {
      assert t != a.t ==> t in s.calls && s'.calls[t] == s.calls[t];
    }
  }

  /** A list passes an entry at its one position in it. */
  lemma PassesOnce(snap: seq<nat>, pos: nat, id: nat)
    requires NoDuplicates(snap) && pos < |snap|
    ensures id in snap[..pos + 1] <==> id in snap[..pos] || snap[pos] == id
    ensures snap[pos] == id ==> id !in snap[..pos]
  {
    assert snap[..pos + 1] == snap[..pos] + [snap[pos]];
  }

  lemma BumpAhead(s: State, t: nat, cap: nat, id: nat)
    requires Enabled(s, BumpOne(t)) && NoDuplicates(s.calls[t].snap) && id in s.entries
    ensures var s', c := Apply(s, BumpOne(t), cap), s.calls[t];
            && |Ahead(s', id)| == |Ahead(s, id)| + (if c.snap[c.pos] == id && Serves(s, c, id) then 1 else 0)
            && Outside(s', id) == Outside(s, id)
  {
    hide NoDuplicates;
    var s', c := Apply(s, BumpOne(t), cap), s.calls[t];
    PassesOnce(c.snap, c.pos, id);
    assert Ahead(s, id) - {t} == Ahead(s', id) - {t};
    SetChange(Ahead(s, id), Ahead(s', id), t);
  }

  lemma BumpCovered(s: State, t: nat, cap: nat, id: nat, seen: nat, missed: nat, late: nat, T: nat)
    requires AllKnown(s) && ListsDistinct(s) && Enabled(s, BumpOne(t))
    requires id in s.entries && RifCovered(s, id, seen, missed, late, T)
    ensures RifCovered(Apply(s, BumpOne(t), cap), id, seen, missed, late, T)
  {
    hide Ahead, Outside, NoDuplicates;
    assert Known(s.calls[t], s.appended, s.entries.Keys);
    BumpAhead(s, t, cap, id);
  }

  lemma PickCovered(s: State, t: nat, cap: nat, id: nat, seen: nat, missed: nat, late: nat, T: nat)
    requires Enabled(s, SpendUse(t))
    requires id in s.entries && RifCovered(s, id, seen, missed, late, T)
    ensures var a := SpendUse(t);
            RifCovered(Apply(s, a, cap), id, CountStep(seen, s, a, id, true), CountStep(missed, s, a, id, false),
                       LateStep(late, s, a, id), T)
  {
    var s', c := Apply(s, SpendUse(t), cap), s.calls[t];
    assert c.snap[..c.pos] == c.snap;
    assert Ahead(s, id) - {t} == Ahead(s', id) - {t};
    assert Outside(s, id) - {t} == Outside(s', id) - {t};
    SetChange(Ahead(s, id), Ahead(s', id), t);
    SetChange(Outside(s, id), Outside(s', id), t);
  }

  /** A call that has just chosen has bumped nothing yet, and its list has all that is published. */
  lemma ChooseCovered(s: State, t: nat, cap: nat, id: nat, seen: nat, missed: nat, late: nat, T: nat)
    requires Enabled(s, Choose(t)) && id in s.entries && RifCovered(s, id, seen, missed, late, T)
    ensures RifCovered(Apply(s, Choose(t), cap), id, seen, missed, late, T)
  {
    var s' := Apply(s, Choose(t), cap);
    if id in s.published {
      assert Ahead(s', id) == Ahead(s, id);
      assert Outside(s', id) == Outside(s, id);
    }
  }

  /** Nobody has bumped an entry that has not been appended. */
  lemma UnappendedUnbumped(s: State, id: nat)
    requires AllKnown(s) && id !in s.appended
    ensures Ahead(s, id) == {}
  {
    forall t | t in s.calls ensures !Passed(s.calls[t], id) {
      assert Known(s.calls[t], s.appended, s.entries.Keys);
    }
  }

  lemma OutsideAreQueries(s: State, id: nat)
    ensures |Outside(s, id)| <= |Queries(s)| && |Ahead(s, id)| <= |Queries(s)|
  {
    SubsetSize(Outside(s, id), Queries(s));
    SubsetSize(Ahead(s, id), Queries(s));
  }

  /** An entry that is published now has seen no pick, and the calls that will miss it overlap now. */
  lemma PublishCovered(s: State, t: nat, gone: set<nat>, cap: nat, id: nat, seen: nat, missed: nat, late: nat, T: nat)
    requires AllKnown(s) && Exclusive(s) && |s.published| <= cap && Enabled(s, Store(t, gone)) && |Queries(s)| <= T
    requires id in s.entries && RifCovered(s, id, seen, missed, late, T)
    ensures var a := Store(t, gone);
            RifCovered(Apply(s, a, cap), id, CountStep(seen, s, a, id, true), CountStep(missed, s, a, id, false),
                       LateStep(late, s, a, id), T)
  {
    hide Next;
    var s' := Apply(s, Store(t, gone), cap);
    NextSub(s.published, CommitOf(s.calls[t].op, gone), cap);
    assert Known(s.calls[t], s.appended, s.entries.Keys);
    assert Ahead(s', id) == Ahead(s, id);
    assert Outside(s', id) == Outside(s, id);
    OutsideAreQueries(s, id);
    if id !in s.appended {
      UnappendedUnbumped(s, id);
    }
  }

  /** Same calls handing out, same entries they look at. */
  ghost predicate SameBumps(s: State, s': State) {
    && (forall x :: x in s.entries ==> x in s'.entries && s'.entries[x] == s.entries[x])
    && (forall t :: t in s.calls && s.calls[t].Bumping? ==>
          s.calls[t].winner in s.entries && t in s'.calls && s'.calls[t] == s.calls[t])
    && (forall t :: t in s'.calls && s'.calls[t].Bumping? ==> t in s.calls && s.calls[t].Bumping?)
  }

  lemma SameBumpsSameCalls(s: State, s': State, id: nat)
    requires SameBumps(s, s') && id in s.entries
    ensures Ahead(s', id) == Ahead(s, id) && Outside(s', id) == Outside(s, id)
  {}

  lemma OtherBumps(s: State, a: Action, cap: nat)
    requires Enabled(s, a) && !a.BumpOne? && !a.SpendUse? && !a.Choose? && !a.Store?
    requires forall t :: t in s.calls && s.calls[t].Bumping? ==> s.calls[t].winner in s.entries
    ensures SameBumps(s, Apply(s, a, cap))
    ensures Apply(s, a, cap).published == s.published && Apply(s, a, cap).appended == s.appended
  {
    hide Next;
  }

  /** The other steps touch neither the entry nor the calls that count. */
  lemma OtherRif(s: State, a: Action, cap: nat, id: nat, seen: nat, missed: nat, late: nat, T: nat)
    requires Enabled(s, a) && id in s.entries && RifCovered(s, id, seen, missed, late, T)
    requires forall t :: t in s.calls && s.calls[t].Bumping? ==> s.calls[t].winner in s.entries
    requires !a.BumpOne? && !a.SpendUse? && !a.Choose? && !a.Store?
    ensures id in Apply(s, a, cap).entries && RifCovered(Apply(s, a, cap), id, seen, missed, late, T)
  {
    hide Apply, Enabled, Ahead, Outside;
    OtherBumps(s, a, cap);
    SameBumpsSameCalls(s, Apply(s, a, cap), id);
  }

  lemma WinnersExist(s: State)
    requires AllKnown(s)
    ensures forall t :: t in s.calls && s.calls[t].Bumping? ==> s.calls[t].winner in s.entries
  {
    forall t | t in s.calls && s.calls[t].Bumping? ensures s.calls[t].winner in s.entries {
      assert Known(s.calls[t], s.appended, s.entries.Keys);
    }
  }

  lemma RifStep(s: State, a: Action, cap: nat, id: nat, seen: nat, missed: nat, late: nat, T: nat)
    requires Serial(s, cap) && Exclusive(s) && ListsDistinct(s) && Enabled(s, a) && |Queries(s)| <= T
    requires id in s.entries && RifCovered(s, id, seen, missed, late, T)
    ensures id in Apply(s, a, cap).entries
    ensures RifCovered(Apply(s, a, cap), id, CountStep(seen, s, a, id, true), CountStep(missed, s, a, id, false),
                       LateStep(late, s, a, id), T)
  {
    hide RifCovered, AllKnown, Exclusive, Queries, Replay, ListsDistinct, Next;
    match a
    case BumpOne(t) => BumpCovered(s, t, cap, id, seen, missed, late, T);
    case SpendUse(t) => PickCovered(s, t, cap, id, seen, missed, late, T);
    case Choose(t) => ChooseCovered(s, t, cap, id, seen, missed, late, T);
    case Store(t, gone) => PublishCovered(s, t, gone, cap, id, seen, missed, late, T);
    case _ =>
      WinnersExist(s);
      OtherRif(s, a, cap, id, seen, missed, late, T);
  }

  /** An entry that is just being created has its probed RIF, and is not published. */
  lemma CreatedRif(s: State, a: Action, cap: nat, id: nat, seen: nat, missed: nat, late: nat, T: nat)
    requires Serial(s, cap) && Exclusive(s) && Enabled(s, a)
    requires id !in s.entries && id in Apply(s, a, cap).entries
    ensures RifCovered(Apply(s, a, cap), id, seen, missed, late, T)
  {
    hide Replay, Next;
    PublishedAppended(s, cap);
  }

  // ---------------------------------------------------------------------------------------------
  // Every run

  lemma {:induction false} RunRif(acts: seq<Action>, cap: nat, T: nat, id: nat)
    requires Exec(acts, cap, T).Some?
    ensures var s := Exec(acts, cap, T).value;
            && ListsDistinct(s)
            && (id in s.entries ==>
                  RifCovered(s, id, PicksSince(acts, cap, T, id, true), PicksSince(acts, cap, T, id, false),
                             LateAtPublication(acts, cap, T, id), T))
  {
    hide Apply, Enabled, RifCovered, Serial, Exclusive, Queries, CountStep, LateStep, AllCovered;
    if acts == [] {
      assert ListsDistinct(INIT);
    } else {
      var init, a := acts[..|acts| - 1], acts[|acts| - 1];
      var s := Exec(init, cap, T).value;
      RunRif(init, cap, T, id);
      RunInv(init, cap, T);
      PublishedDistinct(s, cap);
      ListsStayDistinct(s, a, cap);
      var seen, missed := PicksSince(init, cap, T, id, true), PicksSince(init, cap, T, id, false);
      var late := LateAtPublication(init, cap, T, id);
      if id in s.entries {
        RifStep(s, a, cap, id, seen, missed, late, T);
      } else if id in Apply(s, a, cap).entries {
        CreatedRif(s, a, cap, id, CountStep(seen, s, a, id, true), CountStep(missed, s, a, id, false),
                       LateStep(late, s, a, id), T);
      }
    }
  }

  /** The RIF ledger under overlap. In every interleaving with at most T overlapping queries, the RIF
      of a published entry is exactly its probed RIF, plus the picks of its server since its
      publication whose query held it, plus the queries that have bumped it and are not picks yet. The
      picks that missed it and the queries that still will are exactly the queries that were handing
      out an entry of its server when it was published, no more than T. */
  lemma OverlappedRifLedger(acts: seq<Action>, cap: nat, T: nat, id: nat)
    requires Exec(acts, cap, T).Some? && id in Exec(acts, cap, T).value.published
    ensures var s := Exec(acts, cap, T).value;
            && id in s.entries
            && s.entries[id].rif == s.entries[id].probed + PicksSince(acts, cap, T, id, true) + |Ahead(s, id)|
            && PicksSince(acts, cap, T, id, false) + |Outside(s, id)| == LateAtPublication(acts, cap, T, id) <= T
  {
    RunInv(acts, cap, T);
    RunRif(acts, cap, T, id);
    PublishedAppended(Exec(acts, cap, T).value, cap);
  }

  /** So it is always within T of the probed RIF plus all those picks. Once no query is in progress it
      is short of that sum by exactly the queries that were handing out an entry of its server when it
      was published. */
  lemma RifWithinOverlap(acts: seq<Action>, cap: nat, T: nat, id: nat)
    requires Exec(acts, cap, T).Some? && id in Exec(acts, cap, T).value.published
    ensures var s := Exec(acts, cap, T).value;
            var picks := PicksSince(acts, cap, T, id, true) + PicksSince(acts, cap, T, id, false);
            && id in s.entries
            && s.entries[id].probed + picks - T <= s.entries[id].rif <= s.entries[id].probed + picks + T
            && (Queries(s) == {} ==>
                  s.entries[id].rif == s.entries[id].probed + picks - LateAtPublication(acts, cap, T, id))
  {
    OverlappedRifLedger(acts, cap, T, id);
    RunInv(acts, cap, T);
    OutsideAreQueries(Exec(acts, cap, T).value, id);
  }
}
