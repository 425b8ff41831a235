/** What an operator's locks hold against, over any run of syncs and operator actions. */
module SyncLocks {
  import opened Collections
  import opened InventorySync
  import opened SyncRepeat
  import opened SyncRuns

  /** The list without these entries, in its order. */
  function Drop(l: seq<string>, gone: set<string>): (r: seq<string>) {
    if l == [] then []
    else
      var last := l[|l| - 1];
      var before := Drop(l[..|l| - 1], gone);
      if last in gone then before else before + [last]
  }

  lemma {:induction false} DropHolds(l: seq<string>, gone: set<string>)
    ensures forall a :: a in Drop(l, gone) <==> a in l && a !in gone
    ensures Tidy(l) ==> Tidy(Drop(l, gone))
    ensures Drop(l, gone) == l <==> Members(l) !! gone
    ensures |Drop(l, gone)| <= |l|
    decreases |l|
  {
    if l != [] {
      var front, last := l[..|l| - 1], l[|l| - 1];
      assert l == front + [last];
      DropHolds(front, gone);
      assert Members(l) == Members(front) + {last};
    }
  }

  lemma {:induction false} DropTwice(l: seq<string>, gone: set<string>, more: set<string>)
    ensures Drop(Drop(l, gone), more) == Drop(l, gone + more)
    decreases |l|
  {
    if l != [] {
      var front, last := l[..|l| - 1], l[|l| - 1];
      DropTwice(front, gone, more);
      var d := Drop(front, gone);
      assert (d + [last])[..|d + [last]| - 1] == d;
    }
  }

  /** Storing a tidy list takes the primary address out of it. */
  lemma {:induction false} KeptDrops(primary: string, l: seq<string>)
    requires Tidy(l)
    ensures Kept(primary, l) == Drop(l, {primary})
    decreases |l|
  {
    if l != [] {
      var front, last := l[..|l| - 1], l[|l| - 1];
      assert l == front + [last] && Tidy(front) && last !in front;
      KeptIsTidy(primary, front);
      KeptDrops(primary, front);
    }
  }

  /** Locked fields are as they were, but these addresses have gone from a locked address list. */
  ghost predicate LockHolds(v: Vm, after: Vm, gone: set<string>) {
    && after.locked == v.locked
    && (forall k :: k in PLAIN && k in v.locked ==> after.fields.plain[k] == v.fields.plain[k])
    && (PRIMARY in v.locked ==> after.fields.primary == v.fields.primary)
    && (ADDITIONAL in v.locked ==> after.fields.additional == Drop(v.fields.additional, gone))
  }

  /** The primary addresses the first n items gave the machine. */
  ghost function PrimariesGiven(r: Run, id: nat, n: nat): set<string>
    requires n <= |r.items| && id in r.before
  {
    set m | 0 <= m < n && r.options.updateExisting && Refreshes(r, id, m) :: Effective(r.before[id], r.items[m].fields).primary
  }

  lemma RefreshHoldsLocks(v: Vm, u: Vm, gone: set<string>, desired: Fields, endpoint: string, now: int)
    requires LockHolds(v, u, gone) && Tidy(v.fields.additional)
    ensures LockHolds(v, Refreshed(u, Effective(u, desired), endpoint, now), gone + {Effective(v, desired).primary})
  {
    if ADDITIONAL in v.locked {
      DropHolds(v.fields.additional, gone);
      KeptDrops(Effective(u, desired).primary, u.fields.additional);
      DropTwice(v.fields.additional, gone, {Effective(u, desired).primary});
    }
    hide Drop, Kept;
  }

  lemma GivenOneMore(r: Run, id: nat, n: nat)
    requires n < |r.items| && id in r.before
    ensures PrimariesGiven(r, id, n + 1) == PrimariesGiven(r, id, n)
              + if r.options.updateExisting && Refreshes(r, id, n) then {Effective(r.before[id], r.items[n].fields).primary} else {}
  {
    hide Refreshes, Effective;
  }

  /** After n items, locked fields hold and the list of further addresses is tidy. */
  ghost predicate HoldsAfter(r: Run, n: nat, id: nat)
    requires n <= |r.items| == |r.keys| && id in r.before
  {
    && id in ApplyItems(r, n).vms
    && LockHolds(r.before[id], ApplyItems(r, n).vms[id], PrimariesGiven(r, id, n))
    && Tidy(ApplyItems(r, n).vms[id].fields.additional)
  }

  lemma RefreshIsTidy(v: Vm, f: Fields, endpoint: string, now: int)
    ensures Tidy(Refreshed(v, f, endpoint, now).fields.additional)
  {
    KeptIsTidy(f.primary, f.additional);
  }

  lemma ItemHoldsLocks(r: Run, n: nat, id: nat)
    requires n < |r.items| == |r.keys| && UniqueExternal(r.before) && KeysFresh(r.keys, r.before) && id in r.before
    requires HoldsAfter(r, n, id) && Tidy(r.before[id].fields.additional)
    ensures HoldsAfter(r, n + 1, id)
  {
    hide Tidy, LockHolds, PrimariesGiven, ApplyItems, UniqueExternal, KeysFresh, Refreshes, Refreshed, Effective;
    ItemSince(r, n, id);
    GivenOneMore(r, id, n);
    if r.options.updateExisting && Refreshes(r, id, n) {
      var u := ApplyItems(r, n).vms[id];
      RefreshHoldsLocks(r.before[id], u, PrimariesGiven(r, id, n), r.items[n].fields, r.endpoint, r.now);
      RefreshIsTidy(u, Effective(u, r.items[n].fields), r.endpoint, r.now);
    } else {
      assert PrimariesGiven(r, id, n) + {} == PrimariesGiven(r, id, n);
    }
  }

  lemma {:induction false} ItemsHoldLocks(r: Run, n: nat, id: nat)
    requires n <= |r.items| == |r.keys| && UniqueExternal(r.before) && KeysFresh(r.keys, r.before) && id in r.before
    requires Tidy(r.before[id].fields.additional)
    ensures HoldsAfter(r, n, id)
  {
    hide *;
    if n == 0 {
      NothingGiven(r, id);
    } else {
      ItemsHoldLocks(r, n - 1, id);
      ItemHoldsLocks(r, n - 1, id);
    }
  }

  lemma NothingGiven(r: Run, id: nat)
    requires |r.items| == |r.keys| && id in r.before && Tidy(r.before[id].fields.additional)
    ensures HoldsAfter(r, 0, id)
  {
    hide Tidy;
    DropHolds(r.before[id].fields.additional, {});
    assert PrimariesGiven(r, id, 0) == {};
  }

  /** The primary addresses an event gave the machine. */
  ghost function GivenBy(vms: Vms, e: Event, id: nat): set<string>
    requires Admissible(vms, e)
  {
    if e.Sync? && id in vms && !BoundElsewhere(vms, e.source, e.endpoint)
    then PrimariesGiven(RunOf(vms, e.source, e.endpoint, e.inventory, e.options, e.now, e.keys), id, |e.keys|) else {}
  }

  /** Marking and an operator's actions touch neither fields nor locks. */
  ghost predicate SameFields(v: Vm, w: Vm) {
    w.fields == v.fields && w.locked == v.locked
  }

  lemma MarkingKeepsFields(vms: Vms, source: string, seen: set<string>, now: int, id: nat)
    requires id in vms
    ensures id in MarkMissing(vms, source, seen, now) && SameFields(vms[id], MarkMissing(vms, source, seen, now)[id])
  {
  }

  lemma SyncKeepsFields(vms: Vms, e: Event, id: nat)
    requires Admissible(vms, e) && e.Sync? && !BoundElsewhere(vms, e.source, e.endpoint)
    requires id in ApplyItems(RunOf(vms, e.source, e.endpoint, e.inventory, e.options, e.now, e.keys), |e.keys|).vms
    ensures id in Step(vms, e)
    ensures SameFields(ApplyItems(RunOf(vms, e.source, e.endpoint, e.inventory, e.options, e.now, e.keys), |e.keys|).vms[id], Step(vms, e)[id])
  {
    MarkingKeepsFields(ApplyItems(RunOf(vms, e.source, e.endpoint, e.inventory, e.options, e.now, e.keys), |e.keys|).vms,
                       e.source, Seen(e.inventory), e.now, id);
    hide ApplyItems, MarkMissing, Seen, BoundElsewhere, KeysFresh, EligibleItems;
  }

  lemma OthersKeepFields(vms: Vms, e: Event, id: nat)
    requires Admissible(vms, e) && id in vms && (e.Sync? ==> BoundElsewhere(vms, e.source, e.endpoint))
    ensures id in Step(vms, e) && SameFields(vms[id], Step(vms, e)[id])
  {
    hide BoundElsewhere, KeysFresh, EligibleItems;
  }

  /** Over one event, locked fields hold and the list of further addresses stays tidy. */
  ghost predicate EventHolds(vms: Vms, e: Event, id: nat)
    requires Admissible(vms, e) && id in vms
  {
    && id in Step(vms, e)
    && LockHolds(vms[id], Step(vms, e)[id], GivenBy(vms, e, id))
    && Tidy(Step(vms, e)[id].fields.additional)
  }

  lemma SyncHoldsLocks(vms: Vms, e: Event, id: nat)
    requires UniqueExternal(vms) && Admissible(vms, e) && id in vms && Tidy(vms[id].fields.additional)
    requires e.Sync? && !BoundElsewhere(vms, e.source, e.endpoint)
    ensures EventHolds(vms, e, id)
  {
    ItemsHoldLocks(RunOf(vms, e.source, e.endpoint, e.inventory, e.options, e.now, e.keys), |e.keys|, id);
    SyncKeepsFields(vms, e, id);
    hide Step, ApplyItems, BoundElsewhere, UniqueExternal, KeysFresh, EligibleItems, PrimariesGiven, Drop, Tidy;
  }

  lemma EventHoldsLocks(vms: Vms, e: Event, id: nat)
    requires UniqueExternal(vms) && Admissible(vms, e) && id in vms && Tidy(vms[id].fields.additional)
    ensures EventHolds(vms, e, id)
  {
    if e.Sync? && !BoundElsewhere(vms, e.source, e.endpoint) {
      hide *;
      SyncHoldsLocks(vms, e, id);
    } else {
      OthersKeepFields(vms, e, id);
      DropHolds(vms[id].fields.additional, {});
      hide Step, BoundElsewhere, UniqueExternal, Admissible, Drop, Tidy;
    }
  }

  /** The primary addresses the events from a to b gave the machine. */
  ghost function GivenBetween(states: seq<Vms>, events: seq<Event>, a: nat, b: nat, id: nat): set<string>
    requires IsRun(states, events) && a <= b <= |events|
    decreases b
  {
    if a == b then {} else GivenBetween(states, events, a, b - 1, id) + GivenBy(states[b - 1], events[b - 1], id)
  }

  lemma LocksChain(v: Vm, u: Vm, w: Vm, gone: set<string>, more: set<string>)
    requires LockHolds(v, u, gone) && LockHolds(u, w, more)
    ensures LockHolds(v, w, gone + more)
  {
    DropTwice(v.fields.additional, gone, more);
    hide Drop;
  }

  /**
    Over any run, locked plain fields and a locked primary address of a stored machine never change, and
    a locked address list loses exactly the primary addresses its refreshes gave the machine meanwhile.
    */
  lemma {:induction false} LocksHoldThroughout(states: seq<Vms>, events: seq<Event>, a: nat, b: nat, id: nat)
    requires IsRun(states, events) && a <= b <= |events| && id in states[a] && Tidy(states[a][id].fields.additional)
    ensures id in states[b] && LockHolds(states[a][id], states[b][id], GivenBetween(states, events, a, b, id))
    ensures Tidy(states[b][id].fields.additional)
    decreases b
  {
    if a == b {
      DropHolds(states[a][id].fields.additional, {});
    } else {
      LocksHoldThroughout(states, events, a, b - 1, id);
      RunKeepsSound(states, events, b - 1);
      EventHoldsLocks(states[b - 1], events[b - 1], id);
      LocksChain(states[a][id], states[b - 1][id], states[b][id], GivenBetween(states, events, a, b - 1, id),
                 GivenBy(states[b - 1], events[b - 1], id));
      hide Step, Admissible, AllHealthy, UniqueExternal, LockHolds, GivenBy, Tidy;
    }
  }

  /** So a locked address list stays whole exactly when none of those addresses is on it. */
  lemma LockedListStaysWhole(states: seq<Vms>, events: seq<Event>, a: nat, b: nat, id: nat)
    requires IsRun(states, events) && a <= b <= |events| && id in states[a] && Tidy(states[a][id].fields.additional)
    requires ADDITIONAL in states[a][id].locked
    ensures id in states[b]
    ensures states[b][id].fields.additional == states[a][id].fields.additional <==>
              Members(states[a][id].fields.additional) !! GivenBetween(states, events, a, b, id)
  {
    LocksHoldThroughout(states, events, a, b, id);
    DropHolds(states[a][id].fields.additional, GivenBetween(states, events, a, b, id));
    hide IsRun, Drop, GivenBetween;
  }

  // ---------------------------------------------------------------- unlocked fields follow the inventory

  /** Every field the operator left open says what the item says; the further addresses without the primary. */
  ghost predicate Follows(v: Vm, w: Vm, i: Item) {
    && w.locked == v.locked
    && (forall k :: k in PLAIN && k !in v.locked ==> w.fields.plain[k] == i.fields.plain[k])
    && (PRIMARY !in v.locked ==> w.fields.primary == i.fields.primary)
    && (ADDITIONAL !in v.locked ==>
          forall a :: a in w.fields.additional <==> a in i.fields.additional && a != "" && a != w.fields.primary)
  }

  lemma RefreshFollows(v: Vm, u: Vm, i: Item, endpoint: string, now: int)
    requires u.locked == v.locked
    ensures Follows(v, Refreshed(u, Effective(u, i.fields), endpoint, now), i)
  {
    KeptIsTidy(Effective(u, i.fields).primary, Effective(u, i.fields).additional);
  }

  /** Item m refreshes the machine and none of the items from there up to n does. */
  ghost predicate LastRefresh(r: Run, id: nat, n: nat, m: nat)
    requires n <= |r.items| && id in r.before
  {
    m < n && Refreshes(r, id, m) && forall k :: m < k < n ==> !Refreshes(r, id, k)
  }

  ghost predicate FollowsLast(r: Run, n: nat, id: nat)
    requires n <= |r.items| == |r.keys| && id in r.before
  {
    && id in ApplyItems(r, n).vms
    && if RefreshedBy(r, id, n)
       then exists m: nat :: LastRefresh(r, id, n, m) && Follows(r.before[id], ApplyItems(r, n).vms[id], r.items[m])
       else ApplyItems(r, n).vms[id] == r.before[id]
  }

  lemma FollowsOneMore(r: Run, n: nat, id: nat)
    requires n < |r.items| == |r.keys| && UniqueExternal(r.before) && KeysFresh(r.keys, r.before) && id in r.before
    requires FollowsLast(r, n, id)
    ensures FollowsLast(r, n + 1, id)
  {
    hide ApplyItems, UniqueExternal, KeysFresh, Refreshes, Refreshed, Effective;
    ItemSince(r, n, id);
    var t, u := ApplyItems(r, n).vms[id], ApplyItems(r, n + 1).vms[id];
    if r.options.updateExisting && Refreshes(r, id, n) {
      assert t.locked == r.before[id].locked;
      RefreshFollows(r.before[id], t, r.items[n], r.endpoint, r.now);
      hide Follows;
      assert LastRefresh(r, id, n + 1, n);
      assert RefreshedBy(r, id, n + 1);
    } else if RefreshedBy(r, id, n) {
      hide Follows;
      var m: nat :| LastRefresh(r, id, n, m) && Follows(r.before[id], t, r.items[m]);
      assert r.options.updateExisting;
      assert LastRefresh(r, id, n + 1, m);
      assert RefreshedBy(r, id, n + 1);
    }
  }

  lemma {:induction false} ItemsAreFollowed(r: Run, n: nat, id: nat)
    requires n <= |r.items| == |r.keys| && UniqueExternal(r.before) && KeysFresh(r.keys, r.before) && id in r.before
    ensures FollowsLast(r, n, id)
  {
    hide *;
    if n == 0 {
      NoItemYet(r, id);
    } else {
      ItemsAreFollowed(r, n - 1, id);
      FollowsOneMore(r, n - 1, id);
    }
  }

  lemma NoItemYet(r: Run, id: nat)
    requires |r.items| == |r.keys| && id in r.before
    ensures FollowsLast(r, 0, id)
  {
  }

  /** After a sync that refreshed a stored machine, its open fields say what the last item about it says. */
  lemma OpenFieldsFollow(vms: Vms, e: Event, id: nat)
    requires UniqueExternal(vms) && Admissible(vms, e) && id in vms && e.Sync? && Renewed(vms, e, id)
    ensures var r := RunOf(vms, e.source, e.endpoint, e.inventory, e.options, e.now, e.keys);
            && id in Step(vms, e)
            && exists m: nat :: LastRefresh(r, id, |r.items|, m) && Follows(vms[id], Step(vms, e)[id], r.items[m])
  {
    var r := RunOf(vms, e.source, e.endpoint, e.inventory, e.options, e.now, e.keys);
    ItemsAreFollowed(r, |r.items|, id);
    hide ApplyItems, UniqueExternal, KeysFresh, EligibleItems, RefreshedBy, LastRefresh, Step;
    SyncKeepsFields(vms, e, id);
    var m: nat :| LastRefresh(r, id, |r.items|, m) && Follows(r.before[id], ApplyItems(r, |r.items|).vms[id], r.items[m]);
    assert Follows(vms[id], Step(vms, e)[id], r.items[m]);
  }
}
