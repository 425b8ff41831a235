/** Runs of syncs and operator actions: what a machine's stale time means. */
module SyncRuns {
  import opened Collections
  import opened InventorySync
  import opened SyncRepeat

  datatype Event =
    | Sync(source: string, endpoint: string, inventory: Inventory, options: Options, now: int, keys: seq<nat>)
    | Confirm(id: nat)
    | Restore(id: nat)
    | Detach(id: nat)

  ghost predicate Admissible(vms: Vms, e: Event) {
    e.Sync? ==> |e.keys| == |EligibleItems(e.inventory.items)| && KeysFresh(e.keys, vms)
  }

  /** manage_stale_vm */
  function Managed(v: Vm, e: Event): Vm
    requires !e.Sync?
  {
    match e
    case Confirm(_) => v.(health := Confirmed)
    case Restore(_) => v.(health := Active, since := None)
    case Detach(_) => v.(source := "manual", external := None, endpoint := "", health := Manual, since := None)
  }

  ghost function Step(vms: Vms, e: Event): Vms
    requires Admissible(vms, e)
  {
    if e.Sync? then
      if BoundElsewhere(vms, e.source, e.endpoint) then vms
      else Synced(vms, e.source, e.endpoint, e.inventory, e.options, e.now, e.keys).vms
    else if e.id in vms then vms[e.id := Managed(vms[e.id], e)] else vms
  }

  /** The event is a complete run that did not see the machine. */
  ghost predicate Missed(vms: Vms, e: Event, id: nat) {
    && id in vms && e.Sync? && !BoundElsewhere(vms, e.source, e.endpoint)
    && e.options.markMissing && !e.inventory.truncated && Missing(vms[id], e.source, Seen(e.inventory))
  }

  /** One of the first n items refreshes the machine. */
  ghost predicate RefreshedBy(r: Run, id: nat, n: nat)
    requires n <= |r.items| && id in r.before
  {
    exists m :: 0 <= m < n && r.options.updateExisting && Refreshes(r, id, m)
  }

  ghost predicate Refreshes(r: Run, id: nat, m: nat)
    requires m < |r.items| && id in r.before
  {
    !SetAside(r.before, r.source, r.items, m) && Chosen(r.options, r.items[m].external) && Is(r.before[id], r.source, r.items[m].external)
  }

  /** The machine is active, was seen now, and is bound to this server. */
  ghost predicate IsCurrent(v: Vm, endpoint: string, now: int) {
    v.health == Active && v.since.None? && v.synced == Some(now) && v.endpoint == endpoint
  }

  /** The event refreshes, restores or detaches the machine. */
  ghost predicate Renewed(vms: Vms, e: Event, id: nat)
    requires Admissible(vms, e) && id in vms
  {
    match e
    case Sync(source, endpoint, x, o, now, keys) =>
      !BoundElsewhere(vms, source, endpoint) && RefreshedBy(RunOf(vms, source, endpoint, x, o, now, keys), id, |keys|)
    case Confirm(_) => false
    case Restore(i) => i == id
    case Detach(i) => i == id
  }

  // ---------------------------------------------------------------- one event

  /** An active machine has no stale time, a stale one has. */
  ghost predicate Healthy(v: Vm) {
    (v.health == Active ==> v.since.None?) && (v.health == Stale ==> v.since.Some?)
  }

  ghost predicate AllHealthy(vms: Vms) {
    forall id :: id in vms ==> Healthy(vms[id])
  }

  /** What one item does to one stored machine. */
  lemma ItemOnMachine(vms: Vms, source: string, endpoint: string, i: Item, aside: bool, o: Options, now: int, key: nat, id: nat)
    requires UniqueExternal(vms) && key !in vms && id in vms
    ensures var after := ApplyItem(vms, source, endpoint, i, aside, o, now, key).vms;
            id in after && after[id] ==
              if !aside && Chosen(o, i.external) && o.updateExisting && Is(vms[id], source, i.external)
              then Refreshed(vms[id], Effective(vms[id], i.fields), endpoint, now) else vms[id]
  {
    hide Stored, Effective;
    if Is(vms[id], source, i.external) { FindIs(vms, source, i.external, id); }
  }

  /** The machine keeps its identity up to item n, and item n's key is not taken. */
  lemma StillItself(r: Run, n: nat, id: nat)
    requires n < |r.items| == |r.keys| && UniqueExternal(r.before) && KeysFresh(r.keys, r.before) && id in r.before
    ensures var t := ApplyItems(r, n).vms;
            UniqueExternal(t) && id in t && SameIdentity(t[id], r.before[id]) && r.keys[n] !in t
  {
    hide ApplyItems, Externals;
    ItemsFrame(r, n);
    assert OldStays(r.before, ApplyItems(r, n).vms, r.source, r.items[..n], id);
    assert r.keys[n] in r.keys && r.keys[n] !in r.keys[..n];
  }

  lemma ItemSince(r: Run, n: nat, id: nat)
    requires n < |r.items| == |r.keys| && UniqueExternal(r.before) && KeysFresh(r.keys, r.before) && id in r.before
    ensures var t, u := ApplyItems(r, n).vms, ApplyItems(r, n + 1).vms;
            && id in t && id in u
            && u[id] == if r.options.updateExisting && Refreshes(r, id, n)
                        then Refreshed(t[id], Effective(t[id], r.items[n].fields), r.endpoint, r.now) else t[id]
  {
    hide ApplyItems, ApplyItem, SetAside, UniqueExternal, KeysFresh, Effective, Refreshed;
    StillItself(r, n, id);
    OneItem(r, n);
    ItemOnMachine(ApplyItems(r, n).vms, r.source, r.endpoint, r.items[n], SetAside(r.before, r.source, r.items, n), r.options,
                  r.now, r.keys[n], id);
  }

  lemma OneItem(r: Run, n: nat)
    requires n < |r.items| == |r.keys|
    ensures ApplyItems(r, n + 1).vms
              == ApplyItem(ApplyItems(r, n).vms, r.source, r.endpoint, r.items[n], SetAside(r.before, r.source, r.items, n),
                           r.options, r.now, r.keys[n]).vms
  {
  }

  lemma {:induction false} ItemsSince(r: Run, n: nat, id: nat)
    requires n <= |r.items| == |r.keys| && UniqueExternal(r.before) && KeysFresh(r.keys, r.before) && id in r.before
    ensures var t := ApplyItems(r, n).vms;
            && id in t
            && (if RefreshedBy(r, id, n) then IsCurrent(t[id], r.endpoint, r.now) else t[id] == r.before[id])
  {
    hide Refreshes, UniqueExternal, KeysFresh, ApplyItem, Effective, Stored;
    if n > 0 {
      hide ApplyItems;
      ItemsSince(r, n - 1, id);
      ItemSince(r, n - 1, id);
    }
  }

  /** One event and one stored machine: missed, renewed, or left alone apart from a confirmation. */
  lemma EventSince(vms: Vms, e: Event, id: nat)
    requires UniqueExternal(vms) && Admissible(vms, e) && id in vms
    ensures var after := Step(vms, e);
            && id in after
            && !(Missed(vms, e, id) && Renewed(vms, e, id))
            && (if Missed(vms, e, id) then after[id] == MarkedMissing(vms[id], e.now)
                else if Renewed(vms, e, id) then
                  && after[id].since.None? && (after[id].health == Active || after[id].health == Manual)
                  && (e.Sync? ==> IsCurrent(after[id], e.endpoint, e.now))
                else after[id] == if e == Confirm(id) then vms[id].(health := Confirmed) else vms[id])
  {
    if e.Sync? && !BoundElsewhere(vms, e.source, e.endpoint) {
      var r := RunOf(vms, e.source, e.endpoint, e.inventory, e.options, e.now, e.keys);
      ItemsSince(r, |e.keys|, id);
      if RefreshedBy(r, id, |e.keys|) { RefreshedIsSeen(r, e.inventory, id); }
      StillMissing(r, id, Seen(e.inventory));
      hide ApplyItems, RefreshedBy, BoundElsewhere, UniqueExternal, KeysFresh, Missing, EligibleItems;
    }
  }

  /** A refreshed machine belongs to the inventory. */
  lemma RefreshedIsSeen(r: Run, x: Inventory, id: nat)
    requires id in r.before && r.items == EligibleItems(x.items) && RefreshedBy(r, id, |r.items|)
    ensures !Missing(r.before[id], r.source, Seen(x))
  {
    var m :| 0 <= m < |r.items| && r.options.updateExisting && Refreshes(r, id, m);
    EligibleAreItems(x.items);
    assert r.items[m] in r.items;
  }

  /** The items of a run do not change who a stored machine is. */
  lemma StillMissing(r: Run, id: nat, seen: set<string>)
    requires |r.items| == |r.keys| && UniqueExternal(r.before) && KeysFresh(r.keys, r.before) && id in r.before
    ensures var t := ApplyItems(r, |r.items|).vms;
            id in t && (Missing(t[id], r.source, seen) <==> Missing(r.before[id], r.source, seen))
  {
    hide ApplyItems;
    ItemsFrame(r, |r.items|);
    assert OldStays(r.before, ApplyItems(r, |r.items|).vms, r.source, r.items[..|r.items|], id);
  }

  // ---------------------------------------------------------------- what every run keeps

  lemma {:induction false} ItemsHealthy(r: Run, n: nat)
    requires n <= |r.items| == |r.keys| && AllHealthy(r.before)
    ensures AllHealthy(ApplyItems(r, n).vms)
  {
    hide SetAside, ApplyItem, AllHealthy;
    if n > 0 {
      ItemsHealthy(r, n - 1);
      ItemHealthy(ApplyItems(r, n - 1).vms, r.source, r.endpoint, r.items[n - 1], SetAside(r.before, r.source, r.items, n - 1),
                  r.options, r.now, r.keys[n - 1]);
    }
  }

  lemma ItemHealthy(vms: Vms, source: string, endpoint: string, i: Item, aside: bool, o: Options, now: int, key: nat)
    requires AllHealthy(vms)
    ensures AllHealthy(ApplyItem(vms, source, endpoint, i, aside, o, now, key).vms)
  {
    hide Effective, Stored;
  }

  ghost predicate Sound(vms: Vms) {
    UniqueExternal(vms) && AllHealthy(vms)
  }

  lemma StepKeepsSound(vms: Vms, e: Event)
    requires Sound(vms) && Admissible(vms, e)
    ensures Sound(Step(vms, e))
  {
    if e.Sync? {
      if !BoundElsewhere(vms, e.source, e.endpoint) {
        var r := RunOf(vms, e.source, e.endpoint, e.inventory, e.options, e.now, e.keys);
        hide ApplyItems, BoundElsewhere, KeysFresh, Externals, EligibleItems;
        ItemsHealthy(r, |e.keys|);
        ItemsFrame(r, |e.keys|);
        MarkingKeepsSound(ApplyItems(r, |e.keys|).vms, e.source, Seen(e.inventory), e.now);
      }
    } else {
      ManagedKeepsSound(vms, e);
    }
  }

  lemma MarkingKeepsSound(vms: Vms, source: string, seen: set<string>, now: int)
    requires Sound(vms)
    ensures Sound(MarkMissing(vms, source, seen, now))
  {
    hide Missing;
    var after := MarkMissing(vms, source, seen, now);
    forall i | i in vms ensures SameIdentity(after[i], vms[i]) && Healthy(after[i]) {
    }
  }

  lemma ManagedKeepsSound(vms: Vms, e: Event)
    requires Sound(vms) && !e.Sync?
    ensures Sound(Step(vms, e))
  {
  }

  // ---------------------------------------------------------------- whole runs

  /** The tables before and after each event of a run. */
  ghost predicate IsRun(states: seq<Vms>, events: seq<Event>) {
    && |states| == |events| + 1 && Sound(states[0])
    && forall n :: 0 <= n < |events| ==> Admissible(states[n], events[n]) && states[n + 1] == Step(states[n], events[n])
  }

  /** No machine is active with a stale time, or stale without one, at any point of a run. */
  lemma {:induction false} RunKeepsSound(states: seq<Vms>, events: seq<Event>, n: nat)
    requires IsRun(states, events) && n < |states|
    ensures Sound(states[n])
  {
    hide Sound, Step, Admissible;
    if n > 0 {
      RunKeepsSound(states, events, n - 1);
      StepKeepsSound(states[n - 1], events[n - 1]);
    }
  }

  ghost predicate MissedAt(states: seq<Vms>, events: seq<Event>, k: nat, id: nat)
    requires IsRun(states, events) && k < |events|
  {
    Missed(states[k], events[k], id)
  }

  ghost predicate RenewedAt(states: seq<Vms>, events: seq<Event>, k: nat, id: nat)
    requires IsRun(states, events) && k < |events|
  {
    id in states[k] && Renewed(states[k], events[k], id)
  }

  /** The first complete run from a on that missed the machine, before b. */
  ghost predicate FirstMiss(states: seq<Vms>, events: seq<Event>, a: nat, b: nat, id: nat, k: nat)
    requires IsRun(states, events) && b <= |events|
  {
    a <= k < b && MissedAt(states, events, k, id) && forall j :: a <= j < k ==> !MissedAt(states, events, j, id)
  }

  ghost predicate NoMiss(states: seq<Vms>, events: seq<Event>, a: nat, b: nat, id: nat)
    requires IsRun(states, events) && b <= |events|
  {
    forall k :: a <= k < b ==> !MissedAt(states, events, k, id)
  }

  /** The stale time at b is the time of the first complete run from a on that missed the machine, if any did. */
  ghost predicate Explained(states: seq<Vms>, events: seq<Event>, a: nat, b: nat, id: nat)
    requires IsRun(states, events) && b <= |events|
  {
    && id in states[b]
    && if states[b][id].since.None? then NoMiss(states, events, a, b, id)
       else exists k: nat :: FirstMiss(states, events, a, b, id, k) && events[k].Sync? && states[b][id].since == Some(events[k].now)
  }

  /** Between two renewals, a machine's stale time is the time of the first complete run that missed it. */
  lemma {:induction false} SinceIsFirstMiss(states: seq<Vms>, events: seq<Event>, a: nat, b: nat, id: nat)
    requires IsRun(states, events) && a <= b <= |events|
    requires id in states[a] && states[a][id].since.None?
    requires forall k :: a <= k < b ==> !RenewedAt(states, events, k, id)
    ensures Explained(states, events, a, b, id)
    decreases b
  {
    if a < b {
      SinceIsFirstMiss(states, events, a, b - 1, id);
      RunKeepsSound(states, events, b - 1);
      assert !RenewedAt(states, events, b - 1, id);
      hide *;
      ExplainedStep(states, events, a, b, id);
    }
  }

  lemma ExplainedStep(states: seq<Vms>, events: seq<Event>, a: nat, b: nat, id: nat)
    requires IsRun(states, events) && a < b <= |events| && Explained(states, events, a, b - 1, id)
    requires Sound(states[b - 1]) && !RenewedAt(states, events, b - 1, id)
    ensures Explained(states, events, a, b, id)
  {
    hide Step, Admissible, MissedAt, RenewedAt, Sound;
    SinceStep(states, events, b - 1, id);
    if states[b - 1][id].since.Some? {
      var k: nat :| FirstMiss(states, events, a, b - 1, id, k) && events[k].Sync? && states[b - 1][id].since == Some(events[k].now);
      assert FirstMiss(states, events, a, b, id, k);
    } else if MissedAt(states, events, b - 1, id) {
      assert FirstMiss(states, events, a, b, id, b - 1);
    }
  }

  lemma SinceStep(states: seq<Vms>, events: seq<Event>, n: nat, id: nat)
    requires IsRun(states, events) && n < |events| && Sound(states[n]) && id in states[n] && !RenewedAt(states, events, n, id)
    ensures id in states[n + 1]
    ensures states[n][id].since.Some? ==> states[n + 1][id].since == states[n][id].since
    ensures MissedAt(states, events, n, id) && states[n][id].since.None? ==> events[n].Sync? && states[n + 1][id].since == Some(events[n].now)
    ensures !MissedAt(states, events, n, id) && states[n][id].since.None? ==> states[n + 1][id].since.None?
  {
    hide Step, Renewed;
    EventSince(states[n], events[n], id);
  }

  /** A renewal clears the stale time. */
  lemma RenewalClears(states: seq<Vms>, events: seq<Event>, n: nat, id: nat)
    requires IsRun(states, events) && n < |events| && RenewedAt(states, events, n, id)
    ensures id in states[n + 1] && states[n + 1][id].since.None?
  {
    RunKeepsSound(states, events, n);
    hide Step, Renewed, Missed;
    EventSince(states[n], events[n], id);
  }

  /** A machine that is excluded, switched off or otherwise listed, or whose inventory was cut short, is never marked. */
  lemma PresentIsNeverMarked(vms: Vms, e: Event, id: nat)
    requires UniqueExternal(vms) && Admissible(vms, e) && id in vms && e.Sync?
    requires e.inventory.truncated || vms[id].source != e.source
             || (vms[id].external.Some? && vms[id].external.value in Seen(e.inventory))
    ensures id in Step(vms, e)
    ensures vms[id].since.None? ==> Step(vms, e)[id].since.None?
    ensures Step(vms, e)[id].health == Stale ==> vms[id].health == Stale
  {
    EventSince(vms, e, id);
    hide Step, Renewed;
  }

  /** The inventory has no trace of the machine: it is not excluded, and no item names it, whatever its status. */
  ghost predicate Absent(v: Vm, source: string, x: Inventory) {
    && v.source == source && v.external.Some? && v.external.value !in x.excluded
    && forall i :: i in x.items ==> i.external == "" || i.external != v.external.value
  }

  /** A run that is asked to and is complete marks exactly the machines of its source that the inventory has no trace of. */
  lemma AbsentIsMarked(vms: Vms, e: Event, id: nat)
    requires UniqueExternal(vms) && Admissible(vms, e) && id in vms && e.Sync? && !BoundElsewhere(vms, e.source, e.endpoint)
    ensures id in Step(vms, e)
    ensures var was, now := vms[id], Step(vms, e)[id];
            if e.options.markMissing && !e.inventory.truncated && Absent(was, e.source, e.inventory) then
              && now.health == (if was.health == Confirmed then Confirmed else Stale)
              && now.since == (if was.since.Some? then was.since else Some(e.now))
              && now == was.(health := now.health, since := now.since)
            else
              (now.health == Stale ==> was.health == Stale) && (now.since.Some? ==> now.since == was.since)
  {
    EventSince(vms, e, id);
    hide Step, Renewed, UniqueExternal, Admissible, BoundElsewhere;
  }

  /** A machine that the inventory lists only as a template or as switched off is left exactly as it is. */
  lemma OffIsLeftAlone(vms: Vms, e: Event, id: nat, i: Item)
    requires UniqueExternal(vms) && Admissible(vms, e) && id in vms && e.Sync?
    requires vms[id].source == e.source && vms[id].external == Some(i.external) && i.external != "" && i in e.inventory.items
    requires forall j :: j in e.inventory.items && j.external == i.external ==> j.status == TEMPLATE || j.status == POWERED_OFF
    ensures id in Step(vms, e) && Step(vms, e)[id] == vms[id]
  {
    EventSince(vms, e, id);
    var items := EligibleItems(e.inventory.items);
    forall m | 0 <= m < |items| ensures items[m].external != i.external {
      EligibleIs(e.inventory.items, items[m]);
    }
    hide Step, UniqueExternal, BoundElsewhere, EligibleItems;
  }

  lemma {:induction false} EligibleIs(items: seq<Item>, i: Item)
    ensures i in EligibleItems(items) <==> i in items && i.status != TEMPLATE && i.status != POWERED_OFF
  {
    if items != [] {
      var front, last := items[..|items| - 1], items[|items| - 1];
      assert items == front + [last];
      EligibleIs(front, i);
    }
  }

  /** A machine without an external identity, as after a detachment, is left alone by every sync. */
  lemma DetachedIsLeftAlone(vms: Vms, e: Event, id: nat)
    requires UniqueExternal(vms) && Admissible(vms, e) && e.Sync? && id in vms && vms[id].external.None?
    ensures id in Step(vms, e) && Step(vms, e)[id] == vms[id]
  {
    EventSince(vms, e, id);
    hide Step, UniqueExternal, Admissible, BoundElsewhere;
  }

  // ---------------------------------------------------------------- what a confirmation means

  ghost predicate ConfirmedIn(events: seq<Event>, a: nat, b: nat, id: nat) {
    exists c :: a <= c < b && c < |events| && events[c] == Confirm(id)
  }

  /** Since its last renewal, a machine is confirmed exactly when somebody confirmed it. */
  lemma {:induction false} ConfirmedByHand(states: seq<Vms>, events: seq<Event>, r: nat, b: nat, id: nat)
    requires IsRun(states, events) && r < b <= |events| && RenewedAt(states, events, r, id)
    requires forall k :: r < k < b ==> !RenewedAt(states, events, k, id)
    ensures id in states[b] && (states[b][id].health == Confirmed <==> ConfirmedIn(events, r + 1, b, id))
    decreases b
  {
    RunKeepsSound(states, events, b - 1);
    if r == b - 1 {
      ConfirmStep(states, events, r, id);
    } else {
      ConfirmedByHand(states, events, r, b - 1, id);
      assert !RenewedAt(states, events, b - 1, id);
      ConfirmStep(states, events, b - 1, id);
      ConfirmedOneMore(events, r + 1, b - 1, id);
    }
    hide Step, Admissible, Sound, MissedAt, RenewedAt;
  }

  lemma ConfirmStep(states: seq<Vms>, events: seq<Event>, n: nat, id: nat)
    requires IsRun(states, events) && n < |events| && Sound(states[n]) && id in states[n]
    ensures id in states[n + 1]
    ensures states[n + 1][id].health == Confirmed <==>
              !RenewedAt(states, events, n, id) && (states[n][id].health == Confirmed || events[n] == Confirm(id))
  {
    hide Step, Renewed;
    EventSince(states[n], events[n], id);
  }

  lemma ConfirmedOneMore(events: seq<Event>, a: nat, b: nat, id: nat)
    requires a <= b < |events|
    ensures ConfirmedIn(events, a, b + 1, id) <==> ConfirmedIn(events, a, b, id) || events[b] == Confirm(id)
  {
    if ConfirmedIn(events, a, b, id) { var c :| a <= c < b && events[c] == Confirm(id); }
  }

  /**
    A machine confirmed since its last renewal has a stale time exactly when a complete run missed it
    since then; so a confirmation alone, without a miss, leaves no time.
    */
  lemma ConfirmedTimeMeansMissed(states: seq<Vms>, events: seq<Event>, r: nat, b: nat, id: nat)
    requires IsRun(states, events) && r < b <= |events| && RenewedAt(states, events, r, id)
    requires forall k :: r < k < b ==> !RenewedAt(states, events, k, id)
    ensures id in states[b]
    ensures states[b][id].since.Some? <==> !NoMiss(states, events, r + 1, b, id)
    ensures states[b][id].health == Confirmed && states[b][id].since.None? <==>
              ConfirmedIn(events, r + 1, b, id) && NoMiss(states, events, r + 1, b, id)
  {
    RenewalClears(states, events, r, id);
    SinceIsFirstMiss(states, events, r + 1, b, id);
    ConfirmedByHand(states, events, r, b, id);
    hide IsRun, MissedAt, RenewedAt, ConfirmedIn;
  }
}
