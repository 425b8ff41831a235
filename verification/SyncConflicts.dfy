/**
  Whom a sync adds: told on names, primary and further addresses directly. A new machine is nobody the
  table or the inventory already knew, and an item that is nobody known becomes a machine.
  */
module SyncConflicts {
  import opened Collections
  import opened InventorySync
  import opened SyncRepeat
  import opened SyncRuns

  // ---------------------------------------------------------------- who is known

  /** The address is the primary one or one of the further ones. */
  predicate Uses(f: Fields, a: string) {
    a != "" && (a == f.primary || a in f.additional)
  }

  /** The same name, if there is one, or an address in common. */
  ghost predicate Shares(name: string, f: Fields, other: string, g: Fields) {
    (name != "" && name == other) || exists a :: Uses(f, a) && Uses(g, a)
  }

  ghost predicate KnownToTable(vms: Vms, i: Item) {
    exists v :: v in vms && Shares(i.name, i.fields, vms[v].fields.plain["name"], vms[v].fields)
  }

  ghost predicate KnownFromEarlier(items: seq<Item>, n: nat)
    requires n < |items|
  {
    exists m :: 0 <= m < n && Shares(items[n].name, items[n].fields, items[m].name, items[m].fields)
  }

  ghost predicate IsStored(vms: Vms, source: string, external: string) {
    exists v :: v in vms && vms[v].source == source && vms[v].external == Some(external)
  }

  /** A whole item whose identity is not stored and which shares nothing with the table or an earlier item. */
  ghost predicate Newcomer(vms: Vms, source: string, items: seq<Item>, n: nat)
    requires n < |items|
  {
    && !items[n].broken && items[n].external != "" && !IsStored(vms, source, items[n].external)
    && !KnownToTable(vms, items[n]) && !KnownFromEarlier(items, n)
  }

  lemma CommonAddress(f: Fields, g: Fields)
    ensures Addresses(f) * Addresses(g) != {} <==> exists a :: Uses(f, a) && Uses(g, a)
  {
    forall a ensures a in Addresses(f) * Addresses(g) <==> Uses(f, a) && Uses(g, a) {}
    if a: string :| Uses(f, a) && Uses(g, a) { assert a in Addresses(f) * Addresses(g); }
    if Addresses(f) * Addresses(g) != {} {
      var a: string :| a in Addresses(f) * Addresses(g);
      assert Uses(f, a) && Uses(g, a);
    }
  }

  lemma CollidesMeansKnown(vms: Vms, i: Item)
    ensures Collides(vms, i) <==> KnownToTable(vms, i)
  {
    hide Addresses, Uses;
    forall v | v in vms
      ensures Shares(i.name, i.fields, vms[v].fields.plain["name"], vms[v].fields) <==>
                (i.name != "" && vms[v].fields.plain["name"] == i.name) || Addresses(i.fields) * Addresses(vms[v].fields) != {}
    {
      CommonAddress(i.fields, vms[v].fields);
    }
  }

  lemma RepeatsMeansKnown(items: seq<Item>, n: nat)
    requires n < |items|
    ensures Repeats(items, n) <==> KnownFromEarlier(items, n)
  {
    hide Addresses, Uses;
    forall m: nat | m < n
      ensures Shares(items[n].name, items[n].fields, items[m].name, items[m].fields) <==>
                (items[n].name != "" && items[m].name == items[n].name) || Addresses(items[n].fields) * Addresses(items[m].fields) != {}
    {
      CommonAddress(items[n].fields, items[m].fields);
    }
  }

  /** Broken, without identity, or of an identity not stored while the table or an earlier item knows it otherwise. */
  ghost predicate Doubtful(vms: Vms, source: string, items: seq<Item>, n: nat)
    requires n < |items|
  {
    || items[n].broken || items[n].external == ""
    || (!IsStored(vms, source, items[n].external) && (KnownToTable(vms, items[n]) || KnownFromEarlier(items, n)))
  }

  /** The preview sets aside exactly the doubtful items. */
  lemma AsideMeansDoubtful(vms: Vms, source: string, items: seq<Item>, n: nat)
    requires n < |items|
    ensures SetAside(vms, source, items, n) <==> Doubtful(vms, source, items, n)
    ensures Find(vms, source, items[n].external).None? <==> !IsStored(vms, source, items[n].external)
  {
    CollidesMeansKnown(vms, items[n]);
    RepeatsMeansKnown(items, n);
    hide Collides, Repeats, KnownToTable, KnownFromEarlier;
    if v :| v in vms && vms[v].source == source && vms[v].external == Some(items[n].external) {
      assert Is(vms[v], source, items[n].external);
    }
  }

  // ---------------------------------------------------------------- a new machine was a newcomer

  /** The machine says what item m says, and that item was a chosen newcomer. */
  ghost predicate MadeOf(r: Run, m: nat, v: Vm) {
    && m < |r.items| && Newcomer(r.before, r.source, r.items, m) && Chosen(r.options, r.items[m].external)
    && v.source == r.source && v.external == Some(r.items[m].external) && v.endpoint == r.endpoint && v.locked == {}
    && v.fields.plain == r.items[m].fields.plain && v.fields.primary == r.items[m].fields.primary
    && forall a :: a in v.fields.additional <==> a in r.items[m].fields.additional && a != "" && a != v.fields.primary
  }

  ghost predicate Founded(r: Run, n: nat, v: Vm) {
    exists m: nat :: m < n && MadeOf(r, m, v)
  }

  lemma FreshIsMade(r: Run, n: nat)
    requires n < |r.items| && Newcomer(r.before, r.source, r.items, n) && Chosen(r.options, r.items[n].external)
    ensures MadeOf(r, n, Fresh(r.source, r.items[n], r.endpoint, r.now))
  {
    KeptIsTidy(r.items[n].fields.primary, r.items[n].fields.additional);
    hide Newcomer;
  }

  lemma RefreshedIsMade(r: Run, n: nat, v: Vm)
    requires n < |r.items| && Newcomer(r.before, r.source, r.items, n) && Chosen(r.options, r.items[n].external)
    requires v.source == r.source && v.external == Some(r.items[n].external) && v.locked == {}
    ensures MadeOf(r, n, Refreshed(v, Effective(v, r.items[n].fields), r.endpoint, r.now))
  {
    KeptIsTidy(r.items[n].fields.primary, r.items[n].fields.additional);
    assert Effective(v, r.items[n].fields) == r.items[n].fields;
    hide Newcomer;
  }

  /** A machine stored before the run is stored under its identity throughout. */
  lemma StillStored(r: Run, n: nat, e: string)
    requires n <= |r.items| == |r.keys| && UniqueExternal(r.before) && KeysFresh(r.keys, r.before) && IsStored(r.before, r.source, e)
    ensures var found := Find(ApplyItems(r, n).vms, r.source, e); found.Some? && found.value in r.before
  {
    hide ApplyItems, Named, KeysFresh;
    ItemsFrame(r, n);
    var t := ApplyItems(r, n).vms;
    var v: nat :| v in r.before && r.before[v].source == r.source && r.before[v].external == Some(e);
    assert OldStays(r.before, t, r.source, r.items[..n], v);
    assert Is(t[v], r.source, e);
    FindIs(t, r.source, e, v);
  }

  /** One item: a machine that is new after it was new before and untouched, or is made of it. */
  lemma NewAfterItem(r: Run, n: nat, id: nat)
    requires n < |r.items| == |r.keys| && UniqueExternal(r.before) && KeysFresh(r.keys, r.before)
    requires id in ApplyItems(r, n + 1).vms && id !in r.before
    requires id in ApplyItems(r, n).vms ==> ApplyItems(r, n).vms[id].locked == {}
    ensures var t, u := ApplyItems(r, n).vms, ApplyItems(r, n + 1).vms;
            (id in t && u[id] == t[id]) || MadeOf(r, n, u[id])
  {
    var t, e := ApplyItems(r, n).vms, r.items[n].external;
    OneItem(r, n);
    AsideMeansDoubtful(r.before, r.source, r.items, n);
    if IsStored(r.before, r.source, e) { StillStored(r, n, e); }
    hide ApplyItems, SetAside, IsStored, KnownToTable, KnownFromEarlier, UniqueExternal, KeysFresh, Fresh, Refreshed, Effective, MadeOf;
    if Newcomer(r.before, r.source, r.items, n) && Chosen(r.options, e) {
      FreshIsMade(r, n);
      if id in t && Is(t[id], r.source, e) { RefreshedIsMade(r, n, t[id]); }
    }
  }

  /** Every machine a run has added so far says what one of its items says, and that item was a newcomer. */
  lemma {:induction false} AddedAreNewcomers(r: Run, n: nat, id: nat)
    requires n <= |r.items| == |r.keys| && UniqueExternal(r.before) && KeysFresh(r.keys, r.before)
    requires id in ApplyItems(r, n).vms && id !in r.before
    ensures Founded(r, n, ApplyItems(r, n).vms[id])
  {
    hide *;
    if n == 0 {
      NoneAddedYet(r);
    } else {
      if id in ApplyItems(r, n - 1).vms {
        AddedAreNewcomers(r, n - 1, id);
        FoundedIsUnlocked(r, n - 1, ApplyItems(r, n - 1).vms[id]);
      }
      NewAfterItem(r, n - 1, id);
      FoundedGrows(r, n - 1, ApplyItems(r, n).vms[id]);
    }
  }

  lemma NoneAddedYet(r: Run)
    requires |r.items| == |r.keys|
    ensures ApplyItems(r, 0).vms == r.before
  {
  }

  lemma FoundedGrows(r: Run, n: nat, v: Vm)
    ensures Founded(r, n, v) || MadeOf(r, n, v) ==> Founded(r, n + 1, v)
  {
    hide MadeOf;
  }

  lemma FoundedIsUnlocked(r: Run, n: nat, v: Vm)
    requires Founded(r, n, v)
    ensures v.locked == {}
  {
    hide Newcomer;
  }

  // ---------------------------------------------------------------- a newcomer becomes a machine

  /** A machine of this identity that was not there before the run. */
  ghost predicate Added(r: Run, vms: Vms, e: string, id: nat) {
    id in vms && id !in r.before && vms[id].source == r.source && vms[id].external == Some(e)
  }

  /** The turn of a chosen newcomer: its machine is created, unless an earlier item of the same identity did. */
  lemma NewcomerIsAdded(r: Run, n: nat) returns (id: nat)
    requires n < |r.items| == |r.keys| && UniqueExternal(r.before) && KeysFresh(r.keys, r.before)
    requires Newcomer(r.before, r.source, r.items, n) && Chosen(r.options, r.items[n].external)
    ensures Added(r, ApplyItems(r, n + 1).vms, r.items[n].external, id)
  {
    hide ApplyItems, SetAside, KnownToTable, KnownFromEarlier, UniqueExternal, Effective;
    var t, e := ApplyItems(r, n).vms, r.items[n].external;
    OneItem(r, n);
    AsideMeansDoubtful(r.before, r.source, r.items, n);
    assert r.keys[n] in r.keys;
    var found := Find(t, r.source, e);
    if found.Some? {
      id := found.value;
      if id in r.before { OldKeepIdentity(r, n, id); }
    } else {
      id := r.keys[n];
    }
  }

  lemma OldKeepIdentity(r: Run, n: nat, id: nat)
    requires n <= |r.items| == |r.keys| && UniqueExternal(r.before) && KeysFresh(r.keys, r.before) && id in r.before
    ensures id in ApplyItems(r, n).vms && SameIdentity(ApplyItems(r, n).vms[id], r.before[id])
  {
    hide ApplyItems, Named;
    ItemsFrame(r, n);
    assert OldStays(r.before, ApplyItems(r, n).vms, r.source, r.items[..n], id);
  }

  /** A machine keeps its identity while the later items have their turn. */
  lemma {:induction false} AddedStays(r: Run, n: nat, later: nat, e: string, id: nat)
    requires n <= later <= |r.items| == |r.keys| && UniqueExternal(r.before) && KeysFresh(r.keys, r.before)
    requires Added(r, ApplyItems(r, n).vms, e, id)
    ensures Added(r, ApplyItems(r, later).vms, e, id)
    decreases later
  {
    hide *;
    if n < later {
      AddedStays(r, n, later - 1, e, id);
      StaysOneItem(r, later - 1, e, id);
    }
  }

  lemma StaysOneItem(r: Run, n: nat, e: string, id: nat)
    requires n < |r.items| == |r.keys| && Added(r, ApplyItems(r, n).vms, e, id)
    requires UniqueExternal(r.before) && KeysFresh(r.keys, r.before)
    ensures Added(r, ApplyItems(r, n + 1).vms, e, id)
  {
    hide ApplyItems, SetAside, UniqueExternal, Externals;
    OneItem(r, n);
    ItemsFrame(r, n);
    assert r.keys[n] in r.keys && r.keys[n] !in r.keys[..n];
    assert r.keys[n] !in ApplyItems(r, n).vms;
    var w := ItemWrites(ApplyItems(r, n).vms, r.source, r.endpoint, r.items[n], SetAside(r.before, r.source, r.items, n),
                        r.options, r.now, r.keys[n]);
  }

  // ---------------------------------------------------------------- the whole run

  /** Whoever is new was a newcomer and says what its item said. */
  ghost predicate OnlyNewcomers(r: Run, after: Vms) {
    forall id :: id in after && id !in r.before ==> exists m: nat :: MadeOf(r, m, after[id])
  }

  /** Every chosen newcomer is a machine. */
  ghost predicate AllNewcomers(r: Run, after: Vms) {
    forall m: nat :: m < |r.items| && Newcomer(r.before, r.source, r.items, m) && Chosen(r.options, r.items[m].external) ==>
      exists id :: Added(r, after, r.items[m].external, id)
  }

  lemma ItemsAddNewcomers(r: Run)
    requires |r.items| == |r.keys| && UniqueExternal(r.before) && KeysFresh(r.keys, r.before)
    ensures OnlyNewcomers(r, ApplyItems(r, |r.items|).vms) && AllNewcomers(r, ApplyItems(r, |r.items|).vms)
  {
    hide ApplyItems, UniqueExternal, KeysFresh, Newcomer, MadeOf, Added, Founded;
    var t := ApplyItems(r, |r.items|).vms;
    forall id | id in t && id !in r.before ensures exists m: nat :: MadeOf(r, m, t[id]) {
      AddedAreNewcomers(r, |r.items|, id);
      var m := WhoFounded(r, |r.items|, t[id]);
    }
    forall m: nat | m < |r.items| && Newcomer(r.before, r.source, r.items, m) && Chosen(r.options, r.items[m].external)
      ensures exists id :: Added(r, t, r.items[m].external, id)
    {
      var id := NewcomerIsAdded(r, m);
      AddedStays(r, m + 1, |r.items|, r.items[m].external, id);
    }
  }

  lemma MarkingKeepsNewcomers(r: Run, t: Vms, after: Vms)
    requires OnlyNewcomers(r, t) && AllNewcomers(r, t) && after.Keys == t.Keys
    requires forall id :: id in after ==> MarkedFrom(t[id], after[id])
    ensures OnlyNewcomers(r, after) && AllNewcomers(r, after)
  {
    hide Newcomer, MadeOf, Added, MarkedFrom;
    forall id | id in after && id !in r.before ensures exists m: nat :: MadeOf(r, m, after[id]) {
      var m: nat :| MadeOf(r, m, t[id]);
      MarkedIsMade(r, m, t[id], after[id]);
    }
    forall m: nat | m < |r.items| && Newcomer(r.before, r.source, r.items, m) && Chosen(r.options, r.items[m].external)
      ensures exists id :: Added(r, after, r.items[m].external, id)
    {
      var id: nat :| Added(r, t, r.items[m].external, id);
      assert id in t by { IsAmong(r, t, r.items[m].external, id); }
      MarkedIsAdded(r, t, after, r.items[m].external, id);
    }
  }

  lemma IsAmong(r: Run, t: Vms, e: string, id: nat)
    requires Added(r, t, e, id)
    ensures id in t
  {
  }

  /**
    Whoever a run adds shares no name and no address with a machine stored before it or with an earlier
    item; and every chosen item of which that can be said is a machine afterwards.
    */
  lemma RunAddsNewcomers(vms: Vms, source: string, endpoint: string, x: Inventory, o: Options, now: int, keys: seq<nat>)
    requires |keys| == |EligibleItems(x.items)| && KeysFresh(keys, vms) && UniqueExternal(vms)
    ensures var r, after := RunOf(vms, source, endpoint, x, o, now, keys), Synced(vms, source, endpoint, x, o, now, keys).vms;
            OnlyNewcomers(r, after) && AllNewcomers(r, after)
  {
    hide *;
    var r := RunOf(vms, source, endpoint, x, o, now, keys);
    SyncedMarks(vms, source, endpoint, x, o, now, keys);
    ItemsAddNewcomers(r);
    MarkingKeepsNewcomers(r, ApplyItems(r, |r.items|).vms, Synced(vms, source, endpoint, x, o, now, keys).vms);
  }

  /** The count of created machines is the growth of the table. */
  lemma {:induction false} CreatedIsGrowth(r: Run, n: nat)
    requires n <= |r.items| == |r.keys| && UniqueExternal(r.before) && KeysFresh(r.keys, r.before)
    ensures |ApplyItems(r, n).vms| == |r.before| + ApplyItems(r, n).created
  {
    hide *;
    if n == 0 {
      NothingCreatedYet(r);
    } else {
      CreatedIsGrowth(r, n - 1);
      KeyIsFree(r, n - 1);
      OneGrows(r, n - 1);
    }
  }

  lemma NothingCreatedYet(r: Run)
    requires |r.items| == |r.keys|
    ensures ApplyItems(r, 0).vms == r.before && ApplyItems(r, 0).created == 0
  {
  }

  lemma KeyIsFree(r: Run, n: nat)
    requires n < |r.items| == |r.keys| && UniqueExternal(r.before) && KeysFresh(r.keys, r.before)
    ensures r.keys[n] !in ApplyItems(r, n).vms
  {
    hide ApplyItems, UniqueExternal;
    ItemsFrame(r, n);
    assert r.keys[n] in r.keys && r.keys[n] !in r.keys[..n];
  }

  lemma PutSize(vms: Vms, id: nat, v: Vm)
    ensures |vms[id := v]| == |vms| + if id in vms then 0 else 1
  {
    assert vms[id := v].Keys == vms.Keys + {id};
  }

  lemma OneGrows(r: Run, n: nat)
    requires n < |r.items| == |r.keys| && r.keys[n] !in ApplyItems(r, n).vms
    ensures var t, u := ApplyItems(r, n), ApplyItems(r, n + 1); |u.vms| - u.created == |t.vms| - t.created
  {
    hide Fresh, Refreshed, Effective, SetAside, Chosen;
    var vms, i := ApplyItems(r, n).vms, r.items[n];
    var known := Find(vms, r.source, i.external);
    if known.Some? {
      PutSize(vms, known.value, Refreshed(vms[known.value], Effective(vms[known.value], i.fields), r.endpoint, r.now));
    } else {
      PutSize(vms, r.keys[n], Fresh(r.source, i, r.endpoint, r.now));
    }
  }

  lemma RunGrows(vms: Vms, source: string, endpoint: string, x: Inventory, o: Options, now: int, keys: seq<nat>)
    requires |keys| == |EligibleItems(x.items)| && KeysFresh(keys, vms) && UniqueExternal(vms)
    ensures var t := Synced(vms, source, endpoint, x, o, now, keys); |t.vms| == |vms| + t.created
  {
    var r := RunOf(vms, source, endpoint, x, o, now, keys);
    CreatedIsGrowth(r, |keys|);
    hide ApplyItems, UniqueExternal, KeysFresh, EligibleItems, Missing, MarkedMissing, Seen;
    var t := ApplyItems(r, |keys|).vms;
    assert MarkMissing(t, source, Seen(x), now).Keys == t.Keys;
  }

  /** Marking changes health and stale time alone. */
  ghost predicate MarkedFrom(v: Vm, w: Vm) {
    w == v.(health := w.health, since := w.since)
  }

  lemma SyncedMarks(vms: Vms, source: string, endpoint: string, x: Inventory, o: Options, now: int, keys: seq<nat>)
    requires |keys| == |EligibleItems(x.items)|
    ensures var r, after := RunOf(vms, source, endpoint, x, o, now, keys), Synced(vms, source, endpoint, x, o, now, keys).vms;
            && r.before == vms && r.source == source && r.options == o && r.keys == keys && |r.items| == |keys|
            && after.Keys == ApplyItems(r, |keys|).vms.Keys
            && forall id :: id in after ==> MarkedFrom(ApplyItems(r, |keys|).vms[id], after[id])
  {
    hide ApplyItems, EligibleItems, Seen;
  }

  lemma WhoFounded(r: Run, n: nat, v: Vm) returns (m: nat)
    requires Founded(r, n, v)
    ensures MadeOf(r, m, v)
  {
    hide MadeOf;
    m :| m < n && MadeOf(r, m, v);
  }

  lemma MarkedIsMade(r: Run, m: nat, v: Vm, w: Vm)
    requires MadeOf(r, m, v) && MarkedFrom(v, w)
    ensures MadeOf(r, m, w)
  {
    hide Newcomer;
  }

  lemma MarkedIsAdded(r: Run, t: Vms, after: Vms, e: string, id: nat)
    requires Added(r, t, e, id) && id in after && MarkedFrom(t[id], after[id])
    ensures Added(r, after, e, id)
  {
  }

  /** What it means to share nothing: with a machine stored before the run, and with an earlier item. */
  lemma NewcomerSharesNothing(r: Run, m: nat, v: Vm)
    requires MadeOf(r, m, v)
    ensures forall id :: id in r.before ==> Strangers(r.items[m].name, v.fields, r.before[id].fields.plain["name"], r.before[id].fields)
    ensures forall k: nat :: k < m ==> Strangers(r.items[m].name, v.fields, r.items[k].name, r.items[k].fields)
  {
    forall id | id in r.before
      ensures Strangers(r.items[m].name, v.fields, r.before[id].fields.plain["name"], r.before[id].fields)
    {
      assert !Shares(r.items[m].name, r.items[m].fields, r.before[id].fields.plain["name"], r.before[id].fields);
      MadeSharesNothing(r, m, v, r.before[id].fields.plain["name"], r.before[id].fields);
    }
    forall k: nat | k < m ensures Strangers(r.items[m].name, v.fields, r.items[k].name, r.items[k].fields) {
      assert !Shares(r.items[m].name, r.items[m].fields, r.items[k].name, r.items[k].fields);
      MadeSharesNothing(r, m, v, r.items[k].name, r.items[k].fields);
    }
  }

  /** Different names, if there is one, and no primary or further address of the one is one of the other. */
  predicate Strangers(name: string, f: Fields, other: string, g: Fields) {
    && (name != "" ==> name != other)
    && (f.primary != "" ==> f.primary != g.primary && f.primary !in g.additional)
    && forall a :: a in f.additional && a != "" ==> a != g.primary && a !in g.additional
  }

  lemma MadeSharesNothing(r: Run, m: nat, v: Vm, other: string, g: Fields)
    requires MadeOf(r, m, v) && !Shares(r.items[m].name, r.items[m].fields, other, g)
    ensures Strangers(r.items[m].name, v.fields, other, g)
  {
    hide Newcomer;
    var f := r.items[m].fields;
    assert v.fields.primary != "" ==> Uses(f, v.fields.primary);
    forall a | a in v.fields.additional && a != "" ensures a != g.primary && a !in g.additional {
      assert Uses(f, a) && !Uses(g, a);
    }
  }
}
