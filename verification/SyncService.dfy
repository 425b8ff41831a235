/** The synchronisation service, working on its table in place, proved against InventorySync. */
module SyncService {
  import opened Collections
  import Spec = InventorySync
  import Repeat = SyncRepeat
  import Runs = SyncRuns
  import Conflicts = SyncConflicts

  type Vms = map<nat, Spec.Vm>

  ghost function NamesBefore(items: seq<Spec.Item>, n: nat): set<string>
    requires n <= |items|
  {
    set i | i in items[..n] && i.name != "" :: i.name
  }

  ghost function AddressesBefore(items: seq<Spec.Item>, n: nat): set<string>
    requires n <= |items|
  {
    if n == 0 then {} else AddressesBefore(items, n - 1) + Spec.Addresses(items[n - 1].fields)
  }

  ghost function StoredNames(vms: Vms): set<string> {
    set id | id in vms :: vms[id].fields.plain["name"]
  }

  ghost function StoredAddresses(vms: Vms): set<string> {
    set id, a | id in vms && a in Spec.Addresses(vms[id].fields) :: a
  }

  lemma {:induction false} AddressesBeforeMeans(items: seq<Spec.Item>, n: nat)
    requires n <= |items|
    ensures forall a :: a in AddressesBefore(items, n) <==> exists m :: 0 <= m < n && a in Spec.Addresses(items[m].fields)
  {
    if n > 0 { AddressesBeforeMeans(items, n - 1); }
  }

  /** The indexes answer whether an item collides or repeats. */
  lemma IndexesAnswer(vms: Vms, items: seq<Spec.Item>, n: nat)
    requires n < |items|
    ensures Spec.Collides(vms, items[n]) <==>
              || (items[n].name != "" && items[n].name in StoredNames(vms))
              || Spec.Addresses(items[n].fields) * StoredAddresses(vms) != {}
    ensures Spec.Repeats(items, n) <==>
              || items[n].name in NamesBefore(items, n)
              || Spec.Addresses(items[n].fields) * AddressesBefore(items, n) != {}
  {
    hide Spec.Addresses;
    var i := items[n];
    CollidesByIndex(vms, i);
    AddressesBeforeMeans(items, n);
    if Spec.Repeats(items, n) {
      var m :| 0 <= m < n && ((i.name != "" && items[m].name == i.name) || Spec.Addresses(i.fields) * Spec.Addresses(items[m].fields) != {});
      assert items[m] in items[..n];
      if Spec.Addresses(i.fields) * Spec.Addresses(items[m].fields) != {} {
        var a :| a in Spec.Addresses(i.fields) * Spec.Addresses(items[m].fields);
        assert a in Spec.Addresses(i.fields) * AddressesBefore(items, n);
      }
    }
    if i.name in NamesBefore(items, n) {
      var j :| j in items[..n] && j.name != "" && j.name == i.name;
      var m :| 0 <= m < n && items[m] == j;
      assert Spec.Repeats(items, n);
    }
    if Spec.Addresses(i.fields) * AddressesBefore(items, n) != {} {
      var a :| a in Spec.Addresses(i.fields) * AddressesBefore(items, n);
      var m :| 0 <= m < n && a in Spec.Addresses(items[m].fields);
      assert a in Spec.Addresses(i.fields) * Spec.Addresses(items[m].fields);
    }
  }

  lemma CollidesByIndex(vms: Vms, i: Spec.Item)
    ensures Spec.Collides(vms, i) <==>
              || (i.name != "" && i.name in StoredNames(vms))
              || Spec.Addresses(i.fields) * StoredAddresses(vms) != {}
  {
    hide Spec.Addresses;
    if Spec.Collides(vms, i) {
      var v :| v in vms && ((i.name != "" && vms[v].fields.plain["name"] == i.name)
                            || Spec.Addresses(i.fields) * Spec.Addresses(vms[v].fields) != {});
      if Spec.Addresses(i.fields) * Spec.Addresses(vms[v].fields) != {} {
        var a :| a in Spec.Addresses(i.fields) * Spec.Addresses(vms[v].fields);
        assert a in Spec.Addresses(i.fields) * StoredAddresses(vms);
      }
    }
    if Spec.Addresses(i.fields) * StoredAddresses(vms) != {} {
      var a :| a in Spec.Addresses(i.fields) * StoredAddresses(vms);
      var id :| id in vms && a in Spec.Addresses(vms[id].fields);
      assert a in Spec.Addresses(i.fields) * Spec.Addresses(vms[id].fields);
    }
  }

  /** What one attempt yields: an inventory, or an exception at any point, after which the session is rolled back. */
  datatype Fetch = Failed | Got(endpoint: string, inventory: Spec.Inventory, now: int, keys: seq<nat>)

  /** Attempt i (from 0) goes through: something was fetched, from the server the source is bound to. */
  ghost predicate Usable(vms: Vms, fetches: seq<Fetch>, source: string, i: nat)
    requires i < |fetches|
  {
    fetches[i].Got? && !Spec.BoundElsewhere(vms, source, fetches[i].endpoint)
  }

  ghost predicate FirstUsable(vms: Vms, fetches: seq<Fetch>, source: string, i: nat) {
    i < |fetches| && Usable(vms, fetches, source, i) && forall j: nat :: j < i ==> !Usable(vms, fetches, source, j)
  }

  class Synchroniser {
    var vms: Vms
    /** The run record: "running", "retrying", "success" or "failed", and the current attempt. */
    var status: string
    var attempt: nat

    /** filter_sync_inventory: templates and switched-off machines are set apart, not missing. */
    method FilterSyncInventory(x: Spec.Inventory) returns (eligible: seq<Spec.Item>, excluded: set<string>)
      ensures eligible == Spec.EligibleItems(x.items)
      ensures excluded + Named(eligible) == Spec.Seen(x)
    {
      hide Named;
      NothingNamed();
      SeenIsNamed(x);
      eligible, excluded := [], x.excluded;
      var n := 0;
      while n < |x.items|
        invariant n <= |x.items|
        invariant eligible == Spec.EligibleItems(x.items[..n])
        invariant excluded + Named(eligible) == x.excluded + Named(x.items[..n])
      {
        var i := x.items[n];
        assert x.items[..n + 1] == x.items[..n] + [i] && x.items[..n + 1][..n] == x.items[..n];
        NamedAppend(x.items[..n], i);
        NamedAppend(eligible, i);
        if i.status == Spec.TEMPLATE || i.status == Spec.POWERED_OFF {
          if i.external != "" { excluded := excluded + {i.external}; }
        } else {
          eligible := eligible + [i];
        }
        n := n + 1;
      }
      assert x.items[..n] == x.items;
    }

    /** The stored machine of a source with this external identity. */
    method Lookup(source: string, external: string) returns (id: Ref)
      requires Spec.UniqueExternal(vms)
      ensures id == Spec.Find(vms, source, external)
    {
      id := None;
      var todo := vms.Keys;
      while todo != {}
        invariant todo <= vms.Keys
        invariant id.Some? ==> id.value in vms && Spec.Is(vms[id.value], source, external)
        invariant id.None? ==> forall x :: x in vms && x !in todo ==> !Spec.Is(vms[x], source, external)
        decreases |todo|
      {
        var x: nat :| x in todo;
        todo := todo - {x};
        if vms[x].source == source && vms[x].external == Some(external) { id := Some(x); }
      }
      if id.Some? { Spec.FindIs(vms, source, external, id.value); }
    }

    /** The names and addresses of every stored machine. */
    method Index() returns (names: set<string>, addresses: set<string>)
      ensures names == StoredNames(vms) && addresses == StoredAddresses(vms)
    {
      hide StoredNames, StoredAddresses, Spec.Addresses;
      names, addresses := {}, {};
      var todo := vms.Keys;
      ghost var done: Vms := map[];
      NothingStored();
      while todo != {}
        invariant todo <= vms.Keys && done == Outside(vms, todo)
        invariant names == StoredNames(done) && addresses == StoredAddresses(done)
        decreases |todo|
      {
        var id: nat :| id in todo;
        OutsideGrows(vms, todo, id);
        StoredGrow(done, id, vms[id]);
        todo := todo - {id};
        done := done[id := vms[id]];
        names := names + {vms[id].fields.plain["name"]};
        addresses := addresses + Spec.Addresses(vms[id].fields);
      }
      assert done == vms;
    }

    /** preview_inventory: which items are set aside, and how many of each kind. */
    method PreviewInventory(source: string, items: seq<Spec.Item>) returns (aside: seq<bool>, summary: Repeat.Summary)
      requires Spec.UniqueExternal(vms)
      ensures |aside| == |items| && forall n :: 0 <= n < |items| ==> aside[n] == Spec.SetAside(vms, source, items, n)
      ensures forall n :: 0 <= n < |items| ==> aside[n] == Conflicts.Doubtful(vms, source, items, n)
      ensures summary == Repeat.PreviewSummary(vms, source, items, |items|)
    {
      aside, summary := AnnotateItems(source, items);
      hide Spec.SetAside, Conflicts.Doubtful, Repeat.PreviewSummary;
      forall n: nat | n < |items| ensures Spec.SetAside(vms, source, items, n) <==> Conflicts.Doubtful(vms, source, items, n) {
        Conflicts.AsideMeansDoubtful(vms, source, items, n);
      }
    }

    /** One pass over the items, with indexes of the stored and of the incoming names and addresses. */
    method AnnotateItems(source: string, items: seq<Spec.Item>) returns (aside: seq<bool>, summary: Repeat.Summary)
      requires Spec.UniqueExternal(vms)
      ensures |aside| == |items| && forall n :: 0 <= n < |items| ==> aside[n] == Spec.SetAside(vms, source, items, n)
      ensures summary == Repeat.PreviewSummary(vms, source, items, |items|)
    {
      hide StoredNames, StoredAddresses, Spec.Addresses, Spec.SetAside, Spec.Find, Repeat.Differs, NamesBefore, Spec.UniqueExternal;
      var names, addresses := Index();
      var incomingNames: set<string>, incomingAddresses: set<string> := {}, {};
      aside, summary := [], Repeat.Summary(0, 0, 0, 0);
      var n := 0;
      NothingBefore(items);
      while n < |items|
        invariant n <= |items| && |aside| == n
        invariant incomingNames == NamesBefore(items, n) && incomingAddresses == AddressesBefore(items, n)
        invariant forall m :: 0 <= m < n ==> aside[m] == Spec.SetAside(vms, source, items, m)
        invariant summary == Repeat.PreviewSummary(vms, source, items, n)
      {
        var i := items[n];
        var known := Lookup(source, i.external);
        var duplicate := i.name in incomingNames || Spec.Addresses(i.fields) * incomingAddresses != {};
        var collision := (i.name != "" && i.name in names) || Spec.Addresses(i.fields) * addresses != {};
        var error := i.broken || i.external == "" || (known.None? && (collision || duplicate));
        AsideByIndex(vms, source, items, n);
        NamesBeforeStep(items, n);
        if i.name != "" { incomingNames := incomingNames + {i.name}; }
        incomingAddresses := incomingAddresses + Spec.Addresses(i.fields);
        aside := aside + [error];
        if error { summary := summary.(errors := summary.errors + 1); }
        else if known.None? { summary := summary.(created := summary.created + 1); }
        else if Repeat.Differs(vms[known.value], i.fields) { summary := summary.(updated := summary.updated + 1); }
        else { summary := summary.(kept := summary.kept + 1); }
        n := n + 1;
      }
    }

    /** _set_vm_ips: further addresses once each, without the primary. */
    method SetVmIps(primary: string, additional: seq<string>) returns (kept: seq<string>)
      ensures kept == Spec.Kept(primary, additional)
    {
      kept := [];
      var seen := if primary != "" then {primary} else {};
      var n := 0;
      while n < |additional|
        invariant n <= |additional| && kept == Spec.Kept(primary, additional[..n])
        invariant forall a :: a in seen <==> a != "" && (a == primary || a in kept)
      {
        var ip := additional[n];
        assert additional[..n + 1][..n] == additional[..n];
        if ip != "" && ip !in seen {
          seen := seen + {ip};
          kept := kept + [ip];
        }
        n := n + 1;
      }
      assert additional[..n] == additional;
    }

    /** One item of _apply_core. */
    method ApplyItem(source: string, endpoint: string, i: Spec.Item, aside: bool, o: Spec.Options, now: int, key: nat)
      returns (effect: Spec.Effect)
      requires Spec.UniqueExternal(vms)
      modifies `vms
      ensures Spec.Applied(vms, effect) == Spec.ApplyItem(old(vms), source, endpoint, i, aside, o, now, key)
    {
      if aside {
        return if o.selected.None? || i.external in o.selected.value then Spec.Skipped else Spec.Ignored;
      }
      if o.selected.Some? && i.external !in o.selected.value { return Spec.Ignored; }
      var known := Lookup(source, i.external);
      if known.Some? && !o.updateExisting { return Spec.Skipped; }
      var id, v, effective: Spec.Fields := key, Spec.Vm(source, Some(i.external), "", i.fields, {}, Spec.Active, None, None), i.fields;
      effect := Spec.Created;
      if known.Some? {
        id, v := known.value, vms[known.value];
        effective := Spec.Effective(v, i.fields);
        effect := if v.fields == effective then Spec.Unchanged else Spec.Updated;
      }
      var kept := SetVmIps(effective.primary, effective.additional);
      v := v.(fields := effective.(additional := kept), endpoint := endpoint, synced := Some(now), health := Spec.Active, since := None);
      vms := vms[id := v];
    }

    /** The first miss sets the stale time; a confirmation stands. */
    method Mark(v: Spec.Vm, now: int) returns (w: Spec.Vm)
      ensures w == Spec.MarkedMissing(v, now)
    {
      w := v;
      if w.since.None? { w := w.(since := Some(now)); }
      if w.health != Spec.Confirmed { w := w.(health := Spec.Stale); }
    }

    /** Mark what a complete inventory no longer lists. */
    method MarkMissing(source: string, seen: set<string>, now: int) returns (stale: nat)
      modifies `vms
      ensures vms == Spec.MarkMissing(old(vms), source, seen, now)
      ensures stale == |MissingAmong(old(vms), source, seen, old(vms).Keys)|
    {
      hide MissingAmong, Spec.Missing, Spec.MarkedMissing, MarkedExcept;
      stale := 0;
      var todo := vms.Keys;
      ghost var was := vms;
      NothingMissing(was, source, seen);
      MarkedEnds(was, source, seen, now);
      assert was.Keys - todo == {};
      while todo != {}
        invariant todo <= vms.Keys == was.Keys && stale == |MissingAmong(was, source, seen, was.Keys - todo)|
        invariant vms == MarkedExcept(was, source, seen, now, todo)
        decreases |todo|
      {
        var id: nat :| id in todo;
        MissingAmongGrows(was, source, seen, was.Keys - todo, id);
        MarkedOne(was, source, seen, now, todo, id);
        assert was.Keys - (todo - {id}) == was.Keys - todo + {id};
        todo := todo - {id};
        if Spec.Missing(vms[id], source, seen) {
          var v := Mark(vms[id], now);
          vms := vms[id := v];
          stale := stale + 1;
        }
      }
      assert was.Keys - todo == was.Keys;
    }

    /** A machine of this source belongs to another server. */
    method Elsewhere(source: string, endpoint: string) returns (r: bool)
      ensures r == Spec.BoundElsewhere(vms, source, endpoint)
    {
      r := exists v :: v in vms && vms[v].source == source && vms[v].endpoint != "" && vms[v].endpoint != endpoint;
    }

    /** Every eligible item in turn. */
    method ApplyItems(ghost r: Spec.Run, aside: seq<bool>, source: string, endpoint: string, items: seq<Spec.Item>,
                      o: Spec.Options, now: int, keys: seq<nat>)
      returns (created: nat, updated: nat, kept: nat, skipped: nat)
      requires r == Spec.Run(vms, source, endpoint, items, o, now, keys) && |items| == |keys| == |aside|
      requires Spec.UniqueExternal(vms) && Spec.KeysFresh(keys, vms)
      requires forall n :: 0 <= n < |items| ==> aside[n] == Spec.SetAside(vms, source, items, n)
      modifies `vms
      ensures Spec.Tally(vms, created, updated, kept, skipped) == Spec.ApplyItems(r, |items|)
    {
      hide Spec.ApplyItem, Spec.SetAside, Spec.UniqueExternal, Spec.KeysFresh, Repeat.Externals, Repeat.OldStays;
      created, updated, kept, skipped := 0, 0, 0, 0;
      var n := 0;
      while n < |items|
        invariant n <= |items|
        invariant Spec.Tally(vms, created, updated, kept, skipped) == Spec.ApplyItems(r, n)
      {
        Repeat.ItemsFrame(r, n);
        var effect := ApplyItem(source, endpoint, items[n], aside[n], o, now, keys[n]);
        match effect {
          case Created => created := created + 1;
          case Updated => updated := updated + 1;
          case Unchanged => kept := kept + 1;
          case Skipped => skipped := skipped + 1;
          case Ignored =>
        }
        n := n + 1;
      }
    }

    /**
      _apply_core: preview, refuse a source that is bound to another server, apply, mark the missing.
      A refusal leaves the table alone.
      */
    method ApplyCore(source: string, endpoint: string, x: Spec.Inventory, o: Spec.Options, now: int, keys: seq<nat>)
      returns (ok: bool, created: nat, updated: nat, kept: nat, skipped: nat, stale: nat)
      requires |keys| == |Spec.EligibleItems(x.items)| && Spec.KeysFresh(keys, vms) && Spec.UniqueExternal(vms)
      modifies `vms
      ensures ok <==> !Spec.BoundElsewhere(old(vms), source, endpoint)
      ensures !ok ==> vms == old(vms)
      ensures ok ==> Spec.Tally(vms, created, updated, kept, skipped) == Spec.Synced(old(vms), source, endpoint, x, o, now, keys)
      ensures ok ==>
                var applied := Spec.ApplyItems(Spec.RunOf(old(vms), source, endpoint, x, o, now, keys), |keys|).vms;
                stale == if o.markMissing && !x.truncated then |MissingAmong(applied, source, Spec.Seen(x), applied.Keys)| else 0
      ensures ok && o.selected.None? ==> created + updated + kept + skipped == |Spec.EligibleItems(x.items)|
      ensures ok ==>
                var r := Spec.RunOf(old(vms), source, endpoint, x, o, now, keys);
                Conflicts.OnlyNewcomers(r, vms) && Conflicts.AllNewcomers(r, vms)
      ensures ok ==> |vms| == |old(vms)| + created
    {
      hide Spec.BoundElsewhere, Spec.ApplyItems, Spec.KeysFresh, Spec.UniqueExternal, Spec.EligibleItems, Spec.Seen, Spec.MarkMissing,
           Named, Spec.SetAside, MissingAmong, Conflicts.OnlyNewcomers, Conflicts.AllNewcomers, Conflicts.Doubtful;
      Conflicts.RunAddsNewcomers(vms, source, endpoint, x, o, now, keys);
      Conflicts.RunGrows(vms, source, endpoint, x, o, now, keys);
      created, updated, kept, skipped, stale := 0, 0, 0, 0, 0;
      var items, excluded := FilterSyncInventory(x);
      var aside, summary := PreviewInventory(source, items);
      var elsewhere := Elsewhere(source, endpoint);
      if elsewhere { return false, 0, 0, 0, 0, 0; }
      ghost var r := Spec.RunOf(vms, source, endpoint, x, o, now, keys);
      created, updated, kept, skipped := ApplyItems(r, aside, source, endpoint, items, o, now, keys);
      if o.selected.None? { Spec.CountsAddUp(r, |items|); }
      var seen := excluded + (set i | i in items && i.external != "" :: i.external);
      NamedIs(items);
      if o.markMissing && !x.truncated { stale := MarkMissing(source, seen, now); }
      ok := true;
    }

    /** manage_stale_vm */
    method ManageStale(id: nat, action: string) returns (found: bool)
      modifies `vms
      ensures found <==> id in old(vms)
      ensures vms == if id !in old(vms) then old(vms)
                     else old(vms)[id := Runs.Managed(old(vms)[id], if action == "confirm" then Runs.Confirm(id)
                                                                    else if action == "detach" then Runs.Detach(id) else Runs.Restore(id))]
      ensures Runs.Sound(old(vms)) ==> Runs.Sound(vms)
      ensures id in vms && action == "confirm" ==> vms[id].since == old(vms)[id].since
      ensures id in vms && action != "confirm" ==> vms[id].since.None?
      ensures id in vms && action == "detach" ==> vms[id].external.None?
      ensures forall i :: i in vms && i != id ==> vms[i] == old(vms)[i]
    {
      if id !in vms { return false; }
      ghost var e := if action == "confirm" then Runs.Confirm(id) else if action == "detach" then Runs.Detach(id) else Runs.Restore(id);
      if Runs.Sound(vms) { Runs.ManagedKeepsSound(vms, e); }
      hide Runs.Sound;
      var v := vms[id];
      if action == "confirm" {
        v := v.(health := Spec.Confirmed);
      } else if action == "detach" {
        v := v.(source := "manual", external := None, endpoint := "", health := Spec.Manual, since := None);
      } else {
        v := v.(health := Spec.Active, since := None);
      }
      vms := vms[id := v];
      found := true;
    }

    /**
      run_scheduled_sync: at most max(1, maxAttempts) attempts. The first usable inventory is applied
      whole and the run ends "success"; if there is none, the table is as it was and the run ends "failed".
      */
    method RunScheduledSync(source: string, fetches: seq<Fetch>, maxAttempts: int)
      requires |fetches| == if maxAttempts > 1 then maxAttempts else 1
      requires Spec.UniqueExternal(vms)
      requires forall f :: f in fetches && f.Got? ==> |f.keys| == |Spec.EligibleItems(f.inventory.items)| && Spec.KeysFresh(f.keys, vms)
      modifies this
      ensures 1 <= attempt <= |fetches| && (status == "success" || status == "failed")
      ensures status == "success" <==> exists i: nat :: FirstUsable(old(vms), fetches, source, i)
      ensures status == "success" ==>
                var last := attempt - 1; var f := fetches[last];
                && FirstUsable(old(vms), fetches, source, last)
                && vms == Spec.Synced(old(vms), source, f.endpoint, f.inventory, Spec.FULL, f.now, f.keys).vms
      ensures status == "failed" ==> vms == old(vms) && attempt == |fetches|
    {
      hide Spec.BoundElsewhere, Spec.KeysFresh, Spec.UniqueExternal, Spec.EligibleItems, Spec.Synced, Spec.RunOf, Spec.ApplyItems,
           MissingAmong, Conflicts.OnlyNewcomers, Conflicts.AllNewcomers;
      attempt, status := 0, "running";
      while attempt < |fetches|
        invariant attempt <= |fetches| && vms == old(vms)
        invariant forall j: nat :: j < attempt ==> !Usable(vms, fetches, source, j)
        invariant attempt == |fetches| ==> status == "failed"
      {
        status := "running";
        attempt := attempt + 1;
        var f := fetches[attempt - 1];
        assert f in fetches;
        if f.Got? {
          var ok, created, updated, kept, skipped, stale := ApplyCore(source, f.endpoint, f.inventory, Spec.FULL, f.now, f.keys);
          if ok {
            ghost var last: nat := attempt - 1;
            assert FirstUsable(old(vms), fetches, source, last);
            status := "success";
            return;
          }
        }
        status := if attempt >= maxAttempts then "failed" else "retrying";
      }
    }
  }

  lemma NamedIs(items: seq<Spec.Item>)
    ensures Named(items) == set i | i in items && i.external != "" :: i.external
  {
  }

  /** The table once every row outside `todo` has been looked at. */
  ghost function MarkedExcept(vms: Vms, source: string, seen: set<string>, now: int, todo: set<nat>): (r: Vms)
    ensures r.Keys == vms.Keys
  {
    map id | id in vms :: if id !in todo && Spec.Missing(vms[id], source, seen) then Spec.MarkedMissing(vms[id], now) else vms[id]
  }

  lemma MarkedEnds(vms: Vms, source: string, seen: set<string>, now: int)
    ensures MarkedExcept(vms, source, seen, now, vms.Keys) == vms
    ensures MarkedExcept(vms, source, seen, now, {}) == Spec.MarkMissing(vms, source, seen, now)
  {
  }

  lemma MarkedOne(vms: Vms, source: string, seen: set<string>, now: int, todo: set<nat>, id: nat)
    requires id in todo && id in vms
    ensures var before := MarkedExcept(vms, source, seen, now, todo);
            && before[id] == vms[id]
            && MarkedExcept(vms, source, seen, now, todo - {id}) ==
                 if Spec.Missing(vms[id], source, seen) then before[id := Spec.MarkedMissing(vms[id], now)] else before
  {
    hide Spec.Missing, Spec.MarkedMissing;
  }

  ghost function MissingAmong(vms: Vms, source: string, seen: set<string>, ids: set<nat>): set<nat> {
    set id | id in ids && id in vms && Spec.Missing(vms[id], source, seen)
  }

  lemma NothingMissing(vms: Vms, source: string, seen: set<string>)
    ensures MissingAmong(vms, source, seen, {}) == {}
  {
  }

  lemma MissingAmongGrows(vms: Vms, source: string, seen: set<string>, ids: set<nat>, id: nat)
    requires id !in ids && id in vms
    ensures |MissingAmong(vms, source, seen, ids + {id})|
              == |MissingAmong(vms, source, seen, ids)| + if Spec.Missing(vms[id], source, seen) then 1 else 0
  {
    hide Spec.Missing;
    if Spec.Missing(vms[id], source, seen) { assert MissingAmong(vms, source, seen, ids + {id}) == MissingAmong(vms, source, seen, ids) + {id}; }
    else { assert MissingAmong(vms, source, seen, ids + {id}) == MissingAmong(vms, source, seen, ids); }
  }

  lemma NothingStored()
    ensures StoredNames(map[]) == {} && StoredAddresses(map[]) == {}
  {
  }

  lemma NothingBefore(items: seq<Spec.Item>)
    ensures NamesBefore(items, 0) == {}
  {
  }

  lemma NothingNamed()
    ensures Named([]) == {}
  {
  }

  lemma SeenIsNamed(x: Spec.Inventory)
    ensures Spec.Seen(x) == x.excluded + Named(x.items)
  {
  }

  lemma AsideByIndex(vms: Vms, source: string, items: seq<Spec.Item>, n: nat)
    requires n < |items|
    ensures var i := items[n];
            Spec.SetAside(vms, source, items, n) ==
              (i.broken || i.external == ""
               || (Spec.Find(vms, source, i.external).None?
                   && ((i.name != "" && i.name in StoredNames(vms)) || Spec.Addresses(i.fields) * StoredAddresses(vms) != {}
                       || i.name in NamesBefore(items, n) || Spec.Addresses(i.fields) * AddressesBefore(items, n) != {})))
  {
    hide Spec.Find, Spec.Addresses, Spec.Collides, Spec.Repeats, StoredNames, StoredAddresses, NamesBefore;
    IndexesAnswer(vms, items, n);
  }

  ghost function Named(items: seq<Spec.Item>): set<string> {
    set i | i in items && i.external != "" :: i.external
  }

  lemma NamedAppend(items: seq<Spec.Item>, i: Spec.Item)
    ensures Named(items + [i]) == Named(items) + if i.external != "" then {i.external} else {}
  {
    forall e | e in Named(items) + (if i.external != "" then {i.external} else {}) ensures e in Named(items + [i]) {
      if e in Named(items) {
        var j :| j in items && j.external != "" && j.external == e;
        assert j in items + [i];
      } else {
        assert i in items + [i];
      }
    }
  }

  lemma NamesBeforeStep(items: seq<Spec.Item>, n: nat)
    requires n < |items|
    ensures NamesBefore(items, n + 1) == NamesBefore(items, n) + if items[n].name != "" then {items[n].name} else {}
  {
    assert items[..n + 1] == items[..n] + [items[n]];
    assert items[n] in items[..n + 1];
    forall e | e in NamesBefore(items, n) ensures e in NamesBefore(items, n + 1) {
      var j :| j in items[..n] && j.name != "" && j.name == e;
      assert j in items[..n + 1];
    }
  }

  lemma StoredGrow(done: Vms, id: nat, v: Spec.Vm)
    requires id !in done
    ensures StoredNames(done[id := v]) == StoredNames(done) + {v.fields.plain["name"]}
    ensures StoredAddresses(done[id := v]) == StoredAddresses(done) + Spec.Addresses(v.fields)
  {
    hide Spec.Addresses;
    var after := done[id := v];
    assert id in after && after[id] == v;
    forall x | x in done ensures x in after && after[x] == done[x] {
    }
  }
}
