/** Synchronising the same inventory twice, and what a preview foretells. */
module SyncRepeat {
  import opened Collections
  import opened InventorySync

  ghost function Externals(items: seq<Item>): set<string> {
    set i | i in items :: i.external
  }

  /** The machine is one the first items talk about. */
  ghost predicate Named(v: Vm, source: string, items: seq<Item>) {
    v.source == source && v.external.Some? && v.external.value in Externals(items)
  }

  ghost predicate SameIdentity(a: Vm, b: Vm) {
    a.source == b.source && a.external == b.external
  }

  /** One item writes at most one machine: the one it names, or a new one under the new key. */
  lemma ItemWrites(vms: Vms, source: string, endpoint: string, i: Item, aside: bool, o: Options, now: int, key: nat) returns (id: Ref)
    requires key !in vms
    ensures var after := ApplyItem(vms, source, endpoint, i, aside, o, now, key).vms;
            && (id.None? ==> after == vms)
            && (id.Some? ==> id.value in after && after == vms[id.value := after[id.value]] && WritesOwn(vms, id.value, after[id.value], source, i.external)
                             && (id.value !in vms ==> id.value == key))
  {
    hide Stored, Effective;
    var known := Find(vms, source, i.external);
    if aside || !Chosen(o, i.external) || (known.Some? && !o.updateExisting) { id := None; }
    else if known.Some? { id := known; }
    else { id := Some(key); }
  }

  /** Writing v under id keeps or founds the identity (source, external). */
  ghost predicate WritesOwn(vms: Vms, id: nat, v: Vm, source: string, external: string) {
    && Is(v, source, external)
    && (if id in vms then Is(vms[id], source, external) else forall x :: x in vms ==> !Is(vms[x], source, external))
  }

  lemma WriteKeepsUnique(vms: Vms, id: nat, v: Vm, source: string, external: string)
    requires UniqueExternal(vms) && WritesOwn(vms, id, v, source, external)
    ensures UniqueExternal(vms[id := v])
  {
    var after := vms[id := v];
    forall i, j | i in after && j in after && after[i].external.Some? && after[i].source == after[j].source
                  && after[i].external == after[j].external
      ensures i == j
    {
      if i == id && j != id { assert Is(vms[j], source, external); }
    }
  }

  ghost predicate OldStays(before: Vms, after: Vms, source: string, items: seq<Item>, id: nat)
    requires id in before
  {
    id in after && SameIdentity(after[id], before[id]) && (!Named(before[id], source, items) ==> after[id] == before[id])
  }

  /** What the first n items leave in place. */
  ghost predicate Frame(before: Vms, after: Vms, source: string, items: seq<Item>, keys: set<nat>) {
    && UniqueExternal(after)
    && (forall id :: id in before ==> OldStays(before, after, source, items, id))
    && (forall id :: id in after && id !in before ==> id in keys && Named(after[id], source, items))
  }

  lemma {:induction false} ItemsFrame(r: Run, n: nat)
    requires n <= |r.items| == |r.keys| && UniqueExternal(r.before) && KeysFresh(r.keys, r.before)
    ensures Frame(r.before, ApplyItems(r, n).vms, r.source, r.items[..n], Members(r.keys[..n]))
  {
    hide ApplyItem, SetAside, UniqueExternal, Externals;
    if n > 0 {
      ItemsFrame(r, n - 1);
      var t, i, key := ApplyItems(r, n - 1), r.items[n - 1], r.keys[n - 1];
      assert key in r.keys && key !in r.keys[..n - 1];
      var id := ItemWrites(t.vms, r.source, r.endpoint, i, SetAside(r.before, r.source, r.items, n - 1), r.options, r.now, key);
      var after := ApplyItems(r, n).vms;
      assert r.items[..n] == r.items[..n - 1] + [i];
      assert Members(r.keys[..n]) == Members(r.keys[..n - 1]) + {key} by { assert r.keys[..n] == r.keys[..n - 1] + [key]; }
      hide ApplyItems, KeysFresh, Frame, Members;
      FrameWidens(r.before, t.vms, r.source, r.items[..n - 1], i, Members(r.keys[..n - 1]), key);
      if id.Some? { FrameWrites(r.before, t.vms, id.value, after[id.value], r.source, r.items[..n - 1] + [i], i.external, Members(r.keys[..n - 1]) + {key}, key); }
    }
  }

  lemma FrameWidens(before: Vms, middle: Vms, source: string, done: seq<Item>, i: Item, keys: set<nat>, key: nat)
    requires Frame(before, middle, source, done, keys)
    ensures Frame(before, middle, source, done + [i], keys + {key})
    ensures i.external in Externals(done + [i])
  {
    assert i in done + [i];
    assert Externals(done) <= Externals(done + [i]);
    hide UniqueExternal, Externals;
    forall id | id in before ensures OldStays(before, middle, source, done + [i], id) {
      assert OldStays(before, middle, source, done, id);
    }
  }

  lemma FrameWrites(before: Vms, middle: Vms, id: nat, v: Vm, source: string, items: seq<Item>, e: string, keys: set<nat>, key: nat)
    requires Frame(before, middle, source, items, keys) && e in Externals(items) && key in keys
    requires WritesOwn(middle, id, v, source, e) && (id !in middle ==> id == key)
    ensures Frame(before, middle[id := v], source, items, keys)
  {
    var after := middle[id := v];
    NamedBy(middle, id, v, source, items, e);
    WriteKeepsUnique(middle, id, v, source, e);
    hide UniqueExternal, Externals, OldStays, Named, WritesOwn;
    forall x | x in before ensures OldStays(before, after, source, items, x) {
      StillStays(before, middle, id, v, source, items, e, x);
    }
  }

  lemma StillStays(before: Vms, middle: Vms, id: nat, v: Vm, source: string, items: seq<Item>, e: string, x: nat)
    requires x in before && OldStays(before, middle, source, items, x)
    requires WritesOwn(middle, id, v, source, e) && e in Externals(items)
    ensures OldStays(before, middle[id := v], source, items, x)
  {
  }

  lemma NamedBy(middle: Vms, id: nat, v: Vm, source: string, items: seq<Item>, e: string)
    requires WritesOwn(middle, id, v, source, e) && e in Externals(items)
    ensures Named(v, source, items)
  {
  }

  // ---------------------------------------------------------------- each item on its own

  ghost predicate DistinctItems(items: seq<Item>) {
    forall m, n :: 0 <= m < n < |items| ==> items[m].external != items[n].external
  }

  /** Items not yet reached still find what the run started with. */
  lemma FindStays(r: Run, n: nat, m: nat)
    requires n <= m < |r.items| == |r.keys| && UniqueExternal(r.before) && KeysFresh(r.keys, r.before) && DistinctItems(r.items)
    ensures var found, was := Find(ApplyItems(r, n).vms, r.source, r.items[m].external), Find(r.before, r.source, r.items[m].external);
            found == was && (was.Some? ==> ApplyItems(r, n).vms[was.value] == r.before[was.value])
  {
    hide ApplyItems;
    ItemsFrame(r, n);
    var after, e := ApplyItems(r, n).vms, r.items[m].external;
    assert e !in Externals(r.items[..n]);
    var was := Find(r.before, r.source, e);
    if was.Some? {
      assert OldStays(r.before, after, r.source, r.items[..n], was.value);
      FindIs(after, r.source, e, was.value);
    } else {
      forall id | id in after ensures !Is(after[id], r.source, e) {
        if id in r.before { assert OldStays(r.before, after, r.source, r.items[..n], id); }
      }
    }
  }

  /** The machine item m leaves behind. */
  ghost function Once(r: Run, m: nat): Vm
    requires m < |r.items|
  {
    var was := Find(r.before, r.source, r.items[m].external);
    if was.Some? then Refreshed(r.before[was.value], Effective(r.before[was.value], r.items[m].fields), r.endpoint, r.now)
    else Fresh(r.source, r.items[m], r.endpoint, r.now)
  }

  /** Everything is synced and nothing is set aside. */
  ghost predicate Plain(r: Run) {
    && |r.items| == |r.keys| && UniqueExternal(r.before) && KeysFresh(r.keys, r.before) && DistinctItems(r.items)
    && r.options.selected.None? && r.options.updateExisting
    && forall m :: 0 <= m < |r.items| ==> !SetAside(r.before, r.source, r.items, m)
  }

  /** What item n does when its turn comes. */
  lemma ItemOutcome(r: Run, n: nat)
    requires Plain(r) && n < |r.items|
    ensures var t, was := ApplyItems(r, n), Find(r.before, r.source, r.items[n].external);
            var id := if was.Some? then was.value else r.keys[n];
            ApplyItems(r, n + 1) ==
              Count(t, Applied(t.vms[id := Once(r, n)],
                               if was.None? then Created
                               else if r.before[was.value].fields == Effective(r.before[was.value], r.items[n].fields) then Unchanged
                               else Updated))
  {
    hide Stored, Effective, Fresh, Refreshed;
    FindStays(r, n, n);
    assert !SetAside(r.before, r.source, r.items, n);
  }

  // ---------------------------------------------------------------- what a preview foretells

  datatype Change = New | Update | Same | Error

  /** The preview's list of changed, unlocked fields is not empty. */
  predicate Differs(v: Vm, desired: Fields) {
    || (exists k :: k in PLAIN && k !in v.locked && v.fields.plain[k] != desired.plain[k])
    || (PRIMARY !in v.locked && v.fields.primary != desired.primary)
    || (ADDITIONAL !in v.locked && v.fields.additional != desired.additional)
  }

  lemma DiffersMeansEffective(v: Vm, desired: Fields)
    ensures Differs(v, desired) <==> v.fields != Effective(v, desired)
  {
    var e := Effective(v, desired);
    if !Differs(v, desired) {
      assert forall k :: k in PLAIN ==> v.fields.plain[k] == e.plain[k];
      assert v.fields.plain == e.plain;
    }
  }

  ghost function Foretold(vms: Vms, source: string, items: seq<Item>, n: nat): Change
    requires n < |items|
  {
    if SetAside(vms, source, items, n) then Error
    else
      var was := Find(vms, source, items[n].external);
      if was.None? then New else if Differs(vms[was.value], items[n].fields) then Update else Same
  }

  datatype Summary = Summary(created: nat, updated: nat, kept: nat, errors: nat)

  function CountChange(s: Summary, c: Change): Summary {
    Summary(if c == New then s.created + 1 else s.created,
            if c == Update then s.updated + 1 else s.updated,
            if c == Same then s.kept + 1 else s.kept,
            if c == Error then s.errors + 1 else s.errors)
  }

  ghost function PreviewSummary(vms: Vms, source: string, items: seq<Item>, n: nat): Summary
    requires n <= |items|
  {
    if n == 0 then Summary(0, 0, 0, 0)
    else CountChange(PreviewSummary(vms, source, items, n - 1), Foretold(vms, source, items, n - 1))
  }

  function OutcomeOf(c: Change): Effect {
    match c
    case New => Created
    case Update => Updated
    case Same => Unchanged
    case Error => Skipped
  }

  lemma ItemForetold(r: Run, n: nat)
    requires n < |r.items| == |r.keys| && UniqueExternal(r.before) && KeysFresh(r.keys, r.before) && DistinctItems(r.items)
    requires r.options.selected.None? && r.options.updateExisting
    ensures ApplyItems(r, n + 1)
              == Count(ApplyItems(r, n), Applied(ApplyItems(r, n + 1).vms, OutcomeOf(Foretold(r.before, r.source, r.items, n))))
  {
    hide SetAside, Differs, Effective, Stored, Fresh, Refreshed, UniqueExternal, KeysFresh, DistinctItems, Find;
    FindStays(r, n, n);
    var was := Find(r.before, r.source, r.items[n].external);
    if was.Some? { DiffersMeansEffective(r.before[was.value], r.items[n].fields); }
  }

  predicate Matches(t: Tally, s: Summary) {
    t.created == s.created && t.updated == s.updated && t.kept == s.kept && t.skipped == s.errors
  }

  lemma CountsMatch(t: Tally, s: Summary, after: Vms, c: Change)
    requires Matches(t, s)
    ensures Matches(Count(t, Applied(after, OutcomeOf(c))), CountChange(s, c))
  {
  }

  /** A full run does to each item what the preview of the same inventory said it would. */
  lemma {:induction false} PreviewForetells(r: Run, n: nat)
    requires n <= |r.items| == |r.keys| && UniqueExternal(r.before) && KeysFresh(r.keys, r.before) && DistinctItems(r.items)
    requires r.options.selected.None? && r.options.updateExisting
    ensures Matches(ApplyItems(r, n), PreviewSummary(r.before, r.source, r.items, n))
  {
    hide Foretold, UniqueExternal, KeysFresh, DistinctItems, ApplyItem, Matches, Count, CountChange, OutcomeOf, SetAside, Find;
    if n == 0 {
      NothingMatches(r.before);
    } else {
      PreviewForetells(r, n - 1);
      ItemForetold(r, n - 1);
      CountsMatch(ApplyItems(r, n - 1), PreviewSummary(r.before, r.source, r.items, n - 1), ApplyItems(r, n).vms,
                  Foretold(r.before, r.source, r.items, n - 1));
    }
  }

  lemma NothingMatches(vms: Vms)
    ensures Matches(Tally(vms, 0, 0, 0, 0), Summary(0, 0, 0, 0))
  {
  }

  // ---------------------------------------------------------------- the second run

  /** Nothing about this item asks for a second change. */
  ghost predicate Quiet(r: Run, m: nat)
    requires m < |r.items|
  {
    var was := Find(r.before, r.source, r.items[m].external);
    if was.Some? then Settled(r.before[was.value], r.items[m].fields) else r.items[m].fields.primary !in r.items[m].fields.additional
  }

  /** Item n writes a machine other than the one an earlier item was left in. */
  lemma WritesElsewhere(r: Run, n: nat, m: nat, found: nat)
    requires Plain(r) && m < n < |r.items|
    requires found in ApplyItems(r, n).vms && Is(ApplyItems(r, n).vms[found], r.source, r.items[m].external)
    ensures var was := Find(r.before, r.source, r.items[n].external);
            found != if was.Some? then was.value else r.keys[n]
  {
    hide ApplyItems, SetAside, Externals;
    FindStays(r, n, n);
    ItemsFrame(r, n);
    assert r.keys[n] in r.keys && r.keys[n] !in r.keys[..n];
    assert r.items[m].external != r.items[n].external;
  }

  /** Item n leaves a table with unique identities, in which it is found under the key it was written to. */
  lemma ItemIsWritten(r: Run, n: nat) returns (id: nat)
    requires Plain(r) && n < |r.items|
    ensures ApplyItems(r, n + 1).vms == ApplyItems(r, n).vms[id := Once(r, n)]
    ensures UniqueExternal(ApplyItems(r, n + 1).vms) && Is(Once(r, n), r.source, r.items[n].external)
    ensures id == var was := Find(r.before, r.source, r.items[n].external); if was.Some? then was.value else r.keys[n]
  {
    hide ApplyItems, SetAside, Stored, Effective, OldStays;
    var was := Find(r.before, r.source, r.items[n].external);
    id := if was.Some? then was.value else r.keys[n];
    ItemOutcome(r, n);
    ItemsFrame(r, n + 1);
  }

  /** After the items up to n, each of them is found as Once says. */
  lemma {:induction false} FirstRunLeaves(r: Run, n: nat, m: nat)
    requires Plain(r) && m < n <= |r.items|
    ensures var found := Find(ApplyItems(r, n).vms, r.source, r.items[m].external);
            found.Some? && ApplyItems(r, n).vms[found.value] == Once(r, m)
    decreases n
  {
    hide ApplyItems, SetAside, Find, UniqueExternal, KeysFresh, DistinctItems, Once, Plain;
    PlainSizes(r);
    var id := ItemIsWritten(r, n - 1);
    var before, after := ApplyItems(r, n - 1).vms, ApplyItems(r, n).vms;
    if m == n - 1 {
      FindIs(after, r.source, r.items[m].external, id);
    } else {
      FirstRunLeaves(r, n - 1, m);
      var found := Find(before, r.source, r.items[m].external).value;
      WritesElsewhere(r, n - 1, m, found);
      FindIs(after, r.source, r.items[m].external, found);
    }
  }

  lemma PlainSizes(r: Run)
    requires Plain(r)
    ensures |r.items| == |r.keys|
  {
  }

  /** The table `b` holds every item as the first run left it. */
  ghost predicate Remembers(r: Run, b: Vms) {
    UniqueExternal(b) && forall m :: 0 <= m < |r.items| ==>
      var found := Find(b, r.source, r.items[m].external); found.Some? && b[found.value] == Once(r, m)
  }

  /** Only times of synchronisation differ. */
  ghost predicate OnlyLater(a: Vms, b: Vms, later: int) {
    a.Keys == b.Keys && forall id :: id in a ==> b[id] == a[id] || b[id] == a[id].(synced := Some(later))
  }

  ghost function Again(r: Run, b: Vms, now: int, keys: seq<nat>): Run {
    Run(b, r.source, r.endpoint, r.items, r.options, now, keys)
  }

  lemma AgainIsPlain(r: Run, b: Vms, now: int, keys: seq<nat>)
    requires Plain(r) && Remembers(r, b) && |keys| == |r.items| && KeysFresh(keys, b)
    ensures Plain(Again(r, b, now, keys))
  {
    forall m | 0 <= m < |r.items| ensures !SetAside(b, r.source, r.items, m) {
      assert !SetAside(r.before, r.source, r.items, m);
    }
  }

  ghost predicate TidyItems(items: seq<Item>) {
    forall m :: 0 <= m < |items| ==> Tidy(items[m].fields.additional)
  }

  lemma OnceIsQuiet(r: Run, m: nat)
    requires m < |r.items| && Tidy(r.items[m].fields.additional)
    ensures Once(r, m).fields == Effective(Once(r, m), r.items[m].fields) <==> Quiet(r, m)
    ensures forall later :: Quiet(r, m) ==>
              Refreshed(Once(r, m), Effective(Once(r, m), r.items[m].fields), r.endpoint, later) == Once(r, m).(synced := Some(later))
  {
    var was := Find(r.before, r.source, r.items[m].external);
    forall later: int
      ensures Quiet(r, m) ==>
              Refreshed(Once(r, m), Effective(Once(r, m), r.items[m].fields), r.endpoint, later) == Once(r, m).(synced := Some(later))
    {
      hide Effective, Refreshed, Fresh, Settled;
      if was.Some? {
        if Quiet(r, m) { SettledStaysPut(r.before[was.value], r.items[m].fields, r.endpoint, r.now, later); }
      } else {
        FreshIsQuiet(r.source, r.items[m], r.endpoint, r.now, later);
      }
    }
    hide Effective, Refreshed, Fresh, Settled;
    if was.Some? { SecondRefreshIsQuiet(r.before[was.value], r.items[m].fields, r.endpoint, r.now); }
    else { FreshIsQuiet(r.source, r.items[m], r.endpoint, r.now, r.now); }
  }

  /** One item of the second run. */
  lemma AgainItem(r: Run, b: Vms, now: int, keys: seq<nat>, n: nat)
    requires Plain(r) && Remembers(r, b) && |keys| == |r.items| && KeysFresh(keys, b) && n < |r.items| && TidyItems(r.items)
    ensures var second := Again(r, b, now, keys); var t := ApplyItems(second, n);
            var id := Find(b, r.source, r.items[n].external);
            && id.Some? && id.value in t.vms && t.vms[id.value] == b[id.value]
            && ApplyItems(second, n + 1) ==
                 Count(t, Applied(t.vms[id.value := Once(second, n)], if Quiet(r, n) then Unchanged else Updated))
            && (Quiet(r, n) ==> Once(second, n) == b[id.value].(synced := Some(now)))
  {
    hide ApplyItems, SetAside, Effective, Stored, Refreshed, Fresh, Quiet;
    var second := Again(r, b, now, keys);
    AgainIsPlain(r, b, now, keys);
    FindStays(second, n, n);
    ItemOutcome(second, n);
    OnceIsQuiet(r, n);
  }

  ghost predicate AllQuiet(r: Run, n: nat)
    requires n <= |r.items|
  {
    forall m :: 0 <= m < n ==> Quiet(r, m)
  }

  lemma AllQuietStep(r: Run, n: nat)
    requires 0 < n <= |r.items|
    ensures AllQuiet(r, n) <==> AllQuiet(r, n - 1) && Quiet(r, n - 1)
  {
  }

  lemma OnlyLaterStep(a: Vms, b: Vms, id: nat, later: int)
    requires OnlyLater(a, b, later) && id in a
    ensures OnlyLater(a, b[id := a[id].(synced := Some(later))], later)
  {
  }

  lemma {:induction false} AgainTally(r: Run, b: Vms, now: int, keys: seq<nat>, n: nat)
    requires Plain(r) && Remembers(r, b) && |keys| == |r.items| && KeysFresh(keys, b) && n <= |r.items| && TidyItems(r.items)
    ensures var t := ApplyItems(Again(r, b, now, keys), n);
            && t.created == 0 && t.skipped == 0 && t.updated + t.kept == n
            && (t.updated == 0 <==> AllQuiet(r, n))
            && (AllQuiet(r, n) ==> OnlyLater(b, t.vms, now))
  {
    hide SetAside, Effective, Stored, Refreshed, Fresh, Quiet, Plain, Remembers, KeysFresh, TidyItems, Once, ApplyItem, Find,
         OnlyLater;
    if n == 0 {
      SameIsOnlyLater(b, now);
    } else {
      AgainTally(r, b, now, keys, n - 1);
      hide ApplyItems, AllQuiet;
      AllQuietStep(r, n);
      AgainItem(r, b, now, keys, n - 1);
      var t := ApplyItems(Again(r, b, now, keys), n - 1);
      var id := Find(b, r.source, r.items[n - 1].external).value;
      if AllQuiet(r, n) { OnlyLaterStep(b, t.vms, id, now); }
    }
  }

  lemma SameIsOnlyLater(a: Vms, later: int)
    ensures OnlyLater(a, a, later)
  {
  }

  // ---------------------------------------------------------------- two full syncs

  lemma {:induction false} EligibleAreItems(items: seq<Item>)
    ensures forall i :: i in EligibleItems(items) ==> i in items
  {
    if items != [] {
      EligibleAreItems(items[..|items| - 1]);
      assert items == items[..|items| - 1] + [items[|items| - 1]];
    }
  }

  /** Marking the missing leaves every machine of the inventory as it was. */
  lemma MarkingSparesSeen(r: Run, b: Vms, seen: set<string>)
    requires Remembers(r, b) && forall m :: 0 <= m < |r.items| ==> r.items[m].external in seen
    ensures Remembers(r, MarkMissing(b, r.source, seen, r.now))
  {
    var c := MarkMissing(b, r.source, seen, r.now);
    forall i | i in b ensures c[i].source == b[i].source && c[i].external == b[i].external {
    }
    assert UniqueExternal(c);
    hide MarkedMissing, Once;
    forall m | 0 <= m < |r.items|
      ensures var found := Find(c, r.source, r.items[m].external); found.Some? && c[found.value] == Once(r, m)
    {
      var id := Find(b, r.source, r.items[m].external).value;
      assert !Missing(b[id], r.source, seen);
      FindIs(c, r.source, r.items[m].external, id);
    }
  }

  lemma MarkedStaysMarked(v: Vm, w: Vm, source: string, seen: set<string>, now: int, later: int)
    requires var marked := if Missing(v, source, seen) then MarkedMissing(v, now) else v;
             w == marked || w == marked.(synced := Some(later))
    ensures Missing(w, source, seen) ==> MarkedMissing(w, later) == w
  {
  }

  /** Marking the missing a second time changes nothing, even after times have moved on. */
  lemma MarkingTwice(b: Vms, c: Vms, source: string, seen: set<string>, now: int, later: int)
    requires OnlyLater(MarkMissing(b, source, seen, now), c, later)
    ensures MarkMissing(c, source, seen, later) == c
  {
    hide Missing, MarkedMissing;
    var marked := MarkMissing(b, source, seen, now);
    forall id | id in c ensures Missing(c[id], source, seen) ==> MarkedMissing(c[id], later) == c[id] {
      assert c[id] == marked[id] || c[id] == marked[id].(synced := Some(later));
      MarkedStaysMarked(b[id], c[id], source, seen, now, later);
    }
    hide OnlyLater;
  }

  /** A run binds its machines to its own server, so the next run to that server is not refused. */
  lemma {:induction false} StaysBound(r: Run, n: nat)
    requires n <= |r.items| == |r.keys| && !BoundElsewhere(r.before, r.source, r.endpoint)
    ensures !BoundElsewhere(ApplyItems(r, n).vms, r.source, r.endpoint)
  {
    hide SetAside, ApplyItem, BoundElsewhere;
    if n > 0 {
      StaysBound(r, n - 1);
      ItemStaysBound(ApplyItems(r, n - 1).vms, r.source, r.endpoint, r.items[n - 1], SetAside(r.before, r.source, r.items, n - 1),
                     r.options, r.now, r.keys[n - 1]);
    }
  }

  lemma ItemStaysBound(vms: Vms, source: string, endpoint: string, i: Item, aside: bool, o: Options, now: int, key: nat)
    requires !BoundElsewhere(vms, source, endpoint)
    ensures !BoundElsewhere(ApplyItem(vms, source, endpoint, i, aside, o, now, key).vms, source, endpoint)
  {
    hide Stored, Effective;
  }

  ghost predicate ConflictFree(vms: Vms, source: string, items: seq<Item>) {
    forall m :: 0 <= m < |items| ==> !SetAside(vms, source, items, m)
  }

  /**
    A second full sync of the same conflict-free inventory creates nothing and skips nothing. It
    updates nothing exactly when every item is quiet, and then it alters nothing but times.
    */
  lemma SecondSyncIsQuiet(vms: Vms, source: string, endpoint: string, x: Inventory, now: int, keys: seq<nat>, later: int, again: seq<nat>)
    requires var items := EligibleItems(x.items);
             |keys| == |items| && |again| == |items| && DistinctItems(items) && TidyItems(items) && ConflictFree(vms, source, items)
    requires UniqueExternal(vms) && KeysFresh(keys, vms) && !BoundElsewhere(vms, source, endpoint)
    requires KeysFresh(again, Synced(vms, source, endpoint, x, FULL, now, keys).vms)
    ensures var r := RunOf(vms, source, endpoint, x, FULL, now, keys);
            var one := Synced(vms, source, endpoint, x, FULL, now, keys);
            var two := Synced(one.vms, source, endpoint, x, FULL, later, again);
            && !BoundElsewhere(one.vms, source, endpoint)
            && two.created == 0 && two.skipped == 0 && two.updated + two.kept == |again|
            && (two.updated == 0 <==> AllQuiet(r, |again|))
            && (AllQuiet(r, |again|) ==> OnlyLater(one.vms, two.vms, later))
  {
    hide SetAside, Find, Once, Quiet, AllQuiet, OnlyLater, UniqueExternal, DistinctItems, TidyItems, ApplyItems, KeysFresh, Missing,
         BoundElsewhere, EligibleItems;
    var r := RunOf(vms, source, endpoint, x, FULL, now, keys);
    var n := |keys|;
    assert Plain(r);
    AllRemembered(r);
    StaysBound(r, n);
    var b := ApplyItems(r, n).vms;
    var marked := if x.truncated then b else MarkMissing(b, source, Seen(x), now);
    AllSeen(vms, source, x);
    if !x.truncated {
      MarkingSparesSeen(r, b, Seen(x));
      MarkingKeepsBinding(b, source, endpoint, Seen(x), now);
    }
    AgainTally(r, marked, later, again, n);
    var second := ApplyItems(Again(r, marked, later, again), n);
    if AllQuiet(r, n) && !x.truncated { MarkingTwice(b, second.vms, source, Seen(x), now, later); }
  }

  lemma AllRemembered(r: Run)
    requires Plain(r)
    ensures Remembers(r, ApplyItems(r, |r.items|).vms)
  {
    hide ApplyItems, Find, Once;
    forall m | 0 <= m < |r.items|
      ensures var found := Find(ApplyItems(r, |r.items|).vms, r.source, r.items[m].external);
              found.Some? && ApplyItems(r, |r.items|).vms[found.value] == Once(r, m)
    {
      FirstRunLeaves(r, |r.items|, m);
    }
    ItemsFrame(r, |r.items|);
  }

  lemma AllSeen(vms: Vms, source: string, x: Inventory)
    requires ConflictFree(vms, source, EligibleItems(x.items))
    ensures forall m :: 0 <= m < |EligibleItems(x.items)| ==> EligibleItems(x.items)[m].external in Seen(x)
  {
    var items := EligibleItems(x.items);
    EligibleAreItems(x.items);
    forall m | 0 <= m < |items| ensures items[m].external in Seen(x) {
      assert items[m] in items && !SetAside(vms, source, items, m);
    }
  }

  lemma MarkingKeepsBinding(b: Vms, source: string, endpoint: string, seen: set<string>, now: int)
    requires !BoundElsewhere(b, source, endpoint)
    ensures !BoundElsewhere(MarkMissing(b, source, seen, now), source, endpoint)
  {
    var c := MarkMissing(b, source, seen, now);
    forall v | v in c ensures !(c[v].source == source && c[v].endpoint != "" && c[v].endpoint != endpoint) {
      assert c[v].source == b[v].source && c[v].endpoint == b[v].endpoint;
    }
  }
}
