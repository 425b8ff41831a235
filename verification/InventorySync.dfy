/** What synchronising an external inventory does to the virtual machine table. */
module InventorySync {
  import opened Collections

  /** The fields a sync owns one by one; the two address fields are kept apart because they interact. */
  const PLAIN: set<string> := {"name", "function", "os_type", "os_version", "status", "host_name",
                               "cpu", "memory", "disk_size", "disk_count", "storage_lun", "disks"}
  const PRIMARY := "management_ip"
  const ADDITIONAL := "additional_ips"

  datatype RawFields = RawFields(plain: map<string, string>, primary: string, additional: seq<string>)

  /** Every field has a value. */
  type Fields = f: RawFields | f.plain.Keys == PLAIN
    witness RawFields(map k | k in PLAIN :: "", "", [])

  datatype Health = Active | Stale | Confirmed | Manual

  datatype Vm = Vm(source: string, external: Option<string>, endpoint: string, fields: Fields, locked: set<string>,
                   health: Health, since: Option<int>, synced: Option<int>)

  type Vms = map<nat, Vm>

  /** A fetched machine: `name` as sent, `fields` as _desired_vm normalises them, `broken` when the source says so. */
  datatype Item = Item(external: string, name: string, fields: Fields, status: string, broken: bool)

  datatype Inventory = Inventory(items: seq<Item>, excluded: set<string>, truncated: bool)

  const TEMPLATE := "模板"
  const POWERED_OFF := "已关机"

  predicate Eligible(i: Item) {
    i.status != TEMPLATE && i.status != POWERED_OFF
  }

  /** filter_sync_inventory: what is left to sync. */
  function EligibleItems(items: seq<Item>): seq<Item> {
    if items == [] then []
    else EligibleItems(items[..|items| - 1]) + if Eligible(items[|items| - 1]) then [items[|items| - 1]] else []
  }

  /** Identities that count as present: excluded machines and eligible ones. */
  function Seen(x: Inventory): set<string> {
    x.excluded + (set i | i in x.items && i.external != "" :: i.external)
  }

  // ---------------------------------------------------------------- looking machines up

  ghost predicate Is(v: Vm, source: string, external: string) {
    v.source == source && v.external == Some(external)
  }

  /** The database allows one machine per source and external identity. */
  ghost predicate UniqueExternal(vms: Vms) {
    forall i, j :: (i in vms && j in vms && vms[i].external.Some? && vms[i].source == vms[j].source
                    && vms[i].external == vms[j].external) ==> i == j
  }

  ghost function Find(vms: Vms, source: string, external: string): (r: Ref)
    ensures r.Some? ==> r.value in vms && Is(vms[r.value], source, external)
    ensures r.None? ==> forall i :: i in vms ==> !Is(vms[i], source, external)
  {
    if i: nat :| i in vms && Is(vms[i], source, external) then Some(i) else None
  }

  lemma FindIs(vms: Vms, source: string, external: string, i: nat)
    requires UniqueExternal(vms) && i in vms && Is(vms[i], source, external)
    ensures Find(vms, source, external) == Some(i)
  {
  }

  // ---------------------------------------------------------------- preview

  function Addresses(f: Fields): set<string> {
    Members(f.additional) + {f.primary} - {""}
  }

  /** An address or a name of this new item belongs to a stored machine. */
  ghost predicate Collides(vms: Vms, i: Item) {
    exists v :: v in vms && ((i.name != "" && vms[v].fields.plain["name"] == i.name) || Addresses(i.fields) * Addresses(vms[v].fields) != {})
  }

  /** An earlier item of the same inventory has this item's name or one of its addresses. */
  ghost predicate Repeats(items: seq<Item>, n: nat)
    requires n < |items|
  {
    exists m :: 0 <= m < n && ((items[n].name != "" && items[m].name == items[n].name) || Addresses(items[n].fields) * Addresses(items[m].fields) != {})
  }

  /** The item is set aside: broken, without identity, or new and possibly someone already known. */
  ghost predicate SetAside(vms: Vms, source: string, items: seq<Item>, n: nat)
    requires n < |items|
  {
    || items[n].broken
    || items[n].external == ""
    || (Find(vms, source, items[n].external).None? && (Collides(vms, items[n]) || Repeats(items, n)))
  }

  // ---------------------------------------------------------------- one machine

  /** _set_vm_ips: each further address once, and never the primary one. */
  function Kept(primary: string, additional: seq<string>): (r: seq<string>)
  {
    if additional == [] then []
    else
      var last := additional[|additional| - 1];
      var before := Kept(primary, additional[..|additional| - 1]);
      if last == "" || last == primary || last in before then before else before + [last]
  }

  function Stored(f: Fields): Fields {
    f.(additional := Kept(f.primary, f.additional))
  }

  /** Locked fields keep their current value, the others take the new one. */
  function Effective(v: Vm, desired: Fields): Fields {
    RawFields(map k | k in PLAIN :: if k in v.locked then v.fields.plain[k] else desired.plain[k],
              if PRIMARY in v.locked then v.fields.primary else desired.primary,
              if ADDITIONAL in v.locked then v.fields.additional else desired.additional)
  }

  function Refreshed(v: Vm, f: Fields, endpoint: string, now: int): Vm {
    v.(endpoint := endpoint, fields := Stored(f), health := Active, since := None, synced := Some(now))
  }

  function Fresh(source: string, i: Item, endpoint: string, now: int): Vm {
    Vm(source, Some(i.external), endpoint, Stored(i.fields), {}, Active, None, Some(now))
  }

  /** No empty entry and no repeat: what a stored address list looks like. */
  ghost predicate Tidy(l: seq<string>) {
    Distinct(l) && "" !in l
  }

  lemma {:induction false} KeptIsTidy(primary: string, l: seq<string>)
    ensures Tidy(Kept(primary, l)) && primary !in Kept(primary, l)
    ensures forall a :: a in Kept(primary, l) <==> a in l && a != "" && a != primary
    decreases |l|
  {
    if l != [] {
      KeptIsTidy(primary, l[..|l| - 1]);
      assert l == l[..|l| - 1] + [l[|l| - 1]];
    }
  }

  /** A tidy list is kept whole exactly when the primary address is not in it. */
  lemma {:induction false} KeptWhole(primary: string, l: seq<string>)
    requires Tidy(l)
    ensures Kept(primary, l) == l <==> primary !in l
    decreases |l|
  {
    KeptIsTidy(primary, l);
    if l != [] && primary !in l {
      var front, last := l[..|l| - 1], l[|l| - 1];
      assert l == front + [last];
      assert Tidy(front) && last !in front;
      KeptWhole(primary, front);
    }
  }

  /**
    What a refresh does to fields an operator has locked: all keep their value, except that a locked
    address list loses the primary address exactly when the new primary is one of its entries.
    */
  lemma LockedFieldsHold(v: Vm, desired: Fields, endpoint: string, now: int)
    requires Tidy(v.fields.additional)
    ensures var after := Refreshed(v, Effective(v, desired), endpoint, now).fields;
            && (forall k :: k in PLAIN && k in v.locked ==> after.plain[k] == v.fields.plain[k])
            && (PRIMARY in v.locked ==> after.primary == v.fields.primary)
            && (ADDITIONAL in v.locked ==>
                  (after.additional == v.fields.additional <==> Effective(v, desired).primary !in v.fields.additional))
  {
    KeptWhole(Effective(v, desired).primary, v.fields.additional);
  }

  /** After one refresh, the same item asks for nothing new. */
  ghost predicate Settled(v: Vm, desired: Fields) {
    ADDITIONAL in v.locked || Effective(v, desired).primary !in desired.additional
  }

  /** The second refresh with the same item finds nothing to change exactly when the item is settled. */
  lemma SecondRefreshIsQuiet(v: Vm, desired: Fields, endpoint: string, now: int)
    requires Tidy(desired.additional)
    ensures var once := Refreshed(v, Effective(v, desired), endpoint, now);
            once.fields == Effective(once, desired) <==> Settled(v, desired)
  {
    var e := Effective(v, desired);
    var once := Refreshed(v, e, endpoint, now);
    KeptWhole(e.primary, desired.additional);
    assert Effective(once, desired).plain == once.fields.plain;
    assert Effective(once, desired).primary == once.fields.primary;
  }

  /** Once settled, refreshing again keeps everything but the time. */
  lemma SettledStaysPut(v: Vm, desired: Fields, endpoint: string, now: int, later: int)
    requires Tidy(desired.additional) && Settled(v, desired)
    ensures var once := Refreshed(v, Effective(v, desired), endpoint, now);
            Refreshed(once, Effective(once, desired), endpoint, later) == once.(synced := Some(later))
  {
    var once := Refreshed(v, Effective(v, desired), endpoint, now);
    SecondRefreshIsQuiet(v, desired, endpoint, now);
    KeptIsTidy(once.fields.primary, Effective(v, desired).additional);
    KeptWhole(once.fields.primary, once.fields.additional);
  }

  /** The item a new machine was made from finds nothing to change unless its primary is among its further addresses. */
  lemma FreshIsQuiet(source: string, i: Item, endpoint: string, now: int, later: int)
    requires Tidy(i.fields.additional)
    ensures var v := Fresh(source, i, endpoint, now);
            && (v.fields == Effective(v, i.fields) <==> i.fields.primary !in i.fields.additional)
            && (i.fields.primary !in i.fields.additional ==>
                  Refreshed(v, Effective(v, i.fields), endpoint, later) == v.(synced := Some(later)))
  {
    var v := Fresh(source, i, endpoint, now);
    KeptWhole(i.fields.primary, i.fields.additional);
    KeptIsTidy(i.fields.primary, i.fields.additional);
    KeptWhole(i.fields.primary, v.fields.additional);
    assert Effective(v, i.fields) == i.fields;
  }

  // ---------------------------------------------------------------- the whole inventory

  /** `selected` None means everything. */
  datatype Options = Options(selected: Option<set<string>>, updateExisting: bool, markMissing: bool)

  const FULL := Options(None, true, true)

  datatype Effect = Created | Updated | Unchanged | Skipped | Ignored

  datatype Applied = Applied(vms: Vms, outcome: Effect)

  predicate Chosen(o: Options, external: string) {
    o.selected.None? || external in o.selected.value
  }

  /** One eligible item; `aside` was decided by the preview. */
  ghost function ApplyItem(vms: Vms, source: string, endpoint: string, i: Item, aside: bool, o: Options, now: int, key: nat): Applied {
    if aside then Applied(vms, if Chosen(o, i.external) then Skipped else Ignored)
    else if !Chosen(o, i.external) then Applied(vms, Ignored)
    else
      var known := Find(vms, source, i.external);
      if known.None? then Applied(vms[key := Fresh(source, i, endpoint, now)], Created)
      else if !o.updateExisting then Applied(vms, Skipped)
      else
        var v := vms[known.value];
        var f := Effective(v, i.fields);
        Applied(vms[known.value := Refreshed(v, f, endpoint, now)], if v.fields == f then Unchanged else Updated)
  }

  datatype Tally = Tally(vms: Vms, created: nat, updated: nat, kept: nat, skipped: nat)

  function Count(t: Tally, a: Applied): Tally {
    Tally(a.vms,
          if a.outcome == Created then t.created + 1 else t.created,
          if a.outcome == Updated then t.updated + 1 else t.updated,
          if a.outcome == Unchanged then t.kept + 1 else t.kept,
          if a.outcome == Skipped then t.skipped + 1 else t.skipped)
  }

  /** What stays fixed during one run: `before` is the table the preview looked at. */
  datatype Run = Run(before: Vms, source: string, endpoint: string, items: seq<Item>, options: Options, now: int, keys: seq<nat>)

  ghost function ApplyItems(r: Run, n: nat): Tally
    requires n <= |r.items| == |r.keys|
  {
    if n == 0 then Tally(r.before, 0, 0, 0, 0)
    else
      var t := ApplyItems(r, n - 1);
      Count(t, ApplyItem(t.vms, r.source, r.endpoint, r.items[n - 1], SetAside(r.before, r.source, r.items, n - 1),
                         r.options, r.now, r.keys[n - 1]))
  }

  /** A machine of the source that a complete inventory no longer lists. */
  predicate Missing(v: Vm, source: string, seen: set<string>) {
    v.source == source && v.external.Some? && v.external.value !in seen
  }

  function MarkedMissing(v: Vm, now: int): Vm {
    v.(since := if v.since.None? then Some(now) else v.since, health := if v.health == Confirmed then Confirmed else Stale)
  }

  function MarkMissing(vms: Vms, source: string, seen: set<string>, now: int): Vms {
    map id | id in vms :: if Missing(vms[id], source, seen) then MarkedMissing(vms[id], now) else vms[id]
  }

  /** A machine of this source was bound to another server: the run is refused. */
  ghost predicate BoundElsewhere(vms: Vms, source: string, endpoint: string) {
    exists v :: v in vms && vms[v].source == source && vms[v].endpoint != "" && vms[v].endpoint != endpoint
  }

  ghost function RunOf(vms: Vms, source: string, endpoint: string, x: Inventory, o: Options, now: int, keys: seq<nat>): Run {
    Run(vms, source, endpoint, EligibleItems(x.items), o, now, keys)
  }

  /** _apply_core, when the run is not refused. */
  ghost function Synced(vms: Vms, source: string, endpoint: string, x: Inventory, o: Options, now: int, keys: seq<nat>): Tally
    requires |keys| == |EligibleItems(x.items)|
  {
    var t := ApplyItems(RunOf(vms, source, endpoint, x, o, now, keys), |keys|);
    if o.markMissing && !x.truncated then t.(vms := MarkMissing(t.vms, source, Seen(x), now)) else t
  }

  ghost predicate KeysFresh(keys: seq<nat>, vms: Vms) {
    Distinct(keys) && forall k :: k in keys ==> k !in vms
  }

  // ---------------------------------------------------------------- counts

  /** A run over everything accounts for every eligible item. */
  lemma {:induction false} CountsAddUp(r: Run, n: nat)
    requires n <= |r.items| == |r.keys| && r.options.selected.None?
    ensures var t := ApplyItems(r, n); t.created + t.updated + t.kept + t.skipped == n
  {
    hide SetAside, Find, Fresh, Refreshed, Effective;
    if n > 0 { CountsAddUp(r, n - 1); }
  }
}
