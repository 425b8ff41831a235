/**
  What an accepted call leaves in the tables, told from the request and the tables alone: the stored row
  carries what was sent, what was deleted is gone, and everything else is as it was.
  */
module IpamEffects {
  import opened Collections
  import opened Addressing
  import opened IpamTables
  import opened IpamRules
  import opened IpamSafety
  import opened IpamAllocation
  import opened IpamValidation

  /** A field that was not sent stays, one sent as null is cleared, one sent with a value takes it. */
  predicate Sets<T(==)>(f: Field<T>, before: T, after: T, cleared: T) {
    (f.Unset? ==> after == before) && (f.Null? ==> after == cleared) && (f.Value? ==> after == f.value)
  }

  // ---------------------------------------------------------------- aggregates

  ghost predicate AggregateEdited(t: Tables, after: Tables, id: nat, name: Field<Text>, prefix: Field<Text>, notes: Field<string>) {
    && id in t.aggregates && id in after.aggregates
    && after == t.(aggregates := t.aggregates[id := after.aggregates[id]])
    && Sets(name, t.aggregates[id].name, after.aggregates[id].name, Words(""))
    && Sets(prefix, t.aggregates[id].prefix, after.aggregates[id].prefix, Words(""))
    && Sets(notes, t.aggregates[id].notes, after.aggregates[id].notes, "")
  }

  lemma AggregateIsEdited(t: Tables, id: nat, name: Field<Text>, prefix: Field<Text>, notes: Field<string>)
    ensures UpdateAggregate(t, id, name, prefix, notes).Done? ==>
              AggregateEdited(t, UpdateAggregate(t, id, name, prefix, notes).value, id, name, prefix, notes)
  {
  }

  /** Row p is a prefix of this aggregate. */
  predicate IsIn(t: Tables, p: nat, aggregate: nat) {
    p in t.prefixes && t.prefixes[p].aggregate == Some(aggregate)
  }

  /** The aggregate is gone with its prefixes and their addresses; all other rows are as they were. */
  ghost predicate AggregateDeleted(t: Tables, after: Tables, id: nat) {
    && after == t.(aggregates := after.aggregates, prefixes := after.prefixes, ips := after.ips)
    && (forall a :: a in after.aggregates <==> a in t.aggregates && a != id)
    && (forall a :: a in after.aggregates ==> after.aggregates[a] == t.aggregates[a])
    && (forall p :: p in after.prefixes <==> p in t.prefixes && !IsIn(t, p, id))
    && (forall p :: p in after.prefixes ==> after.prefixes[p] == t.prefixes[p])
    && (forall i :: i in after.ips <==> i in t.ips && !IsIn(t, t.ips[i].prefix, id))
    && (forall i :: i in after.ips ==> after.ips[i] == t.ips[i])
  }

  /** Nothing is bound to or occupied in a prefix of the aggregate. */
  ghost predicate AggregateFree(t: Tables, id: nat) {
    && id in t.aggregates
    && (forall p :: p in t.bindings ==> !IsIn(t, p, id))
    && (forall i :: i in t.ips && t.ips[i].vm.Some? ==> !IsIn(t, t.ips[i].prefix, id))
  }

  lemma AggregateIsDeleted(t: Tables, id: nat)
    ensures DeleteAggregate(t, id).Done? <==> AggregateFree(t, id)
    ensures DeleteAggregate(t, id).Done? ==> AggregateDeleted(t, DeleteAggregate(t, id).value, id)
  {
    forall p: nat ensures p in PrefixesOf(t, id) <==> IsIn(t, p, id) {}
    hide IsIn, PrefixesOf;
  }

  // ---------------------------------------------------------------- prefixes

  /** The prefix is gone with its addresses; all other rows are as they were. */
  ghost predicate PrefixDeleted(t: Tables, after: Tables, id: nat) {
    && after == t.(prefixes := after.prefixes, ips := after.ips)
    && (forall p :: p in after.prefixes <==> p in t.prefixes && p != id)
    && (forall p :: p in after.prefixes ==> after.prefixes[p] == t.prefixes[p])
    && (forall i :: i in after.ips <==> i in t.ips && t.ips[i].prefix != id)
    && (forall i :: i in after.ips ==> after.ips[i] == t.ips[i])
  }

  ghost predicate PrefixFree(t: Tables, id: nat) {
    && id in t.prefixes && id !in t.bindings
    && (forall p :: p in t.prefixes ==> t.prefixes[p].parent != Some(id))
    && (forall i :: i in t.ips && t.ips[i].vm.Some? ==> t.ips[i].prefix != id)
  }

  lemma PrefixIsDeleted(t: Tables, id: nat)
    ensures DeletePrefix(t, id).Done? <==> PrefixFree(t, id)
    ensures DeletePrefix(t, id).Done? ==> PrefixDeleted(t, DeletePrefix(t, id).value, id)
  {
  }

  // ---------------------------------------------------------------- addresses

  /** The stored record carries the request, with the defaults for unknown words; a DHCP record has no device. */
  ghost predicate IpCreated(t: Tables, after: Tables, id: nat, req: IpRequest) {
    && id in after.ips && after == t.(ips := t.ips[id := after.ips[id]])
    && var r := after.ips[id];
       && r.prefix == req.prefix && req.address == Some(r.address)
       && r.deviceName == req.deviceName && r.description == req.description && r.vm.None?
       && r.status == (if req.status in STATUSES then req.status else PLANNED)
       && r.allocation == (if req.allocation in ALLOCATIONS then req.allocation else STATIC)
       && r.device == if req.allocation == DHCP || !IsSet(req.device) then None else req.device
  }

  /** The prefix exists and holds the address, which is not registered in it, and the device exists. */
  ghost predicate MayCreateIp(t: Tables, req: IpRequest) {
    && req.address.Some? && InPrefix(t, req.prefix, req.address.value)
    && (forall i :: !RecordAt(t, req.prefix, req.address.value, i))
    && (req.allocation != DHCP && IsSet(req.device) ==> req.device.value in t.devices)
  }

  lemma IpIsCreated(t: Tables, id: nat, req: IpRequest)
    ensures CreateIp(t, id, req).Done? <==> MayCreateIp(t, req)
    ensures CreateIp(t, id, req).Done? ==> IpCreated(t, CreateIp(t, id, req).value, id, req)
  {
    hide Contains;
    if req.address.Some? {
      assert Registered(t, req.prefix, req.address.value) <==> exists i :: RecordAt(t, req.prefix, req.address.value, i) by {
        if i :| RecordAt(t, req.prefix, req.address.value, i) { }
        if i: nat :| i in t.ips && t.ips[i].prefix == req.prefix && t.ips[i].address == req.address.value {
          assert RecordAt(t, req.prefix, req.address.value, i);
        }
      }
    }
    hide Registered, RecordAt;
  }

  ghost predicate IpEdited(t: Tables, after: Tables, id: nat, u: IpUpdate) {
    && id in t.ips && id in after.ips && after == t.(ips := t.ips[id := after.ips[id]])
    && var was, now := t.ips[id], after.ips[id];
       && now.vm == was.vm
       && Sets(u.prefix, was.prefix, now.prefix, 0)
       && (u.address.Unset? ==> now.address == was.address) && (u.address.Value? ==> u.address.value == Some(now.address)) && !u.address.Null?
       && Sets(u.status, was.status, now.status, "")
       && Sets(u.deviceName, was.deviceName, now.deviceName, "") && Sets(u.description, was.description, now.description, "")
       && (u.allocation.Unset? ==> now.allocation == was.allocation) && (u.allocation.Null? ==> now.allocation == STATIC)
       && (u.allocation.Value? ==> now.allocation == if u.allocation.value in ALLOCATIONS then u.allocation.value else STATIC)
       && if u.allocation == Value(DHCP) then now.device.None?
          else (u.device.Unset? ==> now.device == was.device) && (u.device.Null? ==> now.device.None?)
               && (u.device.Value? ==> now.device == Some(u.device.value))
  }

  lemma IpIsEdited(t: Tables, id: nat, u: IpUpdate)
    ensures UpdateIp(t, id, u).Done? ==> IpEdited(t, UpdateIp(t, id, u).value, id, u)
  {
    hide Contains, IpKeysHold;
  }

  ghost predicate IpDeleted(t: Tables, after: Tables, id: nat) {
    && id in t.ips && id !in after.ips && TouchesOnly(t, after, id)
  }

  lemma IpIsDeleted(t: Tables, id: nat)
    ensures DeleteIp(t, id).Done? <==> id in t.ips && !IsSet(t.ips[id].vm)
    ensures DeleteIp(t, id).Done? ==> IpDeleted(t, DeleteIp(t, id).value, id)
  {
  }

  // ---------------------------------------------------------------- devices and machines

  /** The record was made for one of the device's further addresses. */
  predicate MadeForDevice(r: IpRecord, device: nat) {
    r.device == Some(device) && AUTO_MARKER <= r.description
  }

  /** The device's automatic records go, its other records stay without it, and all else is as it was. */
  ghost predicate DeviceDeleted(t: Tables, after: Tables, id: nat) {
    && after == t.(devices := after.devices, ips := after.ips)
    && (forall d :: d in after.devices <==> d in t.devices && d != id)
    && (forall d :: d in after.devices ==> after.devices[d] == t.devices[d])
    && (forall i :: i in after.ips <==> i in t.ips && !MadeForDevice(t.ips[i], id))
    && (forall i :: i in after.ips ==>
          after.ips[i] == if t.ips[i].device == Some(id) then t.ips[i].(device := None) else t.ips[i])
  }

  lemma DeviceIsDeleted(t: Tables, id: nat)
    ensures DeleteDevice(t, id).Done? <==> id in t.devices
    ensures DeleteDevice(t, id).Done? ==> DeviceDeleted(t, DeleteDevice(t, id).value, id)
  {
  }

  ghost predicate VmsDeleted(t: Tables, after: Tables, ids: set<nat>) {
    && after == t.(vms := after.vms)
    && (forall v :: v in after.vms <==> v in t.vms && v !in ids)
    && (forall v :: v in after.vms ==> after.vms[v] == t.vms[v])
  }

  lemma VmsAreDeleted(t: Tables, ids: set<nat>)
    ensures DeleteVms(t, ids).Done? <==>
              (forall v :: v in ids ==> v in t.vms) && forall i :: i in t.ips && t.ips[i].vm.Some? ==> t.ips[i].vm.value !in ids
    ensures DeleteVms(t, ids).Done? ==> VmsDeleted(t, DeleteVms(t, ids).value, ids)
  {
  }

  // ---------------------------------------------------------------- DHCP sources

  /** The stored source is what was sent; with the same identity it keeps its snapshot, told by the new threshold. */
  ghost predicate SourceSaved(t: Tables, after: Tables, id: nat, req: SourceRequest) {
    && id in after.sources && after == t.(sources := t.sources[id := after.sources[id]])
    && var s := after.sources[id];
       && s.identity == req.identity && s.settings == req.settings && s.title == req.title
       && if id in t.sources && t.sources[id].identity == req.identity then
            && s.error == t.sources[id].error && s.lastAttempt == t.sources[id].lastAttempt
            && (s.snapshot.Some? <==> t.sources[id].snapshot.Some?)
            && (s.snapshot.Some? ==>
                  && s.snapshot.value == t.sources[id].snapshot.value.(warning := s.snapshot.value.warning)
                  && (s.snapshot.value.warning <==> s.snapshot.value.percent >= req.settings.threshold as real))
          else s.snapshot.None? && s.error == "" && s.lastAttempt == 0
  }

  lemma SourceIsSaved(t: Tables, id: nat, req: SourceRequest, isNew: bool)
    requires isNew ==> id !in t.sources
    ensures SaveSource(t, id, req, isNew).Done? ==> SourceSaved(t, SaveSource(t, id, req, isNew).value, id, req)
  {
    hide Target, Linked;
  }

  ghost predicate SourceDeleted(t: Tables, after: Tables, id: nat) {
    && after == t.(sources := after.sources)
    && (forall s :: s in after.sources <==> s in t.sources && s != id)
    && (forall s :: s in after.sources ==> after.sources[s] == t.sources[s])
  }

  lemma SourceIsDeleted(t: Tables, id: nat)
    ensures DeleteSource(t, id).Done? <==> id in t.sources && forall p :: p in t.bindings ==> t.bindings[p] != id
    ensures DeleteSource(t, id).Done? ==> SourceDeleted(t, DeleteSource(t, id).value, id)
  {
  }

  ghost predicate SourceBound(t: Tables, after: Tables, prefix: nat, source: Ref) {
    && after == t.(bindings := after.bindings)
    && (prefix in after.bindings <==> source.Some?) && (source.Some? ==> after.bindings[prefix] == source.value)
    && forall p :: p != prefix ==> (p in after.bindings <==> p in t.bindings) && (p in t.bindings ==> after.bindings[p] == t.bindings[p])
  }

  /** The source is switched on, its last snapshot is good and is exactly the prefix. */
  ghost predicate MayBind(t: Tables, prefix: nat, source: Ref) {
    && prefix in t.prefixes
    && (source.Some? ==>
          && source.value in t.sources
          && t.sources[source.value].settings.mode == DHCP && t.sources[source.value].error == ""
          && t.sources[source.value].snapshot.Some? && t.sources[source.value].snapshot.value.net == t.prefixes[prefix].net)
  }

  lemma SourceIsBound(t: Tables, prefix: nat, source: Ref)
    ensures BindPrefix(t, prefix, source).Done? <==> MayBind(t, prefix, source)
    ensures BindPrefix(t, prefix, source).Done? ==> SourceBound(t, BindPrefix(t, prefix, source).value, prefix, source)
  {
  }

  // ---------------------------------------------------------------- when prefixes are accepted

  /** The row a create asks for. */
  function Wanted(t: Tables, req: PrefixRequest): Prefix
    requires req.prefix.Block? && (IsSet(req.parent) ==> req.parent.value in t.prefixes)
  {
    Prefix(Mask(req.prefix.cidr),
           if IsSet(req.parent) && !IsSet(req.aggregate) then t.prefixes[req.parent.value].aggregate else req.aggregate,
           if IsSet(req.parent) then req.parent else None,
           req.details.(status := if req.details.status in STATUSES then req.details.status else PLANNED))
  }

  /** With the row stored, every foreign key holds and the audit of the prefixes is empty. */
  ghost predicate Fits(t: Tables, id: nat, row: Prefix) {
    PrefixKeysHold(t, row) && ForestClean(t.(prefixes := t.prefixes[id := row]))
  }

  lemma PlacedExactly(t: Tables, id: nat, isNew: bool, cidr: Cidr, aggregate: Ref, parent: Ref, details: PrefixDetails)
    requires Invariant(t) && id != 0 && (isNew <==> id !in t.prefixes)
    ensures var row := Prefix(Mask(cidr), EffectiveAggregate(t, aggregate, parent), parent, details);
            && (PlacePrefix(t, id, if isNew then None else Some(id), Block(cidr), aggregate, parent, details).Done? <==> Fits(t, id, row))
            && (Fits(t, id, row) ==>
                  PlacePrefix(t, id, if isNew then None else Some(id), Block(cidr), aggregate, parent, details)
                    == Done(t.(prefixes := t.prefixes[id := row])))
  {
    LocalCheckIsExact(t, id, isNew, Mask(cidr), aggregate, parent, details);
    hide Invariant, Accepts, ForestClean, PrefixKeysHold, Mask, EffectiveAggregate;
  }

  ghost predicate MayCreate(t: Tables, id: nat, req: PrefixRequest) {
    && req.prefix.Block? && (IsSet(req.parent) ==> req.parent.value in t.prefixes)
    && Fits(t, id, Wanted(t, req))
  }

  /** The row asked for is stored, and nothing else changed. */
  ghost predicate PrefixCreated(t: Tables, after: Tables, id: nat, req: PrefixRequest) {
    && req.prefix.Block? && (IsSet(req.parent) ==> req.parent.value in t.prefixes)
    && after == t.(prefixes := t.prefixes[id := Wanted(t, req)])
  }

  /** A create is accepted exactly when the row it asks for keeps the audit empty, and then stores that row. */
  lemma CreationIsExact(t: Tables, id: nat, req: PrefixRequest)
    requires Invariant(t) && id != 0 && id !in t.prefixes
    ensures CreatePrefix(t, id, req).Done? <==> MayCreate(t, id, req)
    ensures CreatePrefix(t, id, req).Done? ==> PrefixCreated(t, CreatePrefix(t, id, req).value, id, req)
  {
    hide Invariant, PlacePrefix, Fits, Mask;
    if req.prefix.Block? && (IsSet(req.parent) ==> req.parent.value in t.prefixes) {
      var aggregate := if IsSet(req.parent) && !IsSet(req.aggregate)
                       then t.prefixes[req.parent.value].aggregate else req.aggregate;
      var parent := if IsSet(req.parent) then req.parent else None;
      PlacedExactly(t, id, true, req.prefix.cidr, aggregate, parent, req.details.(status := ValidStatus(req.details.status)));
    }
  }

  /** The parent, the aggregate and the network an edit asks for. */
  function SoughtParent(p: Prefix, u: PrefixUpdate): Ref {
    match u.parent case Unset => p.parent case Null => None case Value(v) => Some(v)
  }

  function SoughtAggregate(t: Tables, p: Prefix, u: PrefixUpdate): Ref {
    var asked: Ref := match u.aggregate case Unset => p.aggregate case Null => None case Value(a) => Some(a);
    var parent := SoughtParent(p, u);
    if IsSet(parent) && parent.value in t.prefixes && ((u.parent.Value? && !(u.aggregate.Value? && u.aggregate.value != 0)) || asked.None?)
    then t.prefixes[parent.value].aggregate else asked
  }

  function Sought(t: Tables, p: Prefix, u: PrefixUpdate): Prefix
    requires u.prefix.Unset? || (u.prefix.Value? && u.prefix.value.Block?)
  {
    Prefix(if u.prefix.Unset? then p.net else Mask(u.prefix.value.cidr), SoughtAggregate(t, p, u), SoughtParent(p, u),
           if u.details.Value? then u.details.value else p.details)
  }

  /** Another network may be sent only while nothing is registered in the prefix or bound to it. */
  ghost predicate NetworkFree(t: Tables, id: nat) {
    id !in t.bindings && forall i :: i in t.ips ==> t.ips[i].prefix != id
  }

  ghost predicate MayEdit(t: Tables, id: nat, u: PrefixUpdate) {
    && id in t.prefixes && (u.prefix.Unset? || (u.prefix.Value? && u.prefix.value.Block?))
    && (u.prefix.Unset? || u.prefix.value == Block(t.prefixes[id].net) || NetworkFree(t, id))
    && Fits(t, id, Sought(t, t.prefixes[id], u))
  }

  /** An edit that only touches the attributes fits. */
  lemma DetailsFit(t: Tables, id: nat, u: PrefixUpdate)
    requires Invariant(t) && id in t.prefixes && u.prefix.Unset? && u.parent.Unset? && u.aggregate.Unset?
    ensures Fits(t, id, Sought(t, t.prefixes[id], u)) && Sought(t, t.prefixes[id], u).net == t.prefixes[id].net
    ensures Sought(t, t.prefixes[id], u) == t.prefixes[id].(details := if u.details.Value? then u.details.value else t.prefixes[id].details)
  {
    var p := t.prefixes[id];
    assert PrefixRelationOk(t, id) && PrefixKeysHold(t, p);
    assert IsSet(p.parent) && p.aggregate.None? ==> t.prefixes[p.parent.value].aggregate == p.aggregate;
    DetailsSafe(t, id, if u.details.Value? then u.details.value else p.details);
    hide AggregateHolds, StrictSubnetOf;
  }

  /** No row is its own parent, and key 0 is none. */
  lemma NoOwnParent(t: Tables, id: nat, row: Prefix)
    requires Keyed(t) && id != 0 && Fits(t, id, row) && row.parent.Some?
    ensures row.parent.value in t.prefixes && row.parent.value != id
  {
    var after := t.(prefixes := t.prefixes[id := row]);
    assert PrefixRelationOk(after, id);
  }

  lemma SoughtIsPlaced(t: Tables, id: nat, u: PrefixUpdate)
    requires Invariant(t) && id in t.prefixes && (u.prefix.Unset? || (u.prefix.Value? && u.prefix.value.Block?))
    requires Names(u.parent) ==> u.parent.value in t.prefixes
    ensures var p := t.prefixes[id];
            var aggregate := if Names(u.parent) && !Names(u.aggregate)
                             then FieldOfRef(t.prefixes[u.parent.value].aggregate) else u.aggregate;
            var r := PlacePrefix(t, id, Some(id), FieldOr(u.prefix, Block(p.net), BLANK), RefField(aggregate, p.aggregate),
                                 RefField(u.parent, p.parent), FieldOr(u.details, p.details, p.details));
            && (r.Done? <==> Fits(t, id, Sought(t, p, u)))
            && (r.Done? ==> r.value == t.(prefixes := t.prefixes[id := Sought(t, p, u)]))
  {
    hide Invariant, PlacePrefix, Fits, Mask;
    var p := t.prefixes[id];
    StoredIsMasked(t, id);
    var aggregate := if Names(u.parent) && !Names(u.aggregate)
                     then FieldOfRef(t.prefixes[u.parent.value].aggregate) else u.aggregate;
    var cidr: Cidr := if u.prefix.Unset? then p.net else u.prefix.value.cidr;
    PlacedExactly(t, id, false, cidr, RefField(aggregate, p.aggregate), RefField(u.parent, p.parent),
                  FieldOr(u.details, p.details, p.details));
  }

  lemma StoredIsMasked(t: Tables, id: nat)
    requires Invariant(t) && id in t.prefixes
    ensures id != 0 && Keyed(t) && t.prefixes[id].net == Mask(t.prefixes[id].net)
  {
    MaskMeaning(t.prefixes[id].net);
  }

  lemma AddressesMean(t: Tables, id: nat)
    ensures HasAddresses(t, id) <==> exists i :: i in t.ips && t.ips[i].prefix == id
  {
  }

  /** The row asked for is stored, and nothing else changed. */
  ghost predicate PrefixEdited(t: Tables, after: Tables, id: nat, u: PrefixUpdate) {
    && id in t.prefixes && (u.prefix.Unset? || (u.prefix.Value? && u.prefix.value.Block?))
    && after == t.(prefixes := t.prefixes[id := Sought(t, t.prefixes[id], u)])
  }

  /** An edit is accepted exactly when the row it asks for keeps the audit empty, and then stores that row. */
  lemma EditIsExact(t: Tables, id: nat, u: PrefixUpdate)
    requires Invariant(t)
    ensures UpdatePrefix(t, id, u).Done? <==> MayEdit(t, id, u)
    ensures UpdatePrefix(t, id, u).Done? ==> PrefixEdited(t, UpdatePrefix(t, id, u).value, id, u)
  {
    hide Invariant, Fits, HasAddresses, PlacePrefix, Keyed, Mask;
    if id in t.prefixes {
      AddressesMean(t, id);
      StoredIsMasked(t, id);
      if u.prefix.Unset? || (u.prefix.Value? && u.prefix.value.Block?) {
        if Fits(t, id, Sought(t, t.prefixes[id], u)) && SoughtParent(t.prefixes[id], u).Some? {
          NoOwnParent(t, id, Sought(t, t.prefixes[id], u));
        }
        if Names(u.parent) ==> u.parent.value in t.prefixes { SoughtIsPlaced(t, id, u); }
        if u.prefix.Unset? && u.parent.Unset? && u.aggregate.Unset? { DetailsFit(t, id, u); }
      } else {
        WordsAreRefused(t, id, u);
      }
    }
  }

  lemma WordsAreRefused(t: Tables, id: nat, u: PrefixUpdate)
    requires !u.prefix.Unset? && !(u.prefix.Value? && u.prefix.value.Block?)
    ensures UpdatePrefix(t, id, u).Refused?
  {
    hide HasAddresses, Accepts, StorePrefix;
  }

  // ---------------------------------------------------------------- a device's further addresses

  /** The first prefix, in the order given, that holds the address. */
  ghost predicate FirstHome(t: Tables, order: seq<nat>, a: Addr, p: nat) {
    exists k :: 0 <= k < |order| && order[k] == p && InPrefix(t, p, a) && forall j :: 0 <= j < k ==> !InPrefix(t, order[j], a)
  }

  lemma {:induction false} FirstHoldingIsHome(t: Tables, order: seq<nat>, a: Addr)
    ensures FirstHolding(t, order, a).Some? ==> FirstHome(t, order, a, FirstHolding(t, order, a).value)
    ensures FirstHolding(t, order, a).None? ==> forall k :: 0 <= k < |order| ==> !InPrefix(t, order[k], a)
    decreases |order|
  {
    hide Contains;
    if order != [] && !(order[0] in t.prefixes && Contains(t.prefixes[order[0]].net, a)) {
      FirstHoldingIsHome(t, order[1..], a);
      if FirstHolding(t, order, a).Some? {
        var p := FirstHolding(t, order, a).value;
        var k :| 0 <= k < |order[1..]| && order[1..][k] == p && forall j :: 0 <= j < k ==> !InPrefix(t, order[1..][j], a);
        forall j | 0 <= j < k + 1 ensures !InPrefix(t, order[j], a) { if j > 0 { assert order[1..][j - 1] == order[j]; } }
        assert order[k + 1] == p;
      } else {
        forall k | 0 <= k < |order| ensures !InPrefix(t, order[k], a) { if k > 0 { assert order[1..][k - 1] == order[k]; } }
      }
    } else if order != [] {
      assert InPrefix(t, order[0], a);
    }
  }

  lemma HomeIsUnique(t: Tables, order: seq<nat>, a: Addr, p: nat)
    requires FirstHome(t, order, a, p)
    ensures FirstHolding(t, order, a) == Some(p)
  {
    FirstHoldingIsHome(t, order, a);
    hide InPrefix, FirstHolding;
    var k :| 0 <= k < |order| && order[k] == p && InPrefix(t, p, a) && forall j :: 0 <= j < k ==> !InPrefix(t, order[j], a);
    assert InPrefix(t, order[k], a);
    var q := FirstHolding(t, order, a).value;
    var m :| 0 <= m < |order| && order[m] == q && InPrefix(t, q, a) && forall j :: 0 <= j < m ==> !InPrefix(t, order[j], a);
    assert InPrefix(t, order[k], a) && InPrefix(t, order[m], a);
    assert k == m;
  }

  /** What is recorded of a further address in its prefix. */
  function LinkRecord(p: nat, a: Addr, device: nat, name: string): IpRecord {
    IpRecord(p, a, IN_USE, STATIC, Some(device), None, name, AUTO_MARKER)
  }

  /**
    After the first n further addresses: each of them that a prefix holds is registered in the first such
    prefix; records were only added, for these addresses, in the device's name.
    */
  ghost predicate ExtrasHeld(t: Tables, after: Tables, device: nat, extras: seq<Addr>, order: seq<nat>, name: string, n: nat)
    requires n <= |extras|
  {
    && after == t.(ips := after.ips)
    && (forall i :: i in t.ips ==> i in after.ips && after.ips[i] == t.ips[i])
    && (forall k :: 0 <= k < n ==> HeldAtHome(t, after, order, extras[k]))
    && (forall i :: i in after.ips && i !in t.ips ==> SaysLink(t, after.ips[i], device, extras, order, name, n))
  }

  /** The address is registered in the first prefix that holds it, if any does. */
  ghost predicate HeldAtHome(t: Tables, after: Tables, order: seq<nat>, a: Addr) {
    forall p :: FirstHome(t, order, a, p) ==> exists i :: RecordAt(after, p, a, i)
  }

  ghost predicate SaysLink(t: Tables, r: IpRecord, device: nat, extras: seq<Addr>, order: seq<nat>, name: string, n: nat)
    requires n <= |extras|
  {
    exists k, p :: 0 <= k < n && FirstHome(t, order, extras[k], p) && r == LinkRecord(p, extras[k], device, name)
  }

  lemma SameHomes(t: Tables, u: Tables, order: seq<nat>, a: Addr)
    requires u.prefixes == t.prefixes
    ensures FirstHolding(u, order, a) == FirstHolding(t, order, a)
    decreases |order|
  {
    if order != [] { SameHomes(t, u, order[1..], a); }
  }

  /** One further address: recorded in its prefix, unless no prefix holds it or the prefix has it. */
  ghost predicate OneLinked(s: Tables, u: Tables, home: Ref, a: Addr, device: nat, name: string, key: nat) {
    if home.None? || exists i :: RecordAt(s, home.value, a, i) then u == s
    else u == s.(ips := s.ips[key := LinkRecord(home.value, a, device, name)])
  }

  lemma LinkExtraIs(t: Tables, s: Tables, device: nat, a: Addr, key: nat, order: seq<nat>, name: string)
    requires s.prefixes == t.prefixes
    ensures OneLinked(s, LinkExtra(s, device, a, key, order, name), FirstHolding(t, order, a), a, device, name, key)
  {
    SameHomes(t, s, order, a);
    hide FirstHolding;
    if FirstHolding(t, order, a).Some? {
      var p := FirstHolding(t, order, a).value;
      if i: nat :| i in s.ips && s.ips[i].prefix == p && s.ips[i].address == a { assert RecordAt(s, p, a, i); }
    }
  }

  lemma LinkStep(t: Tables, s: Tables, device: nat, extras: seq<Addr>, key: nat, order: seq<nat>, name: string, n: nat)
    requires n < |extras| && key !in s.ips && ExtrasHeld(t, s, device, extras, order, name, n)
    ensures ExtrasHeld(t, LinkExtra(s, device, extras[n], key, order, name), device, extras, order, name, n + 1)
  {
    hide LinkExtra, FirstHome, FirstHolding, InPrefix, HeldAtHome, SaysLink, LinkRecord;
    var u, a, home := LinkExtra(s, device, extras[n], key, order, name), extras[n], FirstHolding(t, order, extras[n]);
    LinkExtraIs(t, s, device, a, key, order, name);
    FirstHoldingIsHome(t, order, a);
    OneLinkedKeeps(s, u, home, a, device, name, key);
    forall k | 0 <= k < n + 1 ensures HeldAtHome(t, u, order, extras[k]) {
      if k < n { HeldStays(t, s, u, order, extras[k]); } else { HeldNow(t, s, u, order, a, device, name, key); }
    }
    forall i | i in u.ips && i !in t.ips ensures SaysLink(t, u.ips[i], device, extras, order, name, n + 1) {
      if i in s.ips { LinkStays(t, u.ips[i], device, extras, order, name, n); }
      else { LinkSays(t, home.value, device, extras, order, name, n); }
    }
  }

  lemma OneLinkedKeeps(s: Tables, u: Tables, home: Ref, a: Addr, device: nat, name: string, key: nat)
    requires OneLinked(s, u, home, a, device, name, key) && key !in s.ips
    ensures u == s.(ips := u.ips) && forall i :: i in s.ips ==> i in u.ips && u.ips[i] == s.ips[i]
    ensures forall i :: i in u.ips && i !in s.ips ==> home.Some? && u.ips[i] == LinkRecord(home.value, a, device, name)
  {
    hide LinkRecord;
  }

  lemma HeldStays(t: Tables, s: Tables, u: Tables, order: seq<nat>, a: Addr)
    requires HeldAtHome(t, s, order, a) && forall i :: i in s.ips ==> i in u.ips && u.ips[i] == s.ips[i]
    ensures HeldAtHome(t, u, order, a)
  {
    hide FirstHome;
    forall p | FirstHome(t, order, a, p) ensures exists i :: RecordAt(u, p, a, i) {
      var i: nat :| RecordAt(s, p, a, i);
      assert RecordAt(u, p, a, i);
    }
  }

  lemma LinkStays(t: Tables, r: IpRecord, device: nat, extras: seq<Addr>, order: seq<nat>, name: string, n: nat)
    requires n < |extras| && SaysLink(t, r, device, extras, order, name, n)
    ensures SaysLink(t, r, device, extras, order, name, n + 1)
  {
    hide FirstHome;
  }

  lemma LinkSays(t: Tables, p: nat, device: nat, extras: seq<Addr>, order: seq<nat>, name: string, n: nat)
    requires n < |extras| && FirstHome(t, order, extras[n], p)
    ensures SaysLink(t, LinkRecord(p, extras[n], device, name), device, extras, order, name, n + 1)
  {
    hide FirstHome;
  }

  lemma HeldNow(t: Tables, s: Tables, u: Tables, order: seq<nat>, a: Addr, device: nat, name: string, key: nat)
    requires OneLinked(s, u, FirstHolding(t, order, a), a, device, name, key)
    ensures HeldAtHome(t, u, order, a)
  {
    hide FirstHome, FirstHolding;
    forall p | FirstHome(t, order, a, p) ensures exists i :: RecordAt(u, p, a, i) {
      HomeIsUnique(t, order, a, p);
      if !(exists i :: RecordAt(s, p, a, i)) { assert RecordAt(u, p, a, key); }
    }
  }

  lemma {:induction false} ExtrasAreLinked(t: Tables, device: nat, extras: seq<Addr>, keys: seq<nat>, order: seq<nat>, name: string, n: nat)
    requires n <= |extras| == |keys| && FreshKeys(keys, t.ips.Keys)
    ensures var after := LinkExtras(t, device, extras, keys, order, name, n);
            ExtrasHeld(t, after, device, extras, order, name, n) && forall i :: i in after.ips ==> i in t.ips || i in keys[..n]
  {
    hide LinkExtra, ExtrasHeld;
    if n == 0 {
      NothingLinked(t, device, extras, order, name);
    } else {
      ExtrasAreLinked(t, device, extras, keys, order, name, n - 1);
      var s := LinkExtras(t, device, extras, keys, order, name, n - 1);
      assert keys[n - 1] in keys && keys[n - 1] !in keys[..n - 1] && keys[..n] == keys[..n - 1] + [keys[n - 1]];
      LinkStep(t, s, device, extras, keys[n - 1], order, name, n - 1);
      LinkKeys(s, device, extras[n - 1], keys[n - 1], order, name);
    }
  }

  lemma NothingLinked(t: Tables, device: nat, extras: seq<Addr>, order: seq<nat>, name: string)
    ensures ExtrasHeld(t, t, device, extras, order, name, 0)
  {
  }

  lemma LinkKeys(t: Tables, device: nat, a: Addr, key: nat, order: seq<nat>, name: string)
    ensures forall i :: i in LinkExtra(t, device, a, key, order, name).ips ==> i in t.ips || i == key
  {
  }

  /** The records left once the ones for addresses the device gave up are gone. */
  ghost predicate GivenUp(t: Tables, kept: Tables, device: nat, extras: seq<Addr>) {
    && kept == t.(ips := kept.ips)
    && (forall i :: i in kept.ips <==> i in t.ips && !(MadeForDevice(t.ips[i], device) && t.ips[i].address !in extras))
    && (forall i :: i in kept.ips ==> kept.ips[i] == t.ips[i])
  }

  /**
    After a device is saved, each of its further addresses that a prefix holds is registered in the first
    such prefix; its automatic records of other addresses are gone; every other record is as it was.
    */
  lemma DeviceIsLinked(t: Tables, device: nat, keys: seq<nat>, order: seq<nat>, name: string) returns (kept: Tables)
    requires device in t.devices && |keys| == |t.devices[device].extras| && FreshKeys(keys, t.ips.Keys)
    ensures GivenUp(t, kept, device, t.devices[device].extras)
    ensures ExtrasHeld(kept, SyncAutoLinks(t, device, keys, order, name), device, t.devices[device].extras, order, name, |keys|)
  {
    var extras := t.devices[device].extras;
    kept := t.(ips := map i | i in t.ips && !(AutoRecord(t.ips[i], device) && t.ips[i].address !in extras) :: t.ips[i]);
    ExtrasAreLinked(kept, device, extras, keys, order, name, |extras|);
    hide ExtrasHeld, LinkExtras;
  }

  // ---------------------------------------------------------------- generated records

  /** A generated record is planned, static and nobody's. */
  predicate Bare(r: IpRecord, prefix: nat) {
    r.prefix == prefix && r.status == PLANNED && r.allocation == STATIC && r.device.None? && r.vm.None? && r.deviceName == "" && r.description == ""
  }

  /** Every old record is as it was, every added one is bare. */
  ghost predicate OnlyBareAdded(t: Tables, after: Tables, prefix: nat) {
    && after == t.(ips := after.ips)
    && (forall i :: i in t.ips ==> i in after.ips && after.ips[i] == t.ips[i])
    && forall i :: i in after.ips && i !in t.ips ==> Bare(after.ips[i], prefix)
  }

  lemma GeneratedAreBare(t: Tables, prefix: nat, keys: seq<nat>)
    requires Invariant(t) && prefix in t.prefixes && |keys| == HostCount(t.prefixes[prefix].net) && FreshKeys(keys, t.ips.Keys)
    ensures Generate(t, prefix, keys).Done? <==> |keys| <= 4096
    ensures Generate(t, prefix, keys).Done? ==> OnlyBareAdded(t, Generate(t, prefix, keys).value, prefix)
  {
    GeneratedSafe(t, prefix, keys, |keys|);
  }
}
