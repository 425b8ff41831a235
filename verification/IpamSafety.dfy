/** Every endpoint keeps the invariant, so every run does; and only a release ends an occupancy. */
module IpamSafety {
  import opened Collections
  import opened Addressing
  import opened IpamTables
  import opened IpamRules
  import opened IpamValidation

  // ---------------------------------------------------------------- table edits that are safe

  /** The record-level part of the invariant. */
  ghost predicate RecordsOk(t: Tables) {
    forall i :: i in t.ips ==> IpRelationOk(t, i) && IpKeysHold(t, t.ips[i]) && OccupiedOk(t, i)
  }

  /** The pairwise part of the invariant. */
  ghost predicate PairsOk(t: Tables) {
    forall i, j :: i in t.ips && j in t.ips && i != j && t.ips[i].address == t.ips[j].address ==>
      (t.ips[i].address.version == V4 ==> t.ips[i].prefix != t.ips[j].prefix) && !(t.ips[i].vm.Some? && t.ips[j].vm.Some?)
  }

  lemma RecordsHold(t: Tables)
    requires Invariant(t)
    ensures RecordsOk(t) && PairsOk(t)
  {
  }

  /** An edit of the address table alone, given its records and pairs are in order. */
  lemma AddressesChanged(t: Tables, after: Tables)
    requires Keyed(t) && ForeignKeys(t) && ForestClean(t) && DhcpConsistent(t)
    requires after == t.(ips := after.ips, devices := after.devices, vms := after.vms)
    requires 0 !in after.ips && 0 !in after.devices && 0 !in after.vms
    requires RecordsOk(after) && PairsOk(after)
    ensures Invariant(after)
  {
    ForestUnmoved(t, after);
  }

  /** The record is as it was, except that it may have lost its device. */
  predicate SameRecord(r: IpRecord, after: IpRecord) {
    after == r || after == r.(device := None)
  }

  lemma FewerRecords(t: Tables, after: Tables)
    requires RecordsOk(t) && after == t.(ips := after.ips, devices := after.devices)
    requires forall i :: i in after.ips ==>
               i in t.ips && SameRecord(t.ips[i], after.ips[i]) && RefIn(after.ips[i].device, after.devices)
    ensures RecordsOk(after)
  {
    forall i | i in after.ips ensures IpRelationOk(after, i) && IpKeysHold(after, after.ips[i]) && OccupiedOk(after, i) {
      assert IpRelationOk(t, i) && IpKeysHold(t, t.ips[i]) && OccupiedOk(t, i);
    }
  }

  lemma FewerPairs(t: Tables, after: Tables)
    requires PairsOk(t)
    requires forall i :: i in after.ips ==> i in t.ips && SameRecord(t.ips[i], after.ips[i])
    ensures PairsOk(after)
  {
  }

  /** Records may be dropped, and may lose their device. */
  lemma FewerAddresses(t: Tables, after: Tables)
    requires Invariant(t)
    requires after == t.(ips := after.ips, devices := after.devices) && 0 !in after.devices
    requires forall i :: i in after.ips ==>
               i in t.ips && SameRecord(t.ips[i], after.ips[i]) && RefIn(after.ips[i].device, after.devices)
    ensures Invariant(after)
  {
    RecordsHold(t);
    FewerRecords(t, after);
    FewerPairs(t, after);
    AddressesChanged(t, after);
  }

  /** The forest part and the DHCP part read neither the addresses nor the machines. */
  lemma ForestUnmoved(t: Tables, after: Tables)
    requires Keyed(t) && ForeignKeys(t) && ForestClean(t) && DhcpConsistent(t)
    requires after.aggregates == t.aggregates && after.prefixes == t.prefixes
    requires after.sources == t.sources && after.bindings == t.bindings
    ensures ForestClean(after) && DhcpConsistent(after)
    ensures forall id :: id in after.prefixes ==> PrefixKeysHold(after, after.prefixes[id])
  {
    forall id | id in after.prefixes ensures PrefixRelationOk(after, id) && PrefixKeysHold(after, after.prefixes[id]) {
      assert PrefixRelationOk(t, id) && PrefixKeysHold(t, t.prefixes[id]);
    }
    forall i, j | i in after.prefixes && j in after.prefixes && i != j
      ensures !SamePlace(after.prefixes[i], after.prefixes[j]) { assert !SamePlace(t.prefixes[i], t.prefixes[j]); }
    forall id | id in after.bindings ensures BindingOk(after, id) { assert BindingOk(t, id); }
  }

  lemma WriteRecord(t: Tables, id: nat, r: IpRecord)
    requires RecordsOk(t) && IpKeysHold(t, r) && Contains(t.prefixes[r.prefix].net, r.address)
    requires r.vm.Some? ==> r.status == IN_USE && r.device.None? && r.deviceName == "" && r.allocation != DHCP
    ensures RecordsOk(t.(ips := t.ips[id := r]))
  {
    var after := t.(ips := t.ips[id := r]);
    forall i | i in after.ips ensures IpRelationOk(after, i) && IpKeysHold(after, after.ips[i]) && OccupiedOk(after, i) {
      if i != id { assert IpRelationOk(t, i) && IpKeysHold(t, t.ips[i]) && OccupiedOk(t, i); }
    }
  }

  /** No other record has this address in this prefix, nor a machine on this address if this one has. */
  ghost predicate StandsAlone(t: Tables, id: nat, r: IpRecord) {
    forall i :: i in t.ips && i != id && t.ips[i].address == r.address ==>
      t.ips[i].prefix != r.prefix && !(r.vm.Some? && t.ips[i].vm.Some?)
  }

  lemma WritePairs(t: Tables, id: nat, r: IpRecord)
    requires PairsOk(t) && StandsAlone(t, id, r)
    ensures PairsOk(t.(ips := t.ips[id := r]))
  {
  }

  /** Writing one address record, new or old, that fits its prefix and repeats no other. */
  lemma WriteAddress(t: Tables, id: nat, r: IpRecord)
    requires Invariant(t) && id != 0
    requires IpKeysHold(t, r) && Contains(t.prefixes[r.prefix].net, r.address)
    requires r.vm.Some? ==> r.status == IN_USE && r.device.None? && r.deviceName == "" && r.allocation != DHCP
    requires StandsAlone(t, id, r)
    ensures Invariant(t.(ips := t.ips[id := r]))
  {
    RecordsHold(t);
    WriteRecord(t, id, r);
    WritePairs(t, id, r);
    AddressesChanged(t, t.(ips := t.ips[id := r]));
  }

  /** Installing a prefix row that keeps the forest clean and moves no network that is in use. */
  lemma InstallPrefix(t: Tables, id: nat, row: Prefix)
    requires Invariant(t) && id != 0 && PrefixKeysHold(t, row)
    requires ForestClean(t.(prefixes := t.prefixes[id := row]))
    requires id in t.prefixes && row.net != t.prefixes[id].net ==> !HasAddresses(t, id) && id !in t.bindings
    ensures Invariant(t.(prefixes := t.prefixes[id := row]))
  {
    var after := t.(prefixes := t.prefixes[id := row]);
    RecordsHold(t);
    forall p | p in after.prefixes ensures PrefixKeysHold(after, after.prefixes[p]) {
      if p != id { assert PrefixKeysHold(t, t.prefixes[p]); }
    }
    assert RecordsOk(after) by {
      forall i | i in after.ips ensures IpRelationOk(after, i) && IpKeysHold(after, after.ips[i]) && OccupiedOk(after, i) {
        assert IpRelationOk(t, i) && IpKeysHold(t, t.ips[i]) && OccupiedOk(t, i);
      }
    }
    forall b | b in after.bindings ensures BindingOk(after, b) { assert BindingOk(t, b); }
  }

  /** Adding an aggregate, or changing one so that it still holds its prefixes. */
  lemma WriteAggregate(t: Tables, id: nat, a: Aggregate)
    requires Invariant(t) && id != 0
    requires forall p :: p in t.prefixes && t.prefixes[p].aggregate == Some(id) ==> AggregateHolds(a, t.prefixes[p].net)
    ensures Invariant(t.(aggregates := t.aggregates[id := a]))
  {
    var after := t.(aggregates := t.aggregates[id := a]);
    forall p | p in after.prefixes ensures PrefixRelationOk(after, p) && PrefixKeysHold(after, after.prefixes[p]) {
      assert PrefixRelationOk(t, p) && PrefixKeysHold(t, t.prefixes[p]);
    }
    forall i, j | i in after.prefixes && j in after.prefixes && i != j
      ensures !SamePlace(after.prefixes[i], after.prefixes[j]) { assert !SamePlace(t.prefixes[i], t.prefixes[j]); }
    AddressesUnmoved(t, after);
  }

  /** Address records read the prefixes, devices and machines only. */
  lemma AddressesUnmoved(t: Tables, after: Tables)
    requires Invariant(t)
    requires after.ips == t.ips && after.prefixes == t.prefixes && after.devices == t.devices && after.vms == t.vms
    requires after.bindings == t.bindings && after.sources == t.sources
    ensures Occupancy(after) && UniqueAddresses(after) && DhcpConsistent(after)
    ensures forall i :: i in after.ips ==> IpRelationOk(after, i) && IpKeysHold(after, after.ips[i])
  {
    forall i | i in after.ips ensures IpRelationOk(after, i) && IpKeysHold(after, after.ips[i]) && OccupiedOk(after, i) {
      assert IpRelationOk(t, i) && IpKeysHold(t, t.ips[i]) && OccupiedOk(t, i);
    }
    forall b | b in after.bindings ensures BindingOk(after, b) { assert BindingOk(t, b); }
  }

  // ---------------------------------------------------------------- aggregates

  /**
    update_aggregate keeps everything exactly when it does not blank the CIDR text of an aggregate
    that still has prefixes.
    */
  lemma UpdateAggregateSafe(t: Tables, id: nat, name: Field<Text>, prefix: Field<Text>, notes: Field<string>)
    requires Invariant(t)
    requires UpdateAggregate(t, id, name, prefix, notes).Done?
    ensures Invariant(UpdateAggregate(t, id, name, prefix, notes).value) <==>
              (prefix.Unset? || Sent(prefix) || PrefixesOf(t, id) == {})
  {
    var after := UpdateAggregate(t, id, name, prefix, notes).value;
    var a := after.aggregates[id];
    if prefix.Unset? || Sent(prefix) || PrefixesOf(t, id) == {} {
      forall p | p in t.prefixes && t.prefixes[p].aggregate == Some(id) ensures AggregateHolds(a, t.prefixes[p].net) {
        assert p in PrefixesOf(t, id);
        assert PrefixRelationOk(t, p);
        if Sent(prefix) { assert AggregateHolds(Aggregate(BLANK, prefix.value, ""), t.prefixes[p].net); }
      }
      WriteAggregate(t, id, a);
    } else {
      var p :| p in PrefixesOf(t, id);
      assert !PrefixRelationOk(after, p);
    }
  }

  const WHOLE: Network := RawCidr(V4, 0, 0)

  /** An aggregate with one prefix, both the whole IPv4 space. */
  function Example(): Tables {
    Tables(map[1 := Aggregate(Block(WHOLE), Block(WHOLE), "")],
           map[1 := Prefix(WHOLE, Some(1), None, PrefixDetails(PLANNED, PrefixInfo("", "", "", "", "", ""), false))],
           map[], map[], map[], map[], map[])
  }

  lemma ExampleIsConsistent()
    ensures Invariant(Example())
  {
    ExamplePrefixHolds();
    hide PrefixRelationOk, PrefixKeysHold, Mask, SubnetOf, Contains, AggregateHolds;
  }

  lemma ExamplePrefixHolds()
    ensures PrefixRelationOk(Example(), 1) && PrefixKeysHold(Example(), Example().prefixes[1])
  {
    MaskMeaning(WHOLE);
  }

  /** The concrete failure: that aggregate, sent an empty CIDR text. */
  lemma BlankingBreaksTheAudit() returns (t: Tables, after: Tables)
    ensures Invariant(t)
    ensures UpdateAggregate(t, 1, Unset, Value(BLANK), Unset) == Done(after)
    ensures !Clean(after)
  {
    t := Example();
    ExampleIsConsistent();
    hide Invariant, Mask;
    after := UpdateAggregate(t, 1, Unset, Value(BLANK), Unset).value;
    assert !PrefixRelationOk(after, 1);
  }

  /** Dropping whole prefixes that no one else points to keeps the rest. */
  lemma DropPrefixes(t: Tables, gone: set<nat>)
    requires Invariant(t)
    requires forall p :: p in t.prefixes && p !in gone && t.prefixes[p].parent.Some? ==> t.prefixes[p].parent.value !in gone
    requires forall b :: b in t.bindings ==> b !in gone
    ensures Invariant(WithoutPrefixes(t, gone))
  {
    var after := WithoutPrefixes(t, gone);
    forall p | p in after.prefixes ensures PrefixRelationOk(after, p) && PrefixKeysHold(after, after.prefixes[p]) {
      assert PrefixRelationOk(t, p) && PrefixKeysHold(t, t.prefixes[p]);
    }
    forall i, j | i in after.prefixes && j in after.prefixes && i != j
      ensures !SamePlace(after.prefixes[i], after.prefixes[j]) { assert !SamePlace(t.prefixes[i], t.prefixes[j]); }
    forall i | i in after.ips ensures IpRelationOk(after, i) && IpKeysHold(after, after.ips[i]) && OccupiedOk(after, i) {
      assert IpRelationOk(t, i) && IpKeysHold(t, t.ips[i]) && OccupiedOk(t, i);
    }
    forall b | b in after.bindings ensures BindingOk(after, b) { assert BindingOk(t, b); }
  }

  /** Deleting an aggregate with its prefixes strands no child: a parent shares its child's aggregate. */
  lemma DeleteAggregateSafe(t: Tables, id: nat)
    requires Invariant(t) && DeleteAggregate(t, id).Done?
    ensures Invariant(DeleteAggregate(t, id).value)
  {
    var gone := PrefixesOf(t, id);
    forall p | p in t.prefixes && p !in gone && t.prefixes[p].parent.Some? ensures t.prefixes[p].parent.value !in gone {
      assert PrefixRelationOk(t, p) && PrefixKeysHold(t, t.prefixes[p]);
    }
    forall b | b in t.bindings ensures b !in gone {}
    DropPrefixes(t, gone);
    var middle := WithoutPrefixes(t, gone);
    var after := DeleteAggregate(t, id).value;
    forall p | p in after.prefixes ensures PrefixRelationOk(after, p) && PrefixKeysHold(after, after.prefixes[p]) {
      assert PrefixRelationOk(middle, p) && PrefixKeysHold(middle, middle.prefixes[p]);
      assert p !in gone;
    }
    forall i, j | i in after.prefixes && j in after.prefixes && i != j
      ensures !SamePlace(after.prefixes[i], after.prefixes[j]) { assert !SamePlace(middle.prefixes[i], middle.prefixes[j]); }
    AddressesUnmoved(middle, after);
  }

  // ---------------------------------------------------------------- prefixes

  /** A place that passes the local check keeps everything, if no network in use moves. */
  lemma PlacePrefixSafe(t: Tables, id: nat, own: Ref, cidr: Text, aggregate: Ref, parent: Ref, details: PrefixDetails)
    requires Invariant(t) && id != 0
    requires own == if id in t.prefixes then Some(id) else None
    requires PlacePrefix(t, id, own, cidr, aggregate, parent, details).Done?
    requires id in t.prefixes && Mask(cidr.cidr) != t.prefixes[id].net ==> !HasAddresses(t, id) && id !in t.bindings
    ensures Invariant(PlacePrefix(t, id, own, cidr, aggregate, parent, details).value)
  {
    var row := PlacePrefix(t, id, own, cidr, aggregate, parent, details).value.prefixes[id];
    LocalCheckIsExact(t, id, own.None?, row.net, aggregate, parent, details);
    InstallPrefix(t, id, row);
  }

  lemma CreatePrefixSafe(t: Tables, id: nat, req: PrefixRequest)
    requires Invariant(t) && id != 0 && id !in t.prefixes
    requires CreatePrefix(t, id, req).Done?
    ensures Invariant(CreatePrefix(t, id, req).value)
  {
    var aggregate := if IsSet(req.parent) && !IsSet(req.aggregate)
                     then t.prefixes[req.parent.value].aggregate else req.aggregate;
    PlacePrefixSafe(t, id, None, req.prefix, aggregate, if IsSet(req.parent) then req.parent else None,
                    req.details.(status := ValidStatus(req.details.status)));
  }

  /** New details in the same place. */
  lemma DetailsSafe(t: Tables, id: nat, details: PrefixDetails)
    requires Invariant(t) && id in t.prefixes
    ensures Invariant(t.(prefixes := t.prefixes[id := t.prefixes[id].(details := details)]))
  {
    var row := t.prefixes[id].(details := details);
    var after := t.(prefixes := t.prefixes[id := row]);
    forall p | p in after.prefixes ensures PrefixRelationOk(after, p) { assert PrefixRelationOk(t, p); }
    forall i, j | i in after.prefixes && j in after.prefixes && i != j
      ensures !SamePlace(after.prefixes[i], after.prefixes[j]) { assert !SamePlace(t.prefixes[i], t.prefixes[j]); }
    assert PrefixKeysHold(t, t.prefixes[id]);
    InstallPrefix(t, id, row);
  }

  lemma UpdatePrefixSafe(t: Tables, id: nat, u: PrefixUpdate)
    requires Invariant(t)
    requires UpdatePrefix(t, id, u).Done?
    ensures Invariant(UpdatePrefix(t, id, u).value)
  {
    var p := t.prefixes[id];
    var aggregate := if Names(u.parent) && !Names(u.aggregate)
                     then FieldOfRef(t.prefixes[u.parent.value].aggregate) else u.aggregate;
    var details := FieldOr(u.details, p.details, p.details);
    if u.prefix.Unset? && u.parent.Unset? && aggregate.Unset? {
      DetailsSafe(t, id, details);
    } else {
      MaskMeaning(p.net);
      PlacePrefixSafe(t, id, Some(id), FieldOr(u.prefix, Block(p.net), BLANK), RefField(aggregate, p.aggregate),
                      RefField(u.parent, p.parent), details);
    }
  }

  lemma DeletePrefixSafe(t: Tables, id: nat)
    requires Invariant(t) && DeletePrefix(t, id).Done?
    ensures Invariant(DeletePrefix(t, id).value)
  {
    DropPrefixes(t, {id});
  }

  // ---------------------------------------------------------------- addresses

  lemma CreateIpSafe(t: Tables, id: nat, req: IpRequest)
    requires Invariant(t) && id != 0 && id !in t.ips && CreateIp(t, id, req).Done?
    ensures Invariant(CreateIp(t, id, req).value)
  {
    var row := CreateIp(t, id, req).value.ips[id];
    WriteAddress(t, id, row);
  }

  lemma UpdateIpSafe(t: Tables, id: nat, u: IpUpdate)
    requires Invariant(t) && UpdateIp(t, id, u).Done?
    ensures Invariant(UpdateIp(t, id, u).value)
  {
    var row := UpdateIp(t, id, u).value.ips[id];
    assert IpKeysHold(t, t.ips[id]);
    WriteAddress(t, id, row);
  }

  lemma DeleteIpSafe(t: Tables, id: nat)
    requires Invariant(t) && DeleteIp(t, id).Done?
    ensures Invariant(DeleteIp(t, id).value)
  {
    var after := DeleteIp(t, id).value;
    forall i | i in after.ips ensures RefIn(after.ips[i].device, after.devices) { assert IpKeysHold(t, t.ips[i]); }
    FewerAddresses(t, after);
  }

  ghost predicate FreshKeys(keys: seq<nat>, used: set<nat>) {
    Distinct(keys) && forall k :: k in keys ==> k != 0 && k !in used
  }

  /** Bulk generation only adds planned, ownerless records, for hosts that had none. */
  lemma {:induction false} GeneratedSafe(t: Tables, prefix: nat, keys: seq<nat>, n: nat)
    requires Invariant(t) && prefix in t.prefixes && n <= |keys| == HostCount(t.prefixes[prefix].net)
    requires FreshKeys(keys, t.ips.Keys)
    ensures Invariant(t.(ips := Generated(t, prefix, keys, n)))
    ensures forall i :: i in Generated(t, prefix, keys, n) ==> i in t.ips || i in keys[..n]
    ensures forall i :: i in t.ips ==> i in Generated(t, prefix, keys, n) && Generated(t, prefix, keys, n)[i] == t.ips[i]
    ensures forall i :: i in Generated(t, prefix, keys, n) && i !in t.ips ==>
              exists k :: 0 <= k < n && i == keys[k] && !Registered(t, prefix, Host(t.prefixes[prefix].net, k))
                && Generated(t, prefix, keys, n)[i] == PlannedRecord(prefix, Host(t.prefixes[prefix].net, k))
  {
    if n > 0 {
      GeneratedSafe(t, prefix, keys, n - 1);
      var before := t.(ips := Generated(t, prefix, keys, n - 1));
      var host := Host(t.prefixes[prefix].net, n - 1);
      if !Registered(t, prefix, host) {
        assert keys[n - 1] !in keys[..n - 1];
        assert keys[n - 1] in keys;
        WriteAddress(before, keys[n - 1], PlannedRecord(prefix, host));
      }
    }
  }

  // ---------------------------------------------------------------- devices

  lemma {:induction false} FirstHoldingHolds(t: Tables, order: seq<nat>, address: Addr)
    ensures var home := FirstHolding(t, order, address);
            home.Some? ==> home.value in t.prefixes && Contains(t.prefixes[home.value].net, address)
  {
    if order != [] { FirstHoldingHolds(t, order[1..], address); }
  }

  lemma {:induction false} LinkExtrasSafe(t: Tables, device: nat, extras: seq<Addr>, keys: seq<nat>, order: seq<nat>, name: string, n: nat)
    requires Invariant(t) && device in t.devices && n <= |extras| == |keys|
    requires FreshKeys(keys, t.ips.Keys)
    ensures Invariant(LinkExtras(t, device, extras, keys, order, name, n))
    ensures var after := LinkExtras(t, device, extras, keys, order, name, n);
            && after == t.(ips := after.ips)
            && (forall i :: i in after.ips ==> i in t.ips || i in keys[..n])
            && (forall i :: i in t.ips ==> i in after.ips && after.ips[i] == t.ips[i])
  {
    if n > 0 {
      LinkExtrasSafe(t, device, extras, keys, order, name, n - 1);
      var before := LinkExtras(t, device, extras, keys, order, name, n - 1);
      var home := FirstHolding(before, order, extras[n - 1]);
      FirstHoldingHolds(before, order, extras[n - 1]);
      assert keys[n - 1] in keys;
      if home.Some? && !Registered(before, home.value, extras[n - 1]) {
        WriteAddress(before, keys[n - 1],
                     IpRecord(home.value, extras[n - 1], IN_USE, STATIC, Some(device), None, name, AUTO_MARKER));
      }
    }
  }

  lemma DeviceWritten(t: Tables, id: nat, device: Device)
    requires Invariant(t) && id != 0
    ensures Invariant(t.(devices := t.devices[id := device]))
  {
    var after := t.(devices := t.devices[id := device]);
    RecordsHold(t);
    assert RecordsOk(after) by {
      forall i | i in after.ips ensures IpRelationOk(after, i) && IpKeysHold(after, after.ips[i]) && OccupiedOk(after, i) {
        assert IpRelationOk(t, i) && IpKeysHold(t, t.ips[i]) && OccupiedOk(t, i);
      }
    }
    AddressesChanged(t, after);
  }

  /** Linking a device's extra addresses keeps the invariant and every record that carries a machine. */
  lemma SyncAutoLinksSafe(t: Tables, id: nat, keys: seq<nat>, order: seq<nat>, name: string)
    requires Invariant(t) && id in t.devices && |keys| == |t.devices[id].extras| && FreshKeys(keys, t.ips.Keys)
    ensures Invariant(SyncAutoLinks(t, id, keys, order, name))
    ensures KeepsOccupied(t, SyncAutoLinks(t, id, keys, order, name))
  {
    var extras := t.devices[id].extras;
    var kept := t.(ips := map i | i in t.ips && !(AutoRecord(t.ips[i], id) && t.ips[i].address !in extras) :: t.ips[i]);
    forall i | i in kept.ips ensures RefIn(kept.ips[i].device, kept.devices) { assert IpKeysHold(t, t.ips[i]); }
    FewerAddresses(t, kept);
    LinkExtrasSafe(kept, id, extras, keys, order, name, |extras|);
    forall i | i in t.ips && t.ips[i].vm.Some? ensures i in kept.ips && kept.ips[i] == t.ips[i] {
      assert OccupiedOk(t, i);
    }
  }

  /** Every record that carries a machine is still there, unchanged. */
  ghost predicate KeepsOccupied(t: Tables, after: Tables) {
    forall i :: i in t.ips && t.ips[i].vm.Some? ==> i in after.ips && after.ips[i] == t.ips[i]
  }

  lemma SaveDeviceSafe(t: Tables, id: nat, device: Device, keys: seq<nat>, order: seq<nat>, name: string)
    requires Invariant(t) && id != 0 && |keys| == |device.extras| && FreshKeys(keys, t.ips.Keys)
    ensures Invariant(SaveDevice(t, id, device, keys, order, name))
    ensures KeepsOccupied(t, SaveDevice(t, id, device, keys, order, name))
  {
    DeviceWritten(t, id, device);
    SyncAutoLinksSafe(t.(devices := t.devices[id := device]), id, keys, order, name);
  }

  lemma DeleteDeviceSafe(t: Tables, id: nat)
    requires Invariant(t) && DeleteDevice(t, id).Done?
    ensures Invariant(DeleteDevice(t, id).value)
    ensures KeepsOccupied(t, DeleteDevice(t, id).value)
  {
    var after := DeleteDevice(t, id).value;
    forall i | i in after.ips ensures RefIn(after.ips[i].device, after.devices) { assert IpKeysHold(t, t.ips[i]); }
    FewerAddresses(t, after);
    forall i | i in t.ips && t.ips[i].vm.Some? ensures i in after.ips && after.ips[i] == t.ips[i] {
      assert OccupiedOk(t, i);
    }
  }

  // ---------------------------------------------------------------- virtual machines

  lemma VmsChanged(t: Tables, after: Tables)
    requires Invariant(t) && after == t.(vms := after.vms) && 0 !in after.vms
    requires forall i :: i in t.ips && t.ips[i].vm.Some? ==> t.ips[i].vm.value in after.vms
    ensures Invariant(after)
  {
    forall i | i in after.ips ensures IpRelationOk(after, i) && IpKeysHold(after, after.ips[i]) && OccupiedOk(after, i) {
      assert IpRelationOk(t, i) && IpKeysHold(t, t.ips[i]) && OccupiedOk(t, i);
    }
    ForestUnmoved(t, after);
  }

  lemma ReleaseSafe(t: Tables, id: nat, vm: nat, prefix: nat, address: Option<Addr>)
    requires Invariant(t) && id != 0 && id !in t.ips
    requires Allocate(t, id, vm, prefix, address, true).Done?
    ensures Invariant(Allocate(t, id, vm, prefix, address, true).value)
  {
    var a := address.value;
    var local := Local(t, prefix, a);
    if local != {} { assert |local| >= 1; }
    var i := TheOnly(local);
    assert i in local;
    forall j | j in t.ips && j != i && t.ips[j].prefix == prefix ensures t.ips[j].address != a { assert j !in local; }
    assert IpRelationOk(t, i) && IpKeysHold(t, t.ips[i]);
    var row := t.ips[i].(vm := None, status := PLANNED);
    assert Allocate(t, id, vm, prefix, address, true).value == t.(ips := t.ips[i := row]);
    hide Invariant, Contains, Local, Allocate;
    WriteAddress(t, i, row);
  }

  lemma OccupySafe(t: Tables, id: nat, vm: nat, prefix: nat, address: Option<Addr>)
    requires Invariant(t) && id != 0 && id !in t.ips
    requires Allocate(t, id, vm, prefix, address, false).Done?
    ensures Invariant(Allocate(t, id, vm, prefix, address, false).value)
  {
    var a := address.value;
    var local := Local(t, prefix, a);
    if local != {} { assert |local| >= 1; }
    var row: Ref := if local == {} then None else Some(TheOnly(local));
    if !(row.Some? && t.ips[row.value].vm == Some(vm)) {
      var k := if row.Some? then row.value else id;
      assert row.Some? ==> row.value in local;
      forall i | i in t.ips && i != k && t.ips[i].prefix == prefix ensures t.ips[i].address != a {
        assert i !in local;
      }
      forall i | i in t.ips && i != k && t.ips[i].vm.Some? ensures t.ips[i].address != a {
        assert OccupiedOk(t, i) && Spoken(t.ips[i]);
      }
      if row.Some? { assert IpRelationOk(t, k) && IpKeysHold(t, t.ips[k]); }
      WriteAddress(t, k, Allocate(t, id, vm, prefix, address, false).value.ips[k]);
    }
  }

  lemma AllocateSafe(t: Tables, id: nat, vm: nat, prefix: nat, address: Option<Addr>, release: bool)
    requires Invariant(t) && id != 0 && id !in t.ips
    requires Allocate(t, id, vm, prefix, address, release).Done?
    ensures Invariant(Allocate(t, id, vm, prefix, address, release).value)
  {
    hide *;
    if release { ReleaseSafe(t, id, vm, prefix, address); } else { OccupySafe(t, id, vm, prefix, address); }
  }

  // ---------------------------------------------------------------- imports

  lemma ResolveAggregateSafe(t: Tables, name: Option<Text>, net: Network, key: nat)
    requires Invariant(t) && key != 0 && key !in t.aggregates
    requires ResolveAggregate(t, name, net, key).Done?
    ensures var r := ResolveAggregate(t, name, net, key).value;
            && Invariant(r.tables)
            && r.tables == t.(aggregates := r.tables.aggregates)
            && Gains(t.aggregates, r.tables.aggregates, key)
            && (r.aggregate.Some? ==> r.aggregate.value != 0 && r.aggregate.value in r.tables.aggregates
                                      && AggregateHolds(r.tables.aggregates[r.aggregate.value], net))
  {
    var r := ResolveAggregate(t, name, net, key).value;
    if name.Some? {
      var matches := NamedAggregates(t, name.value);
      if matches != {} {
        assert TheOnly(matches) in matches;
      } else {
        MaskMeaning(Mask(name.value.cidr));
        forall p | p in t.prefixes ensures t.prefixes[p].aggregate != Some(key) { assert PrefixKeysHold(t, t.prefixes[p]); }
        WriteAggregate(t, key, r.tables.aggregates[key]);
      }
    }
  }

  /** A new prefix under an existing parent, where no prefix yet spells its network in that place. */
  lemma AddPrefixSafe(t: Tables, key: nat, row: Prefix)
    requires Invariant(t) && key != 0 && key !in t.prefixes
    requires IsSet(row.aggregate) || row.aggregate.None?
    requires row.aggregate.Some? ==> row.aggregate.value in t.aggregates && AggregateHolds(t.aggregates[row.aggregate.value], row.net)
    requires row.parent.Some? ==>
               && row.parent.value in t.prefixes
               && StrictSubnetOf(row.net, t.prefixes[row.parent.value].net)
               && t.prefixes[row.parent.value].aggregate == row.aggregate
    requires forall p :: p in t.prefixes ==> !SamePlace(t.prefixes[p], row)
    ensures Invariant(t.(prefixes := t.prefixes[key := row]))
  {
    var after := t.(prefixes := t.prefixes[key := row]);
    forall p | p in after.prefixes ensures PrefixRelationOk(after, p) {
      if p != key { assert PrefixRelationOk(t, p) && PrefixKeysHold(t, t.prefixes[p]); }
    }
    forall i, j | i in after.prefixes && j in after.prefixes && i != j
      ensures !SamePlace(after.prefixes[i], after.prefixes[j])
    {
      if i != key && j != key { assert !SamePlace(t.prefixes[i], t.prefixes[j]); }
    }
    InstallPrefix(t, key, row);
  }

  ghost predicate RowKeysFresh(t: Tables, k: Keys) {
    && k.aggregate != 0 && k.prefix != 0 && k.ip != 0
    && k.aggregate !in t.aggregates && k.prefix !in t.prefixes && k.ip !in t.ips
  }

  /** A table that gained at most the one row with this key. */
  ghost predicate Gains<T(!new)>(table: map<nat, T>, after: map<nat, T>, key: nat) {
    after == table || (key in after && after == table[key := after[key]])
  }

  /** Rows only add records, under the keys they were given. */
  ghost predicate Extends(t: Tables, after: Tables, k: Keys) {
    && after == t.(aggregates := after.aggregates, prefixes := after.prefixes, ips := after.ips)
    && Gains(t.aggregates, after.aggregates, k.aggregate)
    && Gains(t.prefixes, after.prefixes, k.prefix)
    && Gains(t.ips, after.ips, k.ip)
  }

  lemma ImportAggregateSafe(t: Tables, row: Row, k: Keys)
    requires Invariant(t) && row.AggregateRow? && RowKeysFresh(t, k) && ImportAggregate(t, row, k.aggregate).Done?
    ensures Invariant(ImportAggregate(t, row, k.aggregate).value.tables)
    ensures Extends(t, ImportAggregate(t, row, k.aggregate).value.tables, k)
  {
    var x := ImportAggregate(t, row, k.aggregate).value;
    if x.created {
      forall p | p in t.prefixes ensures t.prefixes[p].aggregate != Some(k.aggregate) { assert PrefixKeysHold(t, t.prefixes[p]); }
      WriteAggregate(t, k.aggregate, x.tables.aggregates[k.aggregate]);
    }
  }

  ghost predicate AddsPrefix(t: Tables, after: Tables, key: nat) {
    after == t.(prefixes := after.prefixes) && Gains(t.prefixes, after.prefixes, key)
  }

  lemma FilePrefixSafe(t: Tables, row: Row, aggregate: Ref, parent: Ref, matches: set<nat>, key: nat)
    requires Invariant(t) && row.PrefixRow? && key != 0 && key !in t.prefixes
    requires matches <= t.prefixes.Keys && FilePrefix(t, row, aggregate, parent, matches, key).Done?
    requires IsSet(aggregate) || aggregate.None?
    requires aggregate.Some? ==> aggregate.value in t.aggregates && AggregateHolds(t.aggregates[aggregate.value], row.net)
    requires parent.Some? ==>
               && parent.value in t.prefixes
               && StrictSubnetOf(row.net, t.prefixes[parent.value].net)
               && t.prefixes[parent.value].aggregate == aggregate
    requires forall p :: p in t.prefixes && t.prefixes[p].net == row.net && t.prefixes[p].aggregate == aggregate ==> p in matches
    ensures Invariant(FilePrefix(t, row, aggregate, parent, matches, key).value.tables)
    ensures AddsPrefix(t, FilePrefix(t, row, aggregate, parent, matches, key).value.tables, key)
  {
    if matches == {} {
      AddPrefixSafe(t, key, FilePrefix(t, row, aggregate, parent, matches, key).value.tables.prefixes[key]);
    }
  }

  lemma PlaceRowSafe(t: Tables, row: Row, aggregate: Ref, key: nat)
    requires Invariant(t) && row.PrefixRow? && key != 0 && key !in t.prefixes && PlaceRow(t, row, aggregate, key).Done?
    requires row.aggregate.None? ==> aggregate.None?
    requires aggregate.Some? ==> aggregate.value != 0 && aggregate.value in t.aggregates
                                 && AggregateHolds(t.aggregates[aggregate.value], row.net)
    ensures Invariant(PlaceRow(t, row, aggregate, key).value.tables)
    ensures AddsPrefix(t, PlaceRow(t, row, aggregate, key).value.tables, key)
  {
    var matches := Spelling(t, row.net, row.aggregate.Some?, aggregate);
    if row.parent.None? {
      FilePrefixSafe(t, row, aggregate, None, matches, key);
    } else {
      var parent := ResolveParent(t, row, aggregate).value;
      var candidates := Spelling(t, Mask(row.parent.value.cidr), row.aggregate.Some?, aggregate);
      assert parent in candidates;
      ParentHolds(t, parent, row.net);
      FilePrefixSafe(t, row, if row.aggregate.Some? then aggregate else t.prefixes[parent].aggregate, Some(parent), matches, key);
    }
  }

  lemma ImportPrefixSafe(t: Tables, row: Row, k: Keys)
    requires Invariant(t) && row.PrefixRow? && RowKeysFresh(t, k) && ImportPrefix(t, row, k).Done?
    ensures Invariant(ImportPrefix(t, row, k).value.tables)
    ensures Extends(t, ImportPrefix(t, row, k).value.tables, k)
  {
    ResolveAggregateSafe(t, row.aggregate, row.net, k.aggregate);
    var r := ResolveAggregate(t, row.aggregate, row.net, k.aggregate).value;
    PlaceRowSafe(r.tables, row, r.aggregate, k.prefix);
  }

  /** A network inside a prefix is inside that prefix's aggregate. */
  lemma ParentHolds(t: Tables, parent: nat, net: Network)
    requires Invariant(t) && parent in t.prefixes && StrictSubnetOf(net, t.prefixes[parent].net)
    ensures var a := t.prefixes[parent].aggregate;
            a.Some? ==> a.value != 0 && a.value in t.aggregates && AggregateHolds(t.aggregates[a.value], net)
  {
    assert PrefixRelationOk(t, parent) && PrefixKeysHold(t, t.prefixes[parent]);
  }

  lemma HomePrefixSafe(t: Tables, row: Row, aggregate: Ref, key: nat)
    requires Invariant(t) && row.IpRow? && key != 0 && key !in t.prefixes && HomePrefix(t, row, aggregate, key).Done?
    requires row.aggregate.None? ==> aggregate.None?
    requires aggregate.Some? ==> aggregate.value != 0 && aggregate.value in t.aggregates
                                 && AggregateHolds(t.aggregates[aggregate.value], row.net)
    ensures var home := HomePrefix(t, row, aggregate, key).value;
            && Invariant(home.tables)
            && home.prefix in home.tables.prefixes && home.tables.prefixes[home.prefix].net == row.net
            && AddsPrefix(t, home.tables, key)
  {
    var home := HomePrefix(t, row, aggregate, key).value;
    var matches := Spelling(t, row.net, row.aggregate.Some?, aggregate);
    if matches == {} {
      var added := home.tables.prefixes[key];
      forall p | p in t.prefixes ensures !SamePlace(t.prefixes[p], added) { assert p !in matches; }
      AddPrefixSafe(t, key, added);
    } else {
      assert TheOnly(matches) in matches;
    }
  }

  lemma FileAddressSafe(t: Tables, row: Row, prefix: nat, device: Ref, key: nat)
    requires Invariant(t) && row.IpRow? && row.address.Some? && key != 0 && key !in t.ips
    requires prefix in t.prefixes && Contains(t.prefixes[prefix].net, row.address.value)
    requires RefIn(device, t.devices)
    requires FileAddress(t, row, prefix, device, key).Done?
    ensures var after := FileAddress(t, row, prefix, device, key).value.tables;
            Invariant(after) && after == t.(ips := after.ips) && Gains(t.ips, after.ips, key)
  {
    var x := FileAddress(t, row, prefix, device, key).value;
    if x.created {
      var local := Local(t, prefix, row.address.value);
      forall i | i in t.ips && t.ips[i].prefix == prefix ensures t.ips[i].address != row.address.value { assert i !in local; }
      WriteAddress(t, key, x.tables.ips[key]);
    }
  }

  ghost predicate AddsAddress(t: Tables, after: Tables, k: Keys) {
    && after == t.(prefixes := after.prefixes, ips := after.ips)
    && Gains(t.prefixes, after.prefixes, k.prefix)
    && Gains(t.ips, after.ips, k.ip)
  }

  lemma PlaceAddressSafe(t: Tables, row: Row, aggregate: Ref, k: Keys)
    requires Invariant(t) && row.IpRow? && PlaceAddress(t, row, aggregate, k).Done?
    requires k.prefix != 0 && k.prefix !in t.prefixes && k.ip != 0 && k.ip !in t.ips
    requires row.aggregate.None? ==> aggregate.None?
    requires aggregate.Some? ==> aggregate.value != 0 && aggregate.value in t.aggregates
                                 && AggregateHolds(t.aggregates[aggregate.value], row.net)
    ensures Invariant(PlaceAddress(t, row, aggregate, k).value.tables)
    ensures AddsAddress(t, PlaceAddress(t, row, aggregate, k).value.tables, k)
  {
    HomePrefixSafe(t, row, aggregate, k.prefix);
    var home := HomePrefix(t, row, aggregate, k.prefix).value;
    var device: Ref := if row.device.Some? then Some(TheOnly(MatchingDevices(t, row.device.value))) else None;
    if row.device.Some? {
      assert TheOnly(MatchingDevices(t, row.device.value)) in MatchingDevices(t, row.device.value);
    }
    FileAddressSafe(home.tables, row, home.prefix, device, k.ip);
  }

  lemma ImportIpSafe(t: Tables, row: Row, k: Keys)
    requires Invariant(t) && row.IpRow? && RowKeysFresh(t, k) && ImportIp(t, row, k).Done?
    ensures Invariant(ImportIp(t, row, k).value.tables)
    ensures Extends(t, ImportIp(t, row, k).value.tables, k)
  {
    ResolveAggregateSafe(t, row.aggregate, row.net, k.aggregate);
    var r := ResolveAggregate(t, row.aggregate, row.net, k.aggregate).value;
    PlaceAddressSafe(r.tables, row, r.aggregate, k);
  }

  /** One row of any import keeps the invariant and changes no existing record. */
  lemma ImportRowSafe(t: Tables, row: Row, k: Keys)
    requires Invariant(t) && RowKeysFresh(t, k) && ImportRow(t, row, k).Done?
    ensures Invariant(ImportRow(t, row, k).value.tables)
    ensures Extends(t, ImportRow(t, row, k).value.tables, k)
  {
    if row.AggregateRow? { ImportAggregateSafe(t, row, k); }
    else if row.PrefixRow? { ImportPrefixSafe(t, row, k); }
    else { ImportIpSafe(t, row, k); }
  }

  ghost predicate ImportKeysFresh(t: Tables, keys: seq<Keys>) {
    && (forall n :: 0 <= n < |keys| ==> RowKeysFresh(t, keys[n]))
    && (forall m, n :: 0 <= m < n < |keys| ==>
          keys[m].aggregate != keys[n].aggregate && keys[m].prefix != keys[n].prefix && keys[m].ip != keys[n].ip)
  }

  /** Imports touch the three IPAM tables and leave every existing address record as it is. */
  ghost predicate KeepsAddresses(t: Tables, after: Tables) {
    && after == t.(aggregates := after.aggregates, prefixes := after.prefixes, ips := after.ips)
    && forall i :: i in t.ips ==> i in after.ips && after.ips[i] == t.ips[i]
  }

  /** What the first n rows leave behind. */
  ghost predicate ImportedSoFar(t: Tables, after: Tables, keys: seq<Keys>, n: nat)
    requires n <= |keys|
  {
    Invariant(after) && KeepsAddresses(t, after) && forall m :: n <= m < |keys| ==> RowKeysFresh(after, keys[m])
  }

  lemma ImportStep(t: Tables, before: Tables, row: Row, keys: seq<Keys>, n: nat)
    requires 0 < n <= |keys| && ImportKeysFresh(t, keys)
    requires ImportedSoFar(t, before, keys, n - 1) && ImportRow(before, row, keys[n - 1]).Done?
    ensures ImportedSoFar(t, ImportRow(before, row, keys[n - 1]).value.tables, keys, n)
  {
    ImportRowSafe(before, row, keys[n - 1]);
    StillKept(t, before, ImportRow(before, row, keys[n - 1]).value.tables, keys[n - 1]);
    StillFresh(before, ImportRow(before, row, keys[n - 1]).value.tables, keys, n);
  }

  /** Every accepted import keeps the invariant. */
  lemma {:induction false} ImportRowsSafe(t: Tables, rows: seq<Row>, keys: seq<Keys>, n: nat)
    requires Invariant(t) && n <= |rows| == |keys| && ImportKeysFresh(t, keys)
    requires ImportRows(t, rows, keys, n).Done?
    ensures ImportedSoFar(t, ImportRows(t, rows, keys, n).value.tables, keys, n)
  {
    hide Invariant, ImportKeysFresh, ImportRow, RowKeysFresh, KeepsAddresses, ImportedSoFar;
    if n == 0 {
      NothingImported(t, keys);
    } else {
      ImportRowsSafe(t, rows, keys, n - 1);
      ImportStep(t, ImportRows(t, rows, keys, n - 1).value.tables, rows[n - 1], keys, n);
    }
  }

  lemma NothingImported(t: Tables, keys: seq<Keys>)
    requires Invariant(t) && ImportKeysFresh(t, keys)
    ensures ImportedSoFar(t, t, keys, 0)
  {
  }

  lemma StillKept(t: Tables, before: Tables, after: Tables, k: Keys)
    requires KeepsAddresses(t, before) && RowKeysFresh(before, k) && Extends(before, after, k)
    ensures KeepsAddresses(t, after)
  {
  }

  lemma StillFresh(t: Tables, after: Tables, keys: seq<Keys>, n: nat)
    requires 0 < n <= |keys| && Extends(t, after, keys[n - 1])
    requires forall m :: n - 1 <= m < |keys| ==> RowKeysFresh(t, keys[m])
    requires forall m :: n <= m < |keys| ==>
               keys[m].aggregate != keys[n - 1].aggregate && keys[m].prefix != keys[n - 1].prefix && keys[m].ip != keys[n - 1].ip
    ensures forall m :: n <= m < |keys| ==> RowKeysFresh(after, keys[m])
  {
  }
}
