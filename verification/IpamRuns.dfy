/**
  Whole runs: every interleaving of endpoint calls with syncs in flight. Each endpoint is one
  atomic step; a sync takes five, between which anything may happen.
  */
module IpamRuns {
  import opened Collections
  import opened Addressing
  import opened IpamTables
  import opened IpamRules
  import opened IpamSafety
  import opened DhcpSafety

  datatype Op =
    | OpCreateAggregate(id: nat, name: Text, cidr: Text, notes: string)
    | OpUpdateAggregate(id: nat, newName: Field<Text>, newCidr: Field<Text>, newNotes: Field<string>)
    | OpDeleteAggregate(id: nat)
    | OpCreatePrefix(id: nat, prefixRequest: PrefixRequest)
    | OpUpdatePrefix(id: nat, prefixUpdate: PrefixUpdate)
    | OpDeletePrefix(id: nat)
    | OpCreateIp(id: nat, ipRequest: IpRequest)
    | OpUpdateIp(id: nat, ipUpdate: IpUpdate)
    | OpDeleteIp(id: nat)
    | OpGenerate(id: nat, keys: seq<nat>)
    | OpImport(rows: seq<Row>, rowKeys: seq<Keys>)
    | OpAllocate(id: nat, vm: nat, prefix: nat, address: Option<Addr>, release: bool)
    | OpSaveDevice(id: nat, device: Device, keys: seq<nat>, order: seq<nat>, deviceName: string)
    | OpDeleteDevice(id: nat)
    | OpSaveVm(id: nat, machine: Vm)
    | OpDeleteVms(ids: set<nat>)
    | OpSaveSource(id: nat, sourceRequest: SourceRequest, isNew: bool)
    | OpDeleteSource(id: nat)
    | OpBind(id: nat, source: Ref)

  /** The keys an operation was given are ones the database could hand out now. */
  ghost predicate KeysFresh(t: Tables, op: Op) {
    match op
    case OpCreateAggregate(id, _, _, _) => id != 0 && id !in t.aggregates
    case OpCreatePrefix(id, _) => id != 0 && id !in t.prefixes
    case OpCreateIp(id, _) => id != 0 && id !in t.ips
    case OpGenerate(id, keys) => FreshKeys(keys, t.ips.Keys) && (id in t.prefixes ==> |keys| == HostCount(t.prefixes[id].net))
    case OpImport(rows, keys) => |rows| == |keys| && ImportKeysFresh(t, keys)
    case OpAllocate(id, _, _, _, _) => id != 0 && id !in t.ips
    case OpSaveDevice(id, device, keys, order, _) =>
      id != 0 && FreshKeys(keys, t.ips.Keys) && |keys| == |device.extras| && Lists(order, t.prefixes.Keys)
    case OpSaveVm(id, _) => id != 0
    case OpSaveSource(id, _, isNew) => id != 0 && (isNew ==> id !in t.sources)
    case _ => true
  }

  ghost function Apply(t: Tables, op: Op): Outcome<Tables>
    requires KeysFresh(t, op)
  {
    match op
    case OpCreateAggregate(id, name, cidr, notes) => CreateAggregate(t, id, name, cidr, notes)
    case OpUpdateAggregate(id, name, cidr, notes) => UpdateAggregate(t, id, name, cidr, notes)
    case OpDeleteAggregate(id) => DeleteAggregate(t, id)
    case OpCreatePrefix(id, req) => CreatePrefix(t, id, req)
    case OpUpdatePrefix(id, u) => UpdatePrefix(t, id, u)
    case OpDeletePrefix(id) => DeletePrefix(t, id)
    case OpCreateIp(id, req) => CreateIp(t, id, req)
    case OpUpdateIp(id, u) => UpdateIp(t, id, u)
    case OpDeleteIp(id) => DeleteIp(t, id)
    case OpGenerate(id, keys) => Generate(t, id, keys)
    case OpImport(rows, keys) =>
      (match RunImport(t, rows, keys) case Done(a) => Done(a.tables) case Refused(code) => Refused(code))
    case OpAllocate(id, vm, prefix, address, release) => Allocate(t, id, vm, prefix, address, release)
    case OpSaveDevice(id, device, keys, order, name) => Done(SaveDevice(t, id, device, keys, order, name))
    case OpDeleteDevice(id) => DeleteDevice(t, id)
    case OpSaveVm(id, vm) => Done(t.(vms := t.vms[id := vm]))
    case OpDeleteVms(ids) => DeleteVms(t, ids)
    case OpSaveSource(id, req, isNew) => SaveSource(t, id, req, isNew)
    case OpDeleteSource(id) => DeleteSource(t, id)
    case OpBind(id, source) => BindPrefix(t, id, source)
  }

  /** A refused or impossible call changes nothing. */
  ghost function Step(t: Tables, op: Op): Tables {
    if KeysFresh(t, op) && Apply(t, op).Done? then Apply(t, op).value else t
  }

  /** The one call that can spoil the audit: clearing the CIDR text of an aggregate that has prefixes. */
  ghost predicate Blanks(t: Tables, op: Op) {
    && op.OpUpdateAggregate? && op.id in t.aggregates
    && !op.newCidr.Unset? && !Sent(op.newCidr) && PrefixesOf(t, op.id) != {}
  }

  /** Each call keeps the invariant, exactly except that one. */
  lemma StepKeepsInvariant(t: Tables, op: Op)
    requires Invariant(t)
    ensures Invariant(Step(t, op)) <==> !Blanks(t, op)
  {
    if KeysFresh(t, op) && Apply(t, op).Done? {
      if op.OpUpdateAggregate? { UpdateAggregateSafe(t, op.id, op.newName, op.newCidr, op.newNotes); }
      else { OtherStepSafe(t, op); }
    }
  }

  lemma OtherStepSafe(t: Tables, op: Op)
    requires Invariant(t) && KeysFresh(t, op) && Apply(t, op).Done? && !op.OpUpdateAggregate?
    ensures Invariant(Apply(t, op).value)
  {
    if op.OpCreateIp? || op.OpUpdateIp? || op.OpDeleteIp? || op.OpGenerate? || op.OpImport? || op.OpAllocate? {
      AddressStepSafe(t, op);
    } else if op.OpSaveDevice? || op.OpDeleteDevice? || op.OpSaveVm? || op.OpDeleteVms? {
      AssetStepSafe(t, op);
    } else if op.OpSaveSource? || op.OpDeleteSource? || op.OpBind? {
      DhcpStepSafe(t, op);
    } else {
      ForestStepSafe(t, op);
    }
  }

  lemma ForestStepSafe(t: Tables, op: Op)
    requires Invariant(t) && KeysFresh(t, op) && Apply(t, op).Done?
    requires op.OpCreateAggregate? || op.OpDeleteAggregate? || op.OpCreatePrefix? || op.OpUpdatePrefix? || op.OpDeletePrefix?
    ensures Invariant(Apply(t, op).value)
  {
    match op
    case OpCreateAggregate(id, name, cidr, notes) =>
      forall p | p in t.prefixes ensures t.prefixes[p].aggregate != Some(id) { assert PrefixKeysHold(t, t.prefixes[p]); }
      WriteAggregate(t, id, Aggregate(name, cidr, notes));
    case OpDeleteAggregate(id) => DeleteAggregateSafe(t, id);
    case OpCreatePrefix(id, req) => CreatePrefixSafe(t, id, req);
    case OpUpdatePrefix(id, u) => UpdatePrefixSafe(t, id, u);
    case OpDeletePrefix(id) => DeletePrefixSafe(t, id);
  }

  lemma AddressStepSafe(t: Tables, op: Op)
    requires Invariant(t) && KeysFresh(t, op) && Apply(t, op).Done?
    requires op.OpCreateIp? || op.OpUpdateIp? || op.OpDeleteIp? || op.OpGenerate? || op.OpImport? || op.OpAllocate?
    ensures Invariant(Apply(t, op).value)
  {
    hide Invariant, Accepts, Generated, ImportRows, ImportKeysFresh;
    match op
    case OpCreateIp(id, req) => CreateIpSafe(t, id, req);
    case OpUpdateIp(id, u) => UpdateIpSafe(t, id, u);
    case OpDeleteIp(id) => DeleteIpSafe(t, id);
    case OpGenerate(id, keys) => GeneratedSafe(t, id, keys, |keys|);
    case OpImport(rows, keys) => ImportRowsSafe(t, Ordered(rows), keys, |rows|);
    case OpAllocate(id, vm, prefix, address, release) => AllocateSafe(t, id, vm, prefix, address, release);
  }

  lemma AssetStepSafe(t: Tables, op: Op)
    requires Invariant(t) && KeysFresh(t, op) && Apply(t, op).Done?
    requires op.OpSaveDevice? || op.OpDeleteDevice? || op.OpSaveVm? || op.OpDeleteVms?
    ensures Invariant(Apply(t, op).value)
  {
    hide FreshKeys, Lists, LinkExtras, UniquelyHeld;
    match op
    case OpSaveDevice(id, device, keys, order, name) => SaveDeviceSafe(t, id, device, keys, order, name);
    case OpDeleteDevice(id) => DeleteDeviceSafe(t, id);
    case OpSaveVm(id, vm) => VmsChanged(t, Apply(t, op).value);
    case OpDeleteVms(ids) => VmsChanged(t, Apply(t, op).value);
  }

  lemma DhcpStepSafe(t: Tables, op: Op)
    requires Invariant(t) && KeysFresh(t, op) && Apply(t, op).Done?
    requires op.OpSaveSource? || op.OpDeleteSource? || op.OpBind?
    ensures Invariant(Apply(t, op).value)
  {
    hide Invariant, Linked, Target;
    match op
    case OpSaveSource(id, req, isNew) => SaveSourceSafe(t, id, req, isNew);
    case OpDeleteSource(id) => DeleteSourceSafe(t, id);
    case OpBind(id, source) => BindPrefixSafe(t, id, source);
  }

  // ---------------------------------------------------------------- occupancy over time

  /** The call that names this record's machine, prefix and address to release it. */
  ghost predicate Releases(op: Op, r: IpRecord) {
    op.OpAllocate? && op.release && Some(op.vm) == r.vm && op.prefix == r.prefix && op.address == Some(r.address)
  }

  /** Deletions of prefixes are refused while one of them is occupied. */
  lemma DeletionsKeepOccupied(t: Tables, op: Op)
    requires KeysFresh(t, op) && Apply(t, op).Done?
    requires op.OpDeleteAggregate? || op.OpDeletePrefix?
    ensures KeepsOccupied(t, Apply(t, op).value)
  {
    var after := Apply(t, op).value;
    forall i | i in t.ips && t.ips[i].vm.Some? ensures i in after.ips && after.ips[i] == t.ips[i] {
      match op
      case OpDeleteAggregate(id) => assert t.ips[i].prefix !in PrefixesOf(t, id);
      case OpDeletePrefix(id) => assert t.ips[i].prefix !in {id};
    }
  }

  /** A single record is not edited or deleted while it carries a machine. */
  lemma RecordEditsKeepOccupied(t: Tables, op: Op)
    requires ForeignKeys(t) && Keyed(t) && KeysFresh(t, op) && Apply(t, op).Done?
    requires op.OpCreateIp? || op.OpUpdateIp? || op.OpDeleteIp?
    ensures KeepsOccupied(t, Apply(t, op).value)
  {
    forall i | i in t.ips && t.ips[i].vm.Some? ensures IsSet(t.ips[i].vm) { assert IpKeysHold(t, t.ips[i]); }
  }

  lemma AdditionsKeepOccupied(t: Tables, op: Op)
    requires Invariant(t) && KeysFresh(t, op) && Apply(t, op).Done?
    requires op.OpGenerate? || op.OpImport?
    ensures KeepsOccupied(t, Apply(t, op).value)
  {
    if op.OpGenerate? { GeneratedSafe(t, op.id, op.keys, |op.keys|); }
    else { ImportRowsSafe(t, Ordered(op.rows), op.rowKeys, |op.rows|); }
  }

  predicate TouchesAddresses(op: Op) {
    op.OpDeleteAggregate? || op.OpDeletePrefix? || op.OpCreateIp? || op.OpUpdateIp? || op.OpDeleteIp? || op.OpGenerate?
    || op.OpImport? || op.OpAllocate? || op.OpSaveDevice? || op.OpDeleteDevice?
  }

  lemma OthersLeaveAddresses(t: Tables, op: Op)
    requires KeysFresh(t, op) && Apply(t, op).Done? && !TouchesAddresses(op)
    ensures Apply(t, op).value.ips == t.ips
  {
    hide Accepts, PrefixKeysHold, HasAddresses, Linked, AggregateHolds, EffectiveAggregate, Mask, Target, ValidStatus;
    if op.OpCreatePrefix? || op.OpUpdatePrefix? { PlacingLeavesAddresses(t, op); }
    hide CreatePrefix, UpdatePrefix, PrefixesOf, Rewritten;
  }

  lemma PlacingLeavesAddresses(t: Tables, op: Op)
    requires KeysFresh(t, op) && Apply(t, op).Done? && (op.OpCreatePrefix? || op.OpUpdatePrefix?)
    ensures Apply(t, op).value.ips == t.ips
  {
    hide Accepts, PrefixKeysHold, HasAddresses, EffectiveAggregate, Mask, ValidStatus;
  }

  lemma NoOtherCallEndsOccupancy(t: Tables, op: Op)
    requires Invariant(t) && KeysFresh(t, op) && Apply(t, op).Done? && !op.OpAllocate?
    ensures KeepsOccupied(t, Apply(t, op).value)
  {
    if !TouchesAddresses(op) { OthersLeaveAddresses(t, op); }
    else if op.OpDeleteAggregate? || op.OpDeletePrefix? { DeletionsKeepOccupied(t, op); }
    else if op.OpSaveDevice? { SaveDeviceSafe(t, op.id, op.device, op.keys, op.order, op.deviceName); }
    else if op.OpDeleteDevice? { DeleteDeviceSafe(t, op.id); }
    else if op.OpGenerate? || op.OpImport? { AdditionsKeepOccupied(t, op); }
    else { RecordEditsKeepOccupied(t, op); }
  }

  /** A record that carries a machine stays as it is until a release names that same machine. */
  lemma OnlyReleaseEndsOccupancy(t: Tables, op: Op, i: nat)
    requires Invariant(t) && i in t.ips && t.ips[i].vm.Some?
    ensures (i in Step(t, op).ips && Step(t, op).ips[i] == t.ips[i]) || Releases(op, t.ips[i])
  {
    if KeysFresh(t, op) && Apply(t, op).Done? {
      if op.OpAllocate? { AllocateTouches(t, op.id, op.vm, op.prefix, op.address, op.release, i); }
      else { NoOtherCallEndsOccupancy(t, op); }
    }
  }

  lemma AllocateTouches(t: Tables, id: nat, vm: nat, prefix: nat, address: Option<Addr>, release: bool, i: nat)
    requires Invariant(t) && id !in t.ips && i in t.ips && t.ips[i].vm.Some?
    requires Allocate(t, id, vm, prefix, address, release).Done?
    ensures var after := Allocate(t, id, vm, prefix, address, release).value;
            (i in after.ips && after.ips[i] == t.ips[i])
            || (release && Some(vm) == t.ips[i].vm && prefix == t.ips[i].prefix && address == Some(t.ips[i].address))
  {
    var local := Local(t, prefix, address.value);
    if local != {} {
      assert |local| >= 1;
      assert TheOnly(local) in local;
    }
    assert OccupiedOk(t, i);
  }

  /** What a caller may rely on: the audit stays empty, and only a release ends an occupancy. */
  lemma CallSafe(t: Tables, op: Op)
    requires Invariant(t) && KeysFresh(t, op)
    ensures Invariant(Step(t, op)) <==> !Blanks(t, op)
    ensures !(op.OpAllocate? && op.release) ==> KeepsOccupied(t, Step(t, op))
  {
    hide *;
    StepKeepsInvariant(t, op);
    if !(op.OpAllocate? && op.release) { NonReleaseKeepsOccupied(t, op); }
  }

  lemma NonReleaseKeepsOccupied(t: Tables, op: Op)
    requires Invariant(t) && KeysFresh(t, op) && !(op.OpAllocate? && op.release)
    ensures KeepsOccupied(t, Step(t, op))
  {
    hide Step, Invariant, KeysFresh;
    forall i | i in t.ips && t.ips[i].vm.Some? ensures i in Step(t, op).ips && Step(t, op).ips[i] == t.ips[i] {
      OnlyReleaseEndsOccupancy(t, op, i);
    }
  }

  // ---------------------------------------------------------------- the DHCP tables stand still

  predicate TouchesDhcp(op: Op) {
    op.OpSaveSource? || op.OpDeleteSource? || op.OpBind?
  }

  ghost predicate SameDhcp(t: Tables, after: Tables) {
    after.sources == t.sources && after.bindings == t.bindings
  }

  lemma AggregatesKeepDhcp(t: Tables, op: Op)
    requires KeysFresh(t, op) && Apply(t, op).Done?
    requires op.OpCreateAggregate? || op.OpUpdateAggregate? || op.OpDeleteAggregate?
    ensures SameDhcp(t, Apply(t, op).value)
  {
    hide AggregateHolds, Occupied, PrefixesOf;
  }

  lemma PlaceKeepsDhcp(t: Tables, id: nat, own: Ref, cidr: Text, aggregate: Ref, parent: Ref, details: PrefixDetails)
    ensures var r := PlacePrefix(t, id, own, cidr, aggregate, parent, details); r.Done? ==> SameDhcp(t, r.value)
  {
    hide ValidatePrefix, PrefixKeysHold;
  }

  lemma CreatePrefixKeepsDhcp(t: Tables, id: nat, req: PrefixRequest)
    requires CreatePrefix(t, id, req).Done?
    ensures SameDhcp(t, CreatePrefix(t, id, req).value)
  {
    var aggregate := if IsSet(req.parent) && !IsSet(req.aggregate) then t.prefixes[req.parent.value].aggregate else req.aggregate;
    PlaceKeepsDhcp(t, id, None, req.prefix, aggregate, if IsSet(req.parent) then req.parent else None,
                   req.details.(status := ValidStatus(req.details.status)));
    hide PlacePrefix, ValidStatus;
  }

  lemma UpdatePrefixKeepsDhcp(t: Tables, id: nat, u: PrefixUpdate)
    requires UpdatePrefix(t, id, u).Done?
    ensures SameDhcp(t, UpdatePrefix(t, id, u).value)
  {
    hide PlacePrefix, HasAddresses;
    var p := t.prefixes[id];
    var aggregate := if Names(u.parent) && !Names(u.aggregate)
                     then FieldOfRef(t.prefixes[u.parent.value].aggregate) else u.aggregate;
    PlaceKeepsDhcp(t, id, Some(id), FieldOr(u.prefix, Block(p.net), BLANK), RefField(aggregate, p.aggregate),
                   RefField(u.parent, p.parent), FieldOr(u.details, p.details, p.details));
  }

  lemma PrefixesKeepDhcp(t: Tables, op: Op)
    requires KeysFresh(t, op) && Apply(t, op).Done?
    requires op.OpCreatePrefix? || op.OpUpdatePrefix? || op.OpDeletePrefix?
    ensures SameDhcp(t, Apply(t, op).value)
  {
    hide CreatePrefix, UpdatePrefix, Occupied;
    if op.OpCreatePrefix? { CreatePrefixKeepsDhcp(t, op.id, op.prefixRequest); }
    if op.OpUpdatePrefix? { UpdatePrefixKeepsDhcp(t, op.id, op.prefixUpdate); }
  }

  lemma RecordsKeepDhcp(t: Tables, op: Op)
    requires KeysFresh(t, op) && Apply(t, op).Done?
    requires op.OpCreateIp? || op.OpUpdateIp? || op.OpDeleteIp? || op.OpGenerate? || op.OpAllocate?
    ensures SameDhcp(t, Apply(t, op).value)
  {
    hide Contains, IpKeysHold, Registered, Local, Generated, TakenElsewhere, UniquelyHeld, OtherVmReports;
  }

  lemma AssetsKeepDhcp(t: Tables, op: Op)
    requires KeysFresh(t, op) && Apply(t, op).Done?
    requires op.OpSaveDevice? || op.OpDeleteDevice? || op.OpSaveVm? || op.OpDeleteVms? || op.OpImport?
    ensures SameDhcp(t, Apply(t, op).value)
  {
    hide FreshKeys, Lists, LinkExtra, ImportRows, ImportKeysFresh, AutoRecord;
    if op.OpSaveDevice? { SavedDeviceKeepsDhcp(t, op.id, op.device, op.keys, op.order, op.deviceName); }
    else if op.OpImport? { ImportRowsKeepDhcp(t, Ordered(op.rows), op.rowKeys, |op.rows|); }
  }

  lemma ResolveKeepsDhcp(t: Tables, name: Option<Text>, net: Network, key: nat)
    requires ResolveAggregate(t, name, net, key).Done?
    ensures SameDhcp(t, ResolveAggregate(t, name, net, key).value.tables)
  {
  }

  lemma PlaceRowKeepsDhcp(t: Tables, row: Row, aggregate: Ref, key: nat)
    requires row.PrefixRow? && PlaceRow(t, row, aggregate, key).Done?
    ensures SameDhcp(t, PlaceRow(t, row, aggregate, key).value.tables)
  {
    hide ResolveParent, Spelling;
  }

  lemma PlaceAddressKeepsDhcp(t: Tables, row: Row, aggregate: Ref, keys: Keys)
    requires row.IpRow? && PlaceAddress(t, row, aggregate, keys).Done?
    ensures SameDhcp(t, PlaceAddress(t, row, aggregate, keys).value.tables)
  {
    hide MatchingDevices;
  }

  lemma ImportRowKeepsDhcp(t: Tables, row: Row, keys: Keys)
    requires ImportRow(t, row, keys).Done?
    ensures SameDhcp(t, ImportRow(t, row, keys).value.tables)
  {
    hide ResolveAggregate, PlaceRow, PlaceAddress;
    match row
    case AggregateRow(_, _, _) =>
    case PrefixRow(net, name, _, _, _, _) =>
      ResolveKeepsDhcp(t, name, net, keys.aggregate);
      var r := ResolveAggregate(t, name, net, keys.aggregate).value;
      PlaceRowKeepsDhcp(r.tables, row, r.aggregate, keys.prefix);
    case IpRow(net, name, _, _, _, _, _, _) =>
      ResolveKeepsDhcp(t, name, net, keys.aggregate);
      var r := ResolveAggregate(t, name, net, keys.aggregate).value;
      PlaceAddressKeepsDhcp(r.tables, row, r.aggregate, keys);
  }

  lemma {:induction false} ImportRowsKeepDhcp(t: Tables, rows: seq<Row>, keys: seq<Keys>, n: nat)
    requires n <= |rows| == |keys| && ImportRows(t, rows, keys, n).Done?
    ensures SameDhcp(t, ImportRows(t, rows, keys, n).value.tables)
  {
    hide ImportRow;
    if n > 0 {
      ImportRowsKeepDhcp(t, rows, keys, n - 1);
      ImportRowKeepsDhcp(ImportRows(t, rows, keys, n - 1).value.tables, rows[n - 1], keys[n - 1]);
    }
  }

  lemma {:induction false} LinkExtrasKeepDhcp(t: Tables, device: nat, extras: seq<Addr>, keys: seq<nat>, order: seq<nat>, name: string, n: nat)
    requires n <= |extras| == |keys|
    ensures SameDhcp(t, LinkExtras(t, device, extras, keys, order, name, n))
  {
    hide Registered;
    if n > 0 { LinkExtrasKeepDhcp(t, device, extras, keys, order, name, n - 1); }
  }

  lemma SavedDeviceKeepsDhcp(t: Tables, id: nat, device: Device, keys: seq<nat>, order: seq<nat>, name: string)
    requires |keys| == |device.extras|
    ensures SameDhcp(t, SaveDevice(t, id, device, keys, order, name))
  {
    var written := t.(devices := t.devices[id := device]);
    var kept := written.(ips := map i | i in written.ips && !(AutoRecord(written.ips[i], id) && written.ips[i].address !in device.extras) :: written.ips[i]);
    LinkExtrasKeepDhcp(kept, id, device.extras, keys, order, name, |device.extras|);
  }

  /** No call weakens what a sync relies on between its comparison and its swap. */
  lemma StepKeepsGuard(t: Tables, op: Op, s: Sync)
    requires Invariant(t) && Guarded(t, s)
    ensures Guarded(Step(t, op), s)
  {
    hide Invariant, Guarded;
    if KeysFresh(t, op) && Apply(t, op).Done? {
      match op
      case OpSaveSource(id, req, isNew) => SaveSourceKeepsGuard(t, s, id, req, isNew);
      case OpDeleteSource(id) => DeleteSourceKeepsGuard(t, s, id);
      case OpBind(id, source) => BindKeepsGuard(t, s, id, source);
      case _ => OtherKeepsGuard(t, op, s);
    }
  }

  /** Every other endpoint leaves the DHCP tables alone. */
  lemma OthersKeepDhcp(t: Tables, op: Op)
    requires KeysFresh(t, op) && Apply(t, op).Done? && !TouchesDhcp(op)
    ensures SameDhcp(t, Apply(t, op).value)
  {
    hide Apply, KeysFresh;
    if op.OpCreateAggregate? || op.OpUpdateAggregate? || op.OpDeleteAggregate? { AggregatesKeepDhcp(t, op); }
    else if op.OpCreatePrefix? || op.OpUpdatePrefix? || op.OpDeletePrefix? { PrefixesKeepDhcp(t, op); }
    else if op.OpSaveDevice? || op.OpDeleteDevice? || op.OpSaveVm? || op.OpDeleteVms? || op.OpImport? { AssetsKeepDhcp(t, op); }
    else { RecordsKeepDhcp(t, op); }
  }

  lemma OtherKeepsGuard(t: Tables, op: Op, s: Sync)
    requires Guarded(t, s) && KeysFresh(t, op) && Apply(t, op).Done? && !TouchesDhcp(op)
    ensures Guarded(Apply(t, op).value, s)
  {
    hide Guarded, Apply, KeysFresh;
    OthersKeepDhcp(t, op);
    SameDhcpKeepsGuard(t, Apply(t, op).value, s);
  }

  // ---------------------------------------------------------------- runs with syncs in flight

  /** The tables, the syncs in flight, one per worker, and the worker that holds the process lock. */
  datatype World = World(tables: Tables, syncs: map<nat, Sync>, holder: Option<nat>)

  datatype Event =
    | Call(op: Op)
    | SyncRead(worker: nat, source: nat)
    | SyncReread(worker: nat)
    | SyncCollect(worker: nat, now: int, reply: Reply)
    | SyncCheck(worker: nat)
    | SyncCommit(worker: nat)

  /** A sync ends; if it held the lock, the lock is free. */
  ghost function Ended(w: World, worker: nat): World {
    World(w.tables, w.syncs - {worker}, if w.holder == Some(worker) then None else w.holder)
  }

  ghost function Advance(w: World, worker: nat, s: Sync): World {
    w.(syncs := w.syncs[worker := s])
  }

  ghost function Happen(w: World, e: Event): World {
    match e
    case Call(op) => w.(tables := Step(w.tables, op))
    case SyncRead(worker, source) =>
      if worker !in w.syncs && source in w.tables.sources && w.tables.sources[source].settings.mode == DHCP
      then Advance(w, worker, HasRead(source, w.tables.sources[source])) else w
    case SyncReread(worker) =>
      if worker !in w.syncs || !w.syncs[worker].HasRead? then w
      else
        var s := w.syncs[worker];
        if w.holder.Some? || s.source !in w.tables.sources then Ended(w, worker)
        else Advance(w.(holder := Some(worker)), worker, HasReread(s.source, s.before, w.tables.sources[s.source]))
    case SyncCollect(worker, now, reply) =>
      if worker in w.syncs && w.syncs[worker].HasReread?
      then var s := w.syncs[worker]; Advance(w, worker, HasCollected(s.source, s.before, s.original, Collected(s.before, now, reply)))
      else w
    case SyncCheck(worker) =>
      if worker !in w.syncs || !w.syncs[worker].HasCollected? then w
      else
        var s := w.syncs[worker];
        if Passes(w.tables, s) then Advance(w, worker, HasChecked(s.source, s.before, s.original, s.updated)) else Ended(w, worker)
    case SyncCommit(worker) =>
      if worker in w.syncs && w.syncs[worker].HasChecked?
      then Ended(w.(tables := Commit(w.tables, w.syncs[worker])), worker)
      else w
  }

  /** A sync past its second read holds the lock; past its comparison it is guarded. */
  ghost predicate InFlight(w: World, worker: nat)
    requires worker in w.syncs
  {
    && SyncOk(w.syncs[worker])
    && (!w.syncs[worker].HasRead? ==> w.holder == Some(worker))
    && (w.syncs[worker].HasChecked? ==> Guarded(w.tables, w.syncs[worker]))
  }

  ghost predicate WorldOk(w: World) {
    Invariant(w.tables) && forall k :: k in w.syncs ==> InFlight(w, k)
  }

  ghost predicate Spoils(w: World, e: Event) {
    e.Call? && Blanks(w.tables, e.op)
  }

  ghost function Run(w: World, events: seq<Event>): World
    decreases |events|
  {
    if events == [] then w else Run(Happen(w, events[0]), events[1..])
  }

  /** No event of the run clears an aggregate's CIDR text while it has prefixes. */
  ghost predicate Unspoilt(w: World, events: seq<Event>)
    decreases |events|
  {
    events == [] || (!Spoils(w, events[0]) && Unspoilt(Happen(w, events[0]), events[1..]))
  }

  lemma CallKeepsWorld(w: World, op: Op)
    requires WorldOk(w) && !Blanks(w.tables, op)
    ensures WorldOk(Happen(w, Call(op)))
  {
    hide Invariant, Guarded, SyncOk, Step;
    StepKeepsInvariant(w.tables, op);
    forall k | k in w.syncs ensures InFlight(Happen(w, Call(op)), k) {
      assert InFlight(w, k);
      if w.syncs[k].HasChecked? { StepKeepsGuard(w.tables, op, w.syncs[k]); }
    }
  }

  lemma SyncStepKeepsWorld(w: World, e: Event)
    requires WorldOk(w) && !e.Call? && !e.SyncCommit?
    ensures WorldOk(Happen(w, e))
  {
    var after := Happen(w, e);
    assert after.tables == w.tables;
    forall k | k in after.syncs ensures InFlight(after, k) {
      if k in w.syncs { assert InFlight(w, k); }
      if e.SyncRead? && k == e.worker { assert DhcpConsistent(w.tables); }
      if e.SyncCollect? && k == e.worker && k in w.syncs { CollectedOk(w.syncs[k].before, e.now, e.reply); }
    }
  }

  /** Only one sync is past its second read, so a commit cannot disturb another sync's comparison. */
  lemma CommitKeepsWorld(w: World, worker: nat)
    requires WorldOk(w)
    ensures WorldOk(Happen(w, SyncCommit(worker)))
  {
    var after := Happen(w, SyncCommit(worker));
    if worker in w.syncs && w.syncs[worker].HasChecked? {
      assert InFlight(w, worker);
      CommitSafe(w.tables, w.syncs[worker]);
      hide Invariant, Guarded, SyncOk, Commit;
      forall k | k in after.syncs ensures InFlight(after, k) { assert InFlight(w, k); }
    }
  }

  lemma EventKeepsWorld(w: World, e: Event)
    requires WorldOk(w) && !Spoils(w, e)
    ensures WorldOk(Happen(w, e))
  {
    hide WorldOk, Happen;
    if e.Call? { CallKeepsWorld(w, e.op); }
    else if e.SyncCommit? { CommitKeepsWorld(w, e.worker); }
    else { SyncStepKeepsWorld(w, e); }
  }

  /**
    Safety over whole runs. From a consistent state, after any interleaving of calls and syncs, the
    audit is empty, occupancy is exclusive, addresses are unique, every stored DHCP snapshot matches
    its scope and threshold, and every DHCP binding joins a prefix to a source of its scope.
    */
  lemma {:induction false} RunKeepsWorld(w: World, events: seq<Event>)
    requires WorldOk(w) && Unspoilt(w, events)
    ensures WorldOk(Run(w, events))
    decreases |events|
  {
    if events != [] {
      EventKeepsWorld(w, events[0]);
      RunKeepsWorld(Happen(w, events[0]), events[1..]);
    }
  }

  /** The run holds no release that names this record's machine, prefix and address. */
  ghost predicate NeverReleases(events: seq<Event>, r: IpRecord)
    decreases |events|
  {
    events == [] || (!(events[0].Call? && Releases(events[0].op, r)) && NeverReleases(events[1..], r))
  }

  lemma EventKeepsRecord(w: World, e: Event, i: nat)
    requires Invariant(w.tables) && i in w.tables.ips && w.tables.ips[i].vm.Some?
    requires !(e.Call? && Releases(e.op, w.tables.ips[i]))
    ensures i in Happen(w, e).tables.ips && Happen(w, e).tables.ips[i] == w.tables.ips[i]
  {
    hide Invariant, Step, Releases;
    if e.Call? { OnlyReleaseEndsOccupancy(w.tables, e.op, i); }
  }

  /** Over a run without the matching release, an occupied record does not change at all. */
  lemma {:induction false} OccupancyPersists(w: World, events: seq<Event>, i: nat)
    requires WorldOk(w) && Unspoilt(w, events)
    requires i in w.tables.ips && w.tables.ips[i].vm.Some? && NeverReleases(events, w.tables.ips[i])
    ensures i in Run(w, events).tables.ips && Run(w, events).tables.ips[i] == w.tables.ips[i]
    decreases |events|
  {
    if events != [] {
      var next := Happen(w, events[0]);
      EventKeepsWorld(w, events[0]);
      EventKeepsRecord(w, events[0], i);
      OccupancyPersists(next, events[1..], i);
    }
  }

  // ---------------------------------------------------------------- what a sync's commit does

  /**
    The two reads are separate, so a save that lands between them and touches neither the identity
    nor the compared settings is overwritten: the source ends with the title it had before the save.
    */
  lemma SaveBetweenReadsIsLost(w: World, source: nat, worker: nat, newTitle: string, now: int, error: string)
    requires WorldOk(w) && source in w.tables.sources && w.tables.sources[source].settings.mode == DHCP
    requires worker !in w.syncs && w.holder.None?
    requires forall s :: s in w.tables.sources && s != source ==>
               Target(w.tables.sources[s].identity) != Target(w.tables.sources[source].identity)
    ensures var first := w.tables.sources[source];
            var saved := Happen(Happen(w, SyncRead(worker, source)), Call(Retitle(source, first, newTitle)));
            var done := Finish(saved, worker, now, error);
            && source in saved.tables.sources && saved.tables.sources[source].title == newTitle
            && source in done.tables.sources && done.tables.sources[source].title == first.title
  {
    var first := w.tables.sources[source];
    var read := Happen(w, SyncRead(worker, source));
    RetitleKeepsTheRest(w.tables, source, newTitle);
    var saved := Happen(read, Call(Retitle(source, first, newTitle)));
    FinishReplaces(saved, worker, now, error);
  }

  /** An operator's edit of the title alone. */
  function Retitle(source: nat, s: Source, title: string): Op {
    OpSaveSource(source, SourceRequest(s.identity, s.settings, title, true), false)
  }

  lemma RetitleKeepsTheRest(t: Tables, source: nat, title: string)
    requires Invariant(t) && source in t.sources
    requires forall s :: s in t.sources && s != source ==> Target(t.sources[s].identity) != Target(t.sources[source].identity)
    ensures var after := Step(t, Retitle(source, t.sources[source], title));
            source in after.sources && after.sources[source] == t.sources[source].(title := title)
  {
    assert SourceOk(t.sources[source]);
    assert KeysFresh(t, Retitle(source, t.sources[source], title));
  }

  /** The rest of a sync that fails to collect. */
  ghost function Finish(w: World, worker: nat, now: int, error: string): World {
    Happen(Happen(Happen(Happen(w, SyncReread(worker)), SyncCollect(worker, now, Failed(error))), SyncCheck(worker)), SyncCommit(worker))
  }

  /** Undisturbed, it stores what it read first with the error added. */
  lemma FinishReplaces(w: World, worker: nat, now: int, error: string)
    requires worker in w.syncs && w.syncs[worker].HasRead? && w.holder.None? && w.syncs[worker].source in w.tables.sources
    requires w.tables.sources[w.syncs[worker].source].identity == w.syncs[worker].before.identity
    requires w.tables.sources[w.syncs[worker].source].settings == w.syncs[worker].before.settings
    ensures Finish(w, worker, now, error).tables.sources
              == w.tables.sources[w.syncs[worker].source := Collected(w.syncs[worker].before, now, Failed(error))]
  {
  }
}
