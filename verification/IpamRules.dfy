/**
  What each endpoint of IP planning does to the tables, stated without loops. A refusal leaves
  the tables alone. Primary keys chosen by the database are parameters.
  */
module IpamRules {
  import opened Collections
  import opened Addressing
  import opened IpamTables
  import Sorting

  // ---------------------------------------------------------------- the local check

  datatype Placement = Placement(net: Network, aggregate: Ref)

  /** A prefix with no aggregate of its own takes its parent's. */
  ghost function EffectiveAggregate(t: Tables, aggregate: Ref, parent: Ref): Ref {
    if IsSet(parent) && aggregate.None? && parent.value in t.prefixes
    then t.prefixes[parent.value].aggregate else aggregate
  }

  /** Following parent links from `cursor` comes back to a row already seen. */
  ghost predicate Loops(t: Tables, cursor: nat, seen: set<nat>)
    requires cursor in t.prefixes
    decreases t.prefixes.Keys - seen
  {
    cursor in seen
    || (var up := t.prefixes[cursor].parent;
        IsSet(up) && up.value in t.prefixes && Loops(t, up.value, seen + {cursor}))
  }

  ghost predicate ParentAccepts(t: Tables, net: Network, aggregate: Ref, parent: Ref, own: Ref) {
    IsSet(parent) ==>
      && parent.value in t.prefixes
      && StrictSubnetOf(net, t.prefixes[parent.value].net)
      && t.prefixes[parent.value].aggregate == aggregate
      && !Loops(t, parent.value, if IsSet(own) then {own.value} else {})
  }

  ghost predicate AggregateAccepts(t: Tables, net: Network, aggregate: Ref) {
    IsSet(aggregate) ==> aggregate.value in t.aggregates && AggregateHolds(t.aggregates[aggregate.value], net)
  }

  ghost predicate SiblingsAccept(t: Tables, net: Network, aggregate: Ref, own: Ref) {
    forall i :: i in t.prefixes && own != Some(i) ==> !(t.prefixes[i].aggregate == aggregate && t.prefixes[i].net == net)
  }

  ghost predicate ChildrenAccept(t: Tables, net: Network, aggregate: Ref, own: Ref) {
    IsSet(own) ==> forall i :: i in t.prefixes && t.prefixes[i].parent == own ==>
      StrictSubnetOf(t.prefixes[i].net, net) && t.prefixes[i].aggregate == aggregate
  }

  ghost predicate Accepts(t: Tables, net: Network, aggregate: Ref, parent: Ref, own: Ref) {
    var effective := EffectiveAggregate(t, aggregate, parent);
    && ParentAccepts(t, net, effective, parent, own)
    && AggregateAccepts(t, net, effective)
    && SiblingsAccept(t, net, effective, own)
    && ChildrenAccept(t, net, effective, own)
  }

  ghost function ValidatePrefix(t: Tables, cidr: Text, aggregate: Ref, parent: Ref, own: Ref): (r: Outcome<Placement>)
    ensures r.Refused? ==> r.code != 200
  {
    if cidr.Block? && Accepts(t, Mask(cidr.cidr), aggregate, parent, own)
    then Done(Placement(Mask(cidr.cidr), EffectiveAggregate(t, aggregate, parent)))
    else Refused(409)
  }

  // ---------------------------------------------------------------- aggregates

  ghost function CreateAggregate(t: Tables, id: nat, name: Text, prefix: Text, notes: string): (r: Outcome<Tables>)
    ensures r.Refused? ==> r.code != 200
  {
    if prefix.Words? then Refused(400)
    else Done(t.(aggregates := t.aggregates[id := Aggregate(name, prefix, notes)]))
  }

  function FieldOr<T>(f: Field<T>, kept: T, cleared: T): T {
    match f
    case Unset => kept
    case Null => cleared
    case Value(v) => v
  }

  /** The text a cleared or empty prefix field leaves behind; it parses as no network. */
  const BLANK: Text := Words("")

  predicate Sent(prefix: Field<Text>) {
    prefix.Value? && prefix.value != BLANK
  }

  ghost function UpdateAggregate(t: Tables, id: nat, name: Field<Text>, prefix: Field<Text>, notes: Field<string>)
    : (r: Outcome<Tables>)
    ensures r.Refused? ==> r.code != 200
  {
    if Sent(prefix) && exists p :: p in t.prefixes && t.prefixes[p].aggregate == Some(id)
                                   && !AggregateHolds(Aggregate(BLANK, prefix.value, ""), t.prefixes[p].net)
    then Refused(409)
    else if id !in t.aggregates then Refused(404)
    else if Sent(prefix) && prefix.value.Words? then Refused(400)
    else
      var a := t.aggregates[id];
      Done(t.(aggregates := t.aggregates[id := Aggregate(FieldOr(name, a.name, BLANK),
                                                         FieldOr(prefix, a.prefix, BLANK),
                                                         FieldOr(notes, a.notes, ""))]))
  }

  ghost predicate Occupied(t: Tables, prefixes: set<nat>) {
    exists i :: i in t.ips && t.ips[i].prefix in prefixes && t.ips[i].vm.Some?
  }

  /** Drop prefixes together with the addresses registered in them. */
  ghost function WithoutPrefixes(t: Tables, gone: set<nat>): Tables {
    t.(prefixes := map p | p in t.prefixes && p !in gone :: t.prefixes[p],
       ips := map i | i in t.ips && t.ips[i].prefix !in gone :: t.ips[i])
  }

  ghost function PrefixesOf(t: Tables, aggregate: nat): set<nat> {
    set p | p in t.prefixes && t.prefixes[p].aggregate == Some(aggregate)
  }

  ghost function DeleteAggregate(t: Tables, id: nat): (r: Outcome<Tables>)
    ensures r.Refused? ==> r.code != 200
  {
    var gone := PrefixesOf(t, id);
    if id !in t.aggregates then Refused(404)
    else if exists p :: p in gone && p in t.bindings then Refused(409)
    else if Occupied(t, gone) then Refused(409)
    else Done(WithoutPrefixes(t, gone).(aggregates := map a | a in t.aggregates && a != id :: t.aggregates[a]))
  }

  // ---------------------------------------------------------------- prefixes

  /** Store a row; the database refuses one whose foreign keys dangle. */
  ghost function StorePrefix(t: Tables, id: nat, row: Prefix): (r: Outcome<Tables>)
    ensures r.Refused? ==> r.code != 200
  {
    if PrefixKeysHold(t, row) then Done(t.(prefixes := t.prefixes[id := row])) else Refused(500)
  }

  datatype PrefixRequest = PrefixRequest(prefix: Text, aggregate: Ref, parent: Ref, details: PrefixDetails)

  function ValidStatus(s: string): string {
    if s in STATUSES then s else PLANNED
  }

  /** Check the place a prefix is to take, then store it there. */
  ghost function PlacePrefix(t: Tables, id: nat, own: Ref, cidr: Text, aggregate: Ref, parent: Ref, details: PrefixDetails)
    : (r: Outcome<Tables>)
    ensures r.Refused? ==> r.code != 200
  {
    match ValidatePrefix(t, cidr, aggregate, parent, own)
    case Refused(code) => Refused(code)
    case Done(place) => StorePrefix(t, id, Prefix(place.net, place.aggregate, parent, details))
  }

  ghost function CreatePrefix(t: Tables, id: nat, req: PrefixRequest): (r: Outcome<Tables>)
    ensures r.Refused? ==> r.code != 200
  {
    if req.prefix.Words? then Refused(400)
    else if IsSet(req.parent) && req.parent.value !in t.prefixes then Refused(400)
    else
      var aggregate := if IsSet(req.parent) && !IsSet(req.aggregate)
                       then t.prefixes[req.parent.value].aggregate else req.aggregate;
      PlacePrefix(t, id, None, req.prefix, aggregate, if IsSet(req.parent) then req.parent else None,
                  req.details.(status := ValidStatus(req.details.status)))
  }

  datatype PrefixUpdate = PrefixUpdate(prefix: Field<Text>, aggregate: Field<nat>, parent: Field<nat>,
                                       details: Field<PrefixDetails>)

  function RefField(f: Field<nat>, kept: Ref): Ref {
    match f
    case Unset => kept
    case Null => None
    case Value(v) => Some(v)
  }

  function FieldOfRef(r: Ref): Field<nat> {
    if r.Some? then Value(r.value) else Null
  }

  predicate Names(f: Field<nat>) {
    f.Value? && f.value != 0
  }

  ghost predicate HasAddresses(t: Tables, prefix: nat) {
    exists i :: i in t.ips && t.ips[i].prefix == prefix
  }

  ghost function UpdatePrefix(t: Tables, id: nat, u: PrefixUpdate): (r: Outcome<Tables>)
    ensures r.Refused? ==> r.code != 200
  {
    if u.prefix.Value? && id in t.bindings && id in t.prefixes && u.prefix.value != Block(t.prefixes[id].net)
    then Refused(409)
    else if id !in t.prefixes then Refused(404)
    else
      var p := t.prefixes[id];
      if !u.prefix.Unset? && u.prefix != Value(Block(p.net)) && HasAddresses(t, id) then Refused(409)
      else if Sent(u.prefix) && u.prefix.value.Words? then Refused(400)
      else if Names(u.parent) && (u.parent.value !in t.prefixes || u.parent.value == id) then Refused(400)
      else
        var aggregate := if Names(u.parent) && !Names(u.aggregate)
                         then FieldOfRef(t.prefixes[u.parent.value].aggregate) else u.aggregate;
        var details := FieldOr(u.details, p.details, p.details);
        if u.prefix.Unset? && u.parent.Unset? && aggregate.Unset? then
          Done(t.(prefixes := t.prefixes[id := p.(details := details)]))
        else
          PlacePrefix(t, id, Some(id), FieldOr(u.prefix, Block(p.net), BLANK), RefField(aggregate, p.aggregate),
                      RefField(u.parent, p.parent), details)
  }

  ghost function DeletePrefix(t: Tables, id: nat): (r: Outcome<Tables>)
    ensures r.Refused? ==> r.code != 200
  {
    if id in t.bindings then Refused(409)
    else if exists p :: p in t.prefixes && t.prefixes[p].parent == Some(id) then Refused(409)
    else if Occupied(t, {id}) then Refused(409)
    else if id !in t.prefixes then Refused(404)
    else Done(WithoutPrefixes(t, {id}))
  }

  // ---------------------------------------------------------------- addresses

  ghost function StoreIp(t: Tables, id: nat, row: IpRecord): (r: Outcome<Tables>)
    ensures r.Refused? ==> r.code != 200
  {
    if IpKeysHold(t, row) then Done(t.(ips := t.ips[id := row])) else Refused(500)
  }

  /** `address` is None when the text does not parse. */
  datatype IpRequest = IpRequest(prefix: nat, address: Option<Addr>, status: string, allocation: string,
                                 device: Ref, deviceName: string, description: string)

  function ValidAllocation(a: string): string {
    if a in ALLOCATIONS then a else STATIC
  }

  ghost predicate Registered(t: Tables, prefix: nat, address: Addr) {
    exists i :: i in t.ips && t.ips[i].prefix == prefix && t.ips[i].address == address
  }

  ghost function CreateIp(t: Tables, id: nat, req: IpRequest): (r: Outcome<Tables>)
    ensures r.Refused? ==> r.code != 200
  {
    if req.prefix !in t.prefixes then Refused(400)
    else if req.address.None? || !Contains(t.prefixes[req.prefix].net, req.address.value) then Refused(400)
    else if Registered(t, req.prefix, req.address.value) then Refused(409)
    else
      var allocation := ValidAllocation(req.allocation);
      StoreIp(t, id, IpRecord(req.prefix, req.address.value, ValidStatus(req.status), allocation,
                              if allocation == DHCP || !IsSet(req.device) then None else req.device,
                              None, req.deviceName, req.description))
  }

  datatype IpUpdate = IpUpdate(prefix: Field<nat>, address: Field<Option<Addr>>, status: Field<string>,
                               allocation: Field<string>, device: Field<nat>, deviceName: Field<string>,
                               description: Field<string>)

  /** A DHCP allocation in the same request clears the device, whatever the request says about it. */
  function UpdatedDevice(u: IpUpdate, kept: Ref): Ref {
    if !u.allocation.Unset? && FieldOr(u.allocation, STATIC, STATIC) == DHCP then None else RefField(u.device, kept)
  }

  function UpdatedAllocation(u: IpUpdate, kept: string): string {
    match u.allocation
    case Unset => kept
    case Null => STATIC
    case Value(a) => ValidAllocation(a)
  }

  ghost function UpdateIp(t: Tables, id: nat, u: IpUpdate): (r: Outcome<Tables>)
    ensures r.Refused? ==> r.code != 200
  {
    if id !in t.ips then Refused(404)
    else if IsSet(t.ips[id].vm) then Refused(409)
    else
      var r := t.ips[id];
      var target := FieldOr(u.prefix, r.prefix, 0);
      var address := FieldOr(u.address, Some(r.address), None);
      if target == 0 || target !in t.prefixes then Refused(400)
      else if address.None? || !Contains(t.prefixes[target].net, address.value) then Refused(400)
      else if exists i :: i in t.ips && i != id && t.ips[i].prefix == target && t.ips[i].address == address.value
      then Refused(409)
      else if Names(u.device) && u.device.value !in t.devices then Refused(400)
      else StoreIp(t, id, IpRecord(target, address.value, FieldOr(u.status, r.status, ""),
                                   UpdatedAllocation(u, r.allocation), UpdatedDevice(u, r.device), r.vm,
                                   FieldOr(u.deviceName, r.deviceName, ""), FieldOr(u.description, r.description, "")))
  }

  ghost function DeleteIp(t: Tables, id: nat): (r: Outcome<Tables>)
    ensures r.Refused? ==> r.code != 200
  {
    if id !in t.ips then Refused(404)
    else if IsSet(t.ips[id].vm) then Refused(409)
    else Done(t.(ips := map i | i in t.ips && i != id :: t.ips[i]))
  }

  // ---------------------------------------------------------------- bulk generation

  const MAX_BULK_IPS := 4096

  /** net.hosts(): all addresses of a block of at most two, else without the reserved ones. */
  function FirstHost(n: Network): nat {
    if Size(n) <= 2 then n.value else n.value + 1
  }

  function HostCount(n: Network): nat {
    if Size(n) <= 2 then Size(n) else if n.version == V4 then Size(n) - 2 else Size(n) - 1
  }

  function Host(n: Network, k: nat): Addr {
    Addr(n.version, FirstHost(n) + k)
  }

  /** A generated record: planned, static, owned by nobody. */
  function PlannedRecord(prefix: nat, address: Addr): IpRecord {
    IpRecord(prefix, address, PLANNED, STATIC, None, None, "", "")
  }

  /** After the first `n` hosts: those not yet registered have a planned record under the next key. */
  ghost function Generated(t: Tables, prefix: nat, keys: seq<nat>, n: nat): (ips: map<nat, IpRecord>)
    requires prefix in t.prefixes && n <= |keys|
  {
    if n == 0 then t.ips
    else
      var before := Generated(t, prefix, keys, n - 1);
      var host := Host(t.prefixes[prefix].net, n - 1);
      if Registered(t, prefix, host) then before else before[keys[n - 1] := PlannedRecord(prefix, host)]
  }

  ghost function Generate(t: Tables, prefix: nat, keys: seq<nat>): (r: Outcome<Tables>)
    requires prefix in t.prefixes ==> |keys| == HostCount(t.prefixes[prefix].net)
    ensures r.Refused? ==> r.code != 200
  {
    if prefix !in t.prefixes then Refused(404)
    else if |keys| > MAX_BULK_IPS then Refused(400)
    else Done(t.(ips := Generated(t, prefix, keys, |keys|)))
  }

  // ---------------------------------------------------------------- device ownership

  function Holdings(d: Device): seq<Addr> {
    (if d.primary.Numeric? then [d.primary.address] else []) + d.extras
  }

  /** build_ip_to_device_map keeps an address only while one device holds it. */
  ghost predicate UniquelyHeld(t: Tables, address: Addr) {
    exists d :: d in t.devices && address in Holdings(t.devices[d])
                && forall e :: e in t.devices && address in Holdings(t.devices[e]) ==> e == d
  }

  /** _containing_prefix: the first prefix, in the order the query returns them, that holds the address. */
  ghost function FirstHolding(t: Tables, order: seq<nat>, address: Addr): Ref {
    if order == [] then None
    else if order[0] in t.prefixes && Contains(t.prefixes[order[0]].net, address) then Some(order[0])
    else FirstHolding(t, order[1..], address)
  }

  ghost predicate AutoRecord(r: IpRecord, device: nat) {
    r.device == Some(device) && AUTO_MARKER <= r.description
  }

  ghost function LinkExtra(t: Tables, device: nat, address: Addr, key: nat, order: seq<nat>, name: string): Tables {
    var home := FirstHolding(t, order, address);
    if home.Some? && !Registered(t, home.value, address)
    then t.(ips := t.ips[key := IpRecord(home.value, address, IN_USE, STATIC, Some(device), None, name, AUTO_MARKER)])
    else t
  }

  ghost function LinkExtras(t: Tables, device: nat, extras: seq<Addr>, keys: seq<nat>, order: seq<nat>, name: string,
                            n: nat): Tables
    requires n <= |extras| == |keys|
  {
    if n == 0 then t
    else LinkExtra(LinkExtras(t, device, extras, keys, order, name, n - 1), device, extras[n - 1], keys[n - 1], order, name)
  }

  /** Drop the device's automatic records for addresses it no longer has, then record the ones it has. */
  ghost function SyncAutoLinks(t: Tables, device: nat, keys: seq<nat>, order: seq<nat>, name: string): Tables
    requires device in t.devices && |keys| == |t.devices[device].extras|
  {
    var extras := t.devices[device].extras;
    var kept := t.(ips := map i | i in t.ips && !(AutoRecord(t.ips[i], device) && t.ips[i].address !in extras) :: t.ips[i]);
    LinkExtras(kept, device, extras, keys, order, name, |extras|)
  }

  ghost function SaveDevice(t: Tables, id: nat, device: Device, keys: seq<nat>, order: seq<nat>, name: string): Tables
    requires |keys| == |device.extras|
  {
    SyncAutoLinks(t.(devices := t.devices[id := device]), id, keys, order, name)
  }

  function Unlinked(r: IpRecord, device: nat): IpRecord {
    if r.device == Some(device) then r.(device := None) else r
  }

  /** Deleting a device removes its automatic records and unlinks the others. */
  ghost function DeleteDevice(t: Tables, id: nat): (r: Outcome<Tables>)
    ensures r.Refused? ==> r.code != 200
  {
    if id !in t.devices then Refused(404)
    else Done(t.(devices := map d | d in t.devices && d != id :: t.devices[d],
                 ips := map i | i in t.ips && !AutoRecord(t.ips[i], id) :: Unlinked(t.ips[i], id)))
  }

  // ---------------------------------------------------------------- virtual machines

  ghost function DeleteVms(t: Tables, ids: set<nat>): (r: Outcome<Tables>)
    ensures r.Refused? ==> r.code != 200
  {
    if exists i :: i in t.ips && t.ips[i].vm.Some? && t.ips[i].vm.value in ids then Refused(409)
    else if !(ids <= t.vms.Keys) then Refused(409)
    else Done(t.(vms := map v | v in t.vms && v !in ids :: t.vms[v]))
  }

  ghost function Local(t: Tables, prefix: nat, address: Addr): set<nat> {
    set i | i in t.ips && t.ips[i].prefix == prefix && t.ips[i].address == address
  }

  predicate Reserved(n: Network, address: Addr) {
    n.version == V4 && n.length < 31 && (address.value == n.value || address.value == Last(n))
  }

  predicate Spoken(r: IpRecord) {
    IsSet(r.vm) || IsSet(r.device) || r.status != PLANNED
  }

  ghost function Release(t: Tables, vm: nat, prefix: nat, address: Addr): (r: Outcome<Tables>)
    ensures r.Refused? ==> r.code != 200
  {
    var local := Local(t, prefix, address);
    if |local| > 1 then Refused(409)
    else if local == {} || t.ips[TheOnly(local)].vm != Some(vm) then Refused(409)
    else
      var i := TheOnly(local);
      Done(t.(ips := t.ips[i := t.ips[i].(vm := None, status := PLANNED)]))
  }

  /** Some record of the address other than `row` is not free. */
  ghost predicate TakenElsewhere(t: Tables, address: Addr, row: Ref) {
    exists i :: i in t.ips && row != Some(i) && t.ips[i].address == address && Spoken(t.ips[i])
  }

  ghost predicate OtherVmReports(t: Tables, vm: nat, address: Addr) {
    exists v :: v in t.vms && v != vm && address in t.vms[v].addresses
  }

  ghost function Occupy(t: Tables, id: nat, vm: nat, prefix: nat, address: Addr): (r: Outcome<Tables>)
    requires vm in t.vms && prefix in t.prefixes
    ensures r.Refused? ==> r.code != 200
  {
    var local := Local(t, prefix, address);
    if |local| > 1 then Refused(409)
    else
      var row: Ref := if local == {} then None else Some(TheOnly(local));
      if address !in t.vms[vm].addresses then Refused(409)
      else if Reserved(t.prefixes[prefix].net, address) then Refused(400)
      else if row.Some? && t.ips[row.value].vm == Some(vm) then Done(t)
      else if TakenElsewhere(t, address, row) then Refused(409)
      else if row.Some? && (Spoken(t.ips[row.value]) || t.ips[row.value].deviceName != "" || t.ips[row.value].allocation == DHCP)
      then Refused(409)
      else if UniquelyHeld(t, address) then Refused(409)
      else if OtherVmReports(t, vm, address) then Refused(409)
      else
        var base := if row.Some? then t.ips[row.value] else IpRecord(prefix, address, "", STATIC, None, None, "", "");
        Done(t.(ips := t.ips[(if row.Some? then row.value else id) := base.(vm := Some(vm), status := IN_USE)]))
  }

  ghost function Allocate(t: Tables, id: nat, vm: nat, prefix: nat, address: Option<Addr>, release: bool): (r: Outcome<Tables>)
    ensures r.Refused? ==> r.code != 200
  {
    if vm !in t.vms || prefix !in t.prefixes then Refused(404)
    else if address.None? || !Contains(t.prefixes[prefix].net, address.value) then Refused(400)
    else if release then Release(t, vm, prefix, address.value)
    else Occupy(t, id, vm, prefix, address.value)
  }

  // ---------------------------------------------------------------- imports

  datatype Row =
    | AggregateRow(net: Network, name: Text, notes: string)
    | PrefixRow(net: Network, aggregate: Option<Text>, parent: Option<Text>, status: string, info: PrefixInfo, pool: string)
    | IpRow(net: Network, aggregate: Option<Text>, address: Option<Addr>, status: string, allocation: string,
            device: Option<DeviceText>, deviceName: string, description: string)

  /** The primary keys a row receives in whichever tables it adds to. */
  datatype Keys = Keys(aggregate: nat, prefix: nat, ip: nat)

  datatype Resolved = Resolved(tables: Tables, aggregate: Ref)

  /** What an aggregate made from an import's aggregate column is noted with. */
  const FROM_COLUMN := "由明确的导入聚合列创建"
  /** The attributes of a prefix made for an address row. */
  const BARE := PrefixDetails(PLANNED, PrefixInfo("", "", "", "", "", "由导入创建"), false)

  ghost function NamedAggregates(t: Tables, name: Text): set<nat> {
    set a | a in t.aggregates && (t.aggregates[a].name == name || Canonical(t.aggregates[a].prefix) == Canonical(name))
  }

  ghost function ResolveAggregate(t: Tables, name: Option<Text>, net: Network, key: nat): Outcome<Resolved> {
    if name.None? then Done(Resolved(t, None))
    else
      var matches := NamedAggregates(t, name.value);
      if matches != {} then
        if |matches| != 1 || !AggregateHolds(t.aggregates[TheOnly(matches)], net) then Refused(400)
        else Done(Resolved(t, Some(TheOnly(matches))))
      else if name.value.Words? || !SubnetOf(net, Mask(name.value.cidr)) then Refused(400)
      else Done(Resolved(t.(aggregates := t.aggregates[key := Aggregate(Canonical(name.value), Canonical(name.value), FROM_COLUMN)]),
                         Some(key)))
  }

  /** Prefixes spelling this network; an aggregate column narrows the search. */
  ghost function Spelling(t: Tables, net: Network, narrowed: bool, aggregate: Ref): set<nat> {
    set p | p in t.prefixes && t.prefixes[p].net == net && (narrowed ==> t.prefixes[p].aggregate == aggregate)
  }

  /** One row's effect: the tables after it, and whether it added a record or was already there. */
  datatype Imported = Imported(tables: Tables, created: bool)

  ghost function ImportAggregate(t: Tables, row: Row, key: nat): Outcome<Imported>
    requires row.AggregateRow?
  {
    var existing := set a | a in t.aggregates && Canonical(t.aggregates[a].prefix) == Block(row.net);
    if existing != {} then if |existing| == 1 then Done(Imported(t, false)) else Refused(400)
    else Done(Imported(t.(aggregates := t.aggregates[key := Aggregate(row.name, Block(row.net), row.notes)]), true))
  }

  const YES: set<string> := {"1", "true", "yes", "是"}

  /** The stored prefix a row names as its parent. */
  ghost function ResolveParent(t: Tables, row: Row, aggregate: Ref): (r: Outcome<nat>)
    requires row.PrefixRow? && row.parent.Some?
    ensures r.Done? ==> r.value in t.prefixes && StrictSubnetOf(row.net, t.prefixes[r.value].net)
  {
    if row.parent.value.Words? then Refused(400)
    else
      var net := Mask(row.parent.value.cidr);
      var candidates := Spelling(t, net, row.aggregate.Some?, aggregate);
      if !StrictSubnetOf(row.net, net) || |candidates| != 1 then Refused(400)
      else
        assert TheOnly(candidates) in candidates;
        Done(TheOnly(candidates))
  }

  /** Add the row's prefix, or find it already there with the same relations. */
  ghost function FilePrefix(t: Tables, row: Row, aggregate: Ref, parent: Ref, matches: set<nat>, key: nat): Outcome<Imported>
    requires row.PrefixRow? && matches <= t.prefixes.Keys
  {
    if matches == {} then
      var details := PrefixDetails(if row.status == "" then PLANNED else row.status, row.info, row.pool in YES);
      Done(Imported(t.(prefixes := t.prefixes[key := Prefix(row.net, aggregate, parent, details)]), true))
    else if |matches| != 1 then Refused(400)
    else
      var existing := t.prefixes[TheOnly(matches)];
      if (row.aggregate.Some? && existing.aggregate != aggregate) || (row.parent.Some? && existing.parent != parent)
      then Refused(400) else Done(Imported(t, false))
  }

  /** The row once its aggregate is known. */
  ghost function PlaceRow(t: Tables, row: Row, aggregate: Ref, key: nat): Outcome<Imported>
    requires row.PrefixRow?
  {
    var matches := Spelling(t, row.net, row.aggregate.Some?, aggregate);
    if row.parent.None? then FilePrefix(t, row, aggregate, None, matches, key)
    else
      match ResolveParent(t, row, aggregate)
      case Refused(code) => Refused(code)
      case Done(parent) =>
        FilePrefix(t, row, if row.aggregate.Some? then aggregate else t.prefixes[parent].aggregate, Some(parent), matches, key)
  }

  ghost function ImportPrefix(t: Tables, row: Row, keys: Keys): Outcome<Imported>
    requires row.PrefixRow?
  {
    if row.status != "" && row.status !in STATUSES then Refused(400)
    else
      match ResolveAggregate(t, row.aggregate, row.net, keys.aggregate)
      case Refused(code) => Refused(code)
      case Done(r) => PlaceRow(r.tables, row, r.aggregate, keys.prefix)
  }

  ghost function MatchingDevices(t: Tables, who: DeviceText): set<nat> {
    set d | d in t.devices && (t.devices[d].name == who || t.devices[d].primary == who)
  }

  ghost predicate IpRowFits(t: Tables, row: Row)
    requires row.IpRow?
  {
    && row.address.Some?
    && Contains(row.net, row.address.value)
    && !Reserved(row.net, row.address.value)
    && (row.allocation == "" || row.allocation in ALLOCATIONS)
    && (row.device.Some? ==> row.allocation != DHCP && |MatchingDevices(t, row.device.value)| == 1)
  }

  datatype Home = Home(tables: Tables, prefix: nat)

  /** The prefix an address row belongs to: the one it names, or a new one. */
  ghost function HomePrefix(t: Tables, row: Row, aggregate: Ref, key: nat): Outcome<Home>
    requires row.IpRow?
  {
    var matches := Spelling(t, row.net, row.aggregate.Some?, aggregate);
    if matches == {} then
      Done(Home(t.(prefixes := t.prefixes[key := Prefix(row.net, aggregate, None, BARE)]), key))
    else if |matches| != 1 then Refused(400)
    else Done(Home(t, TheOnly(matches)))
  }

  /** Register the row's address in its prefix, or find it there with the same device. */
  ghost function FileAddress(t: Tables, row: Row, prefix: nat, device: Ref, key: nat): Outcome<Imported>
    requires row.IpRow? && row.address.Some?
  {
    var existing := Local(t, prefix, row.address.value);
    if existing == {} then
      var status := if row.status != "" then row.status else if device.Some? then IN_USE else PLANNED;
      Done(Imported(t.(ips := t.ips[key := IpRecord(prefix, row.address.value, status,
                                                    if row.allocation == "" then STATIC else row.allocation,
                                                    device, None, row.deviceName, row.description)]), true))
    else if |existing| != 1 then Refused(400)
    else if row.device.Some? && t.ips[TheOnly(existing)].device != device then Refused(400)
    else Done(Imported(t, false))
  }

  /** An address row once its aggregate is known. */
  ghost function PlaceAddress(t: Tables, row: Row, aggregate: Ref, keys: Keys): Outcome<Imported>
    requires row.IpRow?
  {
    if !IpRowFits(t, row) then Refused(400)
    else
      var device: Ref := if row.device.Some? then Some(TheOnly(MatchingDevices(t, row.device.value))) else None;
      match HomePrefix(t, row, aggregate, keys.prefix)
      case Refused(code) => Refused(code)
      case Done(home) => FileAddress(home.tables, row, home.prefix, device, keys.ip)
  }

  ghost function ImportIp(t: Tables, row: Row, keys: Keys): Outcome<Imported>
    requires row.IpRow?
  {
    if row.status != "" && row.status !in STATUSES then Refused(400)
    else
      match ResolveAggregate(t, row.aggregate, row.net, keys.aggregate)
      case Refused(code) => Refused(code)
      case Done(r) => PlaceAddress(r.tables, row, r.aggregate, keys)
  }

  ghost function ImportRow(t: Tables, row: Row, keys: Keys): Outcome<Imported> {
    match row
    case AggregateRow(_, _, _) => ImportAggregate(t, row, keys.aggregate)
    case PrefixRow(_, _, _, _, _, _) => ImportPrefix(t, row, keys)
    case IpRow(_, _, _, _, _, _, _, _) => ImportIp(t, row, keys)
  }

  datatype Tally = Tally(tables: Tables, created: nat, skipped: nat)

  /** The first n rows in order; a refused row refuses the import. */
  ghost function ImportRows(t: Tables, rows: seq<Row>, keys: seq<Keys>, n: nat): (r: Outcome<Tally>)
    requires n <= |rows| == |keys|
    ensures r.Done? ==> r.value.created + r.value.skipped == n
    ensures r.Refused? ==> r.code == 400
  {
    if n == 0 then Done(Tally(t, 0, 0))
    else
      match ImportRows(t, rows, keys, n - 1)
      case Refused(_) => Refused(400)
      case Done(a) =>
        match ImportRow(a.tables, rows[n - 1], keys[n - 1])
        case Refused(_) => Refused(400)
        case Done(x) => Done(if x.created then Tally(x.tables, a.created + 1, a.skipped)
                             else Tally(x.tables, a.created, a.skipped + 1))
  }

  const MAX_ROWS := 50000

  /** Parents come before their children: (version, mask length, address). */
  predicate RowBefore(a: Row, b: Row) {
    (a.net.version == V4 && b.net.version == V6)
    || (a.net.version == b.net.version &&
        (a.net.length < b.net.length || (a.net.length == b.net.length && a.net.value <= b.net.value)))
  }

  function Ordered(rows: seq<Row>): (r: seq<Row>)
    ensures |r| == |rows|
  {
    if forall row :: row in rows ==> row.PrefixRow? then Sorting.Sort(rows, RowBefore) else rows
  }

  /** A required column left empty; the other required columns cannot be empty once parsed. */
  predicate LacksName(row: Row) {
    row.AggregateRow? && row.name == BLANK
  }

  predicate Complete(rows: seq<Row>) {
    forall row :: row in rows ==> !LacksName(row)
  }

  ghost function RunImport(t: Tables, rows: seq<Row>, keys: seq<Keys>): Outcome<Tally>
    requires |rows| == |keys|
  {
    if |rows| > MAX_ROWS || !Complete(rows) then Refused(400) else ImportRows(t, Ordered(rows), keys, |rows|)
  }

  // ---------------------------------------------------------------- DHCP

  ghost predicate Linked(t: Tables, source: nat) {
    exists p :: p in t.bindings && t.bindings[p] == source
  }

  /** identity()[:-1]: everything but the netmask. */
  function Target(i: Identity): Identity {
    i.(netmask := "")
  }

  /** A request as it arrives; the credential check of the stored secrets is an input. */
  datatype SourceRequest = SourceRequest(identity: Identity, settings: Settings, title: string, credentialsOk: bool)

  /** The text a save stores: with the same identity the snapshot and the last attempt are carried over. */
  function Rewritten(t: Tables, id: nat, req: SourceRequest, isNew: bool): Source
    requires !isNew ==> id in t.sources
  {
    if !isNew && t.sources[id].identity == req.identity then
      var previous := t.sources[id];
      var snapshot := if previous.snapshot.Some?
        then Some(previous.snapshot.value.(warning := previous.snapshot.value.percent >= req.settings.threshold as real))
        else None;
      Source(req.identity, req.settings, req.title, snapshot, previous.error, previous.lastAttempt)
    else Source(req.identity, req.settings, req.title, None, "", 0)
  }

  ghost function SaveSource(t: Tables, id: nat, req: SourceRequest, isNew: bool): (r: Outcome<Tables>)
    ensures r.Refused? ==> r.code != 200
  {
    if exists s :: s in t.sources && (isNew || s != id) && Target(t.sources[s].identity) == Target(req.identity) then Refused(409)
    else if !isNew && id !in t.sources then Refused(404)
    else if !isNew && t.sources[id].identity != req.identity && Linked(t, id) then Refused(409)
    else if !req.credentialsOk then Refused(422)
    else Done(t.(sources := t.sources[id := Rewritten(t, id, req, isNew)]))
  }

  ghost function DeleteSource(t: Tables, id: nat): (r: Outcome<Tables>)
    ensures r.Refused? ==> r.code != 200
  {
    if id !in t.sources then Refused(404)
    else if Linked(t, id) then Refused(409)
    else Done(t.(sources := map s | s in t.sources && s != id :: t.sources[s]))
  }

  ghost function BindPrefix(t: Tables, prefix: nat, source: Ref): (r: Outcome<Tables>)
    ensures r.Refused? ==> r.code != 200
  {
    if prefix !in t.prefixes then Refused(404)
    else if source.None? then Done(t.(bindings := map p | p in t.bindings && p != prefix :: t.bindings[p]))
    else if source.value !in t.sources then Refused(404)
    else
      var s := t.sources[source.value];
      if s.settings.mode != DHCP || s.snapshot.None? || s.error != "" then Refused(409)
      else if s.snapshot.value.net != t.prefixes[prefix].net then Refused(409)
      else Done(t.(bindings := t.bindings[prefix := source.value]))
  }
}
