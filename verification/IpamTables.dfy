/** The tables behind IP planning, and what it means for them to be consistent. */
module IpamTables {
  import opened Collections
  import opened Addressing

  const PLANNED := "规划"
  const IN_USE := "使用中"
  const STATUSES: set<string> := {PLANNED, "预分配", IN_USE, "已停用"}
  const STATIC := "静态"
  const DHCP := "DHCP"
  const ALLOCATIONS: set<string> := {STATIC, DHCP}
  /** Descriptions with this beginning mark records made for a device's extra addresses. */
  const AUTO_MARKER := "设备额外IP(自动建档)"

  /** A text field that may or may not spell a CIDR block. */
  datatype Text = Block(cidr: Cidr) | Words(words: string)

  /** canonical(): the masked block when the text is one, else the text itself. */
  function Canonical(x: Text): Text {
    if x.Block? then Block(Mask(x.cidr)) else x
  }

  datatype Aggregate = Aggregate(name: Text, prefix: Text, notes: string)

  datatype PrefixInfo = PrefixInfo(role: string, vlan: string, company: string, firewall: string,
                                   zone: string, description: string)

  datatype PrefixDetails = PrefixDetails(status: string, info: PrefixInfo, isPool: bool)

  /** Every writer stores the masked text, so a prefix row holds a network. */
  datatype Prefix = Prefix(net: Network, aggregate: Ref, parent: Ref, details: PrefixDetails)

  datatype IpRecord = IpRecord(prefix: nat, address: Addr, status: string, allocation: string,
                               device: Ref, vm: Ref, deviceName: string, description: string)

  /** A virtual machine, reduced to the addresses it reports. */
  datatype Vm = Vm(addresses: set<Addr>)

  /** A name that may itself spell an address. */
  datatype DeviceText = Label(text: string) | Numeric(address: Addr)

  datatype Device = Device(name: DeviceText, primary: DeviceText, extras: seq<Addr>)

  /** What a DHCP source talks to; identity() compares exactly these fields. */
  datatype Identity = Identity(provider: string, server: string, port: nat, vdom: string,
                               iface: string, scope: nat, netmask: string)

  /** The settings a running sync compares besides the identity. */
  datatype Settings = Settings(mode: string, threshold: int, interval: int, credentials: string)

  datatype Snapshot = Snapshot(net: Network, start: Addr, end: Addr, percent: real, warning: bool)

  datatype Source = Source(identity: Identity, settings: Settings, title: string,
                           snapshot: Option<Snapshot>, error: string, lastAttempt: int)

  datatype Tables = Tables(
    aggregates: map<nat, Aggregate>,
    prefixes: map<nat, Prefix>,
    ips: map<nat, IpRecord>,
    vms: map<nat, Vm>,
    devices: map<nat, Device>,
    sources: map<nat, Source>,
    bindings: map<nat, nat>)  // prefix id -> DHCP source id

  // ---------------------------------------------------------------- the audit

  /** contains(network(agg.prefix), net): the aggregate's text parses and holds the network. */
  ghost predicate AggregateHolds(a: Aggregate, net: Network) {
    a.prefix.Block? && SubnetOf(net, Mask(a.prefix.cidr))
  }

  /** No relation issue for prefix `id`. */
  ghost predicate PrefixRelationOk(t: Tables, id: nat)
    requires id in t.prefixes
  {
    var p := t.prefixes[id];
    && (IsSet(p.aggregate) ==>
          p.aggregate.value in t.aggregates && AggregateHolds(t.aggregates[p.aggregate.value], p.net))
    && (IsSet(p.parent) ==>
          && p.parent.value in t.prefixes
          && StrictSubnetOf(p.net, t.prefixes[p.parent.value].net)
          && t.prefixes[p.parent.value].aggregate == p.aggregate)
  }

  ghost predicate SamePlace(p: Prefix, q: Prefix) {
    p.aggregate == q.aggregate && p.net == q.net
  }

  /** No two prefixes share both aggregate and network. */
  ghost predicate NoDuplicatePrefixes(t: Tables) {
    forall i, j :: i in t.prefixes && j in t.prefixes && i != j ==> !SamePlace(t.prefixes[i], t.prefixes[j])
  }

  /** No issue for address record `id`. */
  ghost predicate IpRelationOk(t: Tables, id: nat)
    requires id in t.ips
  {
    var r := t.ips[id];
    && r.prefix in t.prefixes
    && Contains(t.prefixes[r.prefix].net, r.address)
    && !(IsSet(r.device) && IsSet(r.vm))
  }

  /** The aggregate and prefix part of the audit is empty. */
  ghost predicate ForestClean(t: Tables) {
    && (forall id :: id in t.prefixes ==> PrefixRelationOk(t, id))
    && NoDuplicatePrefixes(t)
  }

  /** audit_relations reports nothing. */
  ghost predicate Clean(t: Tables) {
    ForestClean(t) && forall id :: id in t.ips ==> IpRelationOk(t, id)
  }

  // ------------------------------------------------- what else every run keeps

  /** Key 0 is never handed out. */
  ghost predicate Keyed(t: Tables) {
    0 !in t.aggregates && 0 !in t.prefixes && 0 !in t.ips && 0 !in t.vms && 0 !in t.devices && 0 !in t.sources
  }

  ghost predicate RefIn<T>(r: Ref, table: map<nat, T>) {
    r.Some? ==> r.value in table
  }

  ghost predicate PrefixKeysHold(t: Tables, p: Prefix) {
    RefIn(p.aggregate, t.aggregates) && RefIn(p.parent, t.prefixes)
  }

  ghost predicate IpKeysHold(t: Tables, r: IpRecord) {
    r.prefix in t.prefixes && RefIn(r.device, t.devices) && RefIn(r.vm, t.vms)
  }

  /** The foreign keys the database enforces. */
  ghost predicate ForeignKeys(t: Tables) {
    && (forall id :: id in t.prefixes ==> PrefixKeysHold(t, t.prefixes[id]))
    && (forall id :: id in t.ips ==> IpKeysHold(t, t.ips[id]))
  }

  /** A record that carries a virtual machine is in use, is nobody else's, and its machine and prefix exist. */
  ghost predicate OccupiedOk(t: Tables, id: nat)
    requires id in t.ips
  {
    var r := t.ips[id];
    r.vm.Some? ==>
      && r.status == IN_USE && r.device.None? && r.deviceName == "" && r.allocation != DHCP
      && r.vm.value in t.vms && r.prefix in t.prefixes
  }

  /** Virtual machine occupancy: at most one occupied record per address, over all prefixes. */
  ghost predicate Occupancy(t: Tables) {
    && (forall id :: id in t.ips ==> OccupiedOk(t, id))
    && (forall i, j :: i in t.ips && j in t.ips && i != j && t.ips[i].vm.Some? && t.ips[j].vm.Some?
          ==> t.ips[i].address != t.ips[j].address)
  }

  /** No prefix registers an IPv4 address twice; an IPv6 address may be there once for each spelling. */
  ghost predicate UniqueAddresses(t: Tables) {
    forall i, j :: i in t.ips && j in t.ips && i != j && t.ips[i].prefix == t.ips[j].prefix && t.ips[i].address.version == V4
      ==> t.ips[i].address != t.ips[j].address
  }

  /** A stored DHCP snapshot lies at the stored scope, and its warning flag is percent >= threshold. */
  ghost predicate SourceOk(s: Source) {
    s.snapshot.Some? ==>
      && s.snapshot.value.net.version == V4
      && s.snapshot.value.net.value == s.identity.scope
      && s.snapshot.value.warning == (s.snapshot.value.percent >= s.settings.threshold as real)
  }

  /** The DHCP binding of prefix `id` joins it to a source whose scope is the prefix's network address. */
  ghost predicate BindingOk(t: Tables, id: nat)
    requires id in t.bindings
  {
    && id in t.prefixes
    && t.bindings[id] in t.sources
    && t.prefixes[id].net.version == V4
    && t.prefixes[id].net.value == t.sources[t.bindings[id]].identity.scope
  }

  ghost predicate DhcpConsistent(t: Tables) {
    && (forall s :: s in t.sources ==> SourceOk(t.sources[s]))
    && (forall id :: id in t.bindings ==> BindingOk(t, id))
  }

  /** Everything every run of the service keeps. */
  ghost predicate Invariant(t: Tables) {
    && Keyed(t)
    && ForeignKeys(t)
    && Clean(t)
    && Occupancy(t)
    && UniqueAddresses(t)
    && DhcpConsistent(t)
  }
}
