/**
  Occupying an address for a machine and releasing it: when a call is accepted and what it then does,
  told by the tables alone, and how an address passes from one machine to the next over a run.
  */
module IpamAllocation {
  import opened Collections
  import opened Addressing
  import opened IpamTables
  import opened IpamRules
  import opened IpamSafety
  import opened IpamRuns

  // ---------------------------------------------------------------- what the tables show

  /** Record i registers this address in this prefix. */
  ghost predicate RecordAt(t: Tables, prefix: nat, a: Addr, i: nat) {
    i in t.ips && t.ips[i].prefix == prefix && t.ips[i].address == a
  }

  ghost predicate AtMostOneAt(t: Tables, prefix: nat, a: Addr) {
    forall i, j :: RecordAt(t, prefix, a, i) && RecordAt(t, prefix, a, j) ==> i == j
  }

  /** Nothing but record i may differ. */
  ghost predicate TouchesOnly(t: Tables, after: Tables, i: nat) {
    && after == t.(ips := after.ips)
    && forall j :: j != i ==> (j in after.ips <==> j in t.ips) && (j in t.ips ==> after.ips[j] == t.ips[j])
  }

  /** One record of the address in the prefix, in use by the machine; an existing record keeps its texts. */
  ghost predicate Occupies(t: Tables, after: Tables, vm: nat, prefix: nat, a: Addr, i: nat) {
    && RecordAt(after, prefix, a, i) && AtMostOneAt(after, prefix, a)
    && after.ips[i].vm == Some(vm) && after.ips[i].status == IN_USE
    && TouchesOnly(t, after, i)
    && if i in t.ips then after.ips[i] == t.ips[i].(vm := Some(vm), status := IN_USE)
       else after.ips[i].device.None? && after.ips[i].deviceName == "" && after.ips[i].allocation == STATIC
  }

  /** The one record of the address in the prefix carried the machine and is planned and free now. */
  ghost predicate Vacates(t: Tables, after: Tables, vm: nat, prefix: nat, a: Addr, i: nat) {
    && RecordAt(t, prefix, a, i) && AtMostOneAt(t, prefix, a) && t.ips[i].vm == Some(vm)
    && i in after.ips && after.ips[i] == t.ips[i].(vm := None, status := PLANNED)
    && TouchesOnly(t, after, i)
  }

  /** What an accepted call does. */
  ghost predicate Takes(t: Tables, after: Tables, vm: nat, prefix: nat, address: Option<Addr>, release: bool) {
    address.Some? &&
    if release then exists i :: Vacates(t, after, vm, prefix, address.value, i)
    else exists i :: Occupies(t, after, vm, prefix, address.value, i)
  }

  predicate Has(d: Device, a: Addr) {
    d.primary == Numeric(a) || a in d.extras
  }

  /** Exactly one device has the address. */
  ghost predicate OneDeviceHas(t: Tables, a: Addr) {
    exists d :: d in t.devices && forall e :: e in t.devices ==> (Has(t.devices[e], a) <==> e == d)
  }

  ghost predicate InPrefix(t: Tables, prefix: nat, a: Addr) {
    prefix in t.prefixes && Contains(t.prefixes[prefix].net, a)
  }

  /** Network or broadcast address of an IPv4 block of more than two addresses. */
  predicate EndOf(n: Network, a: Addr) {
    n.version == V4 && n.length < 31 && (a.value == n.value || a.value == Last(n))
  }

  /** This record does not stand in the way of an occupation in `prefix`. */
  predicate LeavesFree(r: IpRecord, prefix: nat) {
    r.vm.None? && r.device.None? && r.status == PLANNED && (r.prefix == prefix ==> r.deviceName == "" && r.allocation != DHCP)
  }

  /** Nobody else has or reports the address, and no record of it, in any prefix, is taken. */
  ghost predicate Vacant(t: Tables, vm: nat, prefix: nat, a: Addr) {
    && (forall i :: i in t.ips && t.ips[i].address == a ==> LeavesFree(t.ips[i], prefix))
    && !OneDeviceHas(t, a)
    && forall v :: v in t.vms && a in t.vms[v].addresses ==> v == vm
  }

  ghost predicate MayOccupy(t: Tables, vm: nat, prefix: nat, a: Addr) {
    && vm in t.vms && InPrefix(t, prefix, a) && AtMostOneAt(t, prefix, a)
    && a in t.vms[vm].addresses && !EndOf(t.prefixes[prefix].net, a)
    && ((exists i :: RecordAt(t, prefix, a, i) && t.ips[i].vm == Some(vm)) || Vacant(t, vm, prefix, a))
  }

  ghost predicate MayRelease(t: Tables, vm: nat, prefix: nat, a: Addr) {
    && vm in t.vms && InPrefix(t, prefix, a) && AtMostOneAt(t, prefix, a)
    && exists i :: RecordAt(t, prefix, a, i) && t.ips[i].vm == Some(vm)
  }

  ghost predicate MayAllocate(t: Tables, vm: nat, prefix: nat, address: Option<Addr>, release: bool) {
    address.Some? && if release then MayRelease(t, vm, prefix, address.value) else MayOccupy(t, vm, prefix, address.value)
  }

  // ---------------------------------------------------------------- one call

  lemma LocalIs(t: Tables, prefix: nat, a: Addr)
    ensures forall i: nat :: i in Local(t, prefix, a) <==> RecordAt(t, prefix, a, i)
    ensures |Local(t, prefix, a)| <= 1 <==> AtMostOneAt(t, prefix, a)
    ensures Local(t, prefix, a) != {} && |Local(t, prefix, a)| <= 1 ==> RecordAt(t, prefix, a, TheOnly(Local(t, prefix, a)))
  {
    var local := Local(t, prefix, a);
    if |local| <= 1 {
      forall i: nat, j: nat | RecordAt(t, prefix, a, i) && RecordAt(t, prefix, a, j) ensures i == j {
        if i != j { SubsetSize({i, j}, local); }
      }
    } else {
      var i: nat :| i in local;
      assert |local - {i}| >= 1;
      var j: nat :| j in local - {i};
      assert RecordAt(t, prefix, a, i) && RecordAt(t, prefix, a, j);
    }
    if local != {} && |local| <= 1 { assert |local| >= 1; assert TheOnly(local) in local; }
  }

  lemma HeldIsOneDevice(t: Tables, a: Addr)
    ensures UniquelyHeld(t, a) <==> OneDeviceHas(t, a)
  {
    forall d | d in t.devices ensures a in Holdings(t.devices[d]) <==> Has(t.devices[d], a) {}
  }

  lemma ReleaseTakesHold(t: Tables, vm: nat, prefix: nat, a: Addr)
    ensures Release(t, vm, prefix, a).Done? <==> AtMostOneAt(t, prefix, a) && exists i :: RecordAt(t, prefix, a, i) && t.ips[i].vm == Some(vm)
    ensures Release(t, vm, prefix, a).Done? ==> exists i :: Vacates(t, Release(t, vm, prefix, a).value, vm, prefix, a, i)
  {
    LocalIs(t, prefix, a);
    var local := Local(t, prefix, a);
    if Release(t, vm, prefix, a).Done? {
      var i := TheOnly(local);
      assert Vacates(t, Release(t, vm, prefix, a).value, vm, prefix, a, i);
    }
    if AtMostOneAt(t, prefix, a) && exists i :: RecordAt(t, prefix, a, i) && t.ips[i].vm == Some(vm) {
      var i :| RecordAt(t, prefix, a, i) && t.ips[i].vm == Some(vm);
      assert TheOnly(local) == i;
    }
  }

  /** A machine that already has the address keeps it, and nothing changes. */
  lemma OccupiedAlready(t: Tables, id: nat, vm: nat, prefix: nat, a: Addr, i: nat)
    requires Invariant(t) && vm in t.vms && prefix in t.prefixes
    requires AtMostOneAt(t, prefix, a) && RecordAt(t, prefix, a, i) && t.ips[i].vm == Some(vm)
    ensures Occupy(t, id, vm, prefix, a) == Done(t) <==> a in t.vms[vm].addresses && !EndOf(t.prefixes[prefix].net, a)
    ensures Occupy(t, id, vm, prefix, a).Done? ==> Occupy(t, id, vm, prefix, a) == Done(t) && Occupies(t, t, vm, prefix, a, i)
  {
    LocalIs(t, prefix, a);
    assert TheOnly(Local(t, prefix, a)) == i;
    assert OccupiedOk(t, i);
    hide Invariant, Local, TakenElsewhere, UniquelyHeld, OtherVmReports;
  }

  /** The rule's separate refusals, put together. */
  lemma FreshOccupation(t: Tables, id: nat, vm: nat, prefix: nat, a: Addr)
    requires Invariant(t) && id !in t.ips && vm in t.vms && prefix in t.prefixes && AtMostOneAt(t, prefix, a)
    requires forall i :: RecordAt(t, prefix, a, i) ==> t.ips[i].vm != Some(vm)
    ensures Occupy(t, id, vm, prefix, a).Done? <==>
              a in t.vms[vm].addresses && !EndOf(t.prefixes[prefix].net, a) && Vacant(t, vm, prefix, a)
  {
    hide Invariant, Local, UniquelyHeld, OneDeviceHas, Spoken, EndOf;
    ReservedIsEnd(t.prefixes[prefix].net, a);
    LocalIs(t, prefix, a);
    HeldIsOneDevice(t, a);
    SpokenIsTaken(t);
    var local := Local(t, prefix, a);
    var row: Ref := if local == {} then None else Some(TheOnly(local));
    assert row.Some? <==> exists i :: RecordAt(t, prefix, a, i);
    if TakenElsewhere(t, a, row) {
      var i :| i in t.ips && row != Some(i) && t.ips[i].address == a && Spoken(t.ips[i]);
      assert !LeavesFree(t.ips[i], prefix);
    } else if !(row.Some? && (Spoken(t.ips[row.value]) || t.ips[row.value].deviceName != "" || t.ips[row.value].allocation == DHCP)) {
      forall i | i in t.ips && t.ips[i].address == a ensures LeavesFree(t.ips[i], prefix) {
        if row != Some(i) { assert !Spoken(t.ips[i]); assert t.ips[i].prefix == prefix ==> RecordAt(t, prefix, a, i); }
      }
    }
  }

  lemma ReservedIsEnd(n: Network, a: Addr)
    ensures Reserved(n, a) <==> EndOf(n, a)
  {
  }

  lemma SpokenIsTaken(t: Tables)
    requires Invariant(t)
    ensures forall i :: i in t.ips ==> (Spoken(t.ips[i]) <==> t.ips[i].vm.Some? || t.ips[i].device.Some? || t.ips[i].status != PLANNED)
  {
    forall i | i in t.ips ensures Spoken(t.ips[i]) <==> t.ips[i].vm.Some? || t.ips[i].device.Some? || t.ips[i].status != PLANNED {
      assert IpKeysHold(t, t.ips[i]);
    }
  }

  lemma FreshOccupationTakesHold(t: Tables, id: nat, vm: nat, prefix: nat, a: Addr)
    requires Invariant(t) && id !in t.ips && vm in t.vms && prefix in t.prefixes && AtMostOneAt(t, prefix, a)
    requires forall i :: RecordAt(t, prefix, a, i) ==> t.ips[i].vm != Some(vm)
    requires Occupy(t, id, vm, prefix, a).Done?
    ensures exists i :: Occupies(t, Occupy(t, id, vm, prefix, a).value, vm, prefix, a, i)
  {
    hide Invariant, Local, UniquelyHeld, TakenElsewhere, OtherVmReports, Spoken, Reserved;
    LocalIs(t, prefix, a);
    var local := Local(t, prefix, a);
    var i := if local == {} then id else TheOnly(local);
    var u := Occupy(t, id, vm, prefix, a).value;
    if local != {} { assert RecordAt(t, prefix, a, i) && u == t.(ips := t.ips[i := t.ips[i].(vm := Some(vm), status := IN_USE)]); }
    forall x, y | RecordAt(u, prefix, a, x) && RecordAt(u, prefix, a, y) ensures x == y {
      assert x != i ==> RecordAt(t, prefix, a, x);
      assert y != i ==> RecordAt(t, prefix, a, y);
    }
    assert Occupies(t, u, vm, prefix, a, i);
  }

  lemma OccupyTakesHold(t: Tables, id: nat, vm: nat, prefix: nat, a: Addr)
    requires Invariant(t) && id !in t.ips && vm in t.vms && InPrefix(t, prefix, a)
    ensures Occupy(t, id, vm, prefix, a).Done? <==> MayOccupy(t, vm, prefix, a)
    ensures Occupy(t, id, vm, prefix, a).Done? ==> exists i :: Occupies(t, Occupy(t, id, vm, prefix, a).value, vm, prefix, a, i)
  {
    LocalIs(t, prefix, a);
    if AtMostOneAt(t, prefix, a) {
      if i :| RecordAt(t, prefix, a, i) && t.ips[i].vm == Some(vm) {
        OccupiedAlready(t, id, vm, prefix, a, i);
        assert !Vacant(t, vm, prefix, a) by { assert !LeavesFree(t.ips[i], prefix); }
      } else {
        FreshOccupation(t, id, vm, prefix, a);
        if Occupy(t, id, vm, prefix, a).Done? { FreshOccupationTakesHold(t, id, vm, prefix, a); }
      }
    }
    hide Invariant, Vacant, EndOf, Occupies, RecordAt;
  }

  /**
    An allocation or release is accepted exactly under these conditions on the tables, and then leaves one
    record of the address in the prefix, taken by the machine or free, and every other record as it was.
    */
  lemma AllocationTakesHold(t: Tables, id: nat, vm: nat, prefix: nat, address: Option<Addr>, release: bool)
    requires Invariant(t) && id !in t.ips
    ensures var r := Allocate(t, id, vm, prefix, address, release);
            && (r.Done? <==> MayAllocate(t, vm, prefix, address, release))
            && (r.Done? ==> Takes(t, r.value, vm, prefix, address, release))
  {
    hide Invariant, Release, Occupy, Occupies, Vacates, MayOccupy;
    if address.Some? && vm in t.vms && InPrefix(t, prefix, address.value) {
      if release { ReleaseTakesHold(t, vm, prefix, address.value); } else { OccupyTakesHold(t, id, vm, prefix, address.value); }
    } else if address.Some? {
      assert !MayOccupy(t, vm, prefix, address.value) by { NotOffered(t, vm, prefix, address.value); }
    }
  }

  lemma NotOffered(t: Tables, vm: nat, prefix: nat, a: Addr)
    ensures MayOccupy(t, vm, prefix, a) ==> vm in t.vms && InPrefix(t, prefix, a)
  {
  }

  // ---------------------------------------------------------------- over a run

  predicate ReleaseOf(e: Event, vm: nat, prefix: nat, a: Addr) {
    e.Call? && e.op.OpAllocate? && e.op.release && e.op.vm == vm && e.op.prefix == prefix && e.op.address == Some(a)
  }

  /** No call of the run releases this machine's hold on the address. */
  predicate KeepsHold(events: seq<Event>, vm: nat, prefix: nat, a: Addr) {
    forall e :: e in events ==> !ReleaseOf(e, vm, prefix, a)
  }

  lemma {:induction false} HoldMeansNoRelease(events: seq<Event>, r: IpRecord)
    requires r.vm.Some? && KeepsHold(events, r.vm.value, r.prefix, r.address)
    ensures NeverReleases(events, r)
    decreases |events|
  {
    if events != [] {
      assert events[0] in events;
      HoldMeansNoRelease(events[1..], r);
    }
  }

  function Taking(id: nat, vm: nat, prefix: nat, a: Addr): Op {
    OpAllocate(id, vm, prefix, Some(a), false)
  }

  function Giving(id: nat, vm: nat, prefix: nat, a: Addr): Op {
    OpAllocate(id, vm, prefix, Some(a), true)
  }

  lemma TakingStep(t: Tables, id: nat, vm: nat, prefix: nat, a: Addr) returns (i: nat)
    requires Invariant(t) && KeysFresh(t, Taking(id, vm, prefix, a)) && MayOccupy(t, vm, prefix, a)
    ensures Occupies(t, Step(t, Taking(id, vm, prefix, a)), vm, prefix, a, i)
  {
    AllocationTakesHold(t, id, vm, prefix, Some(a), false);
    hide Invariant, MayOccupy, Allocate, Occupies;
    i :| Occupies(t, Step(t, Taking(id, vm, prefix, a)), vm, prefix, a, i);
  }

  /** An accepted occupation holds, record and all, until a call releases it. */
  lemma OccupationLasts(w: World, id: nat, vm: nat, prefix: nat, a: Addr, events: seq<Event>) returns (i: nat)
    requires WorldOk(w) && KeysFresh(w.tables, Taking(id, vm, prefix, a)) && MayOccupy(w.tables, vm, prefix, a)
    requires Unspoilt(w, [Call(Taking(id, vm, prefix, a))] + events) && KeepsHold(events, vm, prefix, a)
    ensures var next := Happen(w, Call(Taking(id, vm, prefix, a)));
            && Occupies(w.tables, next.tables, vm, prefix, a, i)
            && WorldOk(Run(next, events))
            && i in Run(next, events).tables.ips && Run(next, events).tables.ips[i] == next.tables.ips[i]
  {
    i := TakingStep(w.tables, id, vm, prefix, a);
    var all := [Call(Taking(id, vm, prefix, a))] + events;
    var next := Happen(w, all[0]);
    assert all[1..] == events;
    hide Invariant, MayOccupy, KeysFresh, Step, WorldOk;
    EventKeepsWorld(w, all[0]);
    RunKeepsWorld(next, events);
    HoldMeansNoRelease(events, next.tables.ips[i]);
    OccupancyPersists(next, events, i);
  }

  /** This machine alone reports the address. */
  ghost predicate OnlyReporter(t: Tables, vm: nat, a: Addr) {
    vm in t.vms && forall v :: v in t.vms ==> (a in t.vms[v].addresses <==> v == vm)
  }

  /** Apart from record i, nothing registered or held stands in the way. */
  ghost predicate OtherwiseVacant(t: Tables, prefix: nat, a: Addr, i: nat) {
    && !OneDeviceHas(t, a)
    && forall j :: j in t.ips && j != i && t.ips[j].address == a ==> LeavesFree(t.ips[j], prefix)
  }

  lemma CarriedRecord(t: Tables, i: nat)
    requires Invariant(t) && i in t.ips && t.ips[i].vm.Some?
    ensures t.ips[i].vm.value in t.vms && InPrefix(t, t.ips[i].prefix, t.ips[i].address)
    ensures t.ips[i].device.None? && t.ips[i].deviceName == "" && t.ips[i].allocation != DHCP
  {
    assert OccupiedOk(t, i) && IpRelationOk(t, i);
    hide Contains;
  }

  lemma OneRecordEach(t: Tables, prefix: nat, a: Addr)
    requires Invariant(t) && a.version == V4
    ensures AtMostOneAt(t, prefix, a)
  {
    hide ForeignKeys, Clean, Occupancy, DhcpConsistent;
  }

  lemma GivingStep(t: Tables, id: nat, vm: nat, prefix: nat, a: Addr) returns (i: nat)
    requires Invariant(t) && KeysFresh(t, Giving(id, vm, prefix, a)) && MayRelease(t, vm, prefix, a)
    ensures Vacates(t, Step(t, Giving(id, vm, prefix, a)), vm, prefix, a, i)
  {
    hide Invariant, MayRelease, Allocate, Vacates;
    AllocationTakesHold(t, id, vm, prefix, Some(a), true);
    i :| Vacates(t, Step(t, Giving(id, vm, prefix, a)), vm, prefix, a, i);
  }

  lemma ReleaseAccepted(t: Tables, id: nat, vm: nat, prefix: nat, a: Addr, i: nat)
    requires Invariant(t) && KeysFresh(t, Giving(id, vm, prefix, a))
    requires RecordAt(t, prefix, a, i) && t.ips[i].vm == Some(vm) && (a.version == V4 || AtMostOneAt(t, prefix, a))
    ensures Vacates(t, Step(t, Giving(id, vm, prefix, a)), vm, prefix, a, i)
  {
    hide Invariant, KeysFresh, Step;
    if a.version == V4 { OneRecordEach(t, prefix, a); }
    CarriedRecord(t, i);
    var j := GivingStep(t, id, vm, prefix, a);
    assert j == i;
  }

  /** A record that was just freed does not stand in the way of the next machine. */
  lemma NextMayOccupy(t: Tables, u: Tables, vm: nat, vm2: nat, prefix: nat, a: Addr, i: nat)
    requires Invariant(t) && Vacates(t, u, vm, prefix, a, i) && prefix in u.prefixes
    requires OnlyReporter(u, vm2, a) && OtherwiseVacant(u, prefix, a, i) && !EndOf(u.prefixes[prefix].net, a)
    ensures MayOccupy(u, vm2, prefix, a)
  {
    hide Invariant, OneDeviceHas, Contains, EndOf;
    CarriedRecord(t, i);
    assert InPrefix(u, prefix, a) && u.prefixes == t.prefixes;
    forall x, y | RecordAt(u, prefix, a, x) && RecordAt(u, prefix, a, y) ensures x == y {
      assert RecordAt(t, prefix, a, x) && RecordAt(t, prefix, a, y);
    }
    assert Vacant(u, vm2, prefix, a);
  }

  lemma HeldAfter(w: World, id: nat, vm: nat, prefix: nat, a: Addr, events: seq<Event>) returns (i: nat)
    requires WorldOk(w) && KeysFresh(w.tables, Taking(id, vm, prefix, a)) && MayOccupy(w.tables, vm, prefix, a)
    requires Unspoilt(w, [Call(Taking(id, vm, prefix, a))] + events) && KeepsHold(events, vm, prefix, a)
    ensures var u := Run(w, [Call(Taking(id, vm, prefix, a))] + events).tables;
            Invariant(u) && RecordAt(u, prefix, a, i) && u.ips[i].vm == Some(vm)
  {
    hide Happen, Unspoilt, MayOccupy, Invariant;
    i := OccupationLasts(w, id, vm, prefix, a, events);
    var all := [Call(Taking(id, vm, prefix, a))] + events;
    assert all[1..] == events;
  }

  /**
    How an address passes on: after an occupation and any run without its release, the release is
    accepted and frees that very record, and then another machine that alone reports the address can
    take the same record, provided nothing else registered or held meanwhile stands in the way.
    */
  lemma AddressPassesOn(w: World, id: nat, vm: nat, prefix: nat, a: Addr, events: seq<Event>, id2: nat, id3: nat, vm2: nat)
    returns (i: nat)
    requires WorldOk(w) && KeysFresh(w.tables, Taking(id, vm, prefix, a)) && MayOccupy(w.tables, vm, prefix, a)
    requires Unspoilt(w, [Call(Taking(id, vm, prefix, a))] + events) && KeepsHold(events, vm, prefix, a)
    requires var u := Run(w, [Call(Taking(id, vm, prefix, a))] + events).tables;
             id2 != 0 && id2 !in u.ips && id3 != 0 && id3 !in u.ips && (a.version == V4 || AtMostOneAt(u, prefix, a))
    ensures var u := Run(w, [Call(Taking(id, vm, prefix, a))] + events).tables;
            var v := Step(u, Giving(id2, vm, prefix, a));
            && Vacates(u, v, vm, prefix, a, i)
            && (OnlyReporter(v, vm2, a) && OtherwiseVacant(v, prefix, a, i) && prefix in v.prefixes && !EndOf(v.prefixes[prefix].net, a) ==>
                  Occupies(v, Step(v, Taking(id3, vm2, prefix, a)), vm2, prefix, a, i))
  {
    hide Run, Happen, Step, Vacates, Occupies, OtherwiseVacant, OnlyReporter, AtMostOneAt, WorldOk, Invariant, MayOccupy, EndOf, Unspoilt;
    i := HeldAfter(w, id, vm, prefix, a, events);
    var u := Run(w, [Call(Taking(id, vm, prefix, a))] + events).tables;
    ReleaseAccepted(u, id2, vm, prefix, a, i);
    var v := Step(u, Giving(id2, vm, prefix, a));
    if OnlyReporter(v, vm2, a) && OtherwiseVacant(v, prefix, a, i) && prefix in v.prefixes && !EndOf(v.prefixes[prefix].net, a) {
      NextMayOccupy(u, v, vm, vm2, prefix, a, i);
      PassOnStep(u, id2, id3, vm, vm2, prefix, a, i);
    }
  }

  lemma PassOnStep(t: Tables, id2: nat, id3: nat, vm: nat, vm2: nat, prefix: nat, a: Addr, i: nat)
    requires Invariant(t) && KeysFresh(t, Giving(id2, vm, prefix, a)) && id3 != 0 && id3 !in t.ips
    requires Vacates(t, Step(t, Giving(id2, vm, prefix, a)), vm, prefix, a, i)
    requires MayOccupy(Step(t, Giving(id2, vm, prefix, a)), vm2, prefix, a)
    ensures var v := Step(t, Giving(id2, vm, prefix, a)); Occupies(v, Step(v, Taking(id3, vm2, prefix, a)), vm2, prefix, a, i)
  {
    var v := Step(t, Giving(id2, vm, prefix, a));
    hide MayOccupy, Step, Invariant, Blanks, EndOf;
    CallSafe(t, Giving(id2, vm, prefix, a));
    NotBlanking(t, Giving(id2, vm, prefix, a));
    assert id3 !in v.ips;
    var j := TakingStep(v, id3, vm2, prefix, a);
    StillThere(v, Step(v, Taking(id3, vm2, prefix, a)), vm2, prefix, a, i, j);
  }

  lemma NotBlanking(t: Tables, op: Op)
    requires op.OpAllocate?
    ensures !Blanks(t, op)
  {
  }

  lemma StillThere(t: Tables, after: Tables, vm: nat, prefix: nat, a: Addr, i: nat, j: nat)
    requires RecordAt(t, prefix, a, i) && Occupies(t, after, vm, prefix, a, j)
    ensures i == j
  {
    if i != j { assert RecordAt(after, prefix, a, i); }
  }
}
