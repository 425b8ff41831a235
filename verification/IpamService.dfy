/** The IP planning endpoints, working on their tables in place, proved against IpamRules. */
module IpamService {
  import opened Collections
  import opened Addressing
  import opened IpamTables
  import Rules = IpamRules
  import Safety = IpamSafety
  import Dhcp = DhcpSafety
  import Allocation = IpamAllocation
  import Effects = IpamEffects
  import Files = IpamAddressFiles
  import Promises = IpamPromises


  datatype Issue =
    | PrefixIssue(id: nat)
    | DuplicateIssue(aggregate: Ref, net: Network, ids: set<nat>)
    | IpIssue(id: nat)

  /** The prefixes filed under one aggregate and network. */
  ghost function Filed(t: Tables, seen: set<nat>, aggregate: Ref, net: Network): set<nat> {
    set p | p in seen && p in t.prefixes && t.prefixes[p].aggregate == aggregate && t.prefixes[p].net == net
  }

  lemma FiledGrows(t: Tables, seen: set<nat>, id: nat)
    requires id in t.prefixes && id !in seen
    ensures forall a, n :: Filed(t, seen + {id}, a, n) ==
              if a == t.prefixes[id].aggregate && n == t.prefixes[id].net then Filed(t, seen, a, n) + {id} else Filed(t, seen, a, n)
  {
  }

  /** The prefixes seen so far, filed by place. */
  ghost predicate Grouped(t: Tables, seen: set<nat>, groups: map<(Ref, Network), set<nat>>) {
    && (forall a, n :: (a, n) in groups <==> Filed(t, seen, a, n) != {})
    && (forall a, n :: (a, n) in groups ==> groups[(a, n)] == Filed(t, seen, a, n))
  }

  lemma NothingGrouped(t: Tables)
    ensures Grouped(t, {}, map[])
  {
  }

  lemma GroupedGrows(t: Tables, seen: set<nat>, id: nat, groups: map<(Ref, Network), set<nat>>)
    requires Grouped(t, seen, groups) && id in t.prefixes && id !in seen
    ensures var key := (t.prefixes[id].aggregate, t.prefixes[id].net);
            Grouped(t, seen + {id}, groups[key := (if key in groups then groups[key] else {}) + {id}])
  {
    FiledGrows(t, seen, id);
    hide Filed;
  }

  /** Two prefixes in one place make a group of at least two, and conversely. */
  lemma GroupsShowDuplicates(t: Tables)
    ensures NoDuplicatePrefixes(t) <==> forall a, n :: |Filed(t, t.prefixes.Keys, a, n)| <= 1
  {
    if NoDuplicatePrefixes(t) {
      forall a, n ensures |Filed(t, t.prefixes.Keys, a, n)| <= 1 {
        var group := Filed(t, t.prefixes.Keys, a, n);
        if |group| > 1 {
          var i: nat :| i in group;
          assert |group - {i}| >= 1;
          var j: nat :| j in group - {i};
          assert SamePlace(t.prefixes[i], t.prefixes[j]);
        }
      }
    }
    if !NoDuplicatePrefixes(t) {
      var i, j :| i in t.prefixes && j in t.prefixes && i != j && SamePlace(t.prefixes[i], t.prefixes[j]);
      var group := Filed(t, t.prefixes.Keys, t.prefixes[i].aggregate, t.prefixes[i].net);
      SubsetSize({i, j}, group);
    }
  }

  lemma NothingFoundMeansClean(t: Tables, issues: seq<Issue>)
    requires forall i :: i in issues <==>
               match i
               case PrefixIssue(id) => id in t.prefixes && !PrefixRelationOk(t, id)
               case IpIssue(id) => id in t.ips && !IpRelationOk(t, id)
               case DuplicateIssue(a, n, s) => s == Filed(t, t.prefixes.Keys, a, n) && |s| > 1
    ensures issues == [] <==> Clean(t)
  {
    GroupsShowDuplicates(t);
    if issues == [] {
      forall id | id in t.prefixes ensures PrefixRelationOk(t, id) { assert PrefixIssue(id) !in issues; }
      forall id | id in t.ips ensures IpRelationOk(t, id) { assert IpIssue(id) !in issues; }
      forall a, n ensures |Filed(t, t.prefixes.Keys, a, n)| <= 1 {
        assert DuplicateIssue(a, n, Filed(t, t.prefixes.Keys, a, n)) !in issues;
      }
    } else {
      assert issues[0] in issues;
    }
  }

  method Pick<T(==)>(s: set<T>) returns (x: T)
    requires |s| == 1
    ensures x == TheOnly(s) && s == {x}
  {
    x :| x in s;
    ghost var only := TheOnly(s);
    assert only in s && s == {only};
  }

  class Inventory {
    var aggregates: map<nat, Aggregate>
    var prefixes: map<nat, Prefix>
    var ips: map<nat, IpRecord>
    var vms: map<nat, Vm>
    var devices: map<nat, Device>
    var sources: map<nat, Source>
    var bindings: map<nat, nat>

    ghost function State(): Tables
      reads this
    {
      Tables(aggregates, prefixes, ips, vms, devices, sources, bindings)
    }

    constructor ()
      ensures State() == Tables(map[], map[], map[], map[], map[], map[], map[])
      ensures Invariant(State())
    {
      aggregates, prefixes, ips, vms := map[], map[], map[], map[];
      devices, sources, bindings := map[], map[], map[];
    }

    // -------------------------------------------------------------- audit

    predicate Holds(a: Aggregate, net: Network)
      ensures Holds(a, net) == AggregateHolds(a, net)
    {
      a.prefix.Block? && SubnetOf(net, Mask(a.prefix.cidr))
    }

    predicate RelationHolds(id: nat)
      requires id in prefixes
      reads this
      ensures RelationHolds(id) == PrefixRelationOk(State(), id)
    {
      var p := prefixes[id];
      && (IsSet(p.aggregate) ==> p.aggregate.value in aggregates && Holds(aggregates[p.aggregate.value], p.net))
      && (IsSet(p.parent) ==> p.parent.value in prefixes && StrictSubnetOf(p.net, prefixes[p.parent.value].net)
                              && prefixes[p.parent.value].aggregate == p.aggregate)
    }

    /** The first pass of the audit: broken links, and the prefixes grouped by place. */
    method AuditPrefixes() returns (issues: seq<Issue>, groups: map<(Ref, Network), set<nat>>)
      ensures forall i :: i in issues <==> i.PrefixIssue? && i.id in prefixes && !PrefixRelationOk(State(), i.id)
      ensures Grouped(State(), prefixes.Keys, groups)
    {
      hide Grouped, PrefixRelationOk;
      issues, groups := [], map[];
      var todo := prefixes.Keys;
      NothingGrouped(State());
      assert prefixes.Keys - todo == {};
      while todo != {}
        invariant todo <= prefixes.Keys
        invariant Grouped(State(), prefixes.Keys - todo, groups)
        invariant forall i :: i in issues <==>
                    i.PrefixIssue? && i.id in prefixes.Keys - todo && !PrefixRelationOk(State(), i.id)
        decreases |todo|
      {
        var id: nat :| id in todo;
        ghost var before := prefixes.Keys - todo;
        todo := todo - {id};
        var key := (prefixes[id].aggregate, prefixes[id].net);
        assert prefixes.Keys - todo == before + {id};
        GroupedGrows(State(), before, id, groups);
        groups := groups[key := (if key in groups then groups[key] else {}) + {id}];
        var ok := RelationHolds(id);
        if !ok { issues := issues + [PrefixIssue(id)]; }
      }
      assert prefixes.Keys - todo == prefixes.Keys;
    }

    method AuditDuplicates(groups: map<(Ref, Network), set<nat>>) returns (issues: seq<Issue>)
      ensures forall i :: i in issues <==>
                i.DuplicateIssue? && (i.aggregate, i.net) in groups && i.ids == groups[(i.aggregate, i.net)] && |i.ids| > 1
    {
      issues := [];
      var todo := groups.Keys;
      while todo != {}
        invariant todo <= groups.Keys
        invariant forall i :: i in issues <==>
                    i.DuplicateIssue? && (i.aggregate, i.net) in groups.Keys - todo
                    && i.ids == groups[(i.aggregate, i.net)] && |i.ids| > 1
        decreases |todo|
      {
        var key :| key in todo;
        todo := todo - {key};
        if |groups[key]| > 1 { issues := issues + [DuplicateIssue(key.0, key.1, groups[key])]; }
      }
    }

    method AuditAddresses() returns (issues: seq<Issue>)
      ensures forall i :: i in issues <==> i.IpIssue? && i.id in ips && !IpRelationOk(State(), i.id)
    {
      issues := [];
      var todo := ips.Keys;
      while todo != {}
        invariant todo <= ips.Keys
        invariant forall i :: i in issues <==> i.IpIssue? && i.id in ips.Keys - todo && !IpRelationOk(State(), i.id)
        decreases |todo|
      {
        var id: nat :| id in todo;
        todo := todo - {id};
        var r := ips[id];
        if !(r.prefix in prefixes && Contains(prefixes[r.prefix].net, r.address) && !(IsSet(r.device) && IsSet(r.vm))) {
          issues := issues + [IpIssue(id)];
        }
      }
    }

    /** audit_relations: one issue per broken prefix, per group of duplicates and per misplaced address. */
    method AuditRelations() returns (issues: seq<Issue>)
      ensures forall id :: PrefixIssue(id) in issues <==> id in prefixes && !PrefixRelationOk(State(), id)
      ensures forall id :: IpIssue(id) in issues <==> id in ips && !IpRelationOk(State(), id)
      ensures forall a, n, s :: DuplicateIssue(a, n, s) in issues <==> s == Filed(State(), prefixes.Keys, a, n) && |s| > 1
      ensures issues == [] <==> Clean(State())
    {
      var links, groups := AuditPrefixes();
      var duplicates := AuditDuplicates(groups);
      var addresses := AuditAddresses();
      issues := links + duplicates + addresses;
      NothingFoundMeansClean(State(), issues);
    }

    // -------------------------------------------------------------- the local check

    /** The walk up the parents; it ends on every parent graph, cyclic ones included. */
    method WalksInCircles(parent: nat, seen0: set<nat>) returns (r: bool)
      requires parent in prefixes
      ensures r == Rules.Loops(State(), parent, seen0)
    {
      var seen := seen0;
      var cursor: Ref := Some(parent);
      while cursor.Some?
        invariant cursor.Some? ==> cursor.value in prefixes
        invariant if cursor.Some? then Rules.Loops(State(), cursor.value, seen) <==> Rules.Loops(State(), parent, seen0)
                  else !Rules.Loops(State(), parent, seen0)
        decreases cursor.Some?, prefixes.Keys - seen
      {
        if cursor.value in seen { return true; }
        seen := seen + {cursor.value};
        var up := prefixes[cursor.value].parent;
        cursor := if IsSet(up) && up.value in prefixes then up else None;
      }
      r := false;
    }

    method ChildrenFit(net: Network, aggregate: Ref, own: Ref) returns (r: bool)
      requires IsSet(own)
      ensures r == Rules.ChildrenAccept(State(), net, aggregate, own)
    {
      var children := set p | p in prefixes && prefixes[p].parent == own;
      while children != {}
        invariant forall p :: p in prefixes && prefixes[p].parent == own && p !in children ==>
                    StrictSubnetOf(prefixes[p].net, net) && prefixes[p].aggregate == aggregate
        invariant forall p :: p in children ==> p in prefixes && prefixes[p].parent == own
        decreases |children|
      {
        var child: nat :| child in children;
        children := children - {child};
        if !StrictSubnetOf(prefixes[child].net, net) || prefixes[child].aggregate != aggregate { return false; }
      }
      r := true;
    }

    /** The aggregate, the neighbours in it and the row's own children all allow the network. */
    method PlaceFits(net: Network, aggregate: Ref, own: Ref) returns (r: bool)
      ensures r == (Rules.AggregateAccepts(State(), net, aggregate) && Rules.SiblingsAccept(State(), net, aggregate, own)
                    && Rules.ChildrenAccept(State(), net, aggregate, own))
    {
      if IsSet(aggregate) {
        if aggregate.value !in aggregates || !Holds(aggregates[aggregate.value], net) { return false; }
      }
      var duplicates := set p | p in prefixes && own != Some(p) && prefixes[p].aggregate == aggregate && prefixes[p].net == net;
      assert duplicates == {} <==> Rules.SiblingsAccept(State(), net, aggregate, own) by {
        if !Rules.SiblingsAccept(State(), net, aggregate, own) {
          var p :| p in prefixes && own != Some(p) && prefixes[p].aggregate == aggregate && prefixes[p].net == net;
          assert p in duplicates;
        }
      }
      if duplicates != {} { return false; }
      r := true;
      if IsSet(own) { r := ChildrenFit(net, aggregate, own); }
    }

    /** validate_prefix. */
    method ValidatePrefix(cidr: Text, aggregate: Ref, parent: Ref, own: Ref) returns (r: Outcome<Rules.Placement>)
      ensures r == Rules.ValidatePrefix(State(), cidr, aggregate, parent, own)
    {
      if cidr.Words? { return Refused(409); }
      var net := Mask(cidr.cidr);
      var effective := aggregate;
      if IsSet(parent) {
        if parent.value !in prefixes || !StrictSubnetOf(net, prefixes[parent.value].net) { return Refused(409); }
        if aggregate.None? { effective := prefixes[parent.value].aggregate; }
        if prefixes[parent.value].aggregate != effective { return Refused(409); }
        var circular := WalksInCircles(parent.value, if IsSet(own) then {own.value} else {});
        if circular { return Refused(409); }
      }
      var fits := PlaceFits(net, effective, own);
      r := if fits then Done(Rules.Placement(net, effective)) else Refused(409);
    }

    // -------------------------------------------------------------- aggregates

    method CreateAggregate(id: nat, name: Text, prefix: Text, notes: string) returns (status: nat)
      modifies this
      ensures Promises.Answers(old(State()), Rules.CreateAggregate(old(State()), id, name, prefix, notes), status, State())
      ensures Invariant(old(State())) && id != 0 && id !in old(aggregates) ==> Invariant(State()) && Safety.KeepsOccupied(old(State()), State())
      ensures status == 200 ==> id in aggregates && AggregateHolds(aggregates[id], Mask(prefix.cidr))
      ensures status == 200 <==> prefix.Block?
      ensures status == 200 ==> State() == old(State()).(aggregates := old(aggregates)[id := Aggregate(name, prefix, notes)])
    {
      hide Invariant, Safety.KeepsOccupied;
      Promises.CreateAggregate(State(), id, name, prefix, notes);
      if prefix.Words? { return 400; }
      aggregates := aggregates[id := Aggregate(name, prefix, notes)];
      status := 200;
    }

    /** The text covers every prefix of the aggregate. */
    method ChildrenHold(id: nat, prefix: Text) returns (hold: bool)
      ensures hold <==> forall p :: p in prefixes && prefixes[p].aggregate == Some(id) ==>
                          AggregateHolds(Aggregate(Rules.BLANK, prefix, ""), prefixes[p].net)
    {
      var children := set p | p in prefixes && prefixes[p].aggregate == Some(id);
      while children != {}
        invariant forall p :: p in children ==> p in prefixes && prefixes[p].aggregate == Some(id)
        invariant forall p :: p in prefixes && prefixes[p].aggregate == Some(id) && p !in children ==>
                    AggregateHolds(Aggregate(Rules.BLANK, prefix, ""), prefixes[p].net)
        decreases |children|
      {
        var child: nat :| child in children;
        children := children - {child};
        if !Holds(Aggregate(Rules.BLANK, prefix, ""), prefixes[child].net) { return false; }
      }
      hold := true;
    }

    method UpdateAggregate(id: nat, name: Field<Text>, prefix: Field<Text>, notes: Field<string>) returns (status: nat)
      modifies this
      ensures Promises.Answers(old(State()), Rules.UpdateAggregate(old(State()), id, name, prefix, notes), status, State())
      ensures Invariant(old(State())) ==> Safety.KeepsOccupied(old(State()), State())
      ensures Invariant(old(State())) ==>
                (Invariant(State()) <==>
                 status != 200 || prefix.Unset? || Rules.Sent(prefix) || Rules.PrefixesOf(old(State()), id) == {})
      ensures Invariant(old(State())) && status == 200 ==> Effects.AggregateEdited(old(State()), State(), id, name, prefix, notes)
    {
      hide Invariant, Safety.KeepsOccupied, Promises.Answers, Rules.UpdateAggregate, Rules.Sent, Rules.PrefixesOf, Effects.AggregateEdited;
      Promises.UpdateAggregate(State(), id, name, prefix, notes);
      status := EditAggregate(id, name, prefix, notes);
    }

    /** The children are looked at first, even for an aggregate that is not there. */
    method EditAggregate(id: nat, name: Field<Text>, prefix: Field<Text>, notes: Field<string>) returns (status: nat)
      modifies this
      ensures Promises.Answers(old(State()), Rules.UpdateAggregate(old(State()), id, name, prefix, notes), status, State())
    {
      if Rules.Sent(prefix) {
        var hold := ChildrenHold(id, prefix.value);
        if !hold { return 409; }
      }
      if id !in aggregates { return 404; }
      if Rules.Sent(prefix) && prefix.value.Words? { return 400; }
      var a := aggregates[id];
      aggregates := aggregates[id := Aggregate(Rules.FieldOr(name, a.name, Rules.BLANK),
                                               Rules.FieldOr(prefix, a.prefix, Rules.BLANK),
                                               Rules.FieldOr(notes, a.notes, ""))];
      status := 200;
    }

    method OccupiedIn(gone: set<nat>) returns (r: bool)
      ensures r == Rules.Occupied(State(), gone)
    {
      r := exists i :: i in ips && ips[i].prefix in gone && ips[i].vm.Some?;
    }

    /** Delete the addresses of each prefix in turn. */
    method DropAddressesOf(gone: set<nat>)
      modifies this`ips
      ensures ips == map i | i in old(ips) && old(ips)[i].prefix !in gone :: old(ips)[i]
    {
      ghost var before := ips;
      var todo := gone;
      while todo != {}
        invariant todo <= gone
        invariant forall i :: i in ips <==> i in before && before[i].prefix !in gone - todo
        invariant forall i :: i in ips ==> ips[i] == before[i]
        decreases |todo|
      {
        var p: nat :| p in todo;
        todo := todo - {p};
        ips := map i | i in ips && ips[i].prefix != p :: ips[i];
      }
    }

    /** Delete prefixes and everything registered in them. */
    method DropPrefixes(gone: set<nat>)
      modifies this
      ensures State() == Rules.WithoutPrefixes(old(State()), gone)
    {
      DropAddressesOf(gone);
      prefixes := map p | p in prefixes && p !in gone :: prefixes[p];
    }

    method DeleteAggregate(id: nat) returns (status: nat)
      modifies this
      ensures Promises.Answers(old(State()), Rules.DeleteAggregate(old(State()), id), status, State())
      ensures Invariant(old(State())) ==> Invariant(State()) && Safety.KeepsOccupied(old(State()), State())
      ensures status == 200 ==> Rules.PrefixesOf(State(), id) == {}
      ensures status == 200 <==> Effects.AggregateFree(old(State()), id)
      ensures status == 200 ==> Effects.AggregateDeleted(old(State()), State(), id)
    {
      hide Invariant, Safety.KeepsOccupied, Rules.Occupied, Effects.AggregateFree, Effects.AggregateDeleted;
      Promises.DeleteAggregate(State(), id);
      if id !in aggregates { return 404; }
      var gone := set p | p in prefixes && prefixes[p].aggregate == Some(id);
      assert gone == Rules.PrefixesOf(State(), id);
      if exists p :: p in gone && p in bindings { return 409; }
      var occupied := OccupiedIn(gone);
      if occupied { return 409; }
      DropPrefixes(gone);
      aggregates := map a | a in aggregates && a != id :: aggregates[a];
      status := 200;
    }

    // -------------------------------------------------------------- prefixes

    /** Check, then insert or update; the database refuses dangling keys at commit. */
    method PlacePrefix(id: nat, own: Ref, cidr: Text, aggregate: Ref, parent: Ref, details: PrefixDetails) returns (status: nat)
      modifies this
      ensures Promises.Answers(old(State()), Rules.PlacePrefix(old(State()), id, own, cidr, aggregate, parent, details), status, State())
    {
      var place := ValidatePrefix(cidr, aggregate, parent, own);
      match place
      case Refused(code) => status := code;
      case Done(p) =>
        if (p.aggregate.Some? && p.aggregate.value !in aggregates) || (parent.Some? && parent.value !in prefixes) { return 500; }
        prefixes := prefixes[id := Prefix(p.net, p.aggregate, parent, details)];
        status := 200;
    }

    method CreatePrefix(id: nat, req: Rules.PrefixRequest) returns (status: nat)
      modifies this
      ensures Promises.Answers(old(State()), Rules.CreatePrefix(old(State()), id, req), status, State())
      ensures Invariant(old(State())) && id != 0 && id !in old(prefixes) ==> Invariant(State()) && Safety.KeepsOccupied(old(State()), State())
      ensures Invariant(old(State())) && id != 0 && id !in old(prefixes) ==>
                && (status == 200 <==> Effects.MayCreate(old(State()), id, req))
                && (status == 200 ==> Effects.PrefixCreated(old(State()), State(), id, req))
    {
      hide Invariant, Safety.KeepsOccupied, Effects.MayCreate, Effects.PrefixCreated;
      Promises.CreatePrefix(State(), id, req);
      if req.prefix.Words? { return 400; }
      var aggregate := req.aggregate;
      if IsSet(req.parent) {
        if req.parent.value !in prefixes { return 400; }
        if !IsSet(aggregate) { aggregate := prefixes[req.parent.value].aggregate; }
      }
      status := PlacePrefix(id, None, req.prefix, aggregate, if IsSet(req.parent) then req.parent else None,
                            req.details.(status := Rules.ValidStatus(req.details.status)));
    }

    method UpdatePrefix(id: nat, u: Rules.PrefixUpdate) returns (status: nat)
      modifies this
      ensures Promises.Answers(old(State()), Rules.UpdatePrefix(old(State()), id, u), status, State())
      ensures Invariant(old(State())) ==> Invariant(State()) && Safety.KeepsOccupied(old(State()), State())
      ensures Invariant(old(State())) ==>
                && (status == 200 <==> Effects.MayEdit(old(State()), id, u))
                && (status == 200 ==> Effects.PrefixEdited(old(State()), State(), id, u))
    {
      hide Invariant, Safety.KeepsOccupied, Effects.MayEdit, Effects.PrefixEdited;
      Promises.UpdatePrefix(State(), id, u);
      if u.prefix.Value? && id in bindings {
        if id in prefixes && u.prefix.value != Block(prefixes[id].net) { return 409; }
      }
      if id !in prefixes { return 404; }
      var p := prefixes[id];
      if !u.prefix.Unset? && u.prefix != Value(Block(p.net)) && exists i :: i in ips && ips[i].prefix == id { return 409; }
      if Rules.Sent(u.prefix) && u.prefix.value.Words? { return 400; }
      var aggregate := u.aggregate;
      if Rules.Names(u.parent) {
        if u.parent.value !in prefixes || u.parent.value == id { return 400; }
        if !Rules.Names(aggregate) { aggregate := Rules.FieldOfRef(prefixes[u.parent.value].aggregate); }
      }
      var details := Rules.FieldOr(u.details, p.details, p.details);
      if u.prefix.Unset? && u.parent.Unset? && aggregate.Unset? {
        prefixes := prefixes[id := p.(details := details)];
        return 200;
      }
      status := PlacePrefix(id, Some(id), Rules.FieldOr(u.prefix, Block(p.net), Rules.BLANK),
                            Rules.RefField(aggregate, p.aggregate), Rules.RefField(u.parent, p.parent), details);
    }

    method DeletePrefix(id: nat) returns (status: nat)
      modifies this
      ensures Promises.Answers(old(State()), Rules.DeletePrefix(old(State()), id), status, State())
      ensures Invariant(old(State())) ==> Invariant(State()) && Safety.KeepsOccupied(old(State()), State())
      ensures status == 200 <==> Effects.PrefixFree(old(State()), id)
      ensures status == 200 ==> Effects.PrefixDeleted(old(State()), State(), id)
    {
      hide Invariant, Safety.KeepsOccupied, Effects.PrefixFree, Effects.PrefixDeleted;
      Promises.DeletePrefix(State(), id);
      if id in bindings { return 409; }
      if exists p :: p in prefixes && prefixes[p].parent == Some(id) { return 409; }
      var occupied := OccupiedIn({id});
      if occupied { return 409; }
      if id !in prefixes { return 404; }
      DropPrefixes({id});
      status := 200;
    }

    // -------------------------------------------------------------- addresses

    predicate KeysHold(r: IpRecord)
      reads this
      ensures KeysHold(r) == IpKeysHold(State(), r)
    {
      r.prefix in prefixes && (r.device.Some? ==> r.device.value in devices) && (r.vm.Some? ==> r.vm.value in vms)
    }

    method CreateIp(id: nat, req: Rules.IpRequest) returns (status: nat)
      modifies this
      ensures Promises.Answers(old(State()), Rules.CreateIp(old(State()), id, req), status, State())
      ensures Invariant(old(State())) && id != 0 && id !in old(ips) ==> Invariant(State()) && Safety.KeepsOccupied(old(State()), State())
      ensures status == 200 ==> Promises.Registers(State(), id)
      ensures status == 200 <==> Effects.MayCreateIp(old(State()), req)
      ensures status == 200 ==> Effects.IpCreated(old(State()), State(), id, req)
    {
      hide Invariant, Safety.KeepsOccupied, Promises.Registers, Effects.MayCreateIp, Effects.IpCreated;
      Promises.CreateIp(State(), id, req);
      if req.prefix !in prefixes { return 400; }
      if req.address.None? || !Contains(prefixes[req.prefix].net, req.address.value) { return 400; }
      if exists i :: i in ips && ips[i].prefix == req.prefix && ips[i].address == req.address.value {
        assert Rules.Registered(State(), req.prefix, req.address.value);
        return 409;
      }
      assert !Rules.Registered(State(), req.prefix, req.address.value);
      var allocation := Rules.ValidAllocation(req.allocation);
      var device := if allocation == DHCP then None else if IsSet(req.device) then req.device else None;
      var row := IpRecord(req.prefix, req.address.value, Rules.ValidStatus(req.status), allocation, device, None,
                          req.deviceName, req.description);
      if !KeysHold(row) { return 500; }
      ips := ips[id := row];
      status := 200;
    }

    method UpdateIp(id: nat, u: Rules.IpUpdate) returns (status: nat)
      modifies this
      ensures Promises.Answers(old(State()), Rules.UpdateIp(old(State()), id, u), status, State())
      ensures Invariant(old(State())) ==> Invariant(State()) && Safety.KeepsOccupied(old(State()), State())
      ensures status == 200 ==> Promises.Registers(State(), id)
      ensures status == 200 ==> Effects.IpEdited(old(State()), State(), id, u)
    {
      hide Invariant, Safety.KeepsOccupied, Promises.Registers, Effects.IpEdited;
      Promises.UpdateIp(State(), id, u);
      if id !in ips { return 404; }
      var r := ips[id];
      if IsSet(r.vm) { return 409; }
      var target := Rules.FieldOr(u.prefix, r.prefix, 0);
      if target == 0 || target !in prefixes { return 400; }
      var address := Rules.FieldOr(u.address, Some(r.address), None);
      if address.None? || !Contains(prefixes[target].net, address.value) { return 400; }
      var others := set i | i in ips && ips[i].prefix == target;
      while others != {}
        invariant forall i :: i in others ==> i in ips && ips[i].prefix == target
        invariant forall i :: i in ips && i != id && ips[i].prefix == target && i !in others ==> ips[i].address != address.value
        decreases |others|
      {
        var other: nat :| other in others;
        others := others - {other};
        if other != id && ips[other].address == address.value { return 409; }
      }
      if Rules.Names(u.device) && u.device.value !in devices { return 400; }
      var row := IpRecord(target, address.value, Rules.FieldOr(u.status, r.status, ""),
                          Rules.UpdatedAllocation(u, r.allocation), Rules.UpdatedDevice(u, r.device), r.vm,
                          Rules.FieldOr(u.deviceName, r.deviceName, ""), Rules.FieldOr(u.description, r.description, ""));
      if !KeysHold(row) { return 500; }
      ips := ips[id := row];
      status := 200;
    }

    method DeleteIp(id: nat) returns (status: nat)
      modifies this
      ensures Promises.Answers(old(State()), Rules.DeleteIp(old(State()), id), status, State())
      ensures Invariant(old(State())) ==> Invariant(State()) && Safety.KeepsOccupied(old(State()), State())
      ensures status == 200 <==> id in old(ips) && !IsSet(old(ips)[id].vm)
      ensures status == 200 ==> Effects.IpDeleted(old(State()), State(), id)
    {
      hide Invariant, Safety.KeepsOccupied, Effects.IpDeleted;
      Promises.DeleteIp(State(), id);
      if id !in ips { return 404; }
      if IsSet(ips[id].vm) { return 409; }
      ips := map i | i in ips && i != id :: ips[i];
      status := 200;
    }

    /** generate_ips: one planned record for every usable host that has none. */
    method GenerateIps(prefix: nat, keys: seq<nat>) returns (status: nat, created: nat, skipped: nat)
      requires prefix in prefixes ==> |keys| == Rules.HostCount(prefixes[prefix].net)
      requires Safety.FreshKeys(keys, ips.Keys)
      modifies this
      ensures Promises.Answers(old(State()), Rules.Generate(old(State()), prefix, keys), status, State())
      ensures status == 200 ==> created + skipped == |keys| && |ips| == |old(ips)| + created
      ensures Invariant(old(State())) ==> Invariant(State()) && Safety.KeepsOccupied(old(State()), State())
      ensures Invariant(old(State())) ==>
                && (status == 200 <==> prefix in old(prefixes) && |keys| <= 4096)
                && (status == 200 ==> Effects.OnlyBareAdded(old(State()), State(), prefix))
    {
      hide Invariant, Safety.KeepsOccupied, Effects.OnlyBareAdded;
      Promises.GenerateIps(State(), prefix, keys);
      created, skipped := 0, 0;
      if prefix !in prefixes { return 404, 0, 0; }
      if Rules.HostCount(prefixes[prefix].net) > Rules.MAX_BULK_IPS { return 400, 0, 0; }
      created, skipped := RecordHosts(prefix, keys);
      status := 200;
    }

    /** Every host in turn, unless the prefix already has it. */
    method RecordHosts(prefix: nat, keys: seq<nat>) returns (created: nat, skipped: nat)
      requires prefix in prefixes && |keys| == Rules.HostCount(prefixes[prefix].net) && Safety.FreshKeys(keys, ips.Keys)
      modifies this`ips
      ensures State() == old(State()).(ips := Rules.Generated(old(State()), prefix, keys, |keys|))
      ensures created + skipped == |keys| && |ips| == |old(ips)| + created
    {
      created, skipped := 0, 0;
      var net := prefixes[prefix].net;
      var existing := set i | i in ips && ips[i].prefix == prefix :: ips[i].address;
      ghost var before := State();
      var k := 0;
      while k < |keys|
        invariant k <= |keys| && created + skipped == k
        invariant State() == before.(ips := Rules.Generated(before, prefix, keys, k))
        invariant forall i :: i in ips ==> i in before.ips || i in keys[..k]
        invariant |ips| == |before.ips| + created
      {
        var host := Rules.Host(net, k);
        assert host in existing <==> Rules.Registered(before, prefix, host);
        if host in existing {
          skipped := skipped + 1;
        } else {
          assert keys[k] in keys && keys[k] !in keys[..k];
          ips := ips[keys[k] := Rules.PlannedRecord(prefix, host)];
          created := created + 1;
        }
        k := k + 1;
      }
    }

    // -------------------------------------------------------------- devices

    /** One device's addresses: an address another device already holds becomes ambiguous. */
    method ClaimHoldings(id: nat, holdings: seq<Addr>, owners0: map<Addr, nat>, ambiguous0: set<Addr>)
      returns (owners: map<Addr, nat>, ambiguous: set<Addr>)
      requires id !in owners0.Values
      ensures forall a :: a in owners <==> a in owners0 || a in holdings
      ensures forall a :: a in owners ==> owners[a] == if a in owners0 then owners0[a] else id
      ensures forall a :: a in ambiguous <==> a in ambiguous0 || (a in owners0 && a in holdings)
    {
      owners, ambiguous := owners0, ambiguous0;
      var k := 0;
      while k < |holdings|
        invariant k <= |holdings|
        invariant forall a :: a in owners <==> a in owners0 || a in holdings[..k]
        invariant forall a :: a in owners ==> owners[a] == if a in owners0 then owners0[a] else id
        invariant forall a :: a in ambiguous <==> a in ambiguous0 || (a in owners0 && a in holdings[..k])
      {
        var a := holdings[k];
        assert holdings[..k + 1] == holdings[..k] + [a];
        assert a in owners0 ==> owners0[a] in owners0.Values;
        if a in owners && owners[a] != id { ambiguous := ambiguous + {a}; } else { owners := owners[a := id]; }
        k := k + 1;
      }
      assert holdings[..k] == holdings;
    }

    /** build_ip_to_device_map: an address maps to the one device that holds it. */
    method BuildIpToDeviceMap() returns (owners: map<Addr, nat>)
      ensures forall a :: a in owners <==> Rules.UniquelyHeld(State(), a)
      ensures forall a :: a in owners ==> owners[a] in devices && a in Rules.Holdings(devices[owners[a]])
    {
      owners := map[];
      var ambiguous: set<Addr> := {};
      var todo := devices.Keys;
      while todo != {}
        invariant todo <= devices.Keys
        invariant forall a, d :: d in devices && d !in todo && a in Rules.Holdings(devices[d]) ==> a in owners
        invariant forall a :: a in owners ==> owners[a] in devices && owners[a] !in todo && a in Rules.Holdings(devices[owners[a]])
        invariant forall a, d :: d in devices && d !in todo && a in Rules.Holdings(devices[d]) && d != owners[a] ==> a in ambiguous
        invariant forall a :: a in ambiguous ==>
                    a in owners && exists d :: d in devices && d !in todo && d != owners[a] && a in Rules.Holdings(devices[d])
        decreases |todo|
      {
        var id: nat :| id in todo;
        todo := todo - {id};
        owners, ambiguous := ClaimHoldings(id, Rules.Holdings(devices[id]), owners, ambiguous);
      }
      owners := owners - ambiguous;
    }

    /** The first prefix, in the order the query returns them, that holds the address. */
    method ContainingPrefix(order: seq<nat>, address: Addr) returns (home: Ref)
      ensures home == Rules.FirstHolding(State(), order, address)
    {
      var k := 0;
      while k < |order|
        invariant k <= |order|
        invariant Rules.FirstHolding(State(), order, address) == Rules.FirstHolding(State(), order[k..], address)
      {
        if order[k] in prefixes && Contains(prefixes[order[k]].net, address) { return Some(order[k]); }
        k := k + 1;
      }
      home := None;
    }

    /** sync_device_auto_links, its IPAM half. */
    method SyncDeviceAutoLinks(device: nat, keys: seq<nat>, order: seq<nat>, name: string)
      requires device in devices && |keys| == |devices[device].extras|
      modifies this
      ensures State() == Rules.SyncAutoLinks(old(State()), device, keys, order, name)
      ensures Invariant(old(State())) && Safety.FreshKeys(keys, old(ips).Keys) ==>
                Invariant(State()) && Safety.KeepsOccupied(old(State()), State())
      ensures Safety.FreshKeys(keys, old(ips).Keys) ==>
                exists kept ::
                  && Effects.GivenUp(old(State()), kept, device, old(devices)[device].extras)
                  && Effects.ExtrasHeld(kept, State(), device, old(devices)[device].extras, order, name, |keys|)
    {
      hide Invariant, Safety.KeepsOccupied, Safety.FreshKeys, Effects.GivenUp, Effects.ExtrasHeld;
      Relink(device, keys, order, name);
      if Safety.FreshKeys(keys, old(ips).Keys) {
        ghost var kept := Effects.DeviceIsLinked(old(State()), device, keys, order, name);
      }
      if Invariant(old(State())) && Safety.FreshKeys(keys, old(ips).Keys) {
        Safety.SyncAutoLinksSafe(old(State()), device, keys, order, name);
      }
    }

    /** Drop the automatic records of addresses the device gave up, then record the ones it has. */
    method Relink(device: nat, keys: seq<nat>, order: seq<nat>, name: string)
      requires device in devices && |keys| == |devices[device].extras|
      modifies this
      ensures State() == Rules.SyncAutoLinks(old(State()), device, keys, order, name)
    {
      hide Rules.LinkExtra;
      ghost var t := State();
      var extras := devices[device].extras;
      DropStaleLinks(device, extras);
      ghost var kept := State();
      assert kept == t.(ips := map i | i in t.ips && !(Rules.AutoRecord(t.ips[i], device) && t.ips[i].address !in extras) :: t.ips[i]);
      var k := 0;
      while k < |extras|
        invariant k <= |extras|
        invariant State() == Rules.LinkExtras(kept, device, extras, keys, order, name, k)
      {
        LinkExtra(device, extras[k], keys[k], order, name);
        k := k + 1;
      }
    }

    method DropStaleLinks(device: nat, extras: seq<Addr>)
      modifies this`ips
      ensures ips == map i | i in old(ips) && !(Rules.AutoRecord(old(ips)[i], device) && old(ips)[i].address !in extras) :: old(ips)[i]
    {
      ips := map i | i in ips && !(ips[i].device == Some(device) && AUTO_MARKER <= ips[i].description && ips[i].address !in extras) :: ips[i];
    }

    /** Record one further address of a device, unless its prefix already has it. */
    method LinkExtra(device: nat, address: Addr, key: nat, order: seq<nat>, name: string)
      modifies this
      ensures State() == Rules.LinkExtra(old(State()), device, address, key, order, name)
    {
      var home := ContainingPrefix(order, address);
      if home.None? { return; }
      if exists i :: i in ips && ips[i].prefix == home.value && ips[i].address == address {
        assert Rules.Registered(State(), home.value, address);
        return;
      }
      assert !Rules.Registered(State(), home.value, address);
      ips := ips[key := IpRecord(home.value, address, IN_USE, STATIC, Some(device), None, name, AUTO_MARKER)];
    }

    method DeleteDevice(id: nat) returns (status: nat)
      modifies this
      ensures Promises.Answers(old(State()), Rules.DeleteDevice(old(State()), id), status, State())
      ensures Invariant(old(State())) ==> Invariant(State()) && Safety.KeepsOccupied(old(State()), State())
      ensures status == 200 ==> Promises.Forgets(State(), id)
      ensures status == 200 <==> id in old(devices)
      ensures status == 200 ==> Effects.DeviceDeleted(old(State()), State(), id)
    {
      hide Invariant, Safety.KeepsOccupied, Promises.Forgets, Effects.DeviceDeleted;
      Promises.DeleteDevice(State(), id);
      if id !in devices { return 404; }
      DropDevice(id);
      status := 200;
    }

    /** Automatic records go with the device, the others lose it. */
    method DropDevice(id: nat)
      requires id in devices
      modifies this
      ensures Promises.Answers(old(State()), Rules.DeleteDevice(old(State()), id), 200, State())
    {
      ips := map i | i in ips && !(ips[i].device == Some(id) && AUTO_MARKER <= ips[i].description) :: ips[i];
      ips := map i | i in ips :: Rules.Unlinked(ips[i], id);
      devices := map d | d in devices && d != id :: devices[d];
    }

    // -------------------------------------------------------------- virtual machines

    method DeleteVms(ids: set<nat>) returns (status: nat)
      modifies this
      ensures Promises.Answers(old(State()), Rules.DeleteVms(old(State()), ids), status, State())
      ensures Invariant(old(State())) ==> Invariant(State()) && Safety.KeepsOccupied(old(State()), State())
      ensures status == 200 ==> Promises.Frees(State(), ids)
      ensures status == 200 ==> Effects.VmsDeleted(old(State()), State(), ids)
    {
      hide Invariant, Safety.KeepsOccupied, Promises.Frees, Effects.VmsDeleted;
      Promises.DeleteVms(State(), ids);
      if exists i :: i in ips && ips[i].vm.Some? && ips[i].vm.value in ids { return 409; }
      if !(ids <= vms.Keys) { return 409; }
      vms := map v | v in vms && v !in ids :: vms[v];
      status := 200;
    }

    /** allocate: occupy an address for a machine, or release it. */
    method Allocate(id: nat, vm: nat, prefix: nat, address: Option<Addr>, release: bool) returns (status: nat)
      modifies this
      ensures Promises.Answers(old(State()), Rules.Allocate(old(State()), id, vm, prefix, address, release), status, State())
      ensures Invariant(old(State())) && id != 0 && id !in old(ips) ==>
                && Invariant(State()) && (!release ==> Safety.KeepsOccupied(old(State()), State()))
                && (status == 200 <==> Allocation.MayAllocate(old(State()), vm, prefix, address, release))
                && (status == 200 ==> Allocation.Takes(old(State()), State(), vm, prefix, address, release))
    {
      hide Invariant, Safety.KeepsOccupied, Promises.Answers, Rules.Allocate, Allocation.MayAllocate, Allocation.Takes;
      Promises.Allocate(State(), id, vm, prefix, address, release);
      status := Assign(id, vm, prefix, address, release);
    }

    /** The two checks every call starts with, then the release or the occupation. */
    method Assign(id: nat, vm: nat, prefix: nat, address: Option<Addr>, release: bool) returns (status: nat)
      modifies this
      ensures Promises.Answers(old(State()), Rules.Allocate(old(State()), id, vm, prefix, address, release), status, State())
    {
      if vm !in vms || prefix !in prefixes { return 404; }
      if address.None? || !Contains(prefixes[prefix].net, address.value) { return 400; }
      var a := address.value;
      var local := set i | i in ips && ips[i].prefix == prefix && ips[i].address == a;
      assert local == Rules.Local(State(), prefix, a);
      if |local| > 1 { return 409; }
      var row: Ref := None;
      if local != {} {
        var i := Pick(local);
        row := Some(i);
      }
      if release {
        if row.None? || ips[row.value].vm != Some(vm) { return 409; }
        ips := ips[row.value := ips[row.value].(vm := None, status := PLANNED)];
        return 200;
      }
      status := Occupy(id, vm, prefix, a, row);
    }

    method Occupy(id: nat, vm: nat, prefix: nat, a: Addr, row: Ref) returns (status: nat)
      requires vm in vms && prefix in prefixes
      requires var local := Rules.Local(State(), prefix, a);
               |local| <= 1 && row == if local == {} then None else Some(TheOnly(local))
      modifies this
      ensures Promises.Answers(old(State()), Rules.Occupy(old(State()), id, vm, prefix, a), status, State())
      ensures Invariant(old(State())) && id !in old(ips) && Allocation.InPrefix(old(State()), prefix, a) && status == 200 ==>
                && Allocation.MayOccupy(old(State()), vm, prefix, a)
                && exists i :: Allocation.Occupies(old(State()), State(), vm, prefix, a, i)
    {
      hide Invariant, Promises.Answers, Rules.Occupy, Allocation.InPrefix, Allocation.MayOccupy, Allocation.Occupies;
      Promises.Occupy(State(), id, vm, prefix, a);
      status := WriteOccupation(id, vm, prefix, a, row);
    }

    /** The checks of an occupation in order, then the record, new or reused. */
    method WriteOccupation(id: nat, vm: nat, prefix: nat, a: Addr, row: Ref) returns (status: nat)
      requires vm in vms && prefix in prefixes
      requires var local := Rules.Local(State(), prefix, a);
               |local| <= 1 && row == if local == {} then None else Some(TheOnly(local))
      modifies this
      ensures Promises.Answers(old(State()), Rules.Occupy(old(State()), id, vm, prefix, a), status, State())
    {
      assert row.Some? ==> row.value in Rules.Local(State(), prefix, a);
      if a !in vms[vm].addresses { return 409; }
      if Rules.Reserved(prefixes[prefix].net, a) { return 400; }
      if row.Some? && ips[row.value].vm == Some(vm) { return 200; }
      if exists i :: i in ips && row != Some(i) && ips[i].address == a && Rules.Spoken(ips[i]) {
        assert Rules.TakenElsewhere(State(), a, row);
        return 409;
      }
      assert !Rules.TakenElsewhere(State(), a, row);
      if row.Some? && (Rules.Spoken(ips[row.value]) || ips[row.value].deviceName != "" || ips[row.value].allocation == DHCP) { return 409; }
      var owners := BuildIpToDeviceMap();
      if a in owners { return 409; }
      if exists v :: v in vms && v != vm && a in vms[v].addresses {
        assert Rules.OtherVmReports(State(), vm, a);
        return 409;
      }
      assert !Rules.OtherVmReports(State(), vm, a);
      var key := if row.Some? then row.value else id;
      if row.None? { ips := ips[key := IpRecord(prefix, a, "", STATIC, None, None, "", "")]; }
      ips := ips[key := ips[key].(vm := Some(vm), status := IN_USE)];
      assert ips == old(ips)[key := ips[key]];
      status := 200;
    }

    // -------------------------------------------------------------- imports

    /** Find the aggregate a row names, or create it from its CIDR text. */
    method ResolveAggregate(name: Option<Text>, net: Network, key: nat) returns (r: Outcome<Ref>)
      modifies this`aggregates
      ensures Promises.Resolves(old(State()), Rules.ResolveAggregate(old(State()), name, net, key), r, State())
      ensures Invariant(old(State())) && key != 0 && key !in old(aggregates) ==>
                && Invariant(State())
                && (r.Done? && r.value.Some? ==> r.value.value in aggregates && AggregateHolds(aggregates[r.value.value], net))
    {
      hide Invariant, AggregateHolds, Promises.Resolves, Rules.ResolveAggregate;
      Promises.ResolveAggregate(State(), name, net, key);
      r := FindAggregate(name, net, key);
    }

    /** The one aggregate with this name or block; if there is none, a new one for the block. */
    method FindAggregate(name: Option<Text>, net: Network, key: nat) returns (r: Outcome<Ref>)
      modifies this`aggregates
      ensures Promises.Resolves(old(State()), Rules.ResolveAggregate(old(State()), name, net, key), r, State())
    {
      if name.None? { return Done(None); }
      var matches := set a | a in aggregates && (aggregates[a].name == name.value || Canonical(aggregates[a].prefix) == Canonical(name.value));
      assert matches == Rules.NamedAggregates(State(), name.value);
      if matches != {} {
        if |matches| != 1 { return Refused(400); }
        var a := Pick(matches);
        if !Holds(aggregates[a], net) { return Refused(400); }
        return Done(Some(a));
      }
      if name.value.Words? || !SubnetOf(net, Mask(name.value.cidr)) { return Refused(400); }
      aggregates := aggregates[key := Aggregate(Canonical(name.value), Canonical(name.value), Rules.FROM_COLUMN)];
      r := Done(Some(key));
    }

    method Spelling(net: Network, narrowed: bool, aggregate: Ref) returns (matches: set<nat>)
      ensures matches == Rules.Spelling(State(), net, narrowed, aggregate)
    {
      matches := set p | p in prefixes && prefixes[p].net == net && (narrowed ==> prefixes[p].aggregate == aggregate);
    }

    method ImportAggregate(row: Rules.Row, key: nat) returns (r: Outcome<bool>)
      requires row.AggregateRow?
      modifies this
      ensures match Rules.ImportAggregate(old(State()), row, key)
              case Done(x) => r == Done(x.created) && State() == x.tables
              case Refused(_) => r.Refused?
    {
      var existing := set a | a in aggregates && Canonical(aggregates[a].prefix) == Block(row.net);
      if existing != {} { return if |existing| == 1 then Done(false) else Refused(400); }
      aggregates := aggregates[key := Aggregate(row.name, Block(row.net), row.notes)];
      r := Done(true);
    }

    /** The prefix a row names as its parent. */
    method ResolveParent(row: Rules.Row, aggregate: Ref) returns (r: Outcome<nat>)
      requires row.PrefixRow? && row.parent.Some?
      ensures match Rules.ResolveParent(State(), row, aggregate)
              case Done(p) => r == Done(p)
              case Refused(_) => r.Refused?
    {
      if row.parent.value.Words? { return Refused(400); }
      var net := Mask(row.parent.value.cidr);
      if !StrictSubnetOf(row.net, net) { return Refused(400); }
      var candidates := Spelling(net, row.aggregate.Some?, aggregate);
      if |candidates| != 1 { return Refused(400); }
      var parent := Pick(candidates);
      r := Done(parent);
    }

    method FilePrefix(row: Rules.Row, aggregate: Ref, parent: Ref, matches: set<nat>, key: nat) returns (r: Outcome<bool>)
      requires row.PrefixRow? && matches <= prefixes.Keys
      modifies this
      ensures match Rules.FilePrefix(old(State()), row, aggregate, parent, matches, key)
              case Done(x) => r == Done(x.created) && State() == x.tables
              case Refused(_) => r.Refused?
    {
      if matches != {} {
        if |matches| != 1 { return Refused(400); }
        var p := Pick(matches);
        if (row.aggregate.Some? && prefixes[p].aggregate != aggregate) || (row.parent.Some? && prefixes[p].parent != parent) {
          return Refused(400);
        }
        return Done(false);
      }
      var details := PrefixDetails(if row.status == "" then PLANNED else row.status, row.info, row.pool in Rules.YES);
      prefixes := prefixes[key := Prefix(row.net, aggregate, parent, details)];
      r := Done(true);
    }

    method PlaceRow(row: Rules.Row, aggregate: Ref, key: nat) returns (r: Outcome<bool>)
      requires row.PrefixRow?
      modifies this
      ensures match Rules.PlaceRow(old(State()), row, aggregate, key)
              case Done(x) => r == Done(x.created) && State() == x.tables
              case Refused(_) => r.Refused?
    {
      var matches := Spelling(row.net, row.aggregate.Some?, aggregate);
      var owner, parent := aggregate, None;
      if row.parent.Some? {
        var found := ResolveParent(row, aggregate);
        if found.Refused? { return Refused(400); }
        parent := Some(found.value);
        if row.aggregate.None? { owner := prefixes[found.value].aggregate; }
      }
      r := FilePrefix(row, owner, parent, matches, key);
    }

    method ImportPrefix(row: Rules.Row, keys: Rules.Keys) returns (r: Outcome<bool>)
      requires row.PrefixRow?
      modifies this
      ensures match Rules.ImportPrefix(old(State()), row, keys)
              case Done(x) => r == Done(x.created) && State() == x.tables
              case Refused(_) => r.Refused?
    {
      if row.status != "" && row.status !in STATUSES { return Refused(400); }
      var aggregate := ResolveAggregate(row.aggregate, row.net, keys.aggregate);
      if aggregate.Refused? { return Refused(400); }
      r := PlaceRow(row, aggregate.value, keys.prefix);
    }

    method MatchDevice(who: DeviceText) returns (r: Outcome<nat>)
      ensures r.Done? <==> |Rules.MatchingDevices(State(), who)| == 1
      ensures r.Done? ==> r.value == TheOnly(Rules.MatchingDevices(State(), who))
    {
      var matches := set d | d in devices && (devices[d].name == who || devices[d].primary == who);
      assert matches == Rules.MatchingDevices(State(), who);
      if |matches| != 1 { return Refused(400); }
      var d := Pick(matches);
      r := Done(d);
    }

    method HomePrefix(row: Rules.Row, aggregate: Ref, key: nat) returns (r: Outcome<nat>)
      requires row.IpRow?
      modifies this
      ensures match Rules.HomePrefix(old(State()), row, aggregate, key)
              case Done(home) => r == Done(home.prefix) && State() == home.tables
              case Refused(_) => r.Refused?
    {
      var matches := Spelling(row.net, row.aggregate.Some?, aggregate);
      if matches == {} {
        prefixes := prefixes[key := Prefix(row.net, aggregate, None, Rules.BARE)];
        return Done(key);
      }
      if |matches| != 1 { return Refused(400); }
      var p := Pick(matches);
      r := Done(p);
    }

    method FileAddress(row: Rules.Row, prefix: nat, device: Ref, key: nat) returns (r: Outcome<bool>)
      requires row.IpRow? && row.address.Some?
      modifies this
      ensures match Rules.FileAddress(old(State()), row, prefix, device, key)
              case Done(x) => r == Done(x.created) && State() == x.tables
              case Refused(_) => r.Refused?
    {
      var existing := set i | i in ips && ips[i].prefix == prefix && ips[i].address == row.address.value;
      assert existing == Rules.Local(State(), prefix, row.address.value);
      if existing != {} {
        if |existing| != 1 { return Refused(400); }
        var i := Pick(existing);
        return if row.device.Some? && ips[i].device != device then Refused(400) else Done(false);
      }
      var status := if row.status != "" then row.status else if device.Some? then IN_USE else PLANNED;
      ips := ips[key := IpRecord(prefix, row.address.value, status, if row.allocation == "" then STATIC else row.allocation,
                                 device, None, row.deviceName, row.description)];
      r := Done(true);
    }

    method PlaceAddress(row: Rules.Row, aggregate: Ref, keys: Rules.Keys) returns (r: Outcome<bool>)
      requires row.IpRow?
      modifies this
      ensures match Rules.PlaceAddress(old(State()), row, aggregate, keys)
              case Done(x) => r == Done(x.created) && State() == x.tables
              case Refused(_) => r.Refused?
    {
      if row.address.None? || !Contains(row.net, row.address.value) || Rules.Reserved(row.net, row.address.value) { return Refused(400); }
      if row.allocation != "" && row.allocation !in ALLOCATIONS { return Refused(400); }
      var device: Ref := None;
      if row.device.Some? {
        if row.allocation == DHCP { return Refused(400); }
        var d := MatchDevice(row.device.value);
        if d.Refused? { return Refused(400); }
        device := Some(d.value);
      }
      var home := HomePrefix(row, aggregate, keys.prefix);
      if home.Refused? { return Refused(400); }
      r := FileAddress(row, home.value, device, keys.ip);
    }

    method ImportIp(row: Rules.Row, keys: Rules.Keys) returns (r: Outcome<bool>)
      requires row.IpRow?
      modifies this
      ensures match Rules.ImportIp(old(State()), row, keys)
              case Done(x) => r == Done(x.created) && State() == x.tables
              case Refused(_) => r.Refused?
    {
      if row.status != "" && row.status !in STATUSES { return Refused(400); }
      var aggregate := ResolveAggregate(row.aggregate, row.net, keys.aggregate);
      if aggregate.Refused? { return Refused(400); }
      r := PlaceAddress(row, aggregate.value, keys);
    }

    /** One row; a refused row may leave partial work behind, which the caller rolls back. */
    method ImportRow(row: Rules.Row, keys: Rules.Keys) returns (r: Outcome<bool>)
      modifies this
      ensures match Rules.ImportRow(old(State()), row, keys)
              case Done(x) => r == Done(x.created) && State() == x.tables
              case Refused(_) => r.Refused?
      ensures Invariant(old(State())) && Safety.RowKeysFresh(old(State()), keys) && r.Done? ==>
                && Invariant(State()) && Safety.Extends(old(State()), State(), keys)
                && (row.IpRow? ==> Files.RowDone(old(State()), State(), row, r.value, keys))
    {
      hide Invariant, Safety.Extends, Files.RowDone;
      if Invariant(State()) && Safety.RowKeysFresh(State(), keys) && Rules.ImportRow(State(), row, keys).Done? {
        Safety.ImportRowSafe(State(), row, keys);
        if row.IpRow? { Files.AddressRowIsDone(State(), row, keys); }
      }
      match row
      case AggregateRow(_, _, _) => r := ImportAggregate(row, keys.aggregate);
      case PrefixRow(_, _, _, _, _, _) => r := ImportPrefix(row, keys);
      case IpRow(_, _, _, _, _, _, _, _) => r := ImportIp(row, keys);
    }

    /** The rows in turn. Errors are counted to the end of the file, then everything is rolled back. */
    method ImportPending(pending: seq<Rules.Row>, keys: seq<Rules.Keys>) returns (r: Outcome<(nat, nat)>)
      requires |pending| == |keys|
      modifies this
      ensures Promises.Tallies(old(State()), Rules.ImportRows(old(State()), pending, keys, |pending|), r, State())
    {
      hide Rules.ImportRow;
      var aggregates0, prefixes0, ips0, vms0 := aggregates, prefixes, ips, vms;
      var devices0, sources0, bindings0 := devices, sources, bindings;
      ghost var before := State();
      var created, skipped, errors := 0, 0, 0;
      var n := 0;
      while n < |pending|
        invariant n <= |pending|
        invariant errors == 0 ==> Rules.ImportRows(before, pending, keys, n) == Done(Rules.Tally(State(), created, skipped))
        invariant errors > 0 ==> Rules.ImportRows(before, pending, keys, n).Refused?
      {
        var one := ImportRow(pending[n], keys[n]);
        match one {
          case Refused(_) => errors := errors + 1;
          case Done(true) => created := created + 1;
          case Done(false) => skipped := skipped + 1;
        }
        n := n + 1;
      }
      if errors > 0 {
        aggregates, prefixes, ips, vms := aggregates0, prefixes0, ips0, vms0;
        devices, sources, bindings := devices0, sources0, bindings0;
        return Refused(400);
      }
      r := Done((created, skipped));
    }

    /** run_import: all rows or none. */
    method RunImport(rows: seq<Rules.Row>, keys: seq<Rules.Keys>) returns (r: Outcome<(nat, nat)>)
      requires |rows| == |keys|
      modifies this
      ensures Promises.Tallies(old(State()), Rules.RunImport(old(State()), rows, keys), r, State())
      ensures Invariant(old(State())) && Safety.ImportKeysFresh(old(State()), keys) ==>
                && Invariant(State()) && Safety.KeepsOccupied(old(State()), State())
                && (r.Done? && Files.AddressFile(rows) ==> Promises.Filed(old(State()), State(), rows, r.value.0, r.value.1))
    {
      hide Invariant, Safety.KeepsOccupied, Safety.ImportKeysFresh, Promises.Filed, Files.AddressFile;
      Promises.RunImport(State(), rows, keys);
      if |rows| > Rules.MAX_ROWS || !Rules.Complete(rows) { return Refused(400); }
      r := ImportPending(Rules.Ordered(rows), keys);
    }

    // -------------------------------------------------------------- DHCP

    predicate LinkedTo(id: nat)
      reads this
      ensures LinkedTo(id) == Rules.Linked(State(), id)
    {
      exists p :: p in bindings && bindings[p] == id
    }

    /** The reasons to turn a save down, in order; 200 when there is none. */
    method CheckSource(id: nat, req: Rules.SourceRequest, isNew: bool) returns (status: nat)
      ensures status != 200 ==> Rules.SaveSource(State(), id, req, isNew) == Refused(status)
      ensures status == 200 ==>
                && (!isNew ==> id in sources)
                && Rules.SaveSource(State(), id, req, isNew) ==
                   Done(State().(sources := sources[id := Rules.Rewritten(State(), id, req, isNew)]))
    {
      hide Rules.Rewritten, Rules.Linked;
      if exists s :: s in sources && (isNew || s != id) && Rules.Target(sources[s].identity) == Rules.Target(req.identity) { return 409; }
      if !isNew {
        if id !in sources { return 404; }
        if sources[id].identity != req.identity && LinkedTo(id) { return 409; }
      }
      if !req.credentialsOk { return 422; }
      status := 200;
    }

    method SaveSource(id: nat, req: Rules.SourceRequest, isNew: bool) returns (status: nat)
      modifies this
      ensures Promises.Answers(old(State()), Rules.SaveSource(old(State()), id, req, isNew), status, State())
      ensures Invariant(old(State())) && id != 0 && (isNew ==> id !in old(sources)) ==>
                Invariant(State()) && Safety.KeepsOccupied(old(State()), State())
      ensures !isNew && status == 200 ==> Promises.Moves(old(State()), State(), id)
      ensures (isNew ==> id !in old(sources)) && status == 200 ==> Effects.SourceSaved(old(State()), State(), id, req)
    {
      hide Invariant, Safety.KeepsOccupied, Promises.Moves, Rules.Rewritten, Rules.Linked, Rules.SaveSource, Effects.SourceSaved;
      Promises.SaveSource(State(), id, req, isNew);
      status := CheckSource(id, req, isNew);
      if status != 200 { return; }
      var updated := Rewrite(id, req, isNew);
      sources := sources[id := updated];
    }

    /** The text to store, made from the stored one where the identity stays. */
    method Rewrite(id: nat, req: Rules.SourceRequest, isNew: bool) returns (updated: Source)
      requires !isNew ==> id in sources
      ensures updated == Rules.Rewritten(State(), id, req, isNew)
      ensures !isNew && SourceOk(sources[id]) ==> SourceOk(updated)
    {
      updated := Source(req.identity, req.settings, req.title, None, "", 0);
      if !isNew && sources[id].identity == req.identity {
        var previous := sources[id];
        updated := previous.(settings := req.settings, title := req.title);
        if updated.snapshot.Some? {
          var warning := updated.snapshot.value.percent >= req.settings.threshold as real;
          updated := updated.(snapshot := Some(updated.snapshot.value.(warning := warning)));
        }
      }
    }

    method DeleteSource(id: nat) returns (status: nat)
      modifies this
      ensures Promises.Answers(old(State()), Rules.DeleteSource(old(State()), id), status, State())
      ensures Invariant(old(State())) ==> Invariant(State()) && Safety.KeepsOccupied(old(State()), State())
      ensures status == 200 ==> id !in sources && !Rules.Linked(State(), id)
      ensures status == 200 <==> id in old(sources) && forall p :: p in old(bindings) ==> old(bindings)[p] != id
      ensures status == 200 ==> Effects.SourceDeleted(old(State()), State(), id)
    {
      hide Invariant, Safety.KeepsOccupied, Effects.SourceDeleted;
      Promises.DeleteSource(State(), id);
      if id !in sources { return 404; }
      if LinkedTo(id) { return 409; }
      sources := map s | s in sources && s != id :: sources[s];
      status := 200;
    }

    method BindPrefix(prefix: nat, source: Ref) returns (status: nat)
      modifies this
      ensures Promises.Answers(old(State()), Rules.BindPrefix(old(State()), prefix, source), status, State())
      ensures Invariant(old(State())) ==> Invariant(State()) && Safety.KeepsOccupied(old(State()), State())
      ensures Invariant(old(State())) && status == 200 ==> Promises.Bound(State(), prefix, source)
      ensures status == 200 <==> Effects.MayBind(old(State()), prefix, source)
      ensures status == 200 ==> Effects.SourceBound(old(State()), State(), prefix, source)
    {
      hide Invariant, Safety.KeepsOccupied, Promises.Bound, Effects.MayBind, Effects.SourceBound;
      Promises.BindPrefix(State(), prefix, source);
      if prefix !in prefixes { return 404; }
      if source.None? {
        bindings := map p | p in bindings && p != prefix :: bindings[p];
        return 200;
      }
      if source.value !in sources { return 404; }
      var config := sources[source.value];
      if config.settings.mode != DHCP || config.snapshot.None? || config.error != "" { return 409; }
      if config.snapshot.value.net != prefixes[prefix].net { return 409; }
      bindings := bindings[prefix := source.value];
      status := 200;
    }

    /** What sync_source makes of the collector's reply. */
    method Digest(before: Source, now: int, reply: Dhcp.Reply) returns (config: Source)
      ensures config == Dhcp.Collected(before, now, reply)
      ensures SourceOk(before) ==> SourceOk(config)
      ensures Dhcp.Reflects(before, now, reply, config)
    {
      config := before.(lastAttempt := now);
      if reply.Failed? { return config.(error := reply.error); }
      var net := Mask(reply.cidr);
      if net.version != V4 || net.value != config.identity.scope { return config.(error := "服务器返回的作用域网络地址不匹配"); }
      if !Contains(net, reply.start) || !Contains(net, reply.end) || reply.start.value > reply.end.value {
        return config.(error := "服务器返回的地址池范围无效");
      }
      var warning := reply.percent >= config.settings.threshold as real;
      config := config.(snapshot := Some(Snapshot(net, reply.start, reply.end, reply.percent, warning)), error := "");
    }

    /** After collecting: is the source still the one the sync started from? */
    method CheckSync(s: Dhcp.Sync) returns (passes: bool)
      requires s.HasCollected?
      ensures passes == Dhcp.Passes(State(), s)
      ensures passes && Invariant(State()) && Dhcp.SyncOk(s) ==>
                Invariant(Dhcp.Commit(State(), Dhcp.HasChecked(s.source, s.before, s.original, s.updated)))
    {
      hide Invariant, Dhcp.Commit;
      if Dhcp.Passes(State(), s) && Invariant(State()) && Dhcp.SyncOk(s) {
        Dhcp.CommitSafe(State(), Dhcp.HasChecked(s.source, s.before, s.original, s.updated));
      }
      if s.source !in sources { return false; }
      var current := sources[s.source];
      passes := current.identity == s.before.identity && current.settings == s.before.settings;
    }

    /** The end of sync_source: replace the stored source if it is still the one read under the lock. */
    method CommitSync(s: Dhcp.Sync) returns (replaced: bool)
      requires s.HasChecked?
      modifies this
      ensures State() == Dhcp.Commit(old(State()), s)
      ensures replaced <==> Dhcp.MayReplace(old(State()), s)
      ensures Invariant(old(State())) && Dhcp.SyncOk(s) && Dhcp.Guarded(old(State()), s) ==> Invariant(State())
      ensures State() == old(State()).(sources := sources)
      ensures sources.Keys == old(sources).Keys && forall k :: k in sources && k != s.source ==> sources[k] == old(sources)[k]
    {
      hide Invariant, Dhcp.SyncOk, Dhcp.Guarded;
      if Invariant(State()) && Dhcp.SyncOk(s) && Dhcp.Guarded(State(), s) { Dhcp.CommitSafe(State(), s); }
      replaced := s.source in sources && sources[s.source] == s.original;
      if replaced { sources := sources[s.source := s.updated]; }
    }
  }
}
