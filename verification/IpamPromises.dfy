/** What one call of each endpoint promises about the tables it leaves. */
module IpamPromises {
  import opened Collections
  import opened Addressing
  import opened IpamTables
  import Rules = IpamRules
  import opened IpamSafety
  import opened DhcpSafety
  import opened IpamRuns
  import opened IpamAllocation
  import Files = IpamAddressFiles
  import Effects = IpamEffects

  /** An endpoint did what the rule decided: the new tables, or the refusal and the old tables. */
  ghost predicate Answers(before: Tables, decided: Outcome<Tables>, status: nat, after: Tables) {
    match decided
    case Done(t) => status == 200 && after == t
    case Refused(code) => status == code && after == before
  }

  /** The audit stays empty, with everything else the service keeps, and no record that carries a machine changes. */
  ghost predicate Keeps(t: Tables, after: Tables) {
    Invariant(after) && KeepsOccupied(t, after)
  }

  lemma CallKeeps(t: Tables, op: Op, status: nat, after: Tables)
    requires Invariant(t) && KeysFresh(t, op) && !Blanks(t, op) && !(op.OpAllocate? && op.release)
    requires Answers(t, Apply(t, op), status, after)
    ensures Keeps(t, after)
  {
    hide Invariant, KeepsOccupied, KeysFresh, Apply, Blanks;
    CallSafe(t, op);
    KeepsItself(t);
  }

  lemma KeepsItself(t: Tables)
    ensures KeepsOccupied(t, t)
  {
  }

  // ---------------------------------------------------------------- what single calls mean

  /** The record lies in its prefix, whose other records have other addresses. */
  ghost predicate Registers(t: Tables, id: nat) {
    && id in t.ips
    && t.ips[id].prefix in t.prefixes && Contains(t.prefixes[t.ips[id].prefix].net, t.ips[id].address)
    && forall i :: i in t.ips && i != id && t.ips[i].prefix == t.ips[id].prefix ==> t.ips[i].address != t.ips[id].address
  }

  /** The device is gone and no record names it. */
  ghost predicate Forgets(t: Tables, device: nat) {
    device !in t.devices && forall i :: i in t.ips ==> t.ips[i].device != Some(device)
  }

  /** These machines are gone and no record carries one of them. */
  ghost predicate Frees(t: Tables, ids: set<nat>) {
    t.vms.Keys !! ids && forall i :: i in t.ips && t.ips[i].vm.Some? ==> t.ips[i].vm.value !in ids
  }

  /** A source that takes another identity has no snapshot and no prefix bound to it. */
  ghost predicate Moves(t: Tables, after: Tables, id: nat) {
    && id in after.sources
    && (id in t.sources && after.sources[id].identity != t.sources[id].identity ==>
          after.sources[id].snapshot.None? && !Rules.Linked(after, id))
  }

  /** The prefix is bound to the source, which has its network address as scope; or, without a source, to none. */
  ghost predicate Bound(t: Tables, prefix: nat, source: Ref) {
    if source.None? then prefix !in t.bindings
    else prefix in t.bindings && t.bindings[prefix] == source.value && BindingOk(t, prefix)
  }

  // ---------------------------------------------------------------- the endpoints

  lemma CreateAggregate(t: Tables, id: nat, name: Text, prefix: Text, notes: string)
    ensures forall status, after :: Answers(t, Rules.CreateAggregate(t, id, name, prefix, notes), status, after) ==>
              && (Invariant(t) && id != 0 && id !in t.aggregates ==> Keeps(t, after))
              && (status == 200 <==> prefix.Block?)
              && (status == 200 ==> after == t.(aggregates := t.aggregates[id := Aggregate(name, prefix, notes)]))
              && (status == 200 ==> AggregateHolds(Aggregate(name, prefix, notes), Mask(prefix.cidr)))
  {
    forall status, after | Answers(t, Rules.CreateAggregate(t, id, name, prefix, notes), status, after)
      ensures
              && (Invariant(t) && id != 0 && id !in t.aggregates ==> Keeps(t, after))
              && (status == 200 <==> prefix.Block?)
              && (status == 200 ==> after == t.(aggregates := t.aggregates[id := Aggregate(name, prefix, notes)]))
              && (status == 200 ==> AggregateHolds(Aggregate(name, prefix, notes), Mask(prefix.cidr)))
    {
      if Invariant(t) && id != 0 && id !in t.aggregates {
        assert Keeps(t, after) by {
          hide Invariant, Keeps, Answers, Rules.CreateAggregate;
          CallKeeps(t, OpCreateAggregate(id, name, prefix, notes), status, after);
        }
      }
    }
  }

  lemma DeleteAggregate(t: Tables, id: nat)
    ensures forall status, after :: Answers(t, Rules.DeleteAggregate(t, id), status, after) ==>
              && (Invariant(t) ==> Keeps(t, after))
              && (status == 200 <==> Effects.AggregateFree(t, id))
              && (status == 200 ==> Effects.AggregateDeleted(t, after, id))
              && (status == 200 ==> Rules.PrefixesOf(after, id) == {})
  {
    Effects.AggregateIsDeleted(t, id);
    forall status, after | Answers(t, Rules.DeleteAggregate(t, id), status, after)
      ensures
              && (Invariant(t) ==> Keeps(t, after))
              && (status == 200 <==> Effects.AggregateFree(t, id))
              && (status == 200 ==> Effects.AggregateDeleted(t, after, id))
              && (status == 200 ==> Rules.PrefixesOf(after, id) == {})
    {
      if Invariant(t) {
        assert Keeps(t, after) by {
          hide Invariant, Keeps, Answers, Rules.DeleteAggregate;
          CallKeeps(t, OpDeleteAggregate(id), status, after);
        }
      }
      if status == 200 { assert forall p :: p in after.prefixes ==> !Effects.IsIn(t, p, id); }
    }
  }

  lemma CreatePrefix(t: Tables, id: nat, req: Rules.PrefixRequest)
    ensures forall status, after :: Answers(t, Rules.CreatePrefix(t, id, req), status, after) ==>
              && (Invariant(t) && id != 0 && id !in t.prefixes ==> Keeps(t, after))
              && (Invariant(t) && id != 0 && id !in t.prefixes ==> (status == 200 <==> Effects.MayCreate(t, id, req)))
              && (Invariant(t) && id != 0 && id !in t.prefixes && status == 200 ==> Effects.PrefixCreated(t, after, id, req))
  {
    if Invariant(t) && id != 0 && id !in t.prefixes { Effects.CreationIsExact(t, id, req); }
    forall status, after | Answers(t, Rules.CreatePrefix(t, id, req), status, after)
      ensures
              && (Invariant(t) && id != 0 && id !in t.prefixes ==> Keeps(t, after))
              && (Invariant(t) && id != 0 && id !in t.prefixes ==> (status == 200 <==> Effects.MayCreate(t, id, req)))
              && (Invariant(t) && id != 0 && id !in t.prefixes && status == 200 ==> Effects.PrefixCreated(t, after, id, req))
    {
      if Invariant(t) && id != 0 && id !in t.prefixes {
        assert Keeps(t, after) by {
          hide Invariant, Keeps, Answers, Rules.CreatePrefix;
          CallKeeps(t, OpCreatePrefix(id, req), status, after);
        }
      }
    }
  }

  lemma UpdatePrefix(t: Tables, id: nat, u: Rules.PrefixUpdate)
    ensures forall status, after :: Answers(t, Rules.UpdatePrefix(t, id, u), status, after) ==>
              && (Invariant(t) ==> Keeps(t, after))
              && (Invariant(t) ==> (status == 200 <==> Effects.MayEdit(t, id, u)))
              && (Invariant(t) && status == 200 ==> Effects.PrefixEdited(t, after, id, u))
  {
    if Invariant(t) { Effects.EditIsExact(t, id, u); }
    forall status, after | Answers(t, Rules.UpdatePrefix(t, id, u), status, after)
      ensures
              && (Invariant(t) ==> Keeps(t, after))
              && (Invariant(t) ==> (status == 200 <==> Effects.MayEdit(t, id, u)))
              && (Invariant(t) && status == 200 ==> Effects.PrefixEdited(t, after, id, u))
    {
      if Invariant(t) {
        assert Keeps(t, after) by {
          hide Invariant, Keeps, Answers, Rules.UpdatePrefix;
          CallKeeps(t, OpUpdatePrefix(id, u), status, after);
        }
      }
    }
  }

  lemma DeletePrefix(t: Tables, id: nat)
    ensures forall status, after :: Answers(t, Rules.DeletePrefix(t, id), status, after) ==>
              && (Invariant(t) ==> Keeps(t, after))
              && (status == 200 <==> Effects.PrefixFree(t, id))
              && (status == 200 ==> Effects.PrefixDeleted(t, after, id))
  {
    Effects.PrefixIsDeleted(t, id);
    forall status, after | Answers(t, Rules.DeletePrefix(t, id), status, after)
      ensures
              && (Invariant(t) ==> Keeps(t, after))
              && (status == 200 <==> Effects.PrefixFree(t, id))
              && (status == 200 ==> Effects.PrefixDeleted(t, after, id))
    {
      if Invariant(t) {
        assert Keeps(t, after) by {
          hide Invariant, Keeps, Answers, Rules.DeletePrefix;
          CallKeeps(t, OpDeletePrefix(id), status, after);
        }
      }
    }
  }

  lemma CreateIp(t: Tables, id: nat, req: Rules.IpRequest)
    ensures forall status, after :: Answers(t, Rules.CreateIp(t, id, req), status, after) ==>
              && (Invariant(t) && id != 0 && id !in t.ips ==> Keeps(t, after))
              && (status == 200 <==> Effects.MayCreateIp(t, req))
              && (status == 200 ==> Effects.IpCreated(t, after, id, req))
              && (status == 200 ==> Registers(after, id))
  {
    Effects.IpIsCreated(t, id, req);
    forall status, after | Answers(t, Rules.CreateIp(t, id, req), status, after)
      ensures
              && (Invariant(t) && id != 0 && id !in t.ips ==> Keeps(t, after))
              && (status == 200 <==> Effects.MayCreateIp(t, req))
              && (status == 200 ==> Effects.IpCreated(t, after, id, req))
              && (status == 200 ==> Registers(after, id))
    {
      if Invariant(t) && id != 0 && id !in t.ips {
        assert Keeps(t, after) by {
          hide Invariant, Keeps, Answers, Rules.CreateIp;
          CallKeeps(t, OpCreateIp(id, req), status, after);
        }
      }
      if status == 200 { CreateIpMeans(t, id, req, status, after); }
    }
  }

  lemma UpdateIp(t: Tables, id: nat, u: Rules.IpUpdate)
    ensures forall status, after :: Answers(t, Rules.UpdateIp(t, id, u), status, after) ==>
              && (Invariant(t) ==> Keeps(t, after))
              && (status == 200 ==> Effects.IpEdited(t, after, id, u))
              && (status == 200 ==> Registers(after, id))
  {
    Effects.IpIsEdited(t, id, u);
    forall status, after | Answers(t, Rules.UpdateIp(t, id, u), status, after)
      ensures
              && (Invariant(t) ==> Keeps(t, after))
              && (status == 200 ==> Effects.IpEdited(t, after, id, u))
              && (status == 200 ==> Registers(after, id))
    {
      if Invariant(t) {
        assert Keeps(t, after) by {
          hide Invariant, Keeps, Answers, Rules.UpdateIp;
          CallKeeps(t, OpUpdateIp(id, u), status, after);
        }
      }
      if status == 200 { UpdateIpMeans(t, id, u, status, after); }
    }
  }

  lemma DeleteIp(t: Tables, id: nat)
    ensures forall status, after :: Answers(t, Rules.DeleteIp(t, id), status, after) ==>
              && (Invariant(t) ==> Keeps(t, after))
              && (status == 200 <==> id in t.ips && !IsSet(t.ips[id].vm))
              && (status == 200 ==> Effects.IpDeleted(t, after, id))
  {
    Effects.IpIsDeleted(t, id);
    forall status, after | Answers(t, Rules.DeleteIp(t, id), status, after)
      ensures
              && (Invariant(t) ==> Keeps(t, after))
              && (status == 200 <==> id in t.ips && !IsSet(t.ips[id].vm))
              && (status == 200 ==> Effects.IpDeleted(t, after, id))
    {
      if Invariant(t) {
        assert Keeps(t, after) by {
          hide Invariant, Keeps, Answers, Rules.DeleteIp;
          CallKeeps(t, OpDeleteIp(id), status, after);
        }
      }
    }
  }

  lemma DeleteDevice(t: Tables, id: nat)
    ensures forall status, after :: Answers(t, Rules.DeleteDevice(t, id), status, after) ==>
              && (Invariant(t) ==> Keeps(t, after))
              && (status == 200 <==> id in t.devices)
              && (status == 200 ==> Effects.DeviceDeleted(t, after, id))
              && (status == 200 ==> Forgets(after, id))
  {
    Effects.DeviceIsDeleted(t, id);
    forall status, after | Answers(t, Rules.DeleteDevice(t, id), status, after)
      ensures
              && (Invariant(t) ==> Keeps(t, after))
              && (status == 200 <==> id in t.devices)
              && (status == 200 ==> Effects.DeviceDeleted(t, after, id))
              && (status == 200 ==> Forgets(after, id))
    {
      if Invariant(t) {
        assert Keeps(t, after) by {
          hide Invariant, Keeps, Answers, Rules.DeleteDevice;
          CallKeeps(t, OpDeleteDevice(id), status, after);
        }
      }
    }
  }

  lemma DeleteVms(t: Tables, ids: set<nat>)
    ensures forall status, after :: Answers(t, Rules.DeleteVms(t, ids), status, after) ==>
              && (Invariant(t) ==> Keeps(t, after))
              && (status == 200 ==> Effects.VmsDeleted(t, after, ids))
              && (status == 200 ==> Frees(after, ids))
  {
    Effects.VmsAreDeleted(t, ids);
    forall status, after | Answers(t, Rules.DeleteVms(t, ids), status, after)
      ensures
              && (Invariant(t) ==> Keeps(t, after))
              && (status == 200 ==> Effects.VmsDeleted(t, after, ids))
              && (status == 200 ==> Frees(after, ids))
    {
      if Invariant(t) {
        assert Keeps(t, after) by {
          hide Invariant, Keeps, Answers, Rules.DeleteVms;
          CallKeeps(t, OpDeleteVms(ids), status, after);
        }
      }
    }
  }

  lemma SaveSource(t: Tables, id: nat, req: Rules.SourceRequest, isNew: bool)
    ensures forall status, after :: Answers(t, Rules.SaveSource(t, id, req, isNew), status, after) ==>
              && (Invariant(t) && id != 0 && (isNew ==> id !in t.sources) ==> Keeps(t, after))
              && ((isNew ==> id !in t.sources) && status == 200 ==> Effects.SourceSaved(t, after, id, req))
              && (!isNew && status == 200 ==> Moves(t, after, id))
  {
    if isNew ==> id !in t.sources { Effects.SourceIsSaved(t, id, req, isNew); }
    forall status, after | Answers(t, Rules.SaveSource(t, id, req, isNew), status, after)
      ensures
              && (Invariant(t) && id != 0 && (isNew ==> id !in t.sources) ==> Keeps(t, after))
              && ((isNew ==> id !in t.sources) && status == 200 ==> Effects.SourceSaved(t, after, id, req))
              && (!isNew && status == 200 ==> Moves(t, after, id))
    {
      if Invariant(t) && id != 0 && (isNew ==> id !in t.sources) {
        assert Keeps(t, after) by {
          hide Invariant, Keeps, Answers, Rules.SaveSource;
          CallKeeps(t, OpSaveSource(id, req, isNew), status, after);
        }
      }
      if !isNew && status == 200 { SaveSourceMeans(t, id, req, isNew, status, after); }
    }
  }

  lemma DeleteSource(t: Tables, id: nat)
    ensures forall status, after :: Answers(t, Rules.DeleteSource(t, id), status, after) ==>
              && (Invariant(t) ==> Keeps(t, after))
              && (status == 200 <==> id in t.sources && forall p :: p in t.bindings ==> t.bindings[p] != id)
              && (status == 200 ==> Effects.SourceDeleted(t, after, id))
              && (status == 200 ==> !Rules.Linked(after, id))
  {
    Effects.SourceIsDeleted(t, id);
    forall status, after | Answers(t, Rules.DeleteSource(t, id), status, after)
      ensures
              && (Invariant(t) ==> Keeps(t, after))
              && (status == 200 <==> id in t.sources && forall p :: p in t.bindings ==> t.bindings[p] != id)
              && (status == 200 ==> Effects.SourceDeleted(t, after, id))
              && (status == 200 ==> !Rules.Linked(after, id))
    {
      if Invariant(t) {
        assert Keeps(t, after) by {
          hide Invariant, Keeps, Answers, Rules.DeleteSource;
          CallKeeps(t, OpDeleteSource(id), status, after);
        }
      }
    }
  }

  lemma BindPrefix(t: Tables, prefix: nat, source: Ref)
    ensures forall status, after :: Answers(t, Rules.BindPrefix(t, prefix, source), status, after) ==>
              && (Invariant(t) ==> Keeps(t, after))
              && (status == 200 <==> Effects.MayBind(t, prefix, source))
              && (status == 200 ==> Effects.SourceBound(t, after, prefix, source))
              && (Invariant(t) && status == 200 ==> Bound(after, prefix, source))
  {
    Effects.SourceIsBound(t, prefix, source);
    forall status, after | Answers(t, Rules.BindPrefix(t, prefix, source), status, after)
      ensures
              && (Invariant(t) ==> Keeps(t, after))
              && (status == 200 <==> Effects.MayBind(t, prefix, source))
              && (status == 200 ==> Effects.SourceBound(t, after, prefix, source))
              && (Invariant(t) && status == 200 ==> Bound(after, prefix, source))
    {
      if Invariant(t) {
        assert Keeps(t, after) by {
          hide Invariant, Keeps, Answers, Rules.BindPrefix;
          CallKeeps(t, OpBind(prefix, source), status, after);
        }
      }
      if Invariant(t) && status == 200 { BindPrefixMeans(t, prefix, source, status, after); }
    }
  }

  lemma UpdateIpMeans(t: Tables, id: nat, u: Rules.IpUpdate, status: nat, after: Tables)
    requires status == 200 && Answers(t, Rules.UpdateIp(t, id, u), status, after)
    ensures Registers(after, id)
  {
  }

  lemma CreateIpMeans(t: Tables, id: nat, req: Rules.IpRequest, status: nat, after: Tables)
    requires status == 200 && Answers(t, Rules.CreateIp(t, id, req), status, after)
    ensures Registers(after, id)
  {
  }

  lemma SaveSourceMeans(t: Tables, id: nat, req: Rules.SourceRequest, isNew: bool, status: nat, after: Tables)
    requires !isNew && status == 200 && Answers(t, Rules.SaveSource(t, id, req, isNew), status, after)
    ensures Moves(t, after, id)
  {
  }

  lemma BindPrefixMeans(t: Tables, prefix: nat, source: Ref, status: nat, after: Tables)
    requires Invariant(t) && status == 200 && Answers(t, Rules.BindPrefix(t, prefix, source), status, after)
    ensures Bound(after, prefix, source)
  {
    if source.Some? { assert SourceOk(t.sources[source.value]); }
  }

  lemma UpdateAggregate(t: Tables, id: nat, name: Field<Text>, prefix: Field<Text>, notes: Field<string>)
    ensures forall status, after :: Answers(t, Rules.UpdateAggregate(t, id, name, prefix, notes), status, after) && Invariant(t) ==>
              && KeepsOccupied(t, after)
              && (status == 200 ==> Effects.AggregateEdited(t, after, id, name, prefix, notes))
              && (Invariant(after) <==> status != 200 || prefix.Unset? || Rules.Sent(prefix) || Rules.PrefixesOf(t, id) == {})
  {
    Effects.AggregateIsEdited(t, id, name, prefix, notes);
    hide Invariant, KeepsOccupied, Effects.AggregateEdited;
    KeepsItself(t);
    if Invariant(t) && Rules.UpdateAggregate(t, id, name, prefix, notes).Done? {
      UpdateAggregateSafe(t, id, name, prefix, notes);
      CallSafe(t, OpUpdateAggregate(id, name, prefix, notes));
    }
  }

  lemma GenerateIps(t: Tables, id: nat, keys: seq<nat>)
    requires FreshKeys(keys, t.ips.Keys) && (id in t.prefixes ==> |keys| == Rules.HostCount(t.prefixes[id].net))
    ensures forall status, after :: Answers(t, Rules.Generate(t, id, keys), status, after) && Invariant(t) ==>
              && Keeps(t, after)
              && (status == 200 <==> id in t.prefixes && |keys| <= 4096)
              && (status == 200 ==> Effects.OnlyBareAdded(t, after, id))
  {
    forall status, after | Answers(t, Rules.Generate(t, id, keys), status, after) && Invariant(t)
      ensures
              && Keeps(t, after)
              && (status == 200 <==> id in t.prefixes && |keys| <= 4096)
              && (status == 200 ==> Effects.OnlyBareAdded(t, after, id))
    {
      if id in t.prefixes { Effects.GeneratedAreBare(t, id, keys); }
      hide Invariant, Keeps, Effects.OnlyBareAdded, Rules.Generated;
      assert Keeps(t, after) by {
        hide Rules.Generate, Answers;
        CallKeeps(t, OpGenerate(id, keys), status, after);
      }
    }
  }

  lemma Allocate(t: Tables, id: nat, vm: nat, prefix: nat, address: Option<Addr>, release: bool)
    ensures forall status, after :: Answers(t, Rules.Allocate(t, id, vm, prefix, address, release), status, after)
                                    && Invariant(t) && id != 0 && id !in t.ips ==>
              && Invariant(after) && (!release ==> KeepsOccupied(t, after))
              && (status == 200 <==> MayAllocate(t, vm, prefix, address, release))
              && (status == 200 ==> Takes(t, after, vm, prefix, address, release))
  {
    hide Invariant, KeepsOccupied, Rules.Allocate, MayAllocate, Takes;
    KeepsItself(t);
    if Invariant(t) && id != 0 && id !in t.ips {
      CallSafe(t, OpAllocate(id, vm, prefix, address, release));
      AllocationTakesHold(t, id, vm, prefix, address, release);
    }
  }

  lemma Occupy(t: Tables, id: nat, vm: nat, prefix: nat, a: Addr)
    requires vm in t.vms && prefix in t.prefixes
    ensures forall status, after :: Answers(t, Rules.Occupy(t, id, vm, prefix, a), status, after)
                                    && Invariant(t) && id !in t.ips && InPrefix(t, prefix, a) && status == 200 ==>
              MayOccupy(t, vm, prefix, a) && exists i :: Occupies(t, after, vm, prefix, a, i)
  {
    if Invariant(t) && id !in t.ips && InPrefix(t, prefix, a) { OccupyTakesHold(t, id, vm, prefix, a); }
    hide Invariant, MayOccupy, Occupies, InPrefix, Rules.TakenElsewhere, Rules.UniquelyHeld, Rules.OtherVmReports, Rules.Reserved, Rules.Spoken;
  }

  // ---------------------------------------------------------------- imports

  /** run_import's answer: the counts and the new tables, or the refusal and the old ones. */
  ghost predicate Tallies(before: Tables, decided: Outcome<Rules.Tally>, r: Outcome<(nat, nat)>, after: Tables) {
    match decided
    case Done(a) => r == Done((a.created, a.skipped)) && after == a.tables
    case Refused(code) => r == Refused(code) && after == before
  }

  lemma RunImport(t: Tables, rows: seq<Rules.Row>, keys: seq<Rules.Keys>)
    requires |rows| == |keys|
    ensures forall r, after :: Tallies(t, Rules.RunImport(t, rows, keys), r, after) && Invariant(t) && ImportKeysFresh(t, keys) ==>
              && Keeps(t, after)
              && (r.Done? && Files.AddressFile(rows) ==> Filed(t, after, rows, r.value.0, r.value.1))
  {
    hide Invariant, KeepsOccupied, Rules.RunImport, ImportKeysFresh, Files.FileDone, Files.HomesSay;
    KeepsItself(t);
    if Invariant(t) && ImportKeysFresh(t, keys) {
      CallSafe(t, OpImport(rows, keys));
      if Files.AddressFile(rows) && Rules.RunImport(t, rows, keys).Done? { Files.AddressFileTakesHold(t, rows, keys); }
    }
  }

  /** What an accepted address file leaves, counts included. */
  ghost predicate Filed(t: Tables, after: Tables, rows: seq<Rules.Row>, created: nat, skipped: nat)
    requires Files.AddressFile(rows)
  {
    Files.FileDone(t, Rules.Tally(after, created, skipped), rows, |rows|) && Files.HomesSay(t, after, rows, |rows|)
  }

  /** resolve_aggregate's answer. */
  ghost predicate Resolves(before: Tables, decided: Outcome<Rules.Resolved>, r: Outcome<Ref>, after: Tables) {
    match decided
    case Done(x) => r == Done(x.aggregate) && after == x.tables
    case Refused(_) => r.Refused? && after == before
  }

  lemma ResolveAggregate(t: Tables, name: Option<Text>, net: Network, key: nat)
    ensures forall r, after :: Resolves(t, Rules.ResolveAggregate(t, name, net, key), r, after)
                               && Invariant(t) && key != 0 && key !in t.aggregates ==>
              && Invariant(after)
              && (r.Done? && r.value.Some? ==> r.value.value in after.aggregates && AggregateHolds(after.aggregates[r.value.value], net))
  {
    hide Invariant, Rules.ResolveAggregate;
    if Invariant(t) && key != 0 && key !in t.aggregates && Rules.ResolveAggregate(t, name, net, key).Done? {
      ResolveAggregateSafe(t, name, net, key);
    }
  }
}
