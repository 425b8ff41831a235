/** DHCP sources and bindings: what their endpoints and a running sync keep. */
module DhcpSafety {
  import opened Collections
  import opened Addressing
  import opened IpamTables
  import opened IpamRules

  /** Only the DHCP settings change. */
  lemma DhcpChanged(t: Tables, after: Tables)
    requires Invariant(t)
    requires after == t.(sources := after.sources, bindings := after.bindings)
    requires 0 !in after.sources && DhcpConsistent(after)
    ensures Invariant(after)
  {
    forall id | id in after.prefixes ensures PrefixRelationOk(after, id) && PrefixKeysHold(after, after.prefixes[id]) {
      assert PrefixRelationOk(t, id) && PrefixKeysHold(t, t.prefixes[id]);
    }
    forall i, j | i in after.prefixes && j in after.prefixes && i != j
      ensures !SamePlace(after.prefixes[i], after.prefixes[j]) { assert !SamePlace(t.prefixes[i], t.prefixes[j]); }
    forall i | i in after.ips ensures IpRelationOk(after, i) && IpKeysHold(after, after.ips[i]) && OccupiedOk(after, i) {
      assert IpRelationOk(t, i) && IpKeysHold(t, t.ips[i]) && OccupiedOk(t, i);
    }
  }

  /** Writing a consistent source; one that prefixes are bound to keeps its scope. */
  lemma WriteSource(t: Tables, id: nat, s: Source)
    requires Invariant(t) && id != 0 && SourceOk(s)
    requires Linked(t, id) ==> id in t.sources && s.identity.scope == t.sources[id].identity.scope
    ensures Invariant(t.(sources := t.sources[id := s]))
  {
    var after := t.(sources := t.sources[id := s]);
    forall b | b in after.bindings ensures BindingOk(after, b) { assert BindingOk(t, b); }
    DhcpChanged(t, after);
  }

  lemma SaveSourceSafe(t: Tables, id: nat, req: SourceRequest, isNew: bool)
    requires Invariant(t) && id != 0 && (isNew ==> id !in t.sources)
    requires SaveSource(t, id, req, isNew).Done?
    ensures Invariant(SaveSource(t, id, req, isNew).value)
  {
    if Linked(t, id) {
      var b :| b in t.bindings && t.bindings[b] == id;
      assert BindingOk(t, b);
    }
    if !isNew { assert SourceOk(t.sources[id]); }
    WriteSource(t, id, SaveSource(t, id, req, isNew).value.sources[id]);
  }

  lemma DeleteSourceSafe(t: Tables, id: nat)
    requires Invariant(t) && DeleteSource(t, id).Done?
    ensures Invariant(DeleteSource(t, id).value)
  {
    var after := DeleteSource(t, id).value;
    forall b | b in after.bindings ensures BindingOk(after, b) { assert BindingOk(t, b) && t.bindings[b] != id; }
    DhcpChanged(t, after);
  }

  lemma BindPrefixSafe(t: Tables, prefix: nat, source: Ref)
    requires Invariant(t) && BindPrefix(t, prefix, source).Done?
    ensures Invariant(BindPrefix(t, prefix, source).value)
  {
    var after := BindPrefix(t, prefix, source).value;
    forall b | b in after.bindings ensures BindingOk(after, b) {
      if b in t.bindings { assert BindingOk(t, b); }
      if b == prefix { assert SourceOk(t.sources[source.value]); }
    }
    DhcpChanged(t, after);
  }

  // ---------------------------------------------------------------- a running sync

  /** What the collector brings back. */
  datatype Reply =
    | Failed(error: string)
    | Replied(cidr: Cidr, start: Addr, end: Addr, percent: real)

  /**
    A sync in flight. It reads the source, takes the process lock and reads the stored text again,
    asks the server, compares the settings with the ones it started from, and then tries to replace
    the stored text.
    */
  datatype Sync =
    | HasRead(source: nat, before: Source)
    | HasReread(source: nat, before: Source, original: Source)
    | HasCollected(source: nat, before: Source, original: Source, updated: Source)
    | HasChecked(source: nat, before: Source, original: Source, updated: Source)

  function Collected(before: Source, now: int, reply: Reply): Source {
    var attempted := before.(lastAttempt := now);
    match reply
    case Failed(error) => attempted.(error := error)
    case Replied(cidr, start, end, percent) =>
      var net := Mask(cidr);
      if net.version != V4 || net.value != before.identity.scope
      then attempted.(error := "服务器返回的作用域网络地址不匹配")
      else if !Contains(net, start) || !Contains(net, end) || start.value > end.value
      then attempted.(error := "服务器返回的地址池范围无效")
      else attempted.(error := "",
                      snapshot := Some(Snapshot(net, start, end, percent, percent >= before.settings.threshold as real)))
  }

  /** The reply's network is IPv4 at the scope, and its range lies in it in order. */
  predicate Acceptable(before: Source, reply: Reply) {
    && reply.Replied?
    && Mask(reply.cidr).version == V4 && Mask(reply.cidr).value == before.identity.scope
    && Contains(Mask(reply.cidr), reply.start) && Contains(Mask(reply.cidr), reply.end)
    && reply.start.value <= reply.end.value
  }

  /**
    What the source text says of a reply: an acceptable one is its snapshot, with the warning the threshold
    asks for and no error; any other leaves the snapshot of before and is recorded as the error.
    */
  predicate Reflects(before: Source, now: int, reply: Reply, text: Source) {
    && text.identity == before.identity && text.settings == before.settings && text.title == before.title
    && text.lastAttempt == now
    && if Acceptable(before, reply) then
         && text.error == ""
         && text.snapshot.Some?
         && text.snapshot.value.net == Mask(reply.cidr) && text.snapshot.value.percent == reply.percent
         && text.snapshot.value.start == reply.start && text.snapshot.value.end == reply.end
         && (text.snapshot.value.warning <==> reply.percent >= before.settings.threshold as real)
       else
         && text.snapshot == before.snapshot
         && if reply.Failed? then text.error == reply.error else text.error != ""
  }

  lemma CollectedReflects(before: Source, now: int, reply: Reply)
    ensures Reflects(before, now, reply, Collected(before, now, reply))
  {
    hide Mask, Contains;
  }

  lemma CollectedOk(before: Source, now: int, reply: Reply)
    requires SourceOk(before)
    ensures SourceOk(Collected(before, now, reply))
    ensures Collected(before, now, reply).identity == before.identity
    ensures Collected(before, now, reply).settings == before.settings
  {
  }

  /** The comparison after collecting: identity and compared settings are the ones the sync started from. */
  predicate Passes(t: Tables, s: Sync)
    requires s.HasCollected?
  {
    && s.source in t.sources
    && t.sources[s.source].identity == s.before.identity
    && t.sources[s.source].settings == s.before.settings
  }

  /** The compare-and-swap: the stored text is the one read under the lock. */
  predicate MayReplace(t: Tables, s: Sync)
    requires s.HasChecked?
  {
    s.source in t.sources && t.sources[s.source] == s.original
  }

  function Commit(t: Tables, s: Sync): Tables
    requires s.HasChecked?
  {
    if MayReplace(t, s) then t.(sources := t.sources[s.source := s.updated]) else t
  }

  /** A sync in flight holds only consistent values. */
  ghost predicate SyncOk(s: Sync) {
    && SourceOk(s.before)
    && (s.HasCollected? || s.HasChecked? ==>
          SourceOk(s.updated) && s.updated.identity == s.before.identity && s.updated.settings == s.before.settings)
  }

  /**
    What stays true from the comparison to the swap: should the source have turned to another identity
    meanwhile, it has no snapshot and no prefix is bound to it.
    */
  ghost predicate Guarded(t: Tables, s: Sync) {
    s.source in t.sources && t.sources[s.source].identity != s.before.identity ==>
      t.sources[s.source].snapshot.None? && !Linked(t, s.source)
  }

  lemma CommitSafe(t: Tables, s: Sync)
    requires Invariant(t) && s.HasChecked? && SyncOk(s) && Guarded(t, s)
    ensures Invariant(Commit(t, s))
  {
    if MayReplace(t, s) {
      assert 0 !in t.sources;
      WriteSource(t, s.source, s.updated);
    }
  }

  /** An identity changes only while nothing is bound, and the change drops the snapshot that binding asks for. */
  lemma SaveSourceKeepsGuard(t: Tables, s: Sync, id: nat, req: SourceRequest, isNew: bool)
    requires Invariant(t) && Guarded(t, s) && (isNew ==> id !in t.sources) && SaveSource(t, id, req, isNew).Done?
    ensures Guarded(SaveSource(t, id, req, isNew).value, s)
  {
    var after := SaveSource(t, id, req, isNew).value;
    if id == s.source && isNew {
      forall b | b in t.bindings ensures t.bindings[b] != id { assert BindingOk(t, b); }
    }
    assert Linked(after, s.source) <==> Linked(t, s.source);
  }

  lemma DeleteSourceKeepsGuard(t: Tables, s: Sync, id: nat)
    requires Guarded(t, s) && DeleteSource(t, id).Done?
    ensures Guarded(DeleteSource(t, id).value, s)
  {
  }

  lemma BindKeepsGuard(t: Tables, s: Sync, prefix: nat, source: Ref)
    requires Guarded(t, s) && BindPrefix(t, prefix, source).Done?
    ensures Guarded(BindPrefix(t, prefix, source).value, s)
  {
    var after := BindPrefix(t, prefix, source).value;
    if Linked(after, s.source) && !Linked(t, s.source) {
      assert source == Some(s.source);
    }
  }

  /** Other calls touch neither sources nor bindings. */
  lemma SameDhcpKeepsGuard(t: Tables, after: Tables, s: Sync)
    requires Guarded(t, s) && after.sources == t.sources && after.bindings == t.bindings
    ensures Guarded(after, s)
  {
  }
}
