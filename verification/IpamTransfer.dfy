/** Export and import undo each other. */
module IpamTransfer {
  import opened Collections
  import opened Addressing
  import opened IpamTables
  import opened IpamRules
  import opened IpamSafety
  import Sorting

  // ---------------------------------------------------------------- export

  ghost function ExportAggregate(a: Aggregate): (row: Row)
    requires a.prefix.Block?
    ensures row.AggregateRow?
  {
    AggregateRow(Mask(a.prefix.cidr), a.name, a.notes)
  }

  /** A prefix row names its aggregate by CIDR text and its parent by network. */
  ghost function ExportPrefix(t: Tables, p: nat): (row: Row)
    requires p in t.prefixes && PrefixKeysHold(t, t.prefixes[p])
    ensures row.PrefixRow?
  {
    var x := t.prefixes[p];
    PrefixRow(x.net,
              if x.aggregate.Some? then Some(t.aggregates[x.aggregate.value].prefix) else None,
              if x.parent.Some? then Some(Block(t.prefixes[x.parent.value].net)) else None,
              x.details.status, x.details.info, if x.details.isPool then "是" else "否")
  }

  ghost predicate DistinctAggregates(t: Tables) {
    && (forall a :: a in t.aggregates ==> t.aggregates[a].prefix.Block?)
    && (forall a, b :: a in t.aggregates && b in t.aggregates && a != b ==>
          Canonical(t.aggregates[a].prefix) != Canonical(t.aggregates[b].prefix)
          && t.aggregates[a].name != t.aggregates[b].prefix)
  }

  /** A prefix without aggregate shares its network with no other prefix. */
  ghost predicate LoneNetworks(t: Tables) {
    forall p, q :: p in t.prefixes && q in t.prefixes && p != q && t.prefixes[p].aggregate.None? ==>
      t.prefixes[p].net != t.prefixes[q].net
  }

  ghost predicate LinksResolve(t: Tables) {
    forall p :: p in t.prefixes ==> PrefixKeysHold(t, t.prefixes[p])
  }

  /** What the round trip asks of the inventory. */
  ghost predicate Exportable(t: Tables) {
    && Keyed(t) && LinksResolve(t) && ForestClean(t) && DistinctAggregates(t) && LoneNetworks(t)
    && |t.aggregates| <= MAX_ROWS && |t.prefixes| <= MAX_ROWS
    && (forall a :: a in t.aggregates ==> t.aggregates[a].name != BLANK)
    && (forall p :: p in t.prefixes ==> t.prefixes[p].details.status in STATUSES)
  }

  // ---------------------------------------------------------------- copies up to keys

  /** New keys for old ones, and back. */
  datatype Renaming = Renaming(to: map<nat, nat>, back: map<nat, nat>)

  ghost predicate Inverse(r: Renaming) {
    && (forall x :: x in r.to ==> r.to[x] in r.back && r.back[r.to[x]] == x)
    && (forall y :: y in r.back ==> r.back[y] in r.to && r.to[r.back[y]] == y)
  }

  ghost function Rename(r: Renaming, x: nat, y: nat): Renaming {
    Renaming(r.to[x := y], r.back[y := x])
  }

  lemma RenameStaysInverse(r: Renaming, x: nat, y: nat)
    requires Inverse(r) && x !in r.to && y !in r.back
    ensures Inverse(Rename(r, x, y))
  {
  }

  ghost function MapRef(r: Renaming, key: Ref): Ref
    requires key.Some? ==> key.value in r.to
  {
    if key.Some? then Some(r.to[key.value]) else None
  }

  /** The same aggregate, its text perhaps normalised. */
  ghost predicate SameAggregate(a: Aggregate, b: Aggregate) {
    a.name == b.name && Canonical(a.prefix) == Canonical(b.prefix) && a.notes == b.notes
  }

  /** Aggregates of u are the ones of t in the domain of am, under new keys. */
  ghost predicate CopiesAggregates(t: Tables, u: Tables, am: Renaming) {
    && Inverse(am) && am.back.Keys == u.aggregates.Keys
    && (forall a :: a in am.to ==> a in t.aggregates && SameAggregate(t.aggregates[a], u.aggregates[am.to[a]]))
  }

  ghost predicate LinksInside(p: Prefix, aggregates: set<nat>, prefixes: set<nat>) {
    (p.aggregate.Some? ==> p.aggregate.value in aggregates) && (p.parent.Some? ==> p.parent.value in prefixes)
  }

  ghost function Image(p: Prefix, am: Renaming, pm: Renaming): Prefix
    requires LinksInside(p, am.to.Keys, pm.to.Keys)
  {
    Prefix(p.net, MapRef(am, p.aggregate), MapRef(pm, p.parent), p.details)
  }

  /** Prefixes of u are the ones of t in the domain of pm, with links translated. */
  ghost predicate CopiesPrefixes(t: Tables, u: Tables, am: Renaming, pm: Renaming) {
    Inverse(pm) && pm.back.Keys == u.prefixes.Keys && forall p :: p in pm.to ==> Copied(t, u, am, pm, p)
  }

  ghost predicate Copied(t: Tables, u: Tables, am: Renaming, pm: Renaming, p: nat)
    requires p in pm.to
  {
    && p in t.prefixes && pm.to[p] in u.prefixes
    && LinksInside(t.prefixes[p], am.to.Keys, pm.to.Keys)
    && u.prefixes[pm.to[p]] == Image(t.prefixes[p], am, pm)
  }

  // ---------------------------------------------------------------- a row against a copy

  /** An aggregate column finds exactly the aggregate it was written from. */
  lemma FindsItsAggregate(t: Tables, u: Tables, am: Renaming, a: nat)
    requires DistinctAggregates(t) && CopiesAggregates(t, u, am) && a in am.to
    ensures NamedAggregates(u, t.aggregates[a].prefix) == {am.to[a]}
  {
    var text := t.aggregates[a].prefix;
    forall x | x in NamedAggregates(u, text) ensures x == am.to[a] {
      var b := am.back[x];
      assert SameAggregate(t.aggregates[b], u.aggregates[x]);
    }
    assert SameAggregate(t.aggregates[a], u.aggregates[am.to[a]]);
  }

  lemma ResolvesAggregate(t: Tables, u: Tables, am: Renaming, p: nat, key: nat)
    requires DistinctAggregates(t) && CopiesAggregates(t, u, am)
    requires p in t.prefixes && PrefixKeysHold(t, t.prefixes[p]) && PrefixRelationOk(t, p) && 0 !in t.aggregates
    requires LinksInside(t.prefixes[p], am.to.Keys, t.prefixes.Keys)
    ensures ResolveAggregate(u, ExportPrefix(t, p).aggregate, t.prefixes[p].net, key)
              == Done(Resolved(u, MapRef(am, t.prefixes[p].aggregate)))
  {
    var x := t.prefixes[p];
    if x.aggregate.Some? {
      var a := x.aggregate.value;
      FindsItsAggregate(t, u, am, a);
      var matches := NamedAggregates(u, t.aggregates[a].prefix);
      assert TheOnly(matches) in matches;
      assert SameAggregate(t.aggregates[a], u.aggregates[am.to[a]]);
    }
  }

  /** A network and aggregate column find exactly the copy of their prefix, if it has been copied. */
  lemma FindsItsPrefix(t: Tables, u: Tables, am: Renaming, pm: Renaming, p: nat)
    requires NoDuplicatePrefixes(t) && LoneNetworks(t) && Inverse(am) && CopiesPrefixes(t, u, am, pm)
    requires p in t.prefixes && LinksInside(t.prefixes[p], am.to.Keys, t.prefixes.Keys)
    ensures Spelling(u, t.prefixes[p].net, t.prefixes[p].aggregate.Some?, MapRef(am, t.prefixes[p].aggregate))
              == if p in pm.to then {pm.to[p]} else {}
  {
    var x := t.prefixes[p];
    var found := Spelling(u, x.net, x.aggregate.Some?, MapRef(am, x.aggregate));
    forall k | k in found ensures p in pm.to && k == pm.to[p] {
      var q := pm.back[k];
      assert Copied(t, u, am, pm, q);
      if x.aggregate.Some? { assert SamePlace(x, t.prefixes[q]); }
      assert q == p;
    }
    if p in pm.to { assert Copied(t, u, am, pm, p); }
  }

  /** A parent column finds exactly the copy of the parent. */
  lemma FindsItsParent(t: Tables, u: Tables, am: Renaming, pm: Renaming, p: nat)
    requires NoDuplicatePrefixes(t) && LoneNetworks(t) && Inverse(am) && CopiesPrefixes(t, u, am, pm)
    requires p in t.prefixes && PrefixKeysHold(t, t.prefixes[p]) && PrefixRelationOk(t, p) && 0 !in t.prefixes
    requires LinksInside(t.prefixes[p], am.to.Keys, pm.to.Keys) && t.prefixes[p].parent.Some?
    ensures ResolveParent(u, ExportPrefix(t, p), MapRef(am, t.prefixes[p].aggregate)) == Done(pm.to[t.prefixes[p].parent.value])
    ensures u.prefixes[pm.to[t.prefixes[p].parent.value]].aggregate == MapRef(am, t.prefixes[p].aggregate)
  {
    var q := t.prefixes[p].parent.value;
    FindsItsPrefix(t, u, am, pm, q);
    MaskMeaning(t.prefixes[q].net);
    var candidates := Spelling(u, t.prefixes[q].net, t.prefixes[p].aggregate.Some?, MapRef(am, t.prefixes[p].aggregate));
    assert candidates == {pm.to[q]};
    assert TheOnly(candidates) in candidates;
    assert Copied(t, u, am, pm, q);
  }

  /** What is needed of the source inventory to file one of its rows. */
  ghost predicate RowReady(t: Tables, p: nat) {
    && DistinctAggregates(t) && NoDuplicatePrefixes(t) && LoneNetworks(t) && 0 !in t.aggregates && 0 !in t.prefixes
    && p in t.prefixes && PrefixKeysHold(t, t.prefixes[p]) && PrefixRelationOk(t, p)
    && t.prefixes[p].details.status in STATUSES
  }

  /** What a prefix row does, once it is known what its columns find. */
  lemma RowOutcome(u: Tables, row: Row, k: Keys, aggregate: Ref, parent: Ref, found: set<nat>)
    requires row.PrefixRow? && row.status in STATUSES && (row.aggregate.None? ==> aggregate.None?)
    requires ResolveAggregate(u, row.aggregate, row.net, k.aggregate) == Done(Resolved(u, aggregate))
    requires Spelling(u, row.net, row.aggregate.Some?, aggregate) == found
    requires row.parent.None? ==> parent.None?
    requires row.parent.Some? ==> parent.Some? && ResolveParent(u, row, aggregate) == Done(parent.value)
                                  && u.prefixes[parent.value].aggregate == aggregate
    ensures found == {} ==>
              ImportPrefix(u, row, k) == Done(Imported(u.(prefixes := u.prefixes[k.prefix :=
                Prefix(row.net, aggregate, parent, PrefixDetails(row.status, row.info, row.pool in YES))]), true))
    ensures |found| == 1 && u.prefixes[TheOnly(found)].aggregate == aggregate && u.prefixes[TheOnly(found)].parent == parent ==>
              ImportPrefix(u, row, k) == Done(Imported(u, false))
  {
    hide ResolveAggregate, ResolveParent;
  }

  /** The exported row of a prefix whose links are copied adds its copy, or finds it. */
  lemma RowMeetsCopy(t: Tables, u: Tables, am: Renaming, pm: Renaming, p: nat, k: Keys)
    requires RowReady(t, p) && CopiesAggregates(t, u, am) && CopiesPrefixes(t, u, am, pm)
    requires LinksInside(t.prefixes[p], am.to.Keys, pm.to.Keys)
    ensures ImportPrefix(u, ExportPrefix(t, p), k)
              == if p in pm.to then Done(Imported(u, false))
                 else Done(Imported(u.(prefixes := u.prefixes[k.prefix := Image(t.prefixes[p], am, pm)]), true))
  {
    hide ImportPrefix, ResolveAggregate, ResolveParent, Spelling;
    var x := t.prefixes[p];
    ResolvesAggregate(t, u, am, p, k.aggregate);
    FindsItsPrefix(t, u, am, pm, p);
    if x.parent.Some? { FindsItsParent(t, u, am, pm, p); }
    var found := if p in pm.to then {pm.to[p]} else {};
    RowOutcome(u, ExportPrefix(t, p), k, MapRef(am, x.aggregate), MapRef(pm, x.parent), found);
    if p in pm.to {
      assert TheOnly(found) in found;
      assert Copied(t, u, am, pm, p);
    }
  }

  /** A new key in the renaming moves no image that was already complete. */
  lemma ImageUnmoved(p: Prefix, am: Renaming, pm: Renaming, x: nat, y: nat)
    requires LinksInside(p, am.to.Keys, pm.to.Keys) && x !in pm.to
    ensures LinksInside(p, am.to.Keys, Rename(pm, x, y).to.Keys)
    ensures Image(p, am, Rename(pm, x, y)) == Image(p, am, pm)
  {
  }

  lemma CopiedStays(t: Tables, u: Tables, am: Renaming, pm: Renaming, q: nat, p: nat, key: nat, row: Prefix)
    requires q in pm.to && Copied(t, u, am, pm, q) && p !in pm.to && key !in u.prefixes
    ensures Copied(t, u.(prefixes := u.prefixes[key := row]), am, Rename(pm, p, key), q)
  {
    ImageUnmoved(t.prefixes[q], am, pm, p, key);
  }

  lemma CopyGrows(t: Tables, u: Tables, am: Renaming, pm: Renaming, p: nat, key: nat)
    requires CopiesPrefixes(t, u, am, pm) && p in t.prefixes && p !in pm.to && key !in u.prefixes
    requires LinksInside(t.prefixes[p], am.to.Keys, pm.to.Keys)
    ensures CopiesPrefixes(t, u.(prefixes := u.prefixes[key := Image(t.prefixes[p], am, pm)]), am, Rename(pm, p, key))
  {
    var image := Image(t.prefixes[p], am, pm);
    var after := u.(prefixes := u.prefixes[key := image]);
    RenameStaysInverse(pm, p, key);
    forall q | q in Rename(pm, p, key).to ensures Copied(t, after, am, Rename(pm, p, key), q) {
      if q == p { ImageUnmoved(t.prefixes[p], am, pm, p, key); }
      else { CopiedStays(t, u, am, pm, q, p, key, image); }
    }
  }

  /** The first n old keys have been given the first n new keys; the other new keys are unused. */
  ghost predicate Enrolled(ids: seq<nat>, handed: seq<nat>, n: nat, r: Renaming)
    requires n <= |ids| == |handed|
  {
    && (forall x :: x in r.to <==> x in ids[..n])
    && (forall m :: n <= m < |handed| ==> handed[m] !in r.back)
  }

  lemma EnrollOne(ids: seq<nat>, handed: seq<nat>, n: nat, r: Renaming)
    requires 0 < n <= |ids| == |handed| && Distinct(ids) && Distinct(handed) && Enrolled(ids, handed, n - 1, r)
    ensures ids[n - 1] !in r.to && handed[n - 1] !in r.back
    ensures Enrolled(ids, handed, n, Rename(r, ids[n - 1], handed[n - 1]))
  {
    assert ids[..n] == ids[..n - 1] + [ids[n - 1]];
  }

  // ---------------------------------------------------------------- aggregate files

  const NOTHING := Tables(map[], map[], map[], map[], map[], map[], map[])

  /** The rows of the export files, for the order in which the records happen to be listed. */
  ghost function AggregateFile(t: Tables, ids: seq<nat>): (rows: seq<Row>)
    requires forall n :: 0 <= n < |ids| ==> ids[n] in t.aggregates && t.aggregates[ids[n]].prefix.Block?
    ensures |rows| == |ids| && forall n :: 0 <= n < |ids| ==> rows[n] == ExportAggregate(t.aggregates[ids[n]])
  {
    seq(|ids|, n requires 0 <= n < |ids| => ExportAggregate(t.aggregates[ids[n]]))
  }

  ghost function PrefixFile(t: Tables, ids: seq<nat>): (rows: seq<Row>)
    requires forall n :: 0 <= n < |ids| ==> ids[n] in t.prefixes && PrefixKeysHold(t, t.prefixes[ids[n]])
    ensures |rows| == |ids| && forall n :: 0 <= n < |ids| ==> rows[n] == ExportPrefix(t, ids[n])
  {
    seq(|ids|, n requires 0 <= n < |ids| => ExportPrefix(t, ids[n]))
  }

  /** No copied aggregate has the network of one not yet copied. */
  lemma AggregateIsNew(t: Tables, u: Tables, am: Renaming, a: nat)
    requires DistinctAggregates(t) && CopiesAggregates(t, u, am) && a in t.aggregates && a !in am.to
    ensures forall x :: x in u.aggregates ==> Canonical(u.aggregates[x].prefix) != Canonical(t.aggregates[a].prefix)
  {
    forall x | x in u.aggregates ensures Canonical(u.aggregates[x].prefix) != Canonical(t.aggregates[a].prefix) {
      assert SameAggregate(t.aggregates[am.back[x]], u.aggregates[x]);
    }
  }

  lemma AggregateCopyGrows(t: Tables, u: Tables, am: Renaming, a: nat, key: nat, copy: Aggregate)
    requires CopiesAggregates(t, u, am) && a in t.aggregates && a !in am.to && key !in u.aggregates
    requires SameAggregate(t.aggregates[a], copy)
    ensures CopiesAggregates(t, u.(aggregates := u.aggregates[key := copy]), Rename(am, a, key))
  {
    RenameStaysInverse(am, a, key);
  }

  /** The exported row of an aggregate not yet copied adds its copy. */
  lemma AggregateRowAdds(t: Tables, u: Tables, am: Renaming, a: nat, key: nat)
    requires DistinctAggregates(t) && CopiesAggregates(t, u, am) && a in t.aggregates && a !in am.to && key !in am.back
    ensures var r := ImportAggregate(u, ExportAggregate(t.aggregates[a]), key);
            r.Done? && r.value.created && r.value.tables == u.(aggregates := r.value.tables.aggregates)
            && CopiesAggregates(t, r.value.tables, Rename(am, a, key))
  {
    var row := ExportAggregate(t.aggregates[a]);
    MaskMeaning(row.net);
    AggregateIsNew(t, u, am, a);
    AggregateCopyGrows(t, u, am, a, key, Aggregate(row.name, Block(row.net), row.notes));
  }

  ghost function AggregateKeys(keys: seq<Keys>): (r: seq<nat>)
    ensures |r| == |keys| && forall n :: 0 <= n < |keys| ==> r[n] == keys[n].aggregate
  {
    seq(|keys|, n requires 0 <= n < |keys| => keys[n].aggregate)
  }

  ghost function PrefixKeys(keys: seq<Keys>): (r: seq<nat>)
    ensures |r| == |keys| && forall n :: 0 <= n < |keys| ==> r[n] == keys[n].prefix
  {
    seq(|keys|, n requires 0 <= n < |keys| => keys[n].prefix)
  }

  /** One more row of an import. */
  lemma OneMoreRow(t: Tables, rows: seq<Row>, keys: seq<Keys>, n: nat, before: Tally, x: Imported)
    requires 0 < n <= |rows| == |keys|
    requires ImportRows(t, rows, keys, n - 1) == Done(before)
    requires ImportRow(before.tables, rows[n - 1], keys[n - 1]) == Done(x)
    ensures ImportRows(t, rows, keys, n) ==
              Done(if x.created then Tally(x.tables, before.created + 1, before.skipped)
                   else Tally(x.tables, before.created, before.skipped + 1))
  {
    hide ImportRow;
  }

  /** n aggregate rows, imported into nothing, have become copies of the first n aggregates. */
  ghost predicate AggregatesBack(t: Tables, ids: seq<nat>, handed: seq<nat>, n: nat, r: Outcome<Tally>, am: Renaming)
    requires n <= |ids| == |handed|
  {
    && r.Done? && r.value.created == n && r.value.tables == NOTHING.(aggregates := r.value.tables.aggregates)
    && CopiesAggregates(t, r.value.tables, am) && Enrolled(ids, handed, n, am)
  }

  lemma OneMoreAggregate(t: Tables, ids: seq<nat>, rows: seq<Row>, keys: seq<Keys>, n: nat, am: Renaming)
    requires 0 < n <= |ids| == |keys| == |rows| && Distinct(ids) && Distinct(AggregateKeys(keys)) && DistinctAggregates(t)
    requires ids[n - 1] in t.aggregates && rows[n - 1] == ExportAggregate(t.aggregates[ids[n - 1]])
    requires AggregatesBack(t, ids, AggregateKeys(keys), n - 1, ImportRows(NOTHING, rows, keys, n - 1), am)
    ensures AggregatesBack(t, ids, AggregateKeys(keys), n, ImportRows(NOTHING, rows, keys, n),
                           Rename(am, ids[n - 1], keys[n - 1].aggregate))
  {
    hide ImportAggregate, ExportAggregate, CopiesAggregates, Enrolled, ImportRows, DistinctAggregates;
    var before := ImportRows(NOTHING, rows, keys, n - 1).value;
    EnrollOne(ids, AggregateKeys(keys), n, am);
    AggregateRowAdds(t, before.tables, am, ids[n - 1], keys[n - 1].aggregate);
    OneMoreRow(NOTHING, rows, keys, n, before, ImportAggregate(before.tables, rows[n - 1], keys[n - 1].aggregate).value);
  }

  lemma NoAggregatesYet(t: Tables, ids: seq<nat>, rows: seq<Row>, keys: seq<Keys>)
    requires |ids| == |keys| == |rows|
    ensures AggregatesBack(t, ids, AggregateKeys(keys), 0, ImportRows(NOTHING, rows, keys, 0), Renaming(map[], map[]))
  {
  }

  /** Importing the first n aggregate rows into nothing copies the first n aggregates. */
  lemma {:induction false} AggregatesReturn(t: Tables, ids: seq<nat>, rows: seq<Row>, keys: seq<Keys>, n: nat) returns (am: Renaming)
    requires DistinctAggregates(t) && Distinct(ids) && n <= |ids| == |keys| && Distinct(AggregateKeys(keys))
    requires forall m :: 0 <= m < |ids| ==> ids[m] in t.aggregates && t.aggregates[ids[m]].prefix.Block?
    requires rows == AggregateFile(t, ids)
    ensures AggregatesBack(t, ids, AggregateKeys(keys), n, ImportRows(NOTHING, rows, keys, n), am)
  {
    hide *;
    if n == 0 {
      am := Renaming(map[], map[]);
      NoAggregatesYet(t, ids, rows, keys);
    } else {
      var before := AggregatesReturn(t, ids, rows, keys, n - 1);
      OneMoreAggregate(t, ids, rows, keys, n, before);
      am := Rename(before, ids[n - 1], keys[n - 1].aggregate);
    }
  }

  // ---------------------------------------------------------------- prefix files

  /** Different prefixes export different rows. */
  lemma RowsDiffer(t: Tables, p: nat, q: nat)
    requires NoDuplicatePrefixes(t) && DistinctAggregates(t) && p in t.prefixes && q in t.prefixes && p != q
    requires PrefixKeysHold(t, t.prefixes[p]) && PrefixKeysHold(t, t.prefixes[q])
    ensures ExportPrefix(t, p) != ExportPrefix(t, q)
  {
    assert !SamePlace(t.prefixes[p], t.prefixes[q]);
  }

  ghost predicate HasOrigin(t: Tables, row: Row)
    requires LinksResolve(t)
  {
    exists p :: p in t.prefixes && row == ExportPrefix(t, p)
  }

  ghost function Origin(t: Tables, row: Row): (p: nat)
    requires LinksResolve(t) && HasOrigin(t, row)
    ensures p in t.prefixes && PrefixKeysHold(t, t.prefixes[p]) && row == ExportPrefix(t, p)
  {
    var p :| p in t.prefixes && row == ExportPrefix(t, p);
    p
  }

  lemma EachRowHasOrigin(t: Tables, ids: seq<nat>, rows: seq<Row>, sorted: seq<Row>)
    requires LinksResolve(t) && Lists(ids, t.prefixes.Keys) && rows == PrefixFile(t, ids) && multiset(sorted) == multiset(rows)
    ensures forall n :: 0 <= n < |sorted| ==> HasOrigin(t, sorted[n])
  {
    hide ExportPrefix;
    forall n | 0 <= n < |sorted| ensures HasOrigin(t, sorted[n]) {
      assert sorted[n] in multiset(rows);
      var m :| 0 <= m < |rows| && rows[m] == sorted[n];
      assert ids[m] in ids;
    }
  }

  /** Where each row of the reordered file came from. */
  lemma RowsHaveOrigins(t: Tables, ids: seq<nat>, rows: seq<Row>, sorted: seq<Row>) returns (from: seq<nat>)
    requires NoDuplicatePrefixes(t) && DistinctAggregates(t) && LinksResolve(t) && Lists(ids, t.prefixes.Keys)
    requires rows == PrefixFile(t, ids) && multiset(sorted) == multiset(rows)
    ensures |from| == |sorted| && Lists(from, t.prefixes.Keys)
    ensures forall n :: 0 <= n < |from| ==> from[n] in t.prefixes && PrefixKeysHold(t, t.prefixes[from[n]])
    ensures sorted == PrefixFile(t, from)
  {
    hide DistinctAggregates, NoDuplicatePrefixes, ExportPrefix, LinksResolve, PrefixKeysHold;
    EachRowHasOrigin(t, ids, rows, sorted);
    from := seq(|sorted|, n requires 0 <= n < |sorted| => Origin(t, sorted[n]));
    OriginsDistinct(t, ids, rows, sorted, from);
    OriginsCover(t, ids, rows, sorted, from);
  }

  lemma OriginsDistinct(t: Tables, ids: seq<nat>, rows: seq<Row>, sorted: seq<Row>, from: seq<nat>)
    requires NoDuplicatePrefixes(t) && DistinctAggregates(t) && LinksResolve(t) && Lists(ids, t.prefixes.Keys)
    requires rows == PrefixFile(t, ids) && multiset(sorted) == multiset(rows) && |from| == |sorted|
    requires forall n :: 0 <= n < |from| ==> from[n] in t.prefixes && sorted[n] == ExportPrefix(t, from[n])
    ensures Distinct(from)
  {
    forall i, j | 0 <= i < j < |rows| ensures rows[i] != rows[j] {
      assert ids[i] in ids && ids[j] in ids;
      RowsDiffer(t, ids[i], ids[j]);
    }
    Sorting.DistinctIsPreserved(rows, sorted);
    forall i, j | 0 <= i < j < |from| ensures from[i] != from[j] { assert sorted[i] != sorted[j]; }
  }

  lemma OriginsCover(t: Tables, ids: seq<nat>, rows: seq<Row>, sorted: seq<Row>, from: seq<nat>)
    requires NoDuplicatePrefixes(t) && DistinctAggregates(t) && LinksResolve(t) && Lists(ids, t.prefixes.Keys)
    requires rows == PrefixFile(t, ids) && multiset(sorted) == multiset(rows) && |from| == |sorted|
    requires forall n :: 0 <= n < |from| ==> from[n] in t.prefixes && sorted[n] == ExportPrefix(t, from[n])
    ensures forall p :: p in t.prefixes ==> p in from
  {
    forall p | p in t.prefixes ensures p in from {
      var m :| 0 <= m < |ids| && ids[m] == p;
      assert rows[m] in multiset(sorted);
      var n :| 0 <= n < |sorted| && sorted[n] == rows[m];
      if from[n] != p { RowsDiffer(t, from[n], p); }
    }
  }

  lemma RowBeforeIsPreorder()
    ensures Sorting.TotalPreorder(RowBefore)
  {
  }

  /** In the sorted file every parent comes before its children. */
  lemma ParentsFirst(t: Tables, from: seq<nat>, rows: seq<Row>, n: nat)
    requires LinksResolve(t) && 0 !in t.prefixes && Lists(from, t.prefixes.Keys) && n < |from|
    requires PrefixRelationOk(t, from[n])
    requires rows == PrefixFile(t, from) && Sorting.Ascending(rows, RowBefore)
    ensures t.prefixes[from[n]].parent.Some? ==> t.prefixes[from[n]].parent.value in from[..n]
  {
    var p := from[n];
    if t.prefixes[p].parent.Some? {
      var q := t.prefixes[p].parent.value;
      StrictSubnetIsLonger(t.prefixes[p].net, t.prefixes[q].net);
      assert q in from;
      var m :| 0 <= m < |from| && from[m] == q;
      assert !RowBefore(rows[n], rows[m]);
      assert m < n;
    }
  }

  lemma PrefixRowAdds(t: Tables, u: Tables, am: Renaming, pm: Renaming, p: nat, k: Keys)
    requires RowReady(t, p) && CopiesAggregates(t, u, am) && CopiesPrefixes(t, u, am, pm)
    requires p !in pm.to && k.prefix !in pm.back && LinksInside(t.prefixes[p], am.to.Keys, pm.to.Keys)
    ensures var r := ImportPrefix(u, ExportPrefix(t, p), k);
            r.Done? && r.value.created && r.value.tables == u.(prefixes := r.value.tables.prefixes)
            && CopiesPrefixes(t, r.value.tables, am, Rename(pm, p, k.prefix))
  {
    hide ImportPrefix;
    RowMeetsCopy(t, u, am, pm, p, k);
    CopyGrows(t, u, am, pm, p, k.prefix);
  }

  /** n prefix rows, imported beside copied aggregates, have become copies of the first n prefixes. */
  ghost predicate PrefixesBack(t: Tables, u: Tables, am: Renaming, from: seq<nat>, handed: seq<nat>, n: nat,
                               r: Outcome<Tally>, pm: Renaming)
    requires n <= |from| == |handed|
  {
    && r.Done? && r.value.created == n && r.value.tables == u.(prefixes := r.value.tables.prefixes)
    && CopiesPrefixes(t, r.value.tables, am, pm) && Enrolled(from, handed, n, pm)
  }

  lemma OneMorePrefix(t: Tables, u: Tables, am: Renaming, from: seq<nat>, rows: seq<Row>, keys: seq<Keys>, n: nat, pm: Renaming)
    requires 0 < n <= |from| == |keys| == |rows| && Distinct(from) && Distinct(PrefixKeys(keys)) && RowReady(t, from[n - 1])
    requires rows[n - 1] == ExportPrefix(t, from[n - 1]) && CopiesAggregates(t, u, am)
    requires PrefixesBack(t, u, am, from, PrefixKeys(keys), n - 1, ImportRows(u, rows, keys, n - 1), pm)
    requires LinksInside(t.prefixes[from[n - 1]], am.to.Keys, Members(from[..n - 1]))
    ensures PrefixesBack(t, u, am, from, PrefixKeys(keys), n, ImportRows(u, rows, keys, n),
                         Rename(pm, from[n - 1], keys[n - 1].prefix))
  {
    hide ImportPrefix, ExportPrefix, CopiesPrefixes, ImportRows;
    var before := ImportRows(u, rows, keys, n - 1).value;
    assert CopiesAggregates(t, before.tables, am);
    hide CopiesAggregates;
    EnrollOne(from, PrefixKeys(keys), n, pm);
    PrefixRowAdds(t, before.tables, am, pm, from[n - 1], keys[n - 1]);
    OneMoreRow(u, rows, keys, n, before, ImportPrefix(before.tables, rows[n - 1], keys[n - 1]).value);
  }

  /** Importing the first n sorted prefix rows copies the first n prefixes. */
  lemma {:induction false} PrefixesReturn(t: Tables, u: Tables, am: Renaming, from: seq<nat>, rows: seq<Row>, keys: seq<Keys>, n: nat)
    returns (pm: Renaming)
    requires LinksResolve(t) && Lists(from, t.prefixes.Keys) && n <= |from| == |keys| && Distinct(PrefixKeys(keys))
    requires forall p :: p in t.prefixes ==> RowReady(t, p)
    requires rows == PrefixFile(t, from) && Sorting.Ascending(rows, RowBefore)
    requires am.to.Keys == t.aggregates.Keys && CopiesAggregates(t, u, am) && u.prefixes == map[]
    ensures PrefixesBack(t, u, am, from, PrefixKeys(keys), n, ImportRows(u, rows, keys, n), pm)
  {
    hide ExportPrefix, ImportRow, RowBefore, RowReady;
    if n == 0 {
      pm := Renaming(map[], map[]);
    } else {
      hide PrefixesBack, ImportRows, CopiesAggregates;
      var before := PrefixesReturn(t, u, am, from, rows, keys, n - 1);
      assert from[n - 1] in from;
      LinksBefore(t, am, from, rows, n - 1);
      OneMorePrefix(t, u, am, from, rows, keys, n, before);
      pm := Rename(before, from[n - 1], keys[n - 1].prefix);
    }
  }

  lemma LinksBefore(t: Tables, am: Renaming, from: seq<nat>, rows: seq<Row>, n: nat)
    requires LinksResolve(t) && Lists(from, t.prefixes.Keys) && n < |from| && from[n] in t.prefixes && RowReady(t, from[n])
    requires rows == PrefixFile(t, from) && Sorting.Ascending(rows, RowBefore)
    requires am.to.Keys == t.aggregates.Keys
    ensures LinksInside(t.prefixes[from[n]], am.to.Keys, Members(from[..n]))
  {
    ParentsFirst(t, from, rows, n);
  }

  // ---------------------------------------------------------------- the round trip

  /** The same forest up to keys: every aggregate and prefix, with attributes and links. */
  ghost predicate SameForest(t: Tables, u: Tables) {
    exists am: Renaming, pm: Renaming ::
      am.to.Keys == t.aggregates.Keys && pm.to.Keys == t.prefixes.Keys && CopiesAggregates(t, u, am) && CopiesPrefixes(t, u, am, pm)
  }

  lemma AggregateHalf(t: Tables, ids: seq<nat>, keys: seq<Keys>) returns (am: Renaming)
    requires DistinctAggregates(t) && Lists(ids, t.aggregates.Keys) && |keys| == |ids| <= MAX_ROWS
    requires forall n :: 0 <= n < |ids| ==>
               ids[n] in t.aggregates && t.aggregates[ids[n]].prefix.Block? && t.aggregates[ids[n]].name != BLANK
    requires Distinct(AggregateKeys(keys))
    ensures var r := RunImport(NOTHING, AggregateFile(t, ids), keys);
            r.Done? && r.value.created == |ids| && r.value.tables == NOTHING.(aggregates := r.value.tables.aggregates)
            && CopiesAggregates(t, r.value.tables, am)
    ensures am.to.Keys == t.aggregates.Keys
  {
    hide *;
    var file := AggregateFile(t, ids);
    FileRunsInOrder(t, ids, keys);
    ListedOnce(ids, t.aggregates.Keys);
    am := AggregatesReturn(t, ids, file, keys, |file|);
    AllAggregatesBack(t, ids, AggregateKeys(keys), ImportRows(NOTHING, file, keys, |file|), am);
  }

  lemma ListedOnce<T(!new)>(ids: seq<T>, keys: set<T>)
    requires Lists(ids, keys)
    ensures Distinct(ids)
  {
  }

  lemma FileRunsInOrder(t: Tables, ids: seq<nat>, keys: seq<Keys>)
    requires |keys| == |ids| <= MAX_ROWS
    requires forall n :: 0 <= n < |ids| ==>
               ids[n] in t.aggregates && t.aggregates[ids[n]].prefix.Block? && t.aggregates[ids[n]].name != BLANK
    ensures RunImport(NOTHING, AggregateFile(t, ids), keys) == ImportRows(NOTHING, AggregateFile(t, ids), keys, |keys|)
  {
    hide ImportRows;
    FileStaysInOrder(t, ids);
  }

  lemma AllAggregatesBack(t: Tables, ids: seq<nat>, handed: seq<nat>, r: Outcome<Tally>, am: Renaming)
    requires |ids| == |handed| && Lists(ids, t.aggregates.Keys) && AggregatesBack(t, ids, handed, |ids|, r, am)
    ensures r.Done? && r.value.created == |ids| && r.value.tables == NOTHING.(aggregates := r.value.tables.aggregates)
    ensures CopiesAggregates(t, r.value.tables, am) && am.to.Keys == t.aggregates.Keys
  {
    hide CopiesAggregates;
    assert ids[..|ids|] == ids;
  }

  lemma FileStaysInOrder(t: Tables, ids: seq<nat>)
    requires forall n :: 0 <= n < |ids| ==>
               ids[n] in t.aggregates && t.aggregates[ids[n]].prefix.Block? && t.aggregates[ids[n]].name != BLANK
    ensures Complete(AggregateFile(t, ids)) && Ordered(AggregateFile(t, ids)) == AggregateFile(t, ids)
  {
    var file := AggregateFile(t, ids);
    if file != [] { assert file[0] in file; } else { assert Sorting.Sort<Row>([], RowBefore) == []; }
  }

  lemma PrefixFileIsSorted(t: Tables, ids: seq<nat>)
    requires forall n :: 0 <= n < |ids| ==> ids[n] in t.prefixes && PrefixKeysHold(t, t.prefixes[ids[n]])
    ensures Complete(PrefixFile(t, ids))
    ensures Ordered(PrefixFile(t, ids)) == Sorting.Sort(PrefixFile(t, ids), RowBefore)
    ensures Sorting.Ascending(Sorting.Sort(PrefixFile(t, ids), RowBefore), RowBefore)
  {
    RowBeforeIsPreorder();
    hide RowBefore, ExportPrefix, PrefixKeysHold, Sorting.Sort;
    Sorting.SortAscends(PrefixFile(t, ids), RowBefore);
  }

  /** A prefix import of at most MAX_ROWS rows works through the sorted file. */
  lemma RunsSorted(t: Tables, u: Tables, ids: seq<nat>, keys: seq<Keys>)
    requires forall n :: 0 <= n < |ids| ==> ids[n] in t.prefixes && PrefixKeysHold(t, t.prefixes[ids[n]])
    requires |keys| == |ids| <= MAX_ROWS
    ensures RunImport(u, PrefixFile(t, ids), keys)
              == ImportRows(u, Sorting.Sort(PrefixFile(t, ids), RowBefore), keys, |keys|)
  {
    hide ImportRows, RowBefore, ExportPrefix, PrefixKeysHold;
    PrefixFileIsSorted(t, ids);
  }

  lemma PrefixHalf(t: Tables, u: Tables, am: Renaming, ids: seq<nat>, keys: seq<Keys>)
    requires NoDuplicatePrefixes(t) && DistinctAggregates(t) && LinksResolve(t) && Lists(ids, t.prefixes.Keys)
    requires forall p :: p in t.prefixes ==> RowReady(t, p)
    requires |keys| == |ids| <= MAX_ROWS && Distinct(PrefixKeys(keys))
    requires am.to.Keys == t.aggregates.Keys && CopiesAggregates(t, u, am) && u.prefixes == map[]
    requires forall n :: 0 <= n < |ids| ==> ids[n] in t.prefixes && PrefixKeysHold(t, t.prefixes[ids[n]])
    ensures var second := RunImport(u, PrefixFile(t, ids), keys);
            second.Done? && SameForest(t, second.value.tables) && second.value.created == |ids|
  {
    hide *;
    RunsSorted(t, u, ids, keys);
    PrefixFileIsSorted(t, ids);
    var sorted := Sorting.Sort(PrefixFile(t, ids), RowBefore);
    var from := RowsHaveOrigins(t, ids, PrefixFile(t, ids), sorted);
    var pm := PrefixesReturn(t, u, am, from, sorted, keys, |from|);
    SameForestBy(t, u, am, from, PrefixKeys(keys), ImportRows(u, sorted, keys, |sorted|), pm);
  }

  lemma SameForestBy(t: Tables, u: Tables, am: Renaming, from: seq<nat>, handed: seq<nat>, r: Outcome<Tally>, pm: Renaming)
    requires |from| == |handed| && Lists(from, t.prefixes.Keys) && am.to.Keys == t.aggregates.Keys && CopiesAggregates(t, u, am)
    requires PrefixesBack(t, u, am, from, handed, |from|, r, pm)
    ensures r.Done? && r.value.created == |from| && SameForest(t, r.value.tables)
  {
    assert from[..|from|] == from;
    assert CopiesAggregates(t, r.value.tables, am);
  }

  /**
    Round trip. Importing the exported aggregates and then the exported prefixes into an empty
    inventory rebuilds the same forest up to keys, for any order of the rows in either file.
    */
  lemma ExportThenImport(t: Tables, aggregateIds: seq<nat>, prefixIds: seq<nat>, aggregateKeys: seq<Keys>, prefixKeys: seq<Keys>)
    requires Exportable(t)
    requires Lists(aggregateIds, t.aggregates.Keys) && Lists(prefixIds, t.prefixes.Keys)
    requires |aggregateKeys| == |aggregateIds| && |prefixKeys| == |prefixIds|
    requires ImportKeysFresh(NOTHING, aggregateKeys)
    ensures RunImport(NOTHING, AggregateFile(t, aggregateIds), aggregateKeys).Done?
    ensures var first := RunImport(NOTHING, AggregateFile(t, aggregateIds), aggregateKeys).value;
            first.created == |t.aggregates| &&
            (ImportKeysFresh(first.tables, prefixKeys) ==>
               var second := RunImport(first.tables, PrefixFile(t, prefixIds), prefixKeys);
               second.Done? && SameForest(t, second.value.tables) && second.value.created == |t.prefixes|)
  {
    ListingSize(aggregateIds, t.aggregates.Keys);
    ListingSize(prefixIds, t.prefixes.Keys);
    var am := AggregateHalf(t, aggregateIds, aggregateKeys);
    var u := RunImport(NOTHING, AggregateFile(t, aggregateIds), aggregateKeys).value.tables;
    if ImportKeysFresh(u, prefixKeys) {
      AllRowsReady(t);
      PrefixHalf(t, u, am, prefixIds, prefixKeys);
    }
  }

  lemma AllRowsReady(t: Tables)
    requires Exportable(t)
    ensures forall p :: p in t.prefixes ==> RowReady(t, p)
  {
  }

  // ---------------------------------------------------------------- importing back

  /** The renaming that renames nothing. */
  ghost function Same(keys: set<nat>): Renaming {
    Renaming(map k | k in keys :: k, map k | k in keys :: k)
  }

  lemma SelfCopy(t: Tables)
    requires LinksResolve(t)
    ensures CopiesAggregates(t, t, Same(t.aggregates.Keys))
    ensures CopiesPrefixes(t, t, Same(t.aggregates.Keys), Same(t.prefixes.Keys))
  {
    var am, pm := Same(t.aggregates.Keys), Same(t.prefixes.Keys);
    forall p | p in pm.to ensures Copied(t, t, am, pm, p) {
      assert PrefixKeysHold(t, t.prefixes[p]);
    }
  }

  lemma {:induction false} EachRowSkipped(t: Tables, rows: seq<Row>, keys: seq<Keys>, n: nat)
    requires n <= |rows| == |keys|
    requires forall m :: 0 <= m < |rows| ==> ImportRow(t, rows[m], keys[m]) == Done(Imported(t, false))
    ensures ImportRows(t, rows, keys, n) == Done(Tally(t, 0, n))
  {
    hide ImportRow;
    if n > 0 {
      EachRowSkipped(t, rows, keys, n - 1);
      OneMoreRow(t, rows, keys, n, Tally(t, 0, n - 1), Imported(t, false));
    }
  }

  lemma PrefixSkipped(t: Tables, p: nat, k: Keys)
    requires LinksResolve(t) && p in t.prefixes && RowReady(t, p)
    ensures ImportRow(t, ExportPrefix(t, p), k) == Done(Imported(t, false))
  {
    hide ImportPrefix, ExportPrefix, CopiesAggregates, CopiesPrefixes;
    SelfCopy(t);
    RowMeetsCopy(t, t, Same(t.aggregates.Keys), Same(t.prefixes.Keys), p, k);
  }

  lemma PrefixesSkipped(t: Tables, ids: seq<nat>, keys: seq<Keys>)
    requires NoDuplicatePrefixes(t) && DistinctAggregates(t) && LinksResolve(t) && Lists(ids, t.prefixes.Keys)
    requires forall p :: p in t.prefixes ==> RowReady(t, p)
    requires forall n :: 0 <= n < |ids| ==> ids[n] in t.prefixes && PrefixKeysHold(t, t.prefixes[ids[n]])
    requires |keys| == |ids| <= MAX_ROWS
    ensures RunImport(t, PrefixFile(t, ids), keys) == Done(Tally(t, 0, |ids|))
  {
    hide *;
    RunsSorted(t, t, ids, keys);
    var sorted := Sorting.Sort(PrefixFile(t, ids), RowBefore);
    var from := RowsHaveOrigins(t, ids, PrefixFile(t, ids), sorted);
    forall m | 0 <= m < |sorted| ensures ImportRow(t, sorted[m], keys[m]) == Done(Imported(t, false)) {
      assert sorted[m] == ExportPrefix(t, from[m]);
      PrefixSkipped(t, from[m], keys[m]);
    }
    EachRowSkipped(t, sorted, keys, |sorted|);
  }

  lemma AggregatesSkipped(t: Tables, ids: seq<nat>, keys: seq<Keys>)
    requires DistinctAggregates(t) && Lists(ids, t.aggregates.Keys) && |keys| == |ids| <= MAX_ROWS
    requires forall a :: a in t.aggregates ==> t.aggregates[a].name != BLANK
    ensures RunImport(t, AggregateFile(t, ids), keys) == Done(Tally(t, 0, |ids|))
  {
    var file := AggregateFile(t, ids);
    FileStaysInOrder(t, ids);
    forall m | 0 <= m < |file| ensures ImportRow(t, file[m], keys[m]) == Done(Imported(t, false)) {
      var a := ids[m];
      assert a in ids;
      var existing := set b | b in t.aggregates && Canonical(t.aggregates[b].prefix) == Block(file[m].net);
      assert existing == {a};
    }
    EachRowSkipped(t, file, keys, |file|);
  }

  /** Importing an export back into its own inventory creates nothing and changes nothing. */
  lemma ImportBackCreatesNothing(t: Tables, aggregateIds: seq<nat>, prefixIds: seq<nat>, aggregateKeys: seq<Keys>, prefixKeys: seq<Keys>)
    requires Exportable(t)
    requires Lists(aggregateIds, t.aggregates.Keys) && Lists(prefixIds, t.prefixes.Keys)
    requires |aggregateKeys| == |aggregateIds| && |prefixKeys| == |prefixIds|
    ensures RunImport(t, AggregateFile(t, aggregateIds), aggregateKeys) == Done(Tally(t, 0, |aggregateIds|))
    ensures RunImport(t, PrefixFile(t, prefixIds), prefixKeys) == Done(Tally(t, 0, |prefixIds|))
  {
    ListingSize(aggregateIds, t.aggregates.Keys);
    ListingSize(prefixIds, t.prefixes.Keys);
    AggregatesSkipped(t, aggregateIds, aggregateKeys);
    AllRowsReady(t);
    PrefixesSkipped(t, prefixIds, prefixKeys);
  }
}
