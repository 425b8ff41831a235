/**
  Address files, told by the rows and the tables alone: what an accepted file leaves for each of its rows,
  and when importing it again is accepted and changes nothing.
  */
module IpamAddressFiles {
  import opened Collections
  import opened Addressing
  import opened IpamTables
  import opened IpamRules
  import opened IpamSafety
  import opened IpamAllocation

  // ---------------------------------------------------------------- what a row says

  /** An aggregate column means an aggregate of this name or of this block. */
  predicate Means(name: Text, a: Aggregate) {
    a.name == name || Canonical(a.prefix) == Canonical(name)
  }

  ghost predicate MeansAggregate(t: Tables, name: Text, a: nat) {
    a in t.aggregates && Means(name, t.aggregates[a])
  }

  /** A prefix the row may mean: of its network, and of an aggregate it names if it names one. */
  ghost predicate HomeOf(t: Tables, row: Row, p: nat)
    requires row.IpRow?
  {
    && p in t.prefixes && t.prefixes[p].net == row.net
    && (row.aggregate.Some? ==>
          t.prefixes[p].aggregate.Some? && MeansAggregate(t, row.aggregate.value, t.prefixes[p].aggregate.value))
  }

  predicate IsCalled(d: Device, who: DeviceText) {
    d.name == who || d.primary == who
  }

  /** The one device the row names; none when the column is empty. */
  ghost predicate DeviceOf(t: Tables, row: Row, d: Ref)
    requires row.IpRow?
  {
    if row.device.None? then d.None?
    else d.Some? && forall e :: e in t.devices && IsCalled(t.devices[e], row.device.value) <==> e == d.value
  }

  /** The record says what the row says, with the defaults for empty columns. */
  ghost predicate SaysRow(t: Tables, row: Row, r: IpRecord)
    requires row.IpRow?
  {
    && row.address == Some(r.address)
    && DeviceOf(t, row, r.device) && r.vm.None?
    && r.status == (if row.status != "" then row.status else if row.device.Some? then IN_USE else PLANNED)
    && r.allocation == (if row.allocation != "" then row.allocation else STATIC)
    && r.deviceName == row.deviceName && r.description == row.description
  }

  /** Record i is the one of the row's address in a prefix the row may mean, with the row's device if it names one. */
  ghost predicate FiledAs(t: Tables, row: Row, i: nat)
    requires row.IpRow?
  {
    && row.address.Some? && i in t.ips
    && HomeOf(t, row, t.ips[i].prefix)
    && RecordAt(t, t.ips[i].prefix, row.address.value, i) && AtMostOneAt(t, t.ips[i].prefix, row.address.value)
    && (row.device.Some? ==> DeviceOf(t, row, t.ips[i].device))
  }

  /** A prefix made for the row: of its network, in its aggregate, planned and otherwise bare. */
  ghost predicate MadeForRow(u: Tables, row: Row, p: nat)
    requires row.IpRow?
  {
    HomeOf(u, row, p) && u.prefixes[p].parent.None? && u.prefixes[p].details == BARE
    && (row.aggregate.None? ==> u.prefixes[p].aggregate.None?)
  }

  /** An aggregate made from the row's aggregate column: its block is its name and its text. */
  predicate MadeFromColumn(row: Row, a: Aggregate)
    requires row.IpRow?
  {
    row.aggregate.Some? && row.aggregate.value.Block?
    && a == Aggregate(Block(Mask(row.aggregate.value.cidr)), Block(Mask(row.aggregate.value.cidr)), FROM_COLUMN)
  }

  // ---------------------------------------------------------------- one row

  /** A place that has at most one record keeps at most one. */
  ghost predicate StaysSingle(t: Tables, after: Tables) {
    forall p, a :: AtMostOneAt(t, p, a) && (exists i :: RecordAt(t, p, a, i)) ==> AtMostOneAt(after, p, a)
  }

  /** What an accepted address row did: its record is there, new and saying what the row says, or found and nothing changed. */
  ghost predicate RowDone(t: Tables, after: Tables, row: Row, created: bool, k: Keys)
    requires row.IpRow?
  {
    && after.devices == t.devices
    && StaysSingle(t, after)
    && if created
       then k.ip !in t.ips && k.ip in after.ips && after.ips == t.ips[k.ip := after.ips[k.ip]]
            && FiledAs(after, row, k.ip) && SaysRow(after, row, after.ips[k.ip])
       else after == t && IsFiled(t, row)
  }

  lemma ResolvedIsMeant(t: Tables, row: Row, key: nat)
    requires Invariant(t) && row.IpRow? && key != 0 && key !in t.aggregates
    requires ResolveAggregate(t, row.aggregate, row.net, key).Done?
    ensures var r := ResolveAggregate(t, row.aggregate, row.net, key).value;
            && r.tables == t.(aggregates := r.tables.aggregates)
            && (r.aggregate.Some? <==> row.aggregate.Some?)
            && (r.aggregate.Some? ==> MeansAggregate(r.tables, row.aggregate.value, r.aggregate.value))
            && (r.tables == t || r.aggregate == Some(key))
  {
    hide Canonical, AggregateHolds, Mask, SubnetOf, Invariant;
    if row.aggregate.Some? {
      var matches := NamedAggregates(t, row.aggregate.value);
      if matches != {} { assert |matches| == 1; assert TheOnly(matches) in matches; }
      else { CanonicalTwice(row.aggregate.value); }
    }
  }

  lemma CanonicalTwice(x: Text)
    ensures Canonical(Canonical(x)) == Canonical(x)
  {
    if x.Block? { MaskMeaning(Mask(x.cidr)); }
  }

  lemma HomeIsMeant(t: Tables, row: Row, aggregate: Ref, key: nat)
    requires row.IpRow? && key !in t.prefixes && HomePrefix(t, row, aggregate, key).Done?
    requires row.aggregate.Some? ==> aggregate.Some? && MeansAggregate(t, row.aggregate.value, aggregate.value)
    ensures var home := HomePrefix(t, row, aggregate, key).value;
            && home.tables == t.(prefixes := home.tables.prefixes)
            && HomeOf(home.tables, row, home.prefix)
            && (home.tables == t || home.prefix == key)
            && (home.tables == t ==> home.prefix in t.prefixes && (row.aggregate.Some? ==> t.prefixes[home.prefix].aggregate == aggregate))
  {
    hide Means;
    var matches := Spelling(t, row.net, row.aggregate.Some?, aggregate);
    if matches != {} { assert |matches| == 1; assert TheOnly(matches) in matches; }
  }

  lemma MatchIsDevice(t: Tables, row: Row)
    requires row.IpRow? && row.device.Some?
    ensures |MatchingDevices(t, row.device.value)| == 1 <==> exists d :: DeviceOf(t, row, Some(d))
    ensures |MatchingDevices(t, row.device.value)| == 1 ==> DeviceOf(t, row, Some(TheOnly(MatchingDevices(t, row.device.value))))
  {
    var matches := MatchingDevices(t, row.device.value);
    if |matches| == 1 {
      var d := TheOnly(matches);
      forall e: nat ensures e in t.devices && IsCalled(t.devices[e], row.device.value) <==> e == d {
        assert e in matches <==> e == d;
      }
      assert DeviceOf(t, row, Some(d));
    }
    if d: nat :| DeviceOf(t, row, Some(d)) {
      forall e: nat ensures e in matches <==> e == d {
        assert e in t.devices && IsCalled(t.devices[e], row.device.value) <==> e == d;
      }
      assert matches == {d};
    }
  }

  /** Filing an address whose home is known: found as it is, or added under the key. */
  lemma FilingIsDone(t: Tables, row: Row, p: nat, device: Ref, key: nat)
    requires row.IpRow? && row.address.Some? && key !in t.ips && FileAddress(t, row, p, device, key).Done?
    ensures var x, a := FileAddress(t, row, p, device, key).value, row.address.value;
            && x.tables == t.(ips := x.tables.ips)
            && StaysSingle(t, x.tables) && AtMostOneAt(x.tables, p, a)
            && if x.created
               then RecordAt(x.tables, p, a, key) && x.tables.ips == t.ips[key := x.tables.ips[key]]
                    && x.tables.ips[key] == IpRecord(p, a, if row.status != "" then row.status else if device.Some? then IN_USE else PLANNED,
                                                     if row.allocation == "" then STATIC else row.allocation,
                                                     device, None, row.deviceName, row.description)
               else x.tables == t && exists i :: RecordAt(t, p, a, i) && (row.device.Some? ==> t.ips[i].device == device)
  {
    var a := row.address.value;
    LocalIs(t, p, a);
    var x := FileAddress(t, row, p, device, key).value;
    if x.created {
      forall i: nat ensures !RecordAt(t, p, a, i) { assert i !in Local(t, p, a); }
      forall j: nat, k: nat | RecordAt(x.tables, p, a, j) && RecordAt(x.tables, p, a, k) ensures j == k {
        assert !RecordAt(t, p, a, j) && !RecordAt(t, p, a, k);
      }
      forall q, b | AtMostOneAt(t, q, b) && (exists i :: RecordAt(t, q, b, i)) ensures AtMostOneAt(x.tables, q, b) {
        var i :| RecordAt(t, q, b, i);
        assert !(q == p && b == a);
        forall j, k | RecordAt(x.tables, q, b, j) && RecordAt(x.tables, q, b, k) ensures j == k {
          assert RecordAt(t, q, b, j) && RecordAt(t, q, b, k);
        }
      }
    } else {
      var i := TheOnly(Local(t, p, a));
      assert RecordAt(t, p, a, i);
    }
  }

  /** Tables that differ only in aggregates and prefixes have the same records. */
  lemma SameRecords(t: Tables, u: Tables)
    requires u.ips == t.ips
    ensures forall p, a, i :: RecordAt(t, p, a, i) <==> RecordAt(u, p, a, i)
    ensures forall p, a :: AtMostOneAt(t, p, a) <==> AtMostOneAt(u, p, a)
  {
    forall p, a ensures AtMostOneAt(t, p, a) <==> AtMostOneAt(u, p, a) {
      assert forall i :: RecordAt(t, p, a, i) <==> RecordAt(u, p, a, i);
    }
  }

  /** A record in a prefix means an old prefix, whose aggregate is an old one. */
  lemma RecordsAreAtHome(t: Tables, p: nat, a: Addr, i: nat)
    requires Invariant(t) && RecordAt(t, p, a, i)
    ensures p in t.prefixes && (t.prefixes[p].aggregate.Some? ==> t.prefixes[p].aggregate.value in t.aggregates)
  {
    assert IpKeysHold(t, t.ips[i]) && PrefixKeysHold(t, t.prefixes[p]);
  }

  lemma SameDevices(t: Tables, u: Tables, who: DeviceText)
    requires u.devices == t.devices
    ensures MatchingDevices(u, who) == MatchingDevices(t, who)
  {
  }

  /** The way of an accepted address row: its aggregate, its home and its device, and then the filing. */
  lemma RowPath(t: Tables, row: Row, k: Keys) returns (u: Tables, p: nat, device: Ref)
    requires Invariant(t) && row.IpRow? && RowKeysFresh(t, k) && ImportRow(t, row, k).Done?
    ensures row.address.Some? && u.ips == t.ips && u.devices == t.devices
    ensures HomeOf(u, row, p) && DeviceOf(t, row, device) && (row.device.Some? <==> device.Some?)
    ensures u == t || p !in t.prefixes || t.prefixes[p].aggregate == Some(k.aggregate)
    ensures FileAddress(u, row, p, device, k.ip) == ImportRow(t, row, k)
    ensures k.aggregate in u.aggregates ==> MadeFromColumn(row, u.aggregates[k.aggregate])
    ensures k.prefix in u.prefixes ==> k.prefix == p && MadeForRow(u, row, p)
  {
    hide Invariant, MadeFromColumn, ResolveAggregate, HomePrefix, FileAddress, MeansAggregate, Contains, Reserved, MatchingDevices, HomeOf;
    ResolvedIsMeant(t, row, k.aggregate);
    var r := ResolveAggregate(t, row.aggregate, row.net, k.aggregate).value;
    HomeIsMeant(r.tables, row, r.aggregate, k.prefix);
    var home := HomePrefix(r.tables, row, r.aggregate, k.prefix).value;
    u, p := home.tables, home.prefix;
    if row.device.Some? {
      SameDevices(t, r.tables, row.device.value);
      MatchIsDevice(t, row);
      device := Some(TheOnly(MatchingDevices(t, row.device.value)));
    } else {
      device := None;
    }
    if u != t && r.tables != t { NewHome(r.tables, row, r.aggregate, k); }
    ColumnMakes(t, row, k.aggregate);
    RowMakes(r.tables, row, r.aggregate, k.prefix);
  }

  lemma ColumnMakes(t: Tables, row: Row, key: nat)
    requires row.IpRow? && key !in t.aggregates && ResolveAggregate(t, row.aggregate, row.net, key).Done?
    ensures var u := ResolveAggregate(t, row.aggregate, row.net, key).value.tables;
            key in u.aggregates ==> MadeFromColumn(row, u.aggregates[key])
  {
    hide AggregateHolds, SubnetOf, Mask;
  }

  lemma RowMakes(t: Tables, row: Row, aggregate: Ref, key: nat)
    requires row.IpRow? && key !in t.prefixes && HomePrefix(t, row, aggregate, key).Done?
    requires row.aggregate.Some? <==> aggregate.Some?
    requires row.aggregate.Some? ==> MeansAggregate(t, row.aggregate.value, aggregate.value)
    ensures var home := HomePrefix(t, row, aggregate, key).value;
            key in home.tables.prefixes ==> home.prefix == key && MadeForRow(home.tables, row, key)
  {
    hide Means, Spelling;
  }

  lemma NewHome(t: Tables, row: Row, aggregate: Ref, k: Keys)
    requires row.IpRow? && HomePrefix(t, row, aggregate, k.prefix).Done?
    ensures var home := HomePrefix(t, row, aggregate, k.prefix).value;
            home.prefix in t.prefixes && row.aggregate.Some? && home.prefix != k.prefix ==> t.prefixes[home.prefix].aggregate == aggregate
  {
    var matches := Spelling(t, row.net, row.aggregate.Some?, aggregate);
    if matches != {} { assert TheOnly(matches) in matches; }
  }

  /** An accepted address row, whatever it needed on the way, is done. */
  lemma AddressRowIsDone(t: Tables, row: Row, k: Keys)
    requires Invariant(t) && row.IpRow? && RowKeysFresh(t, k) && ImportRow(t, row, k).Done?
    ensures var x := ImportRow(t, row, k).value; RowDone(t, x.tables, row, x.created, k)
  {
    hide Invariant, ImportRow, FileAddress, Means, AtMostOneAt, StaysSingle;
    var u, p, device := RowPath(t, row, k);
    FilingIsDone(u, row, p, device, k.ip);
    var x := ImportRow(t, row, k).value;
    SingleCarriesOver(t, u, x.tables);
    assert DeviceOf(x.tables, row, device);
    if x.created {
      assert HomeOf(x.tables, row, p);
      assert FiledAs(x.tables, row, k.ip);
    } else {
      var a := row.address.value;
      var i: nat :| RecordAt(u, p, a, i) && (row.device.Some? ==> u.ips[i].device == device);
      RecordsAreAtHome(t, p, a, i);
      assert u == t;
      assert FiledAs(t, row, i);
    }
  }

  lemma SingleCarriesOver(t: Tables, u: Tables, after: Tables)
    requires u.ips == t.ips && StaysSingle(u, after)
    ensures StaysSingle(t, after)
  {
    SameRecords(t, u);
    hide AtMostOneAt;
    forall p, a | AtMostOneAt(t, p, a) && (exists i :: RecordAt(t, p, a, i)) ensures AtMostOneAt(after, p, a) {
      var i :| RecordAt(t, p, a, i);
      assert RecordAt(u, p, a, i) && AtMostOneAt(u, p, a);
    }
  }

  // ---------------------------------------------------------------- a whole file

  predicate AddressFile(rows: seq<Row>) {
    forall n :: 0 <= n < |rows| ==> rows[n].IpRow?
  }

  /** Each of the first n rows has its record. */
  ghost predicate AllFiled(u: Tables, rows: seq<Row>, n: nat)
    requires AddressFile(rows) && n <= |rows|
  {
    forall m :: 0 <= m < n ==> IsFiled(u, rows[m])
  }

  ghost predicate IsFiled(t: Tables, row: Row)
    requires row.IpRow?
  {
    exists i :: FiledAs(t, row, i)
  }

  /** Each added record says what one of the first n rows says, and is its record. */
  ghost predicate AddedSay(t: Tables, u: Tables, rows: seq<Row>, n: nat)
    requires AddressFile(rows) && n <= |rows|
  {
    forall i :: i in u.ips && i !in t.ips ==> exists m :: 0 <= m < n && FiledAs(u, rows[m], i) && SaysRow(u, rows[m], u.ips[i])
  }

  /** Rows after it leave a filed row filed. */
  lemma FiledStays(t: Tables, u: Tables, row: Row, created: bool, k: Keys, other: Row, i: nat)
    requires row.IpRow? && other.IpRow? && RowDone(t, u, row, created, k) && Extends(t, u, k) && RowKeysFresh(t, k)
    requires FiledAs(t, other, i)
    ensures FiledAs(u, other, i) && u.ips[i] == t.ips[i]
    ensures SaysRow(t, other, t.ips[i]) ==> SaysRow(u, other, u.ips[i])
  {
    hide Means, AtMostOneAt, IsCalled;
    assert HomeOf(u, other, u.ips[i].prefix);
    assert RecordAt(t, t.ips[i].prefix, other.address.value, i);
    assert AtMostOneAt(u, t.ips[i].prefix, other.address.value);
    assert forall d :: DeviceOf(t, other, d) ==> DeviceOf(u, other, d);
  }

  lemma FileStep(t: Tables, s: Tables, u: Tables, rows: seq<Row>, n: nat, created: bool, k: Keys)
    requires AddressFile(rows) && n < |rows| && RowDone(s, u, rows[n], created, k) && Extends(s, u, k) && RowKeysFresh(s, k)
    requires AllFiled(s, rows, n) && AddedSay(t, s, rows, n)
    ensures AllFiled(u, rows, n + 1) && AddedSay(t, u, rows, n + 1)
  {
    hide FiledAs, SaysRow, StaysSingle, Extends;
    forall m | 0 <= m < n + 1 ensures IsFiled(u, rows[m]) {
      if m < n {
        var i: nat :| FiledAs(s, rows[m], i);
        FiledStays(s, u, rows[n], created, k, rows[m], i);
      } else if created {
        assert FiledAs(u, rows[n], k.ip);
      } else {
        var i: nat :| FiledAs(s, rows[n], i);
        assert u == s && FiledAs(u, rows[m], i);
      }
    }
    forall i | i in u.ips && i !in t.ips
      ensures exists m :: 0 <= m < n + 1 && FiledAs(u, rows[m], i) && SaysRow(u, rows[m], u.ips[i])
    {
      if i in s.ips {
        var m :| 0 <= m < n && FiledAs(s, rows[m], i) && SaysRow(s, rows[m], s.ips[i]);
        FiledStays(s, u, rows[n], created, k, rows[m], i);
      } else {
        assert FiledAs(u, rows[n], i) && SaysRow(u, rows[n], u.ips[i]);
      }
    }
  }

  /** What the first n rows leave: each filed, each added record told by one of them, and as many as were counted. */
  ghost predicate FileDone(t: Tables, a: Tally, rows: seq<Row>, n: nat)
    requires AddressFile(rows) && n <= |rows|
  {
    && a.tables.devices == t.devices && AllFiled(a.tables, rows, n) && AddedSay(t, a.tables, rows, n)
    && |a.tables.ips| == |t.ips| + a.created
  }

  lemma {:induction false} RowsTakeHold(t: Tables, rows: seq<Row>, keys: seq<Keys>, n: nat)
    requires Invariant(t) && AddressFile(rows) && n <= |rows| == |keys| && ImportKeysFresh(t, keys)
    requires ImportRows(t, rows, keys, n).Done?
    ensures FileDone(t, ImportRows(t, rows, keys, n).value, rows, n)
  {
    hide Invariant, ImportRow, ImportKeysFresh, RowKeysFresh, FiledAs, SaysRow, KeepsAddresses, Extends, AllFiled, AddedSay;
    if n == 0 {
      NothingFiled(t, rows);
    } else {
      RowsTakeHold(t, rows, keys, n - 1);
      ImportRowsSafe(t, rows, keys, n - 1);
      var s, row, k := ImportRows(t, rows, keys, n - 1).value, rows[n - 1], keys[n - 1];
      ImportRowSafe(s.tables, row, k);
      AddressRowIsDone(s.tables, row, k);
      var x := ImportRow(s.tables, row, k).value;
      FileStep(t, s.tables, x.tables, rows, n - 1, x.created, k);
    }
  }

  lemma NothingFiled(t: Tables, rows: seq<Row>)
    requires AddressFile(rows)
    ensures AllFiled(t, rows, 0) && AddedSay(t, t, rows, 0)
  {
  }

  lemma AddressesInOrder(rows: seq<Row>)
    requires AddressFile(rows)
    ensures Ordered(rows) == rows
  {
    if rows != [] { assert rows[0] in rows; }
  }

  // ---------------------------------------------------------------- homes an address file makes

  lemma RowMakesHomes(t: Tables, row: Row, k: Keys)
    requires Invariant(t) && row.IpRow? && RowKeysFresh(t, k) && ImportRow(t, row, k).Done?
    ensures var u := ImportRow(t, row, k).value.tables;
            && (k.aggregate in u.aggregates ==> MadeFromColumn(row, u.aggregates[k.aggregate]))
            && (k.prefix in u.prefixes ==> MadeForRow(u, row, k.prefix))
  {
    hide Invariant, ImportRow, MadeFromColumn, Means;
    var u, p, device := RowPath(t, row, k);
    hide Local;
  }

  /** Every prefix and aggregate that an address file added was made for one of its rows; the old ones are as they were. */
  ghost predicate HomesSay(t: Tables, u: Tables, rows: seq<Row>, n: nat)
    requires AddressFile(rows) && n <= |rows|
  {
    && (forall a :: a in t.aggregates ==> a in u.aggregates && u.aggregates[a] == t.aggregates[a])
    && (forall p :: p in t.prefixes ==> p in u.prefixes && u.prefixes[p] == t.prefixes[p])
    && (forall a :: a in u.aggregates && a !in t.aggregates ==> exists m :: 0 <= m < n && MadeFromColumn(rows[m], u.aggregates[a]))
    && (forall p :: p in u.prefixes && p !in t.prefixes ==> exists m :: 0 <= m < n && MadeForRow(u, rows[m], p))
  }

  lemma AggregatesStep(t: Tables, s: Tables, u: Tables, rows: seq<Row>, n: nat, k: Keys, a: nat)
    requires AddressFile(rows) && n < |rows| && Extends(s, u, k) && HomesSay(t, s, rows, n)
    requires k.aggregate in u.aggregates ==> MadeFromColumn(rows[n], u.aggregates[k.aggregate])
    requires a in u.aggregates && a !in t.aggregates
    ensures exists m :: 0 <= m < n + 1 && MadeFromColumn(rows[m], u.aggregates[a])
  {
    hide MadeFromColumn, MadeForRow;
    if a in s.aggregates && u.aggregates[a] == s.aggregates[a] {
      var m :| 0 <= m < n && MadeFromColumn(rows[m], s.aggregates[a]);
      assert MadeFromColumn(rows[m], u.aggregates[a]);
    } else {
      assert a == k.aggregate && MadeFromColumn(rows[n], u.aggregates[a]);
    }
  }

  lemma MadeStays(s: Tables, u: Tables, row: Row, p: nat, k: Keys)
    requires row.IpRow? && Extends(s, u, k) && RowKeysFresh(s, k) && MadeForRow(s, row, p)
    ensures MadeForRow(u, row, p)
  {
    hide Means;
  }

  lemma PrefixesStep(t: Tables, s: Tables, u: Tables, rows: seq<Row>, n: nat, k: Keys, p: nat)
    requires AddressFile(rows) && n < |rows| && Extends(s, u, k) && RowKeysFresh(s, k) && HomesSay(t, s, rows, n)
    requires k.prefix in u.prefixes ==> MadeForRow(u, rows[n], k.prefix)
    requires p in u.prefixes && p !in t.prefixes
    ensures exists m :: 0 <= m < n + 1 && MadeForRow(u, rows[m], p)
  {
    hide MadeFromColumn, MadeForRow;
    if p in s.prefixes {
      var m :| 0 <= m < n && MadeForRow(s, rows[m], p);
      MadeStays(s, u, rows[m], p, k);
    } else {
      assert p == k.prefix && MadeForRow(u, rows[n], p);
    }
  }

  lemma HomesStep(t: Tables, s: Tables, u: Tables, rows: seq<Row>, n: nat, k: Keys)
    requires AddressFile(rows) && n < |rows| && Extends(s, u, k) && RowKeysFresh(s, k) && HomesSay(t, s, rows, n)
    requires k.aggregate in u.aggregates ==> MadeFromColumn(rows[n], u.aggregates[k.aggregate])
    requires k.prefix in u.prefixes ==> MadeForRow(u, rows[n], k.prefix)
    ensures HomesSay(t, u, rows, n + 1)
  {
    hide MadeFromColumn, MadeForRow;
    forall a | a in u.aggregates && a !in t.aggregates ensures exists m :: 0 <= m < n + 1 && MadeFromColumn(rows[m], u.aggregates[a]) {
      AggregatesStep(t, s, u, rows, n, k, a);
    }
    forall p | p in u.prefixes && p !in t.prefixes ensures exists m :: 0 <= m < n + 1 && MadeForRow(u, rows[m], p) {
      PrefixesStep(t, s, u, rows, n, k, p);
    }
  }

  /** What an accepted address file adds besides records. */
  lemma {:induction false} FileMakesHomes(t: Tables, rows: seq<Row>, keys: seq<Keys>, n: nat)
    requires Invariant(t) && AddressFile(rows) && n <= |rows| == |keys| && ImportKeysFresh(t, keys)
    requires ImportRows(t, rows, keys, n).Done?
    ensures HomesSay(t, ImportRows(t, rows, keys, n).value.tables, rows, n)
  {
    hide Invariant, ImportRow, ImportKeysFresh, RowKeysFresh, KeepsAddresses, Extends, MadeFromColumn, MadeForRow;
    if n > 0 {
      FileMakesHomes(t, rows, keys, n - 1);
      ImportRowsSafe(t, rows, keys, n - 1);
      var s := ImportRows(t, rows, keys, n - 1).value.tables;
      ImportRowSafe(s, rows[n - 1], keys[n - 1]);
      RowMakesHomes(s, rows[n - 1], keys[n - 1]);
      HomesStep(t, s, ImportRows(t, rows, keys, n).value.tables, rows, n - 1, keys[n - 1]);
    }
  }

  /**
    An accepted address file: every row has exactly one record of its address in a prefix of its network,
    with the one device it names; every record that was added says what such a row says, and every prefix
    and aggregate that was added was made for one.
    */
  lemma AddressFileTakesHold(t: Tables, rows: seq<Row>, keys: seq<Keys>)
    requires Invariant(t) && AddressFile(rows) && |rows| == |keys| && ImportKeysFresh(t, keys)
    requires RunImport(t, rows, keys).Done?
    ensures FileDone(t, RunImport(t, rows, keys).value, rows, |rows|)
    ensures HomesSay(t, RunImport(t, rows, keys).value.tables, rows, |rows|)
  {
    hide Invariant, ImportKeysFresh, ImportRows, FileDone, HomesSay;
    AddressesInOrder(rows);
    RowsTakeHold(t, rows, keys, |rows|);
    FileMakesHomes(t, rows, keys, |rows|);
  }

  // ---------------------------------------------------------------- the same file again

  ghost predicate OnlyAggregate(t: Tables, name: Text, a: nat) {
    MeansAggregate(t, name, a) && forall b :: MeansAggregate(t, name, b) ==> b == a
  }

  ghost predicate OnlyPrefix(t: Tables, net: Network, p: nat) {
    p in t.prefixes && t.prefixes[p].net == net && forall q :: q in t.prefixes && t.prefixes[q].net == net ==> q == p
  }

  /** What the row names exists once: the aggregate, or without an aggregate column the prefix of its network. */
  ghost predicate OneMeaning(t: Tables, row: Row)
    requires row.IpRow?
  {
    if row.aggregate.Some? then exists a :: OnlyAggregate(t, row.aggregate.value, a)
    else exists p :: OnlyPrefix(t, row.net, p)
  }

  /** The checks that look at the row and at the devices alone. */
  ghost predicate RowFits(t: Tables, row: Row)
    requires row.IpRow?
  {
    (row.status == "" || row.status in STATUSES) && IpRowFits(t, row)
  }

  lemma AcceptedFits(t: Tables, row: Row, k: Keys)
    requires Invariant(t) && row.IpRow? && RowKeysFresh(t, k) && ImportRow(t, row, k).Done?
    ensures RowFits(t, row)
  {
    hide Invariant, Contains, Reserved, HomePrefix, FileAddress, ResolveAggregate, MatchingDevices;
    ResolvedIsMeant(t, row, k.aggregate);
    if row.device.Some? { SameDevices(t, ResolveAggregate(t, row.aggregate, row.net, k.aggregate).value.tables, row.device.value); }
  }

  lemma FitsStays(t: Tables, u: Tables, row: Row)
    requires row.IpRow? && RowFits(t, row) && u.devices == t.devices
    ensures RowFits(u, row)
  {
    hide Contains, Reserved, MatchingDevices;
    if row.device.Some? { SameDevices(t, u, row.device.value); }
  }

  lemma NamedIsOne(t: Tables, name: Text)
    ensures |NamedAggregates(t, name)| == 1 <==> exists a :: OnlyAggregate(t, name, a)
    ensures |NamedAggregates(t, name)| == 1 ==> OnlyAggregate(t, name, TheOnly(NamedAggregates(t, name)))
  {
    hide Canonical;
    var matches := NamedAggregates(t, name);
    forall a: nat ensures a in matches <==> MeansAggregate(t, name, a) {}
    if |matches| == 1 {
      var a := TheOnly(matches);
      assert OnlyAggregate(t, name, a);
    }
    if a: nat :| OnlyAggregate(t, name, a) { assert matches == {a}; }
  }

  lemma SpelledIsOne(t: Tables, net: Network)
    ensures |Spelling(t, net, false, None)| == 1 <==> exists p :: OnlyPrefix(t, net, p)
    ensures forall p: nat :: OnlyPrefix(t, net, p) ==> Spelling(t, net, false, None) == {p}
  {
    var matches := Spelling(t, net, false, None);
    if |matches| == 1 {
      var p := TheOnly(matches);
      forall q: nat ensures q in matches <==> q == p {}
      assert p in matches;
      forall q | q in t.prefixes && t.prefixes[q].net == net ensures q == p { assert q in matches; }
      assert OnlyPrefix(t, net, p);
    }
    forall p: nat | OnlyPrefix(t, net, p) ensures matches == {p} {
      forall q: nat ensures q in matches <==> q == p {}
    }
  }

  /** A row's own home is the only prefix of its network in its aggregate. */
  lemma HomeIsOne(t: Tables, row: Row, p: nat, a: nat)
    requires Invariant(t) && row.IpRow? && row.aggregate.Some? && HomeOf(t, row, p) && OnlyAggregate(t, row.aggregate.value, a)
    ensures Spelling(t, row.net, true, Some(a)) == {p} && AggregateHolds(t.aggregates[a], row.net)
  {
    assert t.prefixes[p].aggregate == Some(a);
    assert PrefixRelationOk(t, p) && a != 0;
    forall q | q in Spelling(t, row.net, true, Some(a)) ensures q == p {
      assert q != p ==> SamePlace(t.prefixes[p], t.prefixes[q]);
    }
    hide Invariant, Means, AggregateHolds;
  }

  /** An address that is filed is found again. */
  lemma FiledIsFound(t: Tables, row: Row, i: nat, device: Ref, key: nat)
    requires row.IpRow? && FiledAs(t, row, i) && DeviceOf(t, row, device)
    ensures FileAddress(t, row, t.ips[i].prefix, device, key) == Done(Imported(t, false))
  {
    hide HomeOf, IsCalled;
    LocalIs(t, t.ips[i].prefix, row.address.value);
    if row.device.Some? {
      var d, e := device.value, t.ips[i].device.value;
      assert d in t.devices && IsCalled(t.devices[d], row.device.value) <==> d == e;
    }
    assert TheOnly(Local(t, t.ips[i].prefix, row.address.value)) == i;
  }

  /** A filed row is accepted again exactly when what it names exists once, and then changes nothing. */
  lemma RowAgain(t: Tables, row: Row, i: nat, k: Keys)
    requires Invariant(t) && row.IpRow? && RowFits(t, row) && FiledAs(t, row, i)
    ensures ImportRow(t, row, k).Done? <==> OneMeaning(t, row)
    ensures ImportRow(t, row, k).Done? ==> ImportRow(t, row, k) == Done(Imported(t, false))
  {
    var device: Ref := if row.device.Some? then Some(TheOnly(MatchingDevices(t, row.device.value))) else None;
    if row.device.Some? { MatchIsDevice(t, row); }
    FiledIsFound(t, row, i, device, k.ip);
    var p := t.ips[i].prefix;
    hide Invariant, Contains, Reserved, FileAddress, MatchingDevices, Means, AggregateHolds, HomePrefix, OneMeaning, FiledAs, DeviceOf;
    HomeAgain(t, row, i, k);
    if row.aggregate.Some? { NamedAgain(t, row, p, k); }
    hide ResolveAggregate;
  }

  /** Where a filed row without an aggregate column goes, and what its meaning being one is. */
  lemma HomeAgain(t: Tables, row: Row, i: nat, k: Keys)
    requires row.IpRow? && FiledAs(t, row, i)
    ensures HomeOf(t, row, t.ips[i].prefix)
    ensures row.aggregate.Some? ==> (OneMeaning(t, row) <==> exists a :: OnlyAggregate(t, row.aggregate.value, a))
    ensures row.aggregate.None? ==> (HomePrefix(t, row, None, k.prefix).Done? <==> OneMeaning(t, row))
    ensures row.aggregate.None? && OneMeaning(t, row) ==> HomePrefix(t, row, None, k.prefix) == Done(Home(t, t.ips[i].prefix))
  {
    hide MeansAggregate, DeviceOf;
    if row.aggregate.None? {
      SpelledIsOne(t, row.net);
      assert t.ips[i].prefix in Spelling(t, row.net, false, None);
      hide Spelling;
      if p: nat :| OnlyPrefix(t, row.net, p) { assert p == t.ips[i].prefix && TheOnly(Spelling(t, row.net, false, None)) == p; }
    }
  }

  /** The aggregate column of a filed row, resolved again. */
  lemma NamedAgain(t: Tables, row: Row, p: nat, k: Keys)
    requires Invariant(t) && row.IpRow? && row.aggregate.Some? && HomeOf(t, row, p)
    ensures ResolveAggregate(t, row.aggregate, row.net, k.aggregate).Done? <==> exists a :: OnlyAggregate(t, row.aggregate.value, a)
    ensures ResolveAggregate(t, row.aggregate, row.net, k.aggregate).Done? ==>
              var r := ResolveAggregate(t, row.aggregate, row.net, k.aggregate).value;
              r.tables == t && HomePrefix(t, row, r.aggregate, k.prefix) == Done(Home(t, p))
  {
    NamedIsOne(t, row.aggregate.value);
    assert t.prefixes[p].aggregate.value in NamedAggregates(t, row.aggregate.value);
    if a: nat :| OnlyAggregate(t, row.aggregate.value, a) {
      HomeIsOne(t, row, p, a);
      assert TheOnly(NamedAggregates(t, row.aggregate.value)) == a;
      assert TheOnly(Spelling(t, row.net, true, Some(a))) == p;
    }
    hide Invariant, NamedAggregates, AggregateHolds, Spelling;
  }

  ghost predicate AllFit(t: Tables, rows: seq<Row>, n: nat)
    requires AddressFile(rows) && n <= |rows|
  {
    forall m :: 0 <= m < n ==> RowFits(t, rows[m])
  }

  lemma {:induction false} AcceptedRowsFit(t: Tables, rows: seq<Row>, keys: seq<Keys>, n: nat)
    requires Invariant(t) && AddressFile(rows) && n <= |rows| == |keys| && ImportKeysFresh(t, keys)
    requires ImportRows(t, rows, keys, n).Done?
    ensures AllFit(ImportRows(t, rows, keys, n).value.tables, rows, n)
  {
    hide Invariant, ImportRow, ImportKeysFresh, RowKeysFresh, KeepsAddresses, Extends, RowFits, RowDone;
    if n > 0 {
      AcceptedRowsFit(t, rows, keys, n - 1);
      ImportRowsSafe(t, rows, keys, n - 1);
      var s := ImportRows(t, rows, keys, n - 1).value.tables;
      var u := ImportRows(t, rows, keys, n).value.tables;
      AcceptedFits(s, rows[n - 1], keys[n - 1]);
      AddressRowIsDone(s, rows[n - 1], keys[n - 1]);
      DoneKeepsDevices(s, u, rows[n - 1], ImportRow(s, rows[n - 1], keys[n - 1]).value.created, keys[n - 1]);
      forall m | 0 <= m < n ensures RowFits(u, rows[m]) { FitsStays(s, u, rows[m]); }
    }
  }

  lemma DoneKeepsDevices(t: Tables, u: Tables, row: Row, created: bool, k: Keys)
    requires row.IpRow? && RowDone(t, u, row, created, k)
    ensures u.devices == t.devices
  {
  }

  ghost predicate AllOneMeaning(t: Tables, rows: seq<Row>, n: nat)
    requires AddressFile(rows) && n <= |rows|
  {
    forall m :: 0 <= m < n ==> OneMeaning(t, rows[m])
  }

  lemma {:induction false} RowsAgain(t: Tables, rows: seq<Row>, keys: seq<Keys>, n: nat)
    requires Invariant(t) && AddressFile(rows) && n <= |rows| == |keys|
    requires AllFiled(t, rows, |rows|) && AllFit(t, rows, |rows|)
    ensures ImportRows(t, rows, keys, n).Done? <==> AllOneMeaning(t, rows, n)
    ensures ImportRows(t, rows, keys, n).Done? ==> ImportRows(t, rows, keys, n) == Done(Tally(t, 0, n))
  {
    hide Invariant, ImportRow, OneMeaning, FiledAs, RowFits;
    if n > 0 {
      RowsAgain(t, rows, keys, n - 1);
      assert IsFiled(t, rows[n - 1]) && RowFits(t, rows[n - 1]);
      var i: nat :| FiledAs(t, rows[n - 1], i);
      RowAgain(t, rows[n - 1], i, keys[n - 1]);
      assert AllOneMeaning(t, rows, n) <==> AllOneMeaning(t, rows, n - 1) && OneMeaning(t, rows[n - 1]);
    }
  }

  /**
    Importing an accepted address file again creates nothing and changes nothing whenever it is accepted;
    and it is accepted exactly when each row's aggregate, or without one the prefix of its network, exists
    once in the tables the first import left.
    */
  lemma AddressFileAgain(t: Tables, rows: seq<Row>, keys: seq<Keys>, keys2: seq<Keys>)
    requires Invariant(t) && AddressFile(rows) && |rows| == |keys| == |keys2| && ImportKeysFresh(t, keys)
    requires RunImport(t, rows, keys).Done?
    ensures var u := RunImport(t, rows, keys).value.tables;
            && (RunImport(u, rows, keys2).Done? <==> AllOneMeaning(u, rows, |rows|))
            && (RunImport(u, rows, keys2).Done? ==> RunImport(u, rows, keys2) == Done(Tally(u, 0, |rows|)))
  {
    hide Invariant, ImportKeysFresh, ImportRows, AllOneMeaning, AllFiled, AllFit, AddedSay;
    AddressesInOrder(rows);
    RowsTakeHold(t, rows, keys, |rows|);
    AcceptedRowsFit(t, rows, keys, |rows|);
    ImportRowsSafe(t, rows, keys, |rows|);
    var u := RunImport(t, rows, keys).value.tables;
    RowsAgain(u, rows, keys2, |rows|);
  }

  // ---------------------------------------------------------------- files without an aggregate column

  ghost predicate OneHome(t: Tables, net: Network) {
    exists p :: OnlyPrefix(t, net, p)
  }

  /** Without an aggregate column a row makes a prefix only for a network that has none. */
  lemma PlainRowPrefixes(t: Tables, row: Row, k: Keys)
    requires row.IpRow? && row.aggregate.None? && ImportRow(t, row, k).Done?
    ensures var u := ImportRow(t, row, k).value.tables;
            (u.prefixes == t.prefixes && OneHome(t, row.net))
            || (k.prefix in u.prefixes && u.prefixes == t.prefixes[k.prefix := u.prefixes[k.prefix]] && u.prefixes[k.prefix].net == row.net
                && forall p :: p in t.prefixes ==> t.prefixes[p].net != row.net)
  {
    hide Contains, Reserved, MatchingDevices, Local;
    SpelledIsOne(t, row.net);
    if Spelling(t, row.net, false, None) == {} {
      forall p | p in t.prefixes ensures t.prefixes[p].net != row.net { assert p !in Spelling(t, row.net, false, None); }
    }
    hide Spelling, OnlyPrefix;
  }

  lemma PlainRowStep(t: Tables, row: Row, k: Keys)
    requires row.IpRow? && row.aggregate.None? && RowKeysFresh(t, k) && ImportRow(t, row, k).Done?
    ensures var u := ImportRow(t, row, k).value.tables; OneHome(u, row.net) && forall n :: OneHome(t, n) ==> OneHome(u, n)
  {
    var u := ImportRow(t, row, k).value.tables;
    hide ImportRow;
    PlainRowPrefixes(t, row, k);
    if u.prefixes != t.prefixes { assert OnlyPrefix(u, row.net, k.prefix); }
    else {
      var p: nat :| OnlyPrefix(t, row.net, p);
      assert OnlyPrefix(u, row.net, p);
    }
    forall n | OneHome(t, n) ensures OneHome(u, n) {
      var p: nat :| OnlyPrefix(t, n, p);
      assert OnlyPrefix(u, n, p);
    }
  }

  lemma {:induction false} PlainRows(t: Tables, rows: seq<Row>, keys: seq<Keys>, n: nat)
    requires Invariant(t) && AddressFile(rows) && n <= |rows| == |keys| && ImportKeysFresh(t, keys)
    requires forall m :: 0 <= m < |rows| ==> rows[m].aggregate.None?
    requires ImportRows(t, rows, keys, n).Done?
    ensures AllOneMeaning(ImportRows(t, rows, keys, n).value.tables, rows, n)
  {
    hide Invariant, ImportRow, ImportKeysFresh, RowKeysFresh, KeepsAddresses, OnlyPrefix;
    if n > 0 {
      PlainRows(t, rows, keys, n - 1);
      ImportRowsSafe(t, rows, keys, n - 1);
      var s := ImportRows(t, rows, keys, n - 1).value.tables;
      PlainRowStep(s, rows[n - 1], keys[n - 1]);
      forall m | 0 <= m < n - 1 ensures OneHome(s, rows[m].net) { assert OneMeaning(s, rows[m]); }
      forall m | 0 <= m < n ensures OneMeaning(ImportRows(t, rows, keys, n).value.tables, rows[m]) {
        assert OneHome(ImportRows(t, rows, keys, n).value.tables, rows[m].net);
      }
    }
  }

  /** A file that leaves the aggregate column empty can always be imported again. */
  lemma PlainFileAgain(t: Tables, rows: seq<Row>, keys: seq<Keys>, keys2: seq<Keys>)
    requires Invariant(t) && AddressFile(rows) && |rows| == |keys| == |keys2| && ImportKeysFresh(t, keys)
    requires forall m :: 0 <= m < |rows| ==> rows[m].aggregate.None?
    requires RunImport(t, rows, keys).Done?
    ensures var u := RunImport(t, rows, keys).value.tables; RunImport(u, rows, keys2) == Done(Tally(u, 0, |rows|))
  {
    hide Invariant, ImportKeysFresh, AllOneMeaning, ImportRows;
    AddressesInOrder(rows);
    PlainRows(t, rows, keys, |rows|);
    AddressFileAgain(t, rows, keys, keys2);
  }

  // ---------------------------------------------------------------- a file that cannot be imported again

  const SINGLE: Network := RawCidr(V4, 5, 32)
  const NOWHERE := Tables(map[], map[], map[], map[], map[], map[], map[])

  function SingleRow(aggregate: Option<Text>): Row {
    IpRow(SINGLE, aggregate, Some(Addr(V4, 5)), "", "", None, "", "")
  }

  function SingleRecord(prefix: nat): IpRecord {
    IpRecord(prefix, Addr(V4, 5), PLANNED, STATIC, None, None, "", "")
  }

  /** After the first row: a prefix without aggregate. */
  function AfterFirst(): Tables {
    NOWHERE.(prefixes := map[1 := Prefix(SINGLE, None, None, BARE)], ips := map[1 := SingleRecord(1)])
  }

  /** After the second: the same network again, in the aggregate its column made. */
  function AfterSecond(): Tables {
    AfterFirst().(aggregates := map[2 := Aggregate(Block(SINGLE), Block(SINGLE), FROM_COLUMN)],
                  prefixes := map[1 := Prefix(SINGLE, None, None, BARE), 2 := Prefix(SINGLE, Some(2), None, BARE)],
                  ips := map[1 := SingleRecord(1), 2 := SingleRecord(2)])
  }

  lemma SingleFits(t: Tables, aggregate: Option<Text>)
    ensures IpRowFits(t, SingleRow(aggregate)) && Mask(SINGLE) == SINGLE && SubnetOf(SINGLE, SINGLE)
  {
    MaskMeaning(SINGLE);
  }

  lemma FirstSingle()
    ensures ImportRow(NOWHERE, SingleRow(None), Keys(1, 1, 1)) == Done(Imported(AfterFirst(), true))
  {
    SingleFits(NOWHERE, None);
    assert Spelling(NOWHERE, SINGLE, false, None) == {};
    var t := NOWHERE.(prefixes := map[1 := Prefix(SINGLE, None, None, BARE)]);
    assert NOWHERE.prefixes[1 := Prefix(SINGLE, None, None, BARE)] == t.prefixes;
    assert Local(t, 1, Addr(V4, 5)) == {};
    assert t.ips[1 := SingleRecord(1)] == AfterFirst().ips;
    hide IpRowFits;
  }

  lemma SecondSingle()
    ensures ImportRow(AfterFirst(), SingleRow(Some(Block(SINGLE))), Keys(2, 2, 2)) == Done(Imported(AfterSecond(), true))
  {
    var a := AfterFirst();
    var row := SingleRow(Some(Block(SINGLE)));
    SingleFits(a, None);
    assert NamedAggregates(a, Block(SINGLE)) == {};
    var r := a.(aggregates := AfterSecond().aggregates);
    assert a.aggregates[2 := Aggregate(Block(SINGLE), Block(SINGLE), FROM_COLUMN)] == r.aggregates;
    assert ResolveAggregate(a, Some(Block(SINGLE)), SINGLE, 2) == Done(Resolved(r, Some(2)));
    SingleFits(r, Some(Block(SINGLE)));
    hide IpRowFits, ResolveAggregate, Mask, NamedAggregates;
    assert Spelling(r, SINGLE, true, Some(2)) == {};
    var h := r.(prefixes := AfterSecond().prefixes);
    assert r.prefixes[2 := Prefix(SINGLE, Some(2), None, BARE)] == h.prefixes;
    assert Local(h, 2, Addr(V4, 5)) == {};
    assert h.ips[2 := SingleRecord(2)] == AfterSecond().ips;
  }

  /**
    The file that fails: one row without, one with an aggregate column, for the same network. It is accepted
    into an empty inventory, and then refused, because the first row's network now means two prefixes.
    */
  lemma SomeFileIsRefusedAgain(keys2: seq<Keys>) returns (rows: seq<Row>, keys: seq<Keys>, u: Tables)
    requires |keys2| == 2
    ensures AddressFile(rows) && |rows| == |keys| == 2 && Invariant(NOWHERE) && ImportKeysFresh(NOWHERE, keys)
    ensures RunImport(NOWHERE, rows, keys) == Done(Tally(u, 2, 0))
    ensures RunImport(u, rows, keys2).Refused?
  {
    rows, keys, u := [SingleRow(None), SingleRow(Some(Block(SINGLE)))], [Keys(1, 1, 1), Keys(2, 2, 2)], AfterSecond();
    hide Invariant, ImportRows, OneMeaning, AfterSecond, ImportKeysFresh, Complete, SingleRow, AllOneMeaning;
    NowhereIsConsistent();
    BothSingles(rows, keys);
    AddressFileAgain(NOWHERE, rows, keys, keys2);
  }

  lemma BothSingleRows(rows: seq<Row>, keys: seq<Keys>)
    requires rows == [SingleRow(None), SingleRow(Some(Block(SINGLE)))] && keys == [Keys(1, 1, 1), Keys(2, 2, 2)]
    ensures ImportRows(NOWHERE, rows, keys, 2) == Done(Tally(AfterSecond(), 2, 0))
  {
    FirstSingle();
    SecondSingle();
    hide ImportRow, AfterFirst, AfterSecond, SingleRow;
    assert ImportRows(NOWHERE, rows, keys, 0) == Done(Tally(NOWHERE, 0, 0));
    assert ImportRows(NOWHERE, rows, keys, 1) == Done(Tally(AfterFirst(), 1, 0));
  }

  lemma BothSingles(rows: seq<Row>, keys: seq<Keys>)
    requires rows == [SingleRow(None), SingleRow(Some(Block(SINGLE)))] && keys == [Keys(1, 1, 1), Keys(2, 2, 2)]
    ensures AddressFile(rows) && ImportKeysFresh(NOWHERE, keys)
    ensures RunImport(NOWHERE, rows, keys) == Done(Tally(AfterSecond(), 2, 0))
    ensures !AllOneMeaning(AfterSecond(), rows, 2)
  {
    hide ImportRows, AfterSecond, OneMeaning;
    BothSingleRows(rows, keys);
    TwoMeanings();
    AddressesInOrder(rows);
    assert !OneMeaning(AfterSecond(), rows[0]);
  }

  lemma NowhereIsConsistent()
    ensures Invariant(NOWHERE)
  {
  }

  lemma TwoMeanings()
    ensures !OneMeaning(AfterSecond(), SingleRow(None))
  {
    var u := AfterSecond();
    assert 1 in u.prefixes && 2 in u.prefixes && u.prefixes[1].net == SINGLE && u.prefixes[2].net == SINGLE;
  }
}
