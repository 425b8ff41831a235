/** How many addresses a prefix has, how many can be registered, and what bulk generation fills. */
module IpamCapacity {
  import opened Collections
  import opened Addressing
  import opened IpamTables
  import opened IpamRules
  import opened IpamSafety

  datatype Counts = Counts(total: nat, usable: nat)

  /** _prefix_counts: text that spells no network counts as empty. */
  function PrefixCounts(text: Text): Counts {
    if text.Words? then Counts(0, 0)
    else
      var total := Size(Mask(text.cidr));
      Counts(total, if total <= 2 || text.cidr.version == V6 then total else total - 2)
  }

  // ---------------------------------------------------------------- counting

  /** Numbers told apart by a map into [lo, hi) are at most hi - lo many. */
  lemma {:induction false} DistinctValuesFit(ids: set<nat>, value: map<nat, int>, lo: int, hi: int)
    requires ids <= value.Keys && lo <= hi
    requires forall i :: i in ids ==> lo <= value[i] < hi
    requires forall i, j :: i in ids && j in ids && i != j ==> value[i] != value[j]
    ensures |ids| <= hi - lo
    decreases hi - lo
  {
    if lo == hi {
      assert ids == {};
    } else {
      var below := set i | i in ids && value[i] != hi - 1;
      DistinctValuesFit(below, value, lo, hi - 1);
      if below != ids {
        var top :| top in ids && value[top] == hi - 1;
        assert ids == below + {top};
      }
    }
  }

  lemma {:induction false} RangeSize(s: set<nat>, lo: nat, hi: nat)
    requires lo <= hi
    requires forall x :: x in s <==> lo <= x < hi
    ensures |s| == hi - lo
    decreases hi - lo
  {
    if lo < hi {
      var top: nat := hi - 1;
      RangeSize(s - {top}, lo, top);
      assert s == (s - {top}) + {top};
    } else {
      assert s == {};
    }
  }

  /** The numbers of a network's addresses, and of those that are not reserved. */
  ghost function Values(n: Network): set<nat> {
    set x: nat | x <= Last(n) && Contains(n, Addr(n.version, x))
  }

  ghost function UsableValues(n: Network): set<nat> {
    set x: nat | x <= Last(n) && Contains(n, Addr(n.version, x)) && !Reserved(n, Addr(n.version, x))
  }

  /**
    `total` and `usable` count addresses: `usable` is the number of IPv4 addresses that an
    allocation may take. A /31 keeps both of its addresses, as section 2.1 of RFC 3021 has it.
    */
  lemma CountsAreExact(n: Network)
    ensures PrefixCounts(Block(n)).total == |Values(n)|
    ensures PrefixCounts(Block(n)).usable == |UsableValues(n)|
    ensures n.version == V4 && n.length == 31 ==> UsableValues(n) == {n.value, n.value + 1}
  {
    MaskMeaning(n);
    RangeSize(Values(n), n.value, Last(n) + 1);
    SmallBlocks(n);
    if n.version == V4 && n.length < 31 {
      RangeSize(UsableValues(n), n.value + 1, Last(n));
    } else {
      assert UsableValues(n) == Values(n);
    }
  }

  /** A block holds at most two addresses exactly when its mask leaves at most one bit. */
  lemma SmallBlocks(n: Network)
    ensures Size(n) <= 2 <==> Width(n.version) - n.length <= 1
    ensures Width(n.version) - n.length == 1 ==> Size(n) == 2
    ensures Width(n.version) - n.length == 0 ==> Size(n) == 1
    ensures Size(n) > 2 ==> Size(n) >= 4
  {
    assert Pow2(0) == 1 && Pow2(1) == 2 && Pow2(2) == 4;
    if Width(n.version) - n.length >= 2 { Pow2Grows(2, Width(n.version) - n.length); }
  }

  ghost predicate IsHost(n: Network, a: Addr) {
    exists k :: 0 <= k < HostCount(n) && a == Host(n, k)
  }

  /** Generation makes exactly the IPv4 addresses that an allocation would not turn down as reserved. */
  lemma HostsAreUnreserved(n: Network, a: Addr)
    requires n.version == V4
    ensures IsHost(n, a) <==> Contains(n, a) && !Reserved(n, a)
  {
    SmallBlocks(n);
    if Contains(n, a) && !Reserved(n, a) {
      assert a == Host(n, a.value - FirstHost(n));
    }
  }

  /**
    The count of usable addresses is the count of generated hosts except on IPv6 blocks of more
    than two addresses, where hosts() leaves out the first address and the count does not.
    */
  lemma UsableMeansGenerated(n: Network)
    ensures PrefixCounts(Block(n)).usable == HostCount(n) <==> n.version == V4 || Size(n) <= 2
  {
    MaskMeaning(n);
  }

  // ---------------------------------------------------------------- what fits

  ghost function RecordsOf(t: Tables, prefix: nat): set<nat> {
    set i | i in t.ips && t.ips[i].prefix == prefix
  }

  /** Two records of one IPv4 prefix lie in its range and differ in value. */
  lemma RecordsDiffer(t: Tables, prefix: nat, i: nat, j: nat)
    requires Clean(t) && UniqueAddresses(t) && prefix in t.prefixes && t.prefixes[prefix].net.version == V4
    requires i in RecordsOf(t, prefix) && j in RecordsOf(t, prefix) && i != j
    ensures t.ips[i].address.value != t.ips[j].address.value
  {
    assert IpRelationOk(t, i) && IpRelationOk(t, j);
  }

  /** An IPv4 prefix never holds more records than addresses. */
  lemma RecordsFit(t: Tables, prefix: nat)
    requires Clean(t) && UniqueAddresses(t) && prefix in t.prefixes && t.prefixes[prefix].net.version == V4
    ensures |RecordsOf(t, prefix)| <= PrefixCounts(Block(t.prefixes[prefix].net)).total
  {
    var n := t.prefixes[prefix].net;
    MaskMeaning(n);
    var records := RecordsOf(t, prefix);
    var value := map i | i in records :: t.ips[i].address.value;
    forall i | i in records ensures n.value <= value[i] <= Last(n) { assert IpRelationOk(t, i); }
    hide Clean, UniqueAddresses, Contains;
    forall i, j | i in records && j in records && i != j ensures value[i] != value[j] { RecordsDiffer(t, prefix, i, j); }
    DistinctValuesFit(records, value, n.value, Last(n) + 1);
  }

  // ---------------------------------------------------------------- generation

  /** The hosts among the first n that have no record yet. */
  ghost function Unregistered(t: Tables, prefix: nat, n: nat): set<nat>
    requires prefix in t.prefixes
  {
    set k: nat | k < n && !Registered(t, prefix, Host(t.prefixes[prefix].net, k))
  }

  /** The tables once the first n hosts have been seen to. */
  ghost function After(t: Tables, prefix: nat, keys: seq<nat>, n: nat): Tables
    requires prefix in t.prefixes && n <= |keys|
  {
    t.(ips := Generated(t, prefix, keys, n))
  }

  /** The n-th host is skipped, or recorded under a key not used before. */
  lemma OneMoreHost(t: Tables, prefix: nat, keys: seq<nat>, n: nat)
    requires prefix in t.prefixes && 0 < n <= |keys| && FreshKeys(keys, t.ips.Keys)
    ensures var host := Host(t.prefixes[prefix].net, n - 1);
            Generated(t, prefix, keys, n) ==
              if Registered(t, prefix, host) then Generated(t, prefix, keys, n - 1)
              else Generated(t, prefix, keys, n - 1)[keys[n - 1] := PlannedRecord(prefix, host)]
    ensures keys[n - 1] !in t.ips && keys[n - 1] !in keys[..n - 1] && keys[..n] == keys[..n - 1] + [keys[n - 1]]
  {
    assert keys[n - 1] in keys;
  }

  ghost predicate Extends(t: Tables, after: map<nat, IpRecord>) {
    forall i :: i in t.ips ==> i in after && after[i] == t.ips[i]
  }

  lemma OneMoreUnregistered(t: Tables, prefix: nat, n: nat)
    requires prefix in t.prefixes && n > 0
    ensures |Unregistered(t, prefix, n)| == |Unregistered(t, prefix, n - 1)|
              + if Registered(t, prefix, Host(t.prefixes[prefix].net, n - 1)) then 0 else 1
  {
    hide Registered;
    var last: nat := n - 1;
    if Registered(t, prefix, Host(t.prefixes[prefix].net, last)) {
      assert Unregistered(t, prefix, n) == Unregistered(t, prefix, last);
    } else {
      assert Unregistered(t, prefix, n) == Unregistered(t, prefix, last) + {last};
    }
  }

  lemma {:induction false} GeneratedAdds(t: Tables, prefix: nat, keys: seq<nat>, n: nat)
    requires prefix in t.prefixes && n <= |keys| && FreshKeys(keys, t.ips.Keys)
    ensures Extends(t, Generated(t, prefix, keys, n))
    ensures forall i :: i in Generated(t, prefix, keys, n) ==> i in t.ips || i in keys[..n]
    ensures |Generated(t, prefix, keys, n)| == |t.ips| + |Unregistered(t, prefix, n)|
  {
    if n == 0 {
      assert Unregistered(t, prefix, n) == {};
    } else {
      hide Generated, Registered, Unregistered, FreshKeys, Host;
      GeneratedAdds(t, prefix, keys, n - 1);
      OneMoreHost(t, prefix, keys, n);
      OneMoreUnregistered(t, prefix, n);
      assert keys[n - 1] !in Generated(t, prefix, keys, n - 1);
    }
  }

  lemma AfterGrows(t: Tables, prefix: nat, keys: seq<nat>, n: nat)
    requires prefix in t.prefixes && 0 < n <= |keys| && FreshKeys(keys, t.ips.Keys)
    ensures Extends(t, After(t, prefix, keys, n).ips)
    ensures Extends(After(t, prefix, keys, n - 1), After(t, prefix, keys, n).ips)
    ensures Registered(After(t, prefix, keys, n), prefix, Host(t.prefixes[prefix].net, n - 1))
  {
    hide Generated, FreshKeys, Host, HostCount;
    var host := Host(t.prefixes[prefix].net, n - 1);
    OneMoreHost(t, prefix, keys, n);
    GeneratedAdds(t, prefix, keys, n - 1);
    GeneratedAdds(t, prefix, keys, n);
    if Registered(t, prefix, host) { StaysRegistered(t, After(t, prefix, keys, n), prefix, host); }
    else { RegisteredBy(After(t, prefix, keys, n), keys[n - 1], prefix, host); }
  }

  lemma {:induction false} GeneratedFills(t: Tables, prefix: nat, keys: seq<nat>, n: nat, k: nat)
    requires prefix in t.prefixes && k < n <= |keys| && FreshKeys(keys, t.ips.Keys)
    ensures Registered(After(t, prefix, keys, n), prefix, Host(t.prefixes[prefix].net, k))
    decreases n
  {
    hide *;
    AfterGrows(t, prefix, keys, n);
    if k < n - 1 {
      GeneratedFills(t, prefix, keys, n - 1, k);
      StaysRegistered(After(t, prefix, keys, n - 1), After(t, prefix, keys, n), prefix, Host(t.prefixes[prefix].net, k));
    }
  }

  lemma RegisteredBy(t: Tables, i: nat, prefix: nat, a: Addr)
    requires i in t.ips && t.ips[i].prefix == prefix && t.ips[i].address == a
    ensures Registered(t, prefix, a)
  {
  }

  lemma StaysRegistered(t: Tables, u: Tables, prefix: nat, a: Addr)
    requires Extends(t, u.ips)
    ensures Registered(t, prefix, a) ==> Registered(u, prefix, a)
  {
  }

  lemma {:induction false} NothingLeftToGenerate(t: Tables, prefix: nat, keys: seq<nat>, n: nat)
    requires prefix in t.prefixes && n <= |keys|
    requires forall k :: 0 <= k < n ==> Registered(t, prefix, Host(t.prefixes[prefix].net, k))
    ensures Generated(t, prefix, keys, n) == t.ips
  {
    if n > 0 { NothingLeftToGenerate(t, prefix, keys, n - 1); }
  }

  /**
    An accepted generation leaves every host of the prefix registered, adds exactly one record for
    each host that had none, and a second generation changes nothing.
    */
  lemma GenerationFillsThePrefix(t: Tables, prefix: nat, keys: seq<nat>, again: seq<nat>)
    requires prefix in t.prefixes && |keys| == |again| == HostCount(t.prefixes[prefix].net)
    requires FreshKeys(keys, t.ips.Keys)
    ensures match Generate(t, prefix, keys)
            case Refused(_) => HostCount(t.prefixes[prefix].net) > MAX_BULK_IPS
            case Done(u) =>
              && (forall a :: IsHost(t.prefixes[prefix].net, a) ==> Registered(u, prefix, a))
              && |u.ips| == |t.ips| + |Unregistered(t, prefix, |keys|)|
              && Generate(u, prefix, again) == Done(u)
  {
    GeneratedAdds(t, prefix, keys, |keys|);
    forall k: nat | k < |keys| ensures Registered(After(t, prefix, keys, |keys|), prefix, Host(t.prefixes[prefix].net, k)) {
      GeneratedFills(t, prefix, keys, |keys|, k);
    }
    var u := After(t, prefix, keys, |keys|);
    NothingLeftToGenerate(u, prefix, again, |again|);
  }
}
