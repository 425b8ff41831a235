/** Reading a firewall's DHCP pool: its ranges, its size and the addresses leased from it. */
module DhcpPools {
  import opened Collections
  import opened Addressing
  import Sorting

  datatype Range = Range(lo: nat, hi: nat)

  /** The order of pairs. */
  predicate Before(a: Range, b: Range) {
    a.lo < b.lo || (a.lo == b.lo && a.hi <= b.hi)
  }

  predicate Within(r: Range, x: nat) {
    r.lo <= x <= r.hi
  }

  predicate Legal(r: Range, net: Network) {
    Contains(net, Addr(V4, r.lo)) && Contains(net, Addr(V4, r.hi)) && r.lo <= r.hi
  }

  /** How many of the ranges hold x. */
  function Cover(rs: seq<Range>, x: nat): nat {
    if rs == [] then 0 else (if Within(rs[0], x) then 1 else 0) + Cover(rs[1..], x)
  }

  /** No address lies in two of the ranges. */
  ghost predicate Unshared(rs: seq<Range>) {
    forall x: nat :: Cover(rs, x) <= 1
  }

  /** Ranges that make up a pool: some, all inside the network, and none sharing an address. */
  ghost predicate IsPool(rs: seq<Range>, net: Network) {
    rs != [] && (forall r :: r in rs ==> Legal(r, net)) && Unshared(rs)
  }

  /** The addresses of a pool. */
  ghost function Addresses(rs: seq<Range>): (s: set<nat>)
    ensures forall x :: x in s <==> exists r :: r in rs && Within(r, x)
  {
    if rs == [] then {}
    else
      assert forall r :: r in rs <==> r == rs[0] || r in rs[1..];
      (set x | x in Span(rs[0])) + Addresses(rs[1..])
  }

  ghost function Span(r: Range): (s: set<nat>)
    ensures forall x :: x in s <==> Within(r, x)
  {
    set x: nat | x <= r.hi && Within(r, x)
  }

  lemma {:induction false} SpanSize(r: Range)
    requires r.lo <= r.hi
    ensures |Span(r)| == r.hi - r.lo + 1
    decreases r.hi
  {
    if r.lo == r.hi {
      assert Span(r) == {r.hi};
    } else {
      SpanSize(Range(r.lo, r.hi - 1));
      assert Span(r) == Span(Range(r.lo, r.hi - 1)) + {r.hi};
    }
  }

  // ---------------------------------------------------------------- sorting keeps the pool

  lemma {:induction false} CoverInsert(r: Range, rs: seq<Range>, x: nat)
    ensures Cover(Sorting.Insert(r, rs, Before), x) == (if Within(r, x) then 1 else 0) + Cover(rs, x)
  {
    if rs != [] && !Before(r, rs[0]) { CoverInsert(r, rs[1..], x); }
  }

  lemma {:induction false} CoverSort(rs: seq<Range>, x: nat)
    ensures Cover(Sorting.Sort(rs, Before), x) == Cover(rs, x)
  {
    if rs != [] {
      CoverSort(rs[1..], x);
      CoverInsert(rs[0], Sorting.Sort(rs[1..], Before), x);
    }
  }

  lemma SortedIsSamePool(rs: seq<Range>, net: Network)
    ensures IsPool(Sorting.Sort(rs, Before), net) <==> IsPool(rs, net)
    ensures Addresses(Sorting.Sort(rs, Before)) == Addresses(rs)
    ensures Sorting.Ascending(Sorting.Sort(rs, Before), Before)
  {
    var sorted := Sorting.Sort(rs, Before);
    forall r ensures r in sorted <==> r in rs {
      assert r in multiset(sorted) <==> r in multiset(rs);
    }
    forall x ensures Cover(sorted, x) == Cover(rs, x) { CoverSort(rs, x); }
    assert Sorting.TotalPreorder(Before);
    Sorting.SortAscends(rs, Before);
  }

  predicate Follows(rs: seq<Range>, i: nat)
    requires 1 <= i < |rs|
  {
    rs[i - 1].hi < rs[i].lo
  }

  /** Each range starts after the one before it ends. */
  predicate Apart(rs: seq<Range>) {
    forall i :: 1 <= i < |rs| ==> Follows(rs, i)
  }

  lemma ApartTail(rs: seq<Range>)
    requires Apart(rs) && rs != []
    ensures Apart(rs[1..]) && Apart(rs[..|rs| - 1])
  {
    var tail, front := rs[1..], rs[..|rs| - 1];
    forall i | 1 <= i < |tail| ensures Follows(tail, i) { assert Follows(rs, i + 1); }
    forall i | 1 <= i < |front| ensures Follows(front, i) { assert Follows(rs, i); }
  }

  lemma {:induction false} NothingBelow(rs: seq<Range>, x: nat)
    requires Apart(rs) && (forall r :: r in rs ==> r.lo <= r.hi) && (rs != [] ==> x < rs[0].lo)
    ensures Cover(rs, x) == 0
  {
    if rs != [] {
      if |rs| > 1 { assert Follows(rs, 1) && rs[0] in rs; }
      ApartTail(rs);
      NothingBelow(rs[1..], x);
    }
  }

  /** Ranges that stay apart share no address. */
  lemma {:induction false} ApartCoverOnce(rs: seq<Range>, x: nat)
    requires Apart(rs) && forall r :: r in rs ==> r.lo <= r.hi
    ensures Cover(rs, x) <= 1
  {
    if rs != [] {
      ApartTail(rs);
      ApartCoverOnce(rs[1..], x);
      if |rs| > 1 { assert Follows(rs, 1); }
      if Within(rs[0], x) { NothingBelow(rs[1..], x); }
    }
  }

  lemma {:induction false} CoveredTwice(rs: seq<Range>, i: nat, j: nat, x: nat)
    requires i < j < |rs| && Within(rs[i], x) && Within(rs[j], x)
    ensures Cover(rs, x) >= 2
  {
    if i == 0 { CoveredOnce(rs[1..], j - 1, x); } else { CoveredTwice(rs[1..], i - 1, j - 1, x); }
  }

  lemma {:induction false} CoveredOnce(rs: seq<Range>, i: nat, x: nat)
    requires i < |rs| && Within(rs[i], x)
    ensures Cover(rs, x) >= 1
  {
    if i > 0 { CoveredOnce(rs[1..], i - 1, x); }
  }

  /** On sorted ranges, comparing neighbours is enough to know that no two ranges meet. */
  lemma NeighboursSuffice(rs: seq<Range>)
    requires Sorting.Ascending(rs, Before) && forall r :: r in rs ==> r.lo <= r.hi
    ensures Apart(rs) <==> Unshared(rs)
  {
    if Apart(rs) {
      forall x ensures Cover(rs, x) <= 1 { ApartCoverOnce(rs, x); }
    } else {
      var i :| 1 <= i < |rs| && !Follows(rs, i);
      assert Before(rs[i - 1], rs[i]) && rs[i] in rs && rs[i - 1] in rs;
      CoveredTwice(rs, i - 1, i, rs[i].lo);
    }
  }

  lemma AcceptedIsPool(values: seq<Range>, net: Network)
    requires forall r :: r in values ==> Legal(r, net)
    ensures var sorted := Sorting.Sort(values, Before);
            && (IsPool(values, net) <==> sorted != [] && Apart(sorted))
            && (IsPool(values, net) ==> IsPool(sorted, net))
            && Addresses(sorted) == Addresses(values) && multiset(sorted) == multiset(values)
  {
    SortedIsSamePool(values, net);
    hide Unshared, Sorting.Sort, Apart, Addresses;
    var sorted := Sorting.Sort(values, Before);
    forall r | r in sorted ensures Legal(r, net) { assert r in multiset(sorted); }
    NeighboursSuffice(sorted);
  }

  /**
    ranges(): the pool's ranges in ascending order, or nothing. What is accepted is exactly a pool,
    and the result has its addresses.
    */
  method Ranges(values: seq<Range>, net: Network) returns (bounds: Option<seq<Range>>)
    ensures bounds.Some? <==> IsPool(values, net)
    ensures bounds.Some? ==> IsPool(bounds.value, net) && Addresses(bounds.value) == Addresses(values)
    ensures bounds.Some? ==> Apart(bounds.value) && multiset(bounds.value) == multiset(values)
  {
    hide Legal, Addresses, Cover, Sorting.Sort;
    var result: seq<Range> := [];
    var i := 0;
    while i < |values|
      invariant i <= |values| && result == values[..i] && forall r :: r in result ==> Legal(r, net)
    {
      if !Legal(values[i], net) {
        assert values[i] in values;
        return None;
      }
      result := result + [values[i]];
      i := i + 1;
    }
    assert result == values;
    result := Sorting.Sort(result, Before);
    AcceptedIsPool(values, net);
    if result == [] { return None; }
    i := 1;
    while i < |result|
      invariant 1 <= i <= |result| && forall j :: 1 <= j < i ==> Follows(result, j)
    {
      if result[i].lo <= result[i - 1].hi {
        assert !Follows(result, i);
        return None;
      }
      i := i + 1;
    }
    bounds := Some(result);
  }

  // ---------------------------------------------------------------- counting the pool

  function Total(rs: seq<Range>): int {
    if rs == [] then 0 else Total(rs[..|rs| - 1]) + (rs[|rs| - 1].hi - rs[|rs| - 1].lo + 1)
  }

  lemma {:induction false} ApartIsAscending(rs: seq<Range>, i: nat, j: nat)
    requires Apart(rs) && i < j < |rs| && forall r :: r in rs ==> r.lo <= r.hi
    ensures rs[i].hi < rs[j].lo
    decreases j
  {
    assert Follows(rs, j);
    if i < j - 1 {
      ApartIsAscending(rs, i, j - 1);
      assert rs[j - 1] in rs;
    }
  }

  lemma LastRangeIsNew(rs: seq<Range>)
    requires rs != [] && Apart(rs) && forall r :: r in rs ==> r.lo <= r.hi
    ensures var front, last := rs[..|rs| - 1], rs[|rs| - 1];
            Addresses(rs) == Addresses(front) + Span(last) && Addresses(front) !! Span(last)
  {
    var front, last := rs[..|rs| - 1], rs[|rs| - 1];
    assert rs == front + [last];
    forall x ensures x in Addresses(rs) <==> x in Addresses(front) + Span(last) {
      assert x in Addresses(rs) ==> exists r :: r in front + [last] && Within(r, x);
    }
    forall x | x in Addresses(front) ensures x !in Span(last) {
      var i :| 0 <= i < |front| && Within(front[i], x);
      ApartIsAscending(rs, i, |rs| - 1);
    }
  }

  /** The sum of the range lengths is the number of different addresses. */
  lemma {:induction false} TotalIsCount(rs: seq<Range>)
    requires Apart(rs) && forall r :: r in rs ==> r.lo <= r.hi
    ensures Total(rs) == |Addresses(rs)|
    decreases |rs|
  {
    if rs != [] {
      var front, last := rs[..|rs| - 1], rs[|rs| - 1];
      assert last in rs;
      LastRangeIsNew(rs);
      ApartTail(rs);
      hide Addresses, Apart;
      TotalIsCount(front);
      SpanSize(last);
    }
  }

  /** The first start and the last end are the smallest and the largest address of the pool. */
  lemma EndsArePoolEnds(rs: seq<Range>)
    requires rs != [] && Apart(rs) && forall r :: r in rs ==> r.lo <= r.hi
    ensures rs[0].lo in Addresses(rs) && rs[|rs| - 1].hi in Addresses(rs)
    ensures forall x :: x in Addresses(rs) ==> rs[0].lo <= x <= rs[|rs| - 1].hi
  {
    var last := |rs| - 1;
    assert rs[0] in rs && rs[last] in rs;
    forall x | x in Addresses(rs) ensures rs[0].lo <= x <= rs[last].hi {
      var i :| 0 <= i < |rs| && Within(rs[i], x);
      if i > 0 { ApartIsAscending(rs, 0, i); }
      if i < last { ApartIsAscending(rs, i, last); }
    }
  }

  // ---------------------------------------------------------------- what a device answers

  /** One DHCP server entry; `net` is None when scope and mask do not spell a network exactly. */
  datatype Server = Server(iface: string, enabled: bool, regular: bool, ranged: bool, net: Option<Network>,
                           ranges: seq<Range>, excludes: bool)

  /** A lease row as decoded; the address is None when it does not parse. */
  datatype Lease = Garbled | Lease(iface: string, kind: string, status: string, ip: Option<nat>)

  datatype PoolUse = PoolUse(start: nat, end: nat, ranges: seq<Range>, used: nat, free: nat, percent: real)

  /** snapshot(): refuses figures that cannot be. `used` and `total` are as reported or as counted. */
  function PoolFigures(pools: seq<Range>, used: int, total: int): Option<PoolUse>
    requires pools != []
  {
    if total <= 0 || used < 0 || used > total then None
    else Some(PoolUse(pools[0].lo, pools[|pools| - 1].hi, pools, used, total - used, used as real * 100.0 / total as real))
  }

  /** A lease row that lets the reading go on. */
  ghost predicate Readable(l: Lease, iface: string, pool: set<nat>) {
    && l.Lease?
    && (l.iface == iface ==>
          && l.kind == "ipv4"
          && (l.status == "expired" || (l.status == "leased" && l.ip.Some? && l.ip.value in pool)))
  }

  /** The addresses leased on an interface, each once however many rows report it. */
  ghost function Leased(ls: seq<Lease>, iface: string): (s: set<nat>)
    ensures forall x :: x in s <==> exists l :: l in ls && IsLease(l, iface, x)
  {
    if ls == [] then {}
    else
      var front, last := ls[..|ls| - 1], ls[|ls| - 1];
      assert ls == front + [last];
      var rest := Leased(front, iface);
      if last.Lease? && last.ip.Some? && IsLease(last, iface, last.ip.value) then rest + {last.ip.value} else rest
  }

  predicate IsLease(l: Lease, iface: string, x: nat) {
    l.Lease? && l.iface == iface && l.status == "leased" && l.ip == Some(x)
  }

  predicate InSome(bounds: seq<Range>, x: nat)
    ensures InSome(bounds, x) <==> x in Addresses(bounds)
  {
    exists r :: r in bounds && Within(r, x)
  }

  /** The distinct leased addresses, or nothing when a row cannot be trusted. */
  method ReadLeases(leases: seq<Lease>, iface: string, bounds: seq<Range>) returns (seen: Option<set<nat>>)
    ensures seen.Some? <==> Trusted(leases, iface, Addresses(bounds))
    ensures seen.Some? ==> seen.value == Leased(leases, iface) && seen.value <= Addresses(bounds)
  {
    hide Addresses;
    var found: set<nat> := {};
    var i := 0;
    while i < |leases|
      invariant i <= |leases|
      invariant found == Leased(leases[..i], iface) && found <= Addresses(bounds)
      invariant forall l :: l in leases[..i] ==> Readable(l, iface, Addresses(bounds))
    {
      var l := leases[i];
      assert l in leases && leases[..i + 1] == leases[..i] + [l] && leases[..i + 1][..i] == leases[..i];
      if l.Garbled? { return None; }
      if l.iface == iface {
        if l.kind != "ipv4" || (l.status != "leased" && l.status != "expired") { return None; }
        if l.status == "leased" {
          if l.ip.None? || !InSome(bounds, l.ip.value) { return None; }
          found := found + {l.ip.value};
        }
      }
      i := i + 1;
    }
    assert leases[..i] == leases;
    seen := Some(found);
  }

  /** Entry k is the only one for the interface. */
  ghost predicate Sole(servers: seq<Server>, iface: string, k: nat) {
    k < |servers| && servers[k].iface == iface && forall j: nat :: j < |servers| && j != k ==> servers[j].iface != iface
  }

  /** Never guess between several entries of one interface. */
  method FindServer(servers: seq<Server>, iface: string) returns (k: Option<nat>)
    ensures k.Some? <==> exists j: nat :: Sole(servers, iface, j)
    ensures k.Some? ==> Sole(servers, iface, k.value)
  {
    var candidates: seq<nat> := [];
    var i := 0;
    while i < |servers|
      invariant i <= |servers|
      invariant forall n :: 0 <= n < |candidates| ==> candidates[n] < i && servers[candidates[n]].iface == iface
      invariant forall m, n :: 0 <= m < n < |candidates| ==> candidates[m] < candidates[n]
      invariant forall j: nat :: j < i && servers[j].iface == iface ==> j in candidates
    {
      if servers[i].iface == iface { candidates := candidates + [i]; }
      i := i + 1;
    }
    if |candidates| == 1 {
      assert Sole(servers, iface, candidates[0]);
      return Some(candidates[0]);
    }
    if |candidates| > 1 {
      assert candidates[0] < candidates[1];
      assert servers[candidates[0]].iface == servers[candidates[1]].iface;
    }
    return None;
  }

  /** An entry this adapter can count. */
  ghost predicate Countable(x: Server) {
    x.enabled && x.regular && x.ranged && !x.excludes && x.net.Some? && IsPool(x.ranges, x.net.value)
  }

  ghost predicate Trusted(leases: seq<Lease>, iface: string, pool: set<nat>) {
    forall l :: l in leases ==> Readable(l, iface, pool)
  }

  /**
    What is stored of a pool: the configured ranges in ascending order, its first and last address, and a
    used share, a free share and a percentage that account for every address.
    */
  ghost predicate Describes(u: PoolUse, rs: seq<Range>) {
    && multiset(u.ranges) == multiset(rs) && Apart(u.ranges)
    && u.start in Addresses(rs) && u.end in Addresses(rs) && (forall x :: x in Addresses(rs) ==> u.start <= x <= u.end)
    && u.used + u.free == |Addresses(rs)|
    && u.percent * |Addresses(rs)| as real == u.used as real * 100.0
  }

  /** Used are the leased addresses of the pool, free all others. */
  ghost predicate Accounts(u: PoolUse, pool: set<nat>, leased: set<nat>) {
    leased <= pool && u.used == |leased| && u.free == |pool - leased|
  }

  lemma ShareOfWhole(used: real, total: real)
    requires total > 0.0
    ensures used * 100.0 / total * total == used * 100.0
  {
  }

  lemma FiguresDescribe(rs: seq<Range>, bounds: seq<Range>, used: nat)
    requires bounds != [] && Apart(bounds) && forall r :: r in bounds ==> r.lo <= r.hi
    requires multiset(bounds) == multiset(rs) && Addresses(bounds) == Addresses(rs) && used <= |Addresses(rs)|
    ensures var u := PoolFigures(bounds, used, Total(bounds)); u.Some? && Describes(u.value, rs) && u.value.used == used
  {
    hide Addresses, Apart, Total;
    TotalIsCount(bounds);
    EndsArePoolEnds(bounds);
    assert bounds[0].lo in Addresses(bounds);
    ShareOfWhole(used as real, Total(bounds) as real);
  }

  lemma CountsAccount(rs: seq<Range>, bounds: seq<Range>, leased: set<nat>)
    requires bounds != [] && Apart(bounds) && forall r :: r in bounds ==> r.lo <= r.hi
    requires multiset(bounds) == multiset(rs) && Addresses(bounds) == Addresses(rs) && leased <= Addresses(rs)
    ensures var u := PoolFigures(bounds, |leased|, Total(bounds));
            u.Some? && Describes(u.value, rs) && Accounts(u.value, Addresses(rs), leased)
  {
    hide Addresses, Apart, Total, PoolFigures;
    var pool := Addresses(rs);
    assert pool == leased + (pool - leased);
    FiguresDescribe(rs, bounds, |leased|);
  }

  lemma PoolIsLegal(rs: seq<Range>, net: Network)
    requires IsPool(rs, net)
    ensures rs != [] && forall r :: r in rs ==> r.lo <= r.hi
  {
  }

  /**
    fortinet(): a snapshot is made exactly when one countable server owns the interface and every
    lease row can be trusted; it then counts the pool's addresses exactly.
    */
  method Fortinet(servers: seq<Server>, leases: seq<Lease>, iface: string) returns (u: Option<PoolUse>)
    ensures u.Some? <==> exists k: nat :: Sole(servers, iface, k) && Countable(servers[k])
                                          && Trusted(leases, iface, Addresses(servers[k].ranges))
    ensures forall k: nat :: u.Some? && Sole(servers, iface, k) ==>
              Describes(u.value, servers[k].ranges) && Accounts(u.value, Addresses(servers[k].ranges), Leased(leases, iface))
  {
    hide Addresses, Leased, IsPool, Accounts, Describes, Apart, Trusted;
    var found := FindServer(servers, iface);
    if found.None? { return None; }
    var k := found.value;
    var pool := servers[k];
    assert forall j: nat :: Sole(servers, iface, j) ==> j == k;
    if !pool.enabled || !pool.regular || !pool.ranged || pool.net.None? { return None; }
    var bounds := Ranges(pool.ranges, pool.net.value);
    if bounds.None? || pool.excludes { return None; }
    var seen := ReadLeases(leases, iface, bounds.value);
    if seen.None? { return None; }
    PoolIsLegal(bounds.value, pool.net.value);
    CountsAccount(pool.ranges, bounds.value, seen.value);
    u := PoolFigures(bounds.value, |seen.value|, Total(bounds.value));
  }

  /** What a Palo Alto device prints for the lease query: interfaces, and (allocated, total) pairs. */
  datatype Reported = Reported(ifaces: seq<string>, counts: seq<(nat, nat)>)

  /** One report, about this interface, whose pool size is the configured one. */
  predicate Agrees(r: Reported, iface: string, size: int) {
    r.ifaces == [iface] && |r.counts| == 1 && r.counts[0].1 == size && r.counts[0].0 <= size
  }

  /**
    paloalto(): the device counts its leases, so its figures are taken over only when its pool size is
    the number of addresses in the configured ranges.
    */
  method PaloAlto(servers: seq<Server>, net: Network, reported: Reported, iface: string) returns (u: Option<PoolUse>)
    ensures u.Some? <==> exists k: nat :: Sole(servers, iface, k) && servers[k].enabled && IsPool(servers[k].ranges, net)
                                          && Agrees(reported, iface, |Addresses(servers[k].ranges)|)
    ensures forall k: nat :: u.Some? && Sole(servers, iface, k) ==>
              u.value.used == reported.counts[0].0 && Describes(u.value, servers[k].ranges)
  {
    hide Addresses, IsPool, Apart, Total, Describes;
    var found := FindServer(servers, iface);
    if found.None? { return None; }
    var k := found.value;
    assert forall j: nat :: Sole(servers, iface, j) ==> j == k;
    if !servers[k].enabled { return None; }
    var bounds := Ranges(servers[k].ranges, net);
    if bounds.None? { return None; }
    PoolIsLegal(bounds.value, net);
    TotalIsCount(bounds.value);
    if reported.ifaces != [iface] || |reported.counts| != 1 { return None; }
    if reported.counts[0].1 != Total(bounds.value) { return None; }
    if reported.counts[0].0 <= Total(bounds.value) { FiguresDescribe(servers[k].ranges, bounds.value, reported.counts[0].0); }
    u := PoolFigures(bounds.value, reported.counts[0].0, reported.counts[0].1);
  }
}
