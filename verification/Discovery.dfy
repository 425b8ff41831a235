/** Crawling the network: discover devices, add the neighbours they report, and go on from those. */
module Discovery {
  import opened Collections

  /** A reported management address: none, one that cannot be used, or a usable one. */
  datatype Reported = Nothing | Unusable(text: string) | Usable(ip: string)

  /** A managed device; inactive ones are never connected to. */
  datatype Device = Device(ip: string, extras: set<string>, active: bool)

  /** A neighbour record: who reported it, over which protocol, and whether a device made from it would be active. */
  datatype Neighbour = Neighbour(device: nat, protocol: string, address: Reported, active: bool)

  /** What a device says when asked: nothing usable, or its neighbours over the protocols it supports. */
  datatype Answer = NoAnswer | Answered(protocols: set<string>, found: seq<Neighbour>)

  type Devices = map<nat, Device>
  type Neighbours = map<nat, Neighbour>

  predicate Has(d: Device, ip: string) {
    d.ip == ip || ip in d.extras
  }

  /** Some managed device has this address. */
  ghost predicate Managed(devices: Devices, ip: string) {
    exists d :: d in devices && Has(devices[d], ip)
  }

  /** The usable addresses recorded for these devices are all managed. */
  ghost predicate Covered(devices: Devices, neighbours: Neighbours, sources: set<nat>) {
    forall n :: n in neighbours && neighbours[n].device in sources && neighbours[n].address.Usable? ==>
      Managed(devices, neighbours[n].address.ip)
  }

  /** The records of these devices name this one's address, as a device that is active or not like it. */
  ghost predicate IsReported(d: Device, neighbours: Neighbours, sources: set<nat>) {
    exists n :: n in neighbours && neighbours[n].device in sources && neighbours[n].address == Usable(d.ip) && neighbours[n].active == d.active
  }

  /** Every device that is new was reported by one of these. */
  ghost predicate NewAreReported(before: Devices, after: Devices, neighbours: Neighbours, sources: set<nat>) {
    forall d :: d in after && d !in before ==> IsReported(after[d], neighbours, sources)
  }

  /** An address belongs to an added device exactly when it is usable, was reported for the batch, and nobody had it. */
  lemma AddedAddresses(before: Devices, after: Devices, neighbours: Neighbours, batch: set<nat>, ip: string)
    requires Extends(before, after) && Covered(after, neighbours, batch) && NewAreReported(before, after, neighbours, batch)
    ensures (exists d :: d in after && d !in before && after[d].ip == ip) <==>
            Usable(ip) in AddressesOf(neighbours, batch) && !Managed(before, ip)
  {
    if d :| d in after && d !in before && after[d].ip == ip {
      var n :| n in neighbours && neighbours[n].device in batch && neighbours[n].address == Usable(ip);
    }
    if Usable(ip) in AddressesOf(neighbours, batch) && !Managed(before, ip) {
      var n :| n in neighbours && neighbours[n].device in batch && neighbours[n].address == Usable(ip);
      assert Managed(after, neighbours[n].address.ip);
      var d :| d in after && Has(after[d], ip);
      if d in before { assert Has(before[d], ip); }
    }
  }

  /** Records are only made for stored devices. */
  ghost predicate Sourced(devices: Devices, neighbours: Neighbours) {
    forall n :: n in neighbours ==> neighbours[n].device in devices
  }

  /** Devices are only ever added, each with a usable address nobody had. */
  ghost predicate Extends(before: Devices, after: Devices) {
    && (forall d :: d in before ==> d in after && after[d] == before[d])
    && (forall d :: d in after && d !in before ==> !Managed(before, after[d].ip) && after[d].extras == {})
    && (forall d, e :: d in after && e in after && d !in before && e !in before && d != e ==> after[d].ip != after[e].ip)
  }

  lemma ExtendsTransitive(a: Devices, b: Devices, c: Devices)
    requires Extends(a, b) && Extends(b, c)
    ensures Extends(a, c)
  {
    forall d | d in c && d !in a ensures !Managed(a, c[d].ip) && c[d].extras == {} {
      if Managed(a, c[d].ip) && d !in b { StaysManaged(a, b, c[d].ip); }
    }
    forall d, e | d in c && e in c && d !in a && e !in a && d != e ensures c[d].ip != c[e].ip {
      if d in b && e !in b { assert Has(b[d], b[d].ip) && Managed(b, b[d].ip); }
      if e in b && d !in b { assert Has(b[e], b[e].ip) && Managed(b, b[e].ip); }
    }
  }

  lemma StaysManaged(a: Devices, b: Devices, ip: string)
    requires Managed(a, ip) && forall d :: d in a ==> d in b && b[d] == a[d]
    ensures Managed(b, ip)
  {
    var d :| d in a && Has(a[d], ip);
    assert d in b && Has(b[d], ip);
  }

  lemma StaysCovered(a: Devices, b: Devices, neighbours: Neighbours, sources: set<nat>)
    requires Covered(a, neighbours, sources) && forall d :: d in a ==> d in b && b[d] == a[d]
    ensures Covered(b, neighbours, sources)
  {
    forall n | n in neighbours && neighbours[n].device in sources && neighbours[n].address.Usable?
      ensures Managed(b, neighbours[n].address.ip)
    {
      StaysManaged(a, b, neighbours[n].address.ip);
    }
  }

  /** A freshly added device is the only one with its address. */
  lemma AddedIsOnly(before: Devices, after: Devices, d: nat, e: nat)
    requires Extends(before, after) && d in after && d !in before && e in after && after[e].ip == after[d].ip
    ensures e == d
  {
    if e in before { assert Has(before[e], after[d].ip); }
  }

  /** Answers are about the device that was asked, over protocols it supports. */
  ghost predicate Honest(answers: nat -> Answer) {
    forall id :: answers(id).Answered? ==> forall n :: n in answers(id).found ==> n.device == id && n.protocol in answers(id).protocols
  }

  /** The records of devices outside `sources` are the same. */
  ghost predicate SameOutside(before: Neighbours, after: Neighbours, sources: set<nat>) {
    && (forall n :: n in before && before[n].device !in sources ==> n in after && after[n] == before[n])
    && (forall n :: n in after && after[n].device !in sources ==> n in before && before[n] == after[n])
  }

  /** The records left once a device's records of some protocols are dropped. */
  ghost function Forgotten(neighbours: Neighbours, id: nat, protocols: set<string>): Neighbours {
    map n | n in neighbours && !(neighbours[n].device == id && neighbours[n].protocol in protocols) :: neighbours[n]
  }

  /** The found neighbours recorded in order under consecutive keys. */
  ghost function Recorded(base: Neighbours, first: nat, found: seq<Neighbour>): Neighbours {
    if found == [] then base
    else Recorded(base, first, found[..|found| - 1])[first + |found| - 1 := found[|found| - 1]]
  }

  lemma RecordedOneMore(base: Neighbours, first: nat, found: seq<Neighbour>, x: Neighbour)
    ensures Recorded(base, first, found + [x]) == Recorded(base, first, found)[first + |found| := x]
  {
    assert (found + [x])[..|found|] == found;
  }

  lemma RecordsUpTo(base: Neighbours, first: nat, found: seq<Neighbour>)
    requires found == []
    ensures Recorded(base, first, found) == base
  {
  }

  lemma ForgottenIsPart(devices: Devices, neighbours: Neighbours, id: nat, protocols: set<string>)
    requires Sourced(devices, neighbours)
    ensures Sourced(devices, Forgotten(neighbours, id, protocols))
    ensures forall n :: n in Forgotten(neighbours, id, protocols) ==> n in neighbours
    ensures Forgotten(neighbours, id, protocols)
              == map n | n in neighbours && !(neighbours[n].device == id && neighbours[n].protocol in protocols) :: neighbours[n]
  {
  }

  lemma StaysSourced(devices: Devices, neighbours: Neighbours, n: nat, x: Neighbour)
    requires Sourced(devices, neighbours) && x.device in devices
    ensures Sourced(devices, neighbours[n := x])
  {
  }

  /** The devices that answered. */
  ghost function Answering(asked: set<nat>, answers: nat -> Answer): set<nat> {
    set d | d in asked && answers(d).Answered?
  }

  lemma OneMoreAnswering(asked: set<nat>, d: nat, answers: nat -> Answer)
    requires d !in asked
    ensures |Answering(asked + {d}, answers)| == |Answering(asked, answers)| + if answers(d).Answered? then 1 else 0
  {
    if answers(d).Answered? { assert Answering(asked + {d}, answers) == Answering(asked, answers) + {d}; }
    else { assert Answering(asked + {d}, answers) == Answering(asked, answers); }
  }

  /**
    What a device's records became: unchanged without an answer; otherwise everything found is recorded,
    and nothing else of the answered protocols is left.
    */
  ghost predicate Heard(before: Neighbours, after: Neighbours, d: nat, answer: Answer) {
    if answer.NoAnswer? then forall n :: (n in before && before[n].device == d) || (n in after && after[n].device == d) ==>
                               n in before && n in after && after[n] == before[n]
    else
      && (forall x :: x in answer.found ==> exists n :: n in after && after[n] == x)
      && (forall n :: n in before && before[n].device == d && before[n].protocol !in answer.protocols ==> n in after && after[n] == before[n])
      && (forall n :: n in after && after[n].device == d ==> after[n] in answer.found || (n in before && before[n] == after[n] && after[n].protocol !in answer.protocols))
  }

  lemma {:induction false} RecordedHolds(base: Neighbours, first: nat, found: seq<Neighbour>)
    requires forall n :: n in base ==> n < first
    ensures var after := Recorded(base, first, found);
            && (forall n :: n in after ==> n < first + |found|)
            && (forall n :: n in base ==> n in after && after[n] == base[n])
            && (forall n :: n in after && n !in base ==> after[n] in found)
            && (forall x :: x in found ==> exists n :: n in after && after[n] == x)
    decreases |found|
  {
    if found != [] {
      var front, last := found[..|found| - 1], found[|found| - 1];
      assert found == front + [last];
      RecordedHolds(base, first, front);
      var was, after := Recorded(base, first, front), Recorded(base, first, found);
      forall x | x in found ensures exists n :: n in after && after[n] == x {
        if x in front {
          var n :| n in was && was[n] == x;
          assert n in after && after[n] == x;
        } else {
          assert after[first + |found| - 1] == x;
        }
      }
    }
  }

  /** What one device's answer does to all records. */
  lemma AnswerIsHeard(before: Neighbours, first: nat, d: nat, answer: Answer)
    requires forall n :: n in before ==> n < first
    requires answer.Answered? ==> forall n :: n in answer.found ==> n.device == d
    ensures var after := if answer.NoAnswer? then before else Recorded(Forgotten(before, d, answer.protocols), first, answer.found);
            Heard(before, after, d, answer) && SameOutside(before, after, {d})
  {
    if answer.Answered? {
      var kept := Forgotten(before, d, answer.protocols);
      RecordedHolds(kept, first, answer.found);
      hide Recorded;
    }
  }

  lemma HeardStays(start: Neighbours, before: Neighbours, after: Neighbours, d: nat, e: nat, answer: Answer)
    requires Heard(start, before, d, answer) && SameOutside(before, after, {e}) && d != e
    requires answer.Answered? ==> forall n :: n in answer.found ==> n.device == d
    ensures Heard(start, after, d, answer)
  {
    if answer.Answered? {
      forall x | x in answer.found ensures exists n :: n in after && after[n] == x {
        var n :| n in before && before[n] == x;
        assert n in after && after[n] == x;
      }
    }
  }

  lemma HeardFromStart(start: Neighbours, before: Neighbours, after: Neighbours, done: set<nat>, d: nat, answer: Answer)
    requires SameOutside(start, before, done) && d !in done && Heard(before, after, d, answer)
    ensures Heard(start, after, d, answer)
  {
  }

  lemma OneMoreHeard(start: Neighbours, before: Neighbours, after: Neighbours, first: nat, done: set<nat>, d: nat, answers: nat -> Answer)
    requires Honest(answers) && d !in done && (forall n :: n in before ==> n < first)
    requires after == if answers(d).NoAnswer? then before
                      else Recorded(Forgotten(before, d, answers(d).protocols), first, answers(d).found)
    requires SameOutside(start, before, done) && forall e :: e in done ==> Heard(start, before, e, answers(e))
    ensures SameOutside(start, after, done + {d})
    ensures forall e :: e in done + {d} ==> Heard(start, after, e, answers(e))
  {
    AnswerIsHeard(before, first, d, answers(d));
    HeardFromStart(start, before, after, done, d, answers(d));
    SameOutsideWidens(start, before, done, done + {d});
    SameOutsideWidens(before, after, {d}, done + {d});
    SameOutsideTransitive(start, before, after, done + {d});
    forall e | e in done ensures Heard(start, after, e, answers(e)) { HeardStays(start, before, after, e, d, answers(e)); }
  }

  lemma HeardStaysOutside(start: Neighbours, before: Neighbours, after: Neighbours, d: nat, others: set<nat>, answer: Answer)
    requires Heard(start, before, d, answer) && SameOutside(before, after, others) && d !in others
    requires answer.Answered? ==> forall n :: n in answer.found ==> n.device == d
    ensures Heard(start, after, d, answer)
  {
    if answer.Answered? {
      forall x | x in answer.found ensures exists n :: n in after && after[n] == x {
        var n :| n in before && before[n] == x;
        assert n in after && after[n] == x;
      }
    }
  }

  /** What the answers of these devices made of the records since the start, and nothing else. */
  ghost predicate AllHeard(start: Neighbours, after: Neighbours, asked: set<nat>, answers: nat -> Answer) {
    SameOutside(start, after, asked) && forall d :: d in asked ==> Heard(start, after, d, answers(d))
  }

  lemma AnotherBatchHeard(start: Neighbours, before: Neighbours, after: Neighbours, earlier: set<nat>, now: set<nat>, answers: nat -> Answer)
    requires Honest(answers) && AllHeard(start, before, earlier, answers) && AllHeard(before, after, now, answers) && earlier !! now
    ensures AllHeard(start, after, earlier + now, answers)
  {
    hide Heard, SameOutside;
    forall d | d in earlier ensures Heard(start, after, d, answers(d)) {
      HeardStaysOutside(start, before, after, d, now, answers(d));
    }
    forall d | d in now ensures Heard(start, after, d, answers(d)) {
      HeardFromStart(start, before, after, earlier, d, answers(d));
    }
    SameOutsideWidens(start, before, earlier, earlier + now);
    SameOutsideWidens(before, after, now, earlier + now);
    SameOutsideTransitive(start, before, after, earlier + now);
  }

  lemma SameOutsideWidens(a: Neighbours, b: Neighbours, few: set<nat>, many: set<nat>)
    requires SameOutside(a, b, few) && few <= many
    ensures SameOutside(a, b, many)
  {
  }

  lemma NobodyAsked(neighbours: Neighbours, answers: nat -> Answer)
    ensures SameOutside(neighbours, neighbours, {}) && Answering({}, answers) == {}
  {
  }

  lemma SameOutsideTransitive(a: Neighbours, b: Neighbours, c: Neighbours, sources: set<nat>)
    requires SameOutside(a, b, sources) && SameOutside(b, c, sources)
    ensures SameOutside(a, c, sources)
  {
  }

  /** The devices of a batch that are really asked. */
  ghost function Asked(devices: Devices, batch: set<nat>): set<nat> {
    set d | d in batch && d in devices && devices[d].active
  }

  /** Every device a run added is processed or waiting. */
  ghost predicate Followed(before: Devices, after: Devices, processed: set<nat>, queue: seq<nat>) {
    forall d :: d in after && d !in before ==> d in processed || d in queue
  }

  class Crawler {
    var devices: Devices
    var neighbours: Neighbours
    var nextDevice: nat
    var nextNeighbour: nat

    ghost predicate Valid()
      reads this
    {
      && Sourced(devices, neighbours)
      && (forall d :: d in devices ==> d < nextDevice)
      && (forall n :: n in neighbours ==> n < nextNeighbour)
    }

    /** discover_device_neighbors: a complete answer replaces the records of its protocols, anything else keeps them. */
    method DiscoverDevice(id: nat, answer: Answer) returns (ok: bool)
      requires Valid() && id in devices
      requires answer.Answered? ==> forall n :: n in answer.found ==> n.device == id
      modifies `neighbours, `nextNeighbour
      ensures Valid() && (ok <==> answer.Answered?)
      ensures neighbours == if !ok then old(neighbours)
                            else Recorded(Forgotten(old(neighbours), id, answer.protocols), old(nextNeighbour), answer.found)
    {
      hide Sourced, Recorded, Forgotten;
      if answer.NoAnswer? { return false; }
      ghost var kept, first := Forgotten(neighbours, id, answer.protocols), nextNeighbour;
      neighbours := map n | n in neighbours && !(neighbours[n].device == id && neighbours[n].protocol in answer.protocols) :: neighbours[n];
      ForgottenIsPart(devices, old(neighbours), id, answer.protocols);
      assert neighbours == kept;
      RecordsUpTo(kept, first, []);
      assert answer.found[..0] == [];
      var i := 0;
      while i < |answer.found|
        invariant i <= |answer.found| && Valid() && nextNeighbour == first + i
        invariant neighbours == Recorded(kept, first, answer.found[..i])
      {
        assert answer.found[i] in answer.found;
        assert answer.found[..i + 1] == answer.found[..i] + [answer.found[i]];
        RecordedOneMore(kept, first, answer.found[..i], answer.found[i]);
        StaysSourced(devices, neighbours, nextNeighbour, answer.found[i]);
        neighbours := neighbours[nextNeighbour := answer.found[i]];
        nextNeighbour := nextNeighbour + 1;
        i := i + 1;
      }
      assert answer.found[..i] == answer.found;
      ok := true;
    }

    /** _run_discovery_batch: ask every active device of the batch once, and record what each says. */
    method RunBatch(batch: set<nat>, answers: nat -> Answer) returns (succeeded: nat, failed: nat)
      requires Valid() && Honest(answers)
      modifies `neighbours, `nextNeighbour
      ensures Valid() && succeeded + failed == |Asked(devices, batch)|
      ensures succeeded == |Answering(Asked(devices, batch), answers)|
      ensures AllHeard(old(neighbours), neighbours, Asked(devices, batch), answers)
    {
      hide Sourced, SameOutside, Heard, Recorded, Forgotten, Answering;
      succeeded, failed := 0, 0;
      var todo := set d | d in batch && d in devices && devices[d].active;
      ghost var asked := todo;
      NobodyAsked(neighbours, answers);
      assert asked - todo == {};
      while todo != {}
        invariant Valid() && todo <= asked && succeeded + failed == |asked| - |todo|
        invariant succeeded == |Answering(asked - todo, answers)|
        invariant SameOutside(old(neighbours), neighbours, asked - todo)
        invariant forall d :: d in asked - todo ==> Heard(old(neighbours), neighbours, d, answers(d))
        decreases |todo|
      {
        var d: nat :| d in todo;
        ghost var before, first := neighbours, nextNeighbour;
        var ok := DiscoverDevice(d, answers(d));
        OneMoreHeard(old(neighbours), before, neighbours, first, asked - todo, d, answers);
        OneMoreAnswering(asked - todo, d, answers);
        assert asked - (todo - {d}) == asked - todo + {d};
        todo := todo - {d};
        if ok { succeeded := succeeded + 1; } else { failed := failed + 1; }
      }
      assert asked - todo == asked;
    }

    /** The neighbour records of a batch that carry an address, one for each different address. */
    method UniqueNeighbours(batch: set<nat>) returns (unique: seq<nat>)
      ensures forall k :: k in unique ==> k in neighbours && neighbours[k].device in batch && neighbours[k].address != Nothing
      ensures Lists(AddressList(neighbours, unique), AddressesOf(neighbours, batch))
    {
      hide Lists, AddressesAmong, AddressList;
      unique := [];
      var seen: set<Reported> := {};
      var todo := neighbours.Keys;
      NothingListed(neighbours, batch);
      assert neighbours.Keys - todo == {};
      while todo != {}
        invariant todo <= neighbours.Keys
        invariant forall k :: k in unique ==> k in neighbours && neighbours[k].device in batch && neighbours[k].address != Nothing
        invariant Lists(AddressList(neighbours, unique), seen)
        invariant seen == AddressesAmong(neighbours, batch, neighbours.Keys - todo)
        decreases |todo|
      {
        var n: nat :| n in todo;
        AddressesAmongGrows(neighbours, batch, neighbours.Keys - todo, n);
        assert neighbours.Keys - (todo - {n}) == neighbours.Keys - todo + {n};
        todo := todo - {n};
        var x := neighbours[n];
        if x.device in batch && x.address != Nothing && x.address !in seen {
          OneMoreListed(neighbours, unique, n, seen);
          seen := seen + {x.address};
          unique := unique + [n];
        }
      }
      assert neighbours.Keys - todo == neighbours.Keys;
    }

    /** auto_add_discovered_neighbors: every usable address of the batch becomes managed. */
    method AutoAdd(batch: set<nat>) returns (added: seq<nat>, skipped: nat, invalid: nat)
      requires Valid()
      modifies `devices, `nextDevice
      ensures Valid() && Extends(old(devices), devices)
      ensures Covered(devices, neighbours, batch)
      ensures Adds(old(devices), devices, added)
      ensures NewAreReported(old(devices), devices, neighbours, batch)
      ensures |added| + skipped + invalid == |AddressesOf(neighbours, batch)|
      ensures invalid == |set a | a in AddressesOf(neighbours, batch) && a.Unusable?|
    {
      hide Extends, Managed, Adds, AllManaged, Covered, Lists, AddressList, UnusableAmong, NewAreReported, IsReported;
      added, skipped, invalid := [], 0, 0;
      var unique := UniqueNeighbours(batch);
      NothingAdded(devices, neighbours);
      NobodyNew(devices, neighbours, batch);
      assert unique[..0] == [];
      var i := 0;
      while i < |unique|
        invariant i <= |unique| && Valid() && Extends(old(devices), devices)
        invariant Adds(old(devices), devices, added)
        invariant AllManaged(devices, neighbours, unique[..i])
        invariant NewAreReported(old(devices), devices, neighbours, batch)
        invariant |added| + skipped + invalid == i && invalid == |UnusableAmong(neighbours, unique[..i])|
      {
        assert unique[i] in unique && unique[..i + 1] == unique[..i] + [unique[i]];
        var n := neighbours[unique[i]];
        ghost var was := devices;
        OneMoreUnusable(neighbours, unique, AddressesOf(neighbours, batch), i);
        if n.address.Unusable? {
          invalid := invalid + 1;
        } else {
          var existing := IsManaged(n.address.ip);
          if existing {
            skipped := skipped + 1;
          } else {
            AddingExtends(old(devices), devices, nextDevice, n.address.ip, n.active);
            AddingIsReported(old(devices), devices, nextDevice, neighbours, batch, unique[i]);
            OneMoreAdded(old(devices), devices, added, nextDevice, Device(n.address.ip, {}, n.active));
            added := added + [nextDevice];
            AddDevice(n.address.ip, n.active);
          }
        }
        AllManagedGrows(was, devices, neighbours, unique[..i], unique[i]);
        i := i + 1;
      }
      assert unique[..i] == unique;
      UniqueCovers(devices, neighbours, batch, unique);
      UnusableInAll(neighbours, batch, unique);
      ListingSize(AddressList(neighbours, unique), AddressesOf(neighbours, batch));
    }

    method IsManaged(ip: string) returns (r: bool)
      ensures r == Managed(devices, ip)
    {
      r := exists d :: d in devices && Has(devices[d], ip);
    }

    method AddDevice(ip: string, active: bool)
      requires Valid()
      modifies `devices, `nextDevice
      ensures Valid() && devices == old(devices)[old(nextDevice) := Device(ip, {}, active)]
      ensures Managed(devices, ip) && forall other :: old(Managed(devices, other)) ==> Managed(devices, other)
    {
      ghost var was := devices;
      devices := devices[nextDevice := Device(ip, {}, active)];
      assert Has(devices[nextDevice], ip);
      nextDevice := nextDevice + 1;
      forall other | Managed(was, other) ensures Managed(devices, other) { StaysManaged(was, devices, other); }
    }

    /** Some stored device with this main address, as the query's first row. */
    method FindByIp(ip: string) returns (d: Ref)
      ensures d.Some? ==> d.value in devices && devices[d.value].ip == ip
      ensures d.None? ==> forall x :: x in devices ==> devices[x].ip != ip
    {
      d := None;
      var todo := devices.Keys;
      while todo != {}
        invariant todo <= devices.Keys
        invariant d.Some? ==> d.value in devices && devices[d.value].ip == ip
        invariant d.None? ==> forall x :: x in devices && x !in todo ==> devices[x].ip != ip
        decreases |todo|
      {
        var x: nat :| x in todo;
        todo := todo - {x};
        if devices[x].ip == ip { d := Some(x); }
      }
    }

    /** Queue the devices just added, each looked up again by its address. */
    method Enqueue(ghost before: Devices, added: seq<nat>, processed: set<nat>) returns (queue: seq<nat>)
      requires Extends(before, devices) && Adds(before, devices, added)
      ensures forall d :: d in queue <==> d in added && d !in processed
    {
      queue := [];
      var i := 0;
      while i < |added|
        invariant i <= |added|
        invariant forall d :: d in queue <==> d in added[..i] && d !in processed
      {
        assert added[i] in added && added[..i + 1] == added[..i] + [added[i]];
        var dev := FindByIp(devices[added[i]].ip);
        AddedIsOnly(before, devices, added[i], if dev.Some? then dev.value else added[i]);
        if dev.Some? && dev.value !in processed { queue := queue + [dev.value]; }
        i := i + 1;
      }
      assert added[..i] == added;
    }

    /** The queued devices not processed yet. */
    method Pending(queue: seq<nat>, processed: set<nat>) returns (batch: seq<nat>)
      ensures forall d :: d in batch <==> d in queue && d !in processed
    {
      batch := [];
      var i := 0;
      while i < |queue|
        invariant i <= |queue| && forall d :: d in batch <==> d in queue[..i] && d !in processed
      {
        assert queue[..i + 1] == queue[..i] + [queue[i]];
        if queue[i] !in processed { batch := batch + [queue[i]]; }
        i := i + 1;
      }
      assert queue[..i] == queue;
    }

    /**
      run_full_discovery: discover a batch, add what it reports, and go on with the devices just added.
      `rest` is what was still queued when the crawl stopped, `asked` the devices of each batch.
      */
    method RunFullDiscovery(seeds: seq<nat>, autoAdd: bool, maxDepth: nat, answers: nat -> Answer)
      returns (depth: nat, processed: set<nat>, rest: seq<nat>, succeeded: nat, failed: nat, ghost asked: seq<set<nat>>)
      requires Valid() && Honest(answers)
      modifies this
      ensures Valid() && Extends(old(devices), devices) && (!autoAdd ==> devices == old(devices))
      ensures |asked| == depth <= maxDepth && (rest != [] ==> depth == maxDepth)
      ensures succeeded + failed == Total(asked) && Rounds(asked, devices, processed)
      ensures AllHeard(old(neighbours), neighbours, Everyone(asked), answers)
      ensures NewAreReported(old(devices), devices, neighbours, processed)
      ensures forall d :: d in seeds ==> d in processed || d in rest
      ensures autoAdd ==> Covered(devices, neighbours, processed) && Followed(old(devices), devices, processed, rest)
      ensures forall d :: d in processed ==> d in seeds || (d in devices && d !in old(devices))
      ensures (forall d :: d in seeds ==> d in old(devices)) ==> AllAsked(asked, devices, processed)
    {
      hide Extends, Covered, Managed, Adds, Valid, Honest, SameOutside, AllAsked, AllHeard, NewAreReported, IsReported, Everyone, Rounds, Total, Asked;
      depth, processed, rest, succeeded, failed, asked := 0, {}, seeds, 0, 0, [];
      ghost var known := forall d :: d in seeds ==> d in devices;
      CrawlStarts(devices, neighbours, rest);
      NobodyNew(devices, neighbours, processed);
      NobodyHeard(neighbours, answers);
      while rest != [] && depth < maxDepth
        invariant Valid() && Extends(old(devices), devices) && (!autoAdd ==> devices == old(devices))
        invariant |asked| == depth <= maxDepth
        invariant succeeded + failed == Total(asked) && Rounds(asked, devices, processed)
        invariant Everyone(asked) <= processed && AllHeard(old(neighbours), neighbours, Everyone(asked), answers)
        invariant NewAreReported(old(devices), devices, neighbours, processed)
        invariant forall d :: d in seeds ==> d in processed || d in rest
        invariant autoAdd ==> Covered(devices, neighbours, processed) && Followed(old(devices), devices, processed, rest)
        invariant forall d :: d in processed || d in rest ==> d in seeds || (d in devices && d !in old(devices))
        invariant known ==> AllAsked(asked, devices, processed) && old(devices).Keys <= devices.Keys
        decreases maxDepth - depth
      {
        var batch := Pending(rest, processed);
        if batch == [] {
          rest := [];
          break;
        }
        ghost var reported := neighbours;
        var ok, bad := RunBatch(Members(batch), answers);
        asked := asked + [Asked(devices, Members(batch))];
        TotalGrows(asked);
        BatchIsHeard(old(neighbours), reported, neighbours, asked, processed, devices, Members(batch), answers);
        succeeded, failed := succeeded + ok, failed + bad;
        ghost var was := devices;
        if known { assert processed <= devices.Keys && Members(batch) <= devices.Keys; }
        rest := [];
        if autoAdd {
          var added, skipped, invalid := AutoAdd(Members(batch));
          rest := Enqueue(was, added, processed + Members(batch));
          ReportsGoOn(old(devices), was, devices, reported, neighbours, processed, Members(batch));
          CrawlGoesOn(old(devices), was, devices, reported, neighbours, processed, Members(batch), added, rest);
        } else {
          NobodyNew(devices, neighbours, processed + Members(batch));
        }
        RoundsGrow(asked, was, devices, processed, Members(batch));
        forall d | d in rest ensures d in devices && d !in old(devices) { assert autoAdd; }
        if known { BatchIsAsked(asked, was, devices, processed, Members(batch)); }
        processed := processed + Members(batch);
        depth := depth + 1;
      }
    }
  }

  /** How many devices were asked over all batches. */
  ghost function Total(asked: seq<set<nat>>): nat {
    if asked == [] then 0 else Total(asked[..|asked| - 1]) + |asked[|asked| - 1]|
  }

  /** No device is asked in two batches, and whoever is asked is processed, stored and active. */
  ghost predicate Rounds(asked: seq<set<nat>>, devices: Devices, processed: set<nat>) {
    && (forall i, j :: 0 <= i < j < |asked| ==> asked[i] !! asked[j])
    && (forall i :: 0 <= i < |asked| ==> asked[i] <= processed)
    && (forall i, d :: 0 <= i < |asked| && d in asked[i] ==> d in devices && devices[d].active)
  }

  lemma RoundsGrow(asked: seq<set<nat>>, before: Devices, after: Devices, processed: set<nat>, batch: set<nat>)
    requires asked != [] && asked[|asked| - 1] == Asked(before, batch) && processed !! batch
    requires Rounds(asked[..|asked| - 1], before, processed) && (after == before || Extends(before, after))
    ensures Rounds(asked, after, processed + batch)
  {
    var earlier, now := asked[..|asked| - 1], asked[|asked| - 1];
    assert asked == earlier + [now];
    forall i | 0 <= i < |asked| ensures asked[i] <= processed + batch { assert i < |earlier| ==> earlier[i] <= processed; }
    forall i, j | 0 <= i < j < |asked| ensures asked[i] !! asked[j] { assert earlier[i] <= processed; }
    forall i, d | 0 <= i < |asked| && d in asked[i] ensures d in after && after[d].active {
      if i < |earlier| { assert d in earlier[i]; }
    }
  }

  /** Everyone asked in some batch. */
  ghost function Everyone(asked: seq<set<nat>>): set<nat> {
    if asked == [] then {} else Everyone(asked[..|asked| - 1]) + asked[|asked| - 1]
  }

  lemma {:induction false} EveryoneIsUnion(asked: seq<set<nat>>, d: nat)
    ensures d in Everyone(asked) <==> exists i :: 0 <= i < |asked| && d in asked[i]
    decreases |asked|
  {
    if asked != [] {
      EveryoneIsUnion(asked[..|asked| - 1], d);
    }
  }

  lemma NobodyHeard(neighbours: Neighbours, answers: nat -> Answer)
    ensures Everyone([]) == {} && AllHeard(neighbours, neighbours, {}, answers)
  {
  }

  lemma BatchIsHeard(start: Neighbours, before: Neighbours, after: Neighbours, asked: seq<set<nat>>, processed: set<nat>,
                     devices: Devices, batch: set<nat>, answers: nat -> Answer)
    requires asked != [] && asked[|asked| - 1] == Asked(devices, batch) && processed !! batch && Honest(answers)
    requires Everyone(asked[..|asked| - 1]) <= processed && AllHeard(start, before, Everyone(asked[..|asked| - 1]), answers)
    requires AllHeard(before, after, Asked(devices, batch), answers)
    ensures Everyone(asked) <= processed + batch && AllHeard(start, after, Everyone(asked), answers)
    ensures SameOutside(before, after, batch)
  {
    hide Honest, Heard, SameOutside;
    SameOutsideWidens(before, after, Asked(devices, batch), batch);
    hide AllHeard;
    AnotherBatchHeard(start, before, after, Everyone(asked[..|asked| - 1]), Asked(devices, batch), answers);
  }

  lemma NobodyNew(devices: Devices, neighbours: Neighbours, sources: set<nat>)
    ensures NewAreReported(devices, devices, neighbours, sources) && UnusableAmong(neighbours, []) == {}
  {
  }

  /** A report outlives the batches of other devices. */
  lemma ReportsGoOn(start: Devices, before: Devices, after: Devices, reported: Neighbours, neighbours: Neighbours,
                    processed: set<nat>, batch: set<nat>)
    requires NewAreReported(start, before, reported, processed) && NewAreReported(before, after, neighbours, batch)
    requires SameOutside(reported, neighbours, batch) && processed !! batch
    requires Extends(before, after)
    ensures NewAreReported(start, after, neighbours, processed + batch)
  {
    forall d | d in after && d !in start ensures IsReported(after[d], neighbours, processed + batch) {
      if d in before {
        assert IsReported(before[d], reported, processed);
        var n :| n in reported && reported[n].device in processed && reported[n].address == Usable(before[d].ip) && reported[n].active == before[d].active;
        assert neighbours[n].device in processed + batch;
      } else {
        assert IsReported(after[d], neighbours, batch);
      }
    }
  }

  lemma AddingIsReported(before: Devices, devices: Devices, id: nat, neighbours: Neighbours, batch: set<nat>, n: nat)
    requires NewAreReported(before, devices, neighbours, batch) && id !in devices
    requires n in neighbours && neighbours[n].device in batch && neighbours[n].address.Usable?
    ensures NewAreReported(before, devices[id := Device(neighbours[n].address.ip, {}, neighbours[n].active)], neighbours, batch)
  {
    var d := Device(neighbours[n].address.ip, {}, neighbours[n].active);
    assert neighbours[n].address == Usable(d.ip) && IsReported(d, neighbours, batch);
  }

  /** The addresses among these records that cannot be used. */
  ghost function UnusableAmong(neighbours: Neighbours, records: seq<nat>): set<Reported> {
    set k | k in records && k in neighbours && neighbours[k].address.Unusable? :: neighbours[k].address
  }

  lemma OneMoreUnusable(neighbours: Neighbours, unique: seq<nat>, all: set<Reported>, i: nat)
    requires i < |unique| && (forall k :: k in unique ==> k in neighbours) && Lists(AddressList(neighbours, unique), all)
    ensures |UnusableAmong(neighbours, unique[..i + 1])|
              == |UnusableAmong(neighbours, unique[..i])| + if neighbours[unique[i]].address.Unusable? then 1 else 0
  {
    var list, a := AddressList(neighbours, unique), neighbours[unique[i]].address;
    assert unique[..i + 1] == unique[..i] + [unique[i]];
    forall j | 0 <= j < i ensures neighbours[unique[j]].address != a { assert list[j] != list[i]; }
    if a.Unusable? { assert UnusableAmong(neighbours, unique[..i + 1]) == UnusableAmong(neighbours, unique[..i]) + {a}; }
    else { assert UnusableAmong(neighbours, unique[..i + 1]) == UnusableAmong(neighbours, unique[..i]); }
  }

  lemma UnusableInAll(neighbours: Neighbours, batch: set<nat>, unique: seq<nat>)
    requires (forall k :: k in unique ==> k in neighbours) && Lists(AddressList(neighbours, unique), AddressesOf(neighbours, batch))
    ensures UnusableAmong(neighbours, unique) == set a | a in AddressesOf(neighbours, batch) && a.Unusable?
  {
    var list := AddressList(neighbours, unique);
    forall k | k in unique ensures neighbours[k].address in AddressesOf(neighbours, batch) {
      var i :| 0 <= i < |unique| && unique[i] == k;
      assert list[i] in list;
    }
    forall a | a in AddressesOf(neighbours, batch) && a.Unusable? ensures a in UnusableAmong(neighbours, unique) {
      var i :| 0 <= i < |list| && list[i] == a;
      assert unique[i] in unique;
    }
  }

  lemma TotalGrows(asked: seq<set<nat>>)
    requires asked != []
    ensures Total(asked) == Total(asked[..|asked| - 1]) + |asked[|asked| - 1]|
  {
  }

  lemma CrawlStarts(devices: Devices, neighbours: Neighbours, queue: seq<nat>)
    ensures Extends(devices, devices) && Covered(devices, neighbours, {}) && Followed(devices, devices, {}, queue)
    ensures AllAsked([], devices, {}) && Rounds([], devices, {}) && Total([]) == 0
  {
  }

  /** Every active device among these was asked in some batch. */
  ghost predicate AllAsked(asked: seq<set<nat>>, devices: Devices, ids: set<nat>) {
    forall d :: d in ids && d in devices && devices[d].active ==> exists i :: 0 <= i < |asked| && d in asked[i]
  }

  lemma BatchIsAsked(asked: seq<set<nat>>, before: Devices, after: Devices, processed: set<nat>, batch: set<nat>)
    requires asked != [] && AllAsked(asked[..|asked| - 1], before, processed) && asked[|asked| - 1] == Asked(before, batch)
    requires processed <= before.Keys && batch <= before.Keys && (after == before || Extends(before, after))
    ensures AllAsked(asked, after, processed + batch)
  {
    forall d | d in processed + batch && d in after && after[d].active ensures exists i :: 0 <= i < |asked| && d in asked[i] {
      if d in batch {
        assert d in asked[|asked| - 1];
      } else {
        var i :| 0 <= i < |asked| - 1 && d in asked[..|asked| - 1][i];
        assert d in asked[i];
      }
    }
  }

  /** One round keeps what the crawl has established. */
  lemma CrawlGoesOn(start: Devices, before: Devices, after: Devices, reported: Neighbours, neighbours: Neighbours,
                    processed: set<nat>, batch: set<nat>, added: seq<nat>, queue: seq<nat>)
    requires Extends(start, before) && Extends(before, after) && Adds(before, after, added) && processed !! batch
    requires Covered(before, reported, processed) && SameOutside(reported, neighbours, batch) && Covered(after, neighbours, batch)
    requires forall d :: d in before && d !in start ==> d in processed || d in batch
    requires forall d :: d in queue <==> d in added && d !in processed + batch
    ensures Extends(start, after) && Covered(after, neighbours, processed + batch)
    ensures Followed(start, after, processed + batch, queue)
    ensures start.Keys <= before.Keys <= after.Keys && forall d :: d in added ==> d in after && d !in before
  {
    ExtendsTransitive(start, before, after);
    StaysCovered(before, after, reported, processed);
  }

  /** Every usable address among these neighbour records is managed. */
  ghost predicate AllManaged(devices: Devices, neighbours: Neighbours, records: seq<nat>) {
    forall k :: k in records && k in neighbours && neighbours[k].address.Usable? ==> Managed(devices, neighbours[k].address.ip)
  }

  lemma AllManagedGrows(before: Devices, after: Devices, neighbours: Neighbours, records: seq<nat>, k: nat)
    requires AllManaged(before, neighbours, records) && k in neighbours
    requires neighbours[k].address.Usable? ==> Managed(after, neighbours[k].address.ip)
    requires forall ip :: Managed(before, ip) ==> Managed(after, ip)
    ensures AllManaged(after, neighbours, records + [k])
  {
  }

  lemma UniqueCovers(devices: Devices, neighbours: Neighbours, batch: set<nat>, unique: seq<nat>)
    requires AllManaged(devices, neighbours, unique) && forall k :: k in unique ==> k in neighbours
    requires Lists(AddressList(neighbours, unique), AddressesOf(neighbours, batch))
    ensures Covered(devices, neighbours, batch)
  {
    forall n | n in neighbours && neighbours[n].device in batch && neighbours[n].address.Usable?
      ensures Managed(devices, neighbours[n].address.ip)
    {
      assert neighbours[n].address in AddressesOf(neighbours, batch);
      var i :| 0 <= i < |unique| && AddressList(neighbours, unique)[i] == neighbours[n].address;
      assert unique[i] in unique;
    }
  }

  /** The different addresses recorded for a batch. */
  ghost function AddressesOf(neighbours: Neighbours, batch: set<nat>): set<Reported> {
    AddressesAmong(neighbours, batch, neighbours.Keys)
  }

  ghost function AddressesAmong(neighbours: Neighbours, batch: set<nat>, keys: set<nat>): set<Reported> {
    set n | n in keys && n in neighbours && neighbours[n].device in batch && neighbours[n].address != Nothing :: neighbours[n].address
  }

  lemma AddressesAmongGrows(neighbours: Neighbours, batch: set<nat>, keys: set<nat>, n: nat)
    requires n in neighbours && n !in keys
    ensures AddressesAmong(neighbours, batch, keys + {n}) == AddressesAmong(neighbours, batch, keys)
              + if neighbours[n].device in batch && neighbours[n].address != Nothing then {neighbours[n].address} else {}
  {
  }

  lemma NothingListed(neighbours: Neighbours, batch: set<nat>)
    ensures Lists(AddressList(neighbours, []), {}) && AddressesAmong(neighbours, batch, {}) == {}
  {
  }

  lemma OneMoreListed(neighbours: Neighbours, records: seq<nat>, n: nat, seen: set<Reported>)
    requires (forall k :: k in records ==> k in neighbours) && n in neighbours
    requires Lists(AddressList(neighbours, records), seen) && neighbours[n].address !in seen
    ensures forall k :: k in records + [n] ==> k in neighbours
    ensures Lists(AddressList(neighbours, records + [n]), seen + {neighbours[n].address})
  {
    var a := neighbours[n].address;
    assert AddressList(neighbours, records + [n]) == AddressList(neighbours, records) + [a];
    assert a !in AddressList(neighbours, records);
  }

  ghost function AddressList(neighbours: Neighbours, records: seq<nat>): (r: seq<Reported>)
    requires forall k :: k in records ==> k in neighbours
    ensures |r| == |records| && forall i :: 0 <= i < |r| ==> r[i] == neighbours[records[i]].address
  {
    seq(|records|, i requires 0 <= i < |records| => assert records[i] in records; neighbours[records[i]].address)
  }

  /** `added` lists the new devices, each once. */
  ghost predicate Adds(before: Devices, after: Devices, added: seq<nat>) {
    Distinct(added) && before.Keys <= after.Keys && forall d :: d in added <==> d in after && d !in before
  }

  lemma NothingAdded(devices: Devices, neighbours: Neighbours)
    ensures Adds(devices, devices, []) && Extends(devices, devices) && AllManaged(devices, neighbours, [])
  {
  }

  lemma OneMoreAdded(before: Devices, devices: Devices, added: seq<nat>, id: nat, d: Device)
    requires Adds(before, devices, added) && id !in devices
    ensures Adds(before, devices[id := d], added + [id])
  {
  }

  lemma AddingExtends(before: Devices, devices: Devices, id: nat, ip: string, active: bool)
    requires Extends(before, devices) && id !in devices && !Managed(devices, ip)
    ensures Extends(before, devices[id := Device(ip, {}, active)])
  {
    if Managed(before, ip) { StaysManaged(before, devices, ip); }
    forall d | d in devices ensures devices[d].ip != ip { assert !Has(devices[d], ip); }
  }
}
