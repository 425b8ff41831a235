/** Configuration history: captures, baselines, drift, and what retention may take away. */
module Backups {
  import opened Collections
  import Sorting

  datatype Backup = Backup(device: nat, hash: string, time: int, changed: bool, baseline: bool, path: string)

  /** Stored captures, the retention setting of each device that has one, and the files on disk. */
  datatype Store = Store(backups: map<nat, Backup>, keep: map<nat, nat>, files: set<string>)

  // ---------------------------------------------------------------- the order of captures

  /** a is newer than b: by time, then by key. */
  predicate NewerThan(s: map<nat, Backup>, a: nat, b: nat)
    requires a in s && b in s
  {
    s[a].time > s[b].time || (s[a].time == s[b].time && a > b)
  }

  ghost function Rows(s: map<nat, Backup>, device: nat): set<nat> {
    set x | x in s && s[x].device == device
  }

  /** The rows of the same device that are newer than this one. */
  ghost function Newer(s: map<nat, Backup>, id: nat): set<nat>
    requires id in s
  {
    set x | x in s && s[x].device == s[id].device && NewerThan(s, x, id)
  }

  ghost predicate IsLatest(s: map<nat, Backup>, device: nat, id: nat) {
    id in s && s[id].device == device && forall x :: x in s && s[x].device == device && x != id ==> NewerThan(s, id, x)
  }

  lemma {:induction false} LatestExists(s: map<nat, Backup>, rows: set<nat>) returns (top: nat)
    requires rows != {} && rows <= s.Keys
    ensures top in rows && forall x :: x in rows && x != top ==> NewerThan(s, top, x)
  {
    var x :| x in rows;
    if rows == {x} {
      top := x;
    } else {
      var best := LatestExists(s, rows - {x});
      if NewerThan(s, x, best) {
        top := x;
        forall y | y in rows && y != top ensures NewerThan(s, top, y) {
          if y != best { assert NewerThan(s, best, y); }
        }
      } else {
        top := best;
        assert NewerThan(s, best, x);
      }
    }
  }

  lemma SomeLatest(s: map<nat, Backup>, device: nat)
    requires Rows(s, device) != {}
    ensures exists id: nat :: IsLatest(s, device, id)
  {
    var top := LatestExists(s, Rows(s, device));
    forall x | x in s && s[x].device == device && x != top ensures NewerThan(s, top, x) { assert x in Rows(s, device); }
    assert IsLatest(s, device, top);
  }

  /** The newest capture of a device, if it has any. */
  ghost function LatestOf(s: map<nat, Backup>, device: nat): (r: Ref)
    ensures r.None? <==> Rows(s, device) == {}
    ensures r.Some? ==> IsLatest(s, device, r.value)
  {
    if Rows(s, device) == {} then None
    else
      SomeLatest(s, device);
      var id: nat :| IsLatest(s, device, id);
      Some(id)
  }

  ghost predicate IsBaseline(s: map<nat, Backup>, device: nat, id: nat) {
    id in s && s[id].device == device && s[id].baseline
  }

  ghost predicate HasBaseline(s: map<nat, Backup>, device: nat) {
    exists b :: IsBaseline(s, device, b)
  }

  /** No device has two baselines. */
  ghost predicate AtMostOneBaseline(s: map<nat, Backup>) {
    forall i, j :: i in s && j in s && s[i].device == s[j].device && s[i].baseline && s[j].baseline ==> i == j
  }

  /** A device with any capture has exactly one baseline. */
  ghost predicate OneBaseline(s: map<nat, Backup>) {
    AtMostOneBaseline(s) && forall i :: i in s ==> HasBaseline(s, s[i].device)
  }

  /** The newest configuration differs from the baseline. */
  ghost predicate Drifted(s: map<nat, Backup>, device: nat) {
    exists b, l :: IsBaseline(s, device, b) && IsLatest(s, device, l) && s[b].hash != s[l].hash
  }

  // ---------------------------------------------------------------- what the service does

  /** The row a capture stores, given the newest one before it. */
  function CaptureRow(last: Option<Backup>, device: nat, hash: string, time: int, path: string): Backup {
    Backup(device, hash, time, last.Some? && last.value.hash != hash, last.None?, path)
  }

  ghost function LastRow(s: map<nat, Backup>, device: nat): Option<Backup> {
    var last := LatestOf(s, device);
    if last.Some? then Some(s[last.value]) else None
  }

  ghost function Captured(s: map<nat, Backup>, id: nat, device: nat, hash: string, time: int, path: string): map<nat, Backup> {
    s[id := CaptureRow(LastRow(s, device), device, hash, time, path)]
  }

  /**
    One statement clears the device's flags behind the loaded row; the row's own flag is then written only
    if that changes the loaded value. A row that already was the baseline therefore ends without the flag.
    */
  ghost function Marked(s: map<nat, Backup>, id: nat): map<nat, Backup> {
    if id !in s then s
    else map x | x in s :: if s[x].device == s[id].device then s[x].(baseline := x == id && !s[id].baseline) else s[x]
  }

  /** How old a capture may get where no number to keep is set; `days` 0 or less means any age. */
  datatype AgeRule = AgeRule(days: int, cutoff: int)

  /** Retention may take this row. */
  ghost predicate Retired(store: Store, id: nat, age: AgeRule)
    requires id in store.backups
  {
    var row := store.backups[id];
    && !row.baseline
    && if row.device in store.keep then store.keep[row.device] != 0 && |Newer(store.backups, id)| >= store.keep[row.device]
       else age.days > 0 && Newer(store.backups, id) != {} && row.time < age.cutoff
  }

  ghost function RetiredRows(store: Store, devices: set<nat>, age: AgeRule): set<nat> {
    set id | id in store.backups && store.backups[id].device in devices && Retired(store, id, age)
  }

  ghost function Without(s: map<nat, Backup>, gone: set<nat>): map<nat, Backup> {
    map id | id in s && id !in gone :: s[id]
  }

  /** A row that stays names this file. */
  ghost predicate KeptBy(s: map<nat, Backup>, gone: set<nat>, f: string) {
    exists id :: id in s && id !in gone && s[id].path == f
  }

  /** Files may go that a removed row names, no kept row names, and the path check lets through. */
  ghost function FilesAfter(store: Store, gone: set<nat>, removable: set<string>): set<string> {
    set f | f in store.files && !(f in removable && f != "" && (exists id :: id in gone && id in store.backups && store.backups[id].path == f)
                                  && !KeptBy(store.backups, gone, f))
  }

  ghost function Pruned(store: Store, devices: set<nat>, age: AgeRule, removable: set<string>): Store {
    var gone := RetiredRows(store, devices, age);
    Store(Without(store.backups, gone), store.keep, FilesAfter(store, gone, removable))
  }

  // ---------------------------------------------------------------- runs

  datatype Event =
    | Capture(id: nat, device: nat, hash: string, time: int, path: string)
    | Mark(id: nat)
    | Keep(device: nat, count: Option<nat>)
    | Prune(devices: set<nat>, age: AgeRule, removable: set<string>)
    | Forget(device: nat)

  ghost function KeepSet(keep: map<nat, nat>, device: nat, count: Option<nat>): map<nat, nat> {
    if count.Some? then keep[device := count.value] else keep - {device}
  }

  ghost function After(store: Store, e: Event): Store {
    match e
    case Capture(id, d, h, t, p) => store.(backups := Captured(store.backups, id, d, h, t, p), files := store.files + {p})
    case Mark(id) => store.(backups := Marked(store.backups, id))
    case Keep(d, c) => store.(keep := KeepSet(store.keep, d, c))
    case Prune(ds, age, removable) => Pruned(store, ds, age, removable)
    case Forget(d) => store.(backups := Without(store.backups, Rows(store.backups, d)), keep := store.keep - {d})
  }

  /** The same run with retention switched off. */
  ghost function Unpruned(store: Store, e: Event): Store {
    if e.Prune? then store else After(store, e)
  }

  /** The flags a capture is stored with. */
  ghost function Flags(store: Store, e: Event): Option<(bool, bool)> {
    if e.Capture? then
      var row := CaptureRow(LastRow(store.backups, e.device), e.device, e.hash, e.time, e.path);
      Some((row.changed, row.baseline))
    else None
  }

  /** What the flags of a capture mean, and what it stores. */
  lemma FlagsAreTold(store: Store, id: nat, device: nat, hash: string, time: int, path: string)
    ensures var e := Event.Capture(id, device, hash, time, path);
            && Flags(store, e).Some?
            && (Flags(store, e).value.0 <==> exists l :: IsLatest(store.backups, device, l) && store.backups[l].hash != hash)
            && (Flags(store, e).value.1 <==> Rows(store.backups, device) == {})
            && After(store, e).backups ==
               store.backups[id := Backup(device, hash, time, Flags(store, e).value.0, Flags(store, e).value.1, path)]
  {
    var last := LatestOf(store.backups, device);
    forall l | IsLatest(store.backups, device, l) ensures last == Some(l) {
      assert l in Rows(store.backups, device);
    }
  }

  /** Keys are new and time moves forward for each device; a baseline is chosen among rows still there. */
  ghost predicate Admissible(full: Store, pruned: Store, e: Event) {
    match e
    case Capture(id, d, _, t, _) => id !in full.backups && forall x :: x in Rows(full.backups, d) ==> full.backups[x].time < t
    case Mark(id) => id in full.backups ==> id in pruned.backups
    case Keep(_, _) => true
    case Prune(_, _, _) => true
    case Forget(_) => true
  }

  /** The pruned history is part of the full one and still has every baseline and newest capture. */
  ghost predicate Stands(full: map<nat, Backup>, pruned: map<nat, Backup>) {
    && (forall id :: id in pruned ==> id in full && full[id] == pruned[id])
    && (forall id :: id in full && (full[id].baseline || IsLatest(full, full[id].device, id)) ==> id in pruned)
  }

  lemma SameLatest(full: map<nat, Backup>, pruned: map<nat, Backup>, device: nat)
    requires Stands(full, pruned)
    ensures LatestOf(full, device) == LatestOf(pruned, device)
    ensures LastRow(full, device) == LastRow(pruned, device)
  {
    var f, p := LatestOf(full, device), LatestOf(pruned, device);
    if f.Some? { assert f.value in Rows(pruned, device); }
    if p.Some? { assert p.value in Rows(full, device); }
  }

  lemma SameDrift(full: map<nat, Backup>, pruned: map<nat, Backup>, device: nat)
    requires Stands(full, pruned)
    ensures Drifted(full, device) <==> Drifted(pruned, device)
  {
    if Drifted(full, device) {
      var b, l :| IsBaseline(full, device, b) && IsLatest(full, device, l) && full[b].hash != full[l].hash;
      assert IsBaseline(pruned, device, b) && IsLatest(pruned, device, l);
    }
    if Drifted(pruned, device) {
      var b, l :| IsBaseline(pruned, device, b) && IsLatest(pruned, device, l) && pruned[b].hash != pruned[l].hash;
      SameLatest(full, pruned, device);
      assert l in Rows(pruned, device);
      var top := LatestOf(pruned, device).value;
      assert top == l;
      assert IsBaseline(full, device, b) && IsLatest(full, device, l);
    }
  }

  // ---------------------------------------------------------------- each event keeps the relation

  /** Only the new row is the newest of its device; other devices keep theirs. */
  lemma AddMovesLatest(s: map<nat, Backup>, id: nat, row: Backup, x: nat)
    requires id !in s && (forall y :: y in Rows(s, row.device) ==> s[y].time < row.time) && x in s
    ensures IsLatest(s[id := row], s[x].device, x) ==> IsLatest(s, s[x].device, x)
  {
    var after := s[id := row];
    if s[x].device == row.device {
      assert x in Rows(s, row.device);
      assert NewerThan(after, id, x) && !NewerThan(after, x, id);
    } else if IsLatest(after, s[x].device, x) {
      forall y | y in s && s[y].device == s[x].device && y != x ensures NewerThan(s, x, y) { assert NewerThan(after, x, y); }
    }
  }

  lemma AddStands(full: map<nat, Backup>, pruned: map<nat, Backup>, id: nat, row: Backup)
    requires Stands(full, pruned) && id !in full && forall y :: y in Rows(full, row.device) ==> full[y].time < row.time
    ensures Stands(full[id := row], pruned[id := row])
  {
    hide IsLatest, Rows;
    var after := full[id := row];
    forall x | x in after && (after[x].baseline || IsLatest(after, after[x].device, x)) ensures x in pruned[id := row] {
      if x != id { AddMovesLatest(full, id, row, x); }
    }
  }

  lemma CaptureStands(full: map<nat, Backup>, pruned: map<nat, Backup>, id: nat, d: nat, h: string, t: int, p: string)
    requires Stands(full, pruned) && id !in full && forall x :: x in Rows(full, d) ==> full[x].time < t
    ensures Stands(Captured(full, id, d, h, t, p), Captured(pruned, id, d, h, t, p))
  {
    hide Stands;
    SameLatest(full, pruned, d);
    AddStands(full, pruned, id, CaptureRow(LastRow(full, d), d, h, t, p));
  }

  lemma MarkStands(full: map<nat, Backup>, pruned: map<nat, Backup>, id: nat)
    requires Stands(full, pruned) && (id in full ==> id in pruned)
    ensures Stands(Marked(full, id), Marked(pruned, id))
  {
    if id in full {
      var after := Marked(full, id);
      forall x | x in after && (after[x].baseline || IsLatest(after, after[x].device, x)) ensures x in Marked(pruned, id) {
        if IsLatest(after, after[x].device, x) {
          forall y | y in full && full[y].device == full[x].device && y != x ensures NewerThan(full, x, y) {
            assert NewerThan(after, x, y);
          }
        }
      }
    }
  }

  lemma PruneStands(full: map<nat, Backup>, store: Store, devices: set<nat>, age: AgeRule, removable: set<string>)
    requires Stands(full, store.backups)
    ensures Stands(full, Pruned(store, devices, age, removable).backups)
  {
    forall x | x in full && (full[x].baseline || IsLatest(full, full[x].device, x))
      ensures x !in RetiredRows(store, devices, age)
    {
      if IsLatest(full, full[x].device, x) {
        forall y ensures y !in Newer(store.backups, x) {
          if y in full && full[y].device == full[x].device && y != x { assert NewerThan(full, x, y); }
        }
        assert Newer(store.backups, x) == {};
      }
    }
  }

  lemma ForgetStands(full: map<nat, Backup>, pruned: map<nat, Backup>, device: nat)
    requires Stands(full, pruned)
    ensures Stands(Without(full, Rows(full, device)), Without(pruned, Rows(pruned, device)))
  {
    var after := Without(full, Rows(full, device));
    forall x | x in after && IsLatest(after, after[x].device, x) ensures x in pruned {
      forall y | y in full && full[y].device == full[x].device && y != x ensures NewerThan(full, x, y) {
        assert y in after && NewerThan(after, x, y);
      }
    }
  }

  /** Flags and the relation, for one event. */
  lemma EventStands(full: Store, pruned: Store, e: Event)
    requires Stands(full.backups, pruned.backups) && Admissible(full, pruned, e)
    ensures Stands(Unpruned(full, e).backups, After(pruned, e).backups)
    ensures Flags(full, e) == Flags(pruned, e)
  {
    hide Stands, Captured, Marked, Pruned, Without;
    match e
    case Capture(id, d, h, t, p) =>
      SameLatest(full.backups, pruned.backups, d);
      CaptureStands(full.backups, pruned.backups, id, d, h, t, p);
    case Mark(id) => MarkKnown(full.backups, pruned.backups, id); MarkStands(full.backups, pruned.backups, id);
    case Keep(_, _) =>
    case Prune(ds, age, removable) => PruneStands(full.backups, pruned, ds, age, removable);
    case Forget(d) => ForgetStands(full.backups, pruned.backups, d);
  }

  lemma MarkKnown(full: map<nat, Backup>, pruned: map<nat, Backup>, id: nat)
    requires Stands(full, pruned)
    ensures id in pruned ==> id in full
  {
  }

  // ---------------------------------------------------------------- baselines

  /** The event marks the row that already is the baseline of its device. */
  ghost predicate Remarks(store: Store, e: Event) {
    e.Mark? && e.id in store.backups && store.backups[e.id].baseline
  }

  /** The device has a baseline after the event, told from the state before it. */
  ghost predicate BaselineAfter(store: Store, e: Event, device: nat) {
    match e
    case Capture(_, d, _, _, _) => HasBaseline(store.backups, device) || (d == device && Rows(store.backups, d) == {})
    case Mark(id) =>
      if id in store.backups && store.backups[id].device == device then !store.backups[id].baseline
      else HasBaseline(store.backups, device)
    case Keep(_, _) => HasBaseline(store.backups, device)
    case Prune(_, _, _) => HasBaseline(store.backups, device)
    case Forget(d) => d != device && HasBaseline(store.backups, device)
  }

  lemma AddAndBaseline(s: map<nat, Backup>, id: nat, row: Backup, device: nat)
    requires id !in s && (row.baseline <==> Rows(s, row.device) == {})
    ensures HasBaseline(s[id := row], device) <==> HasBaseline(s, device) || (row.device == device && Rows(s, row.device) == {})
    ensures AtMostOneBaseline(s) ==> AtMostOneBaseline(s[id := row])
  {
    var after := s[id := row];
    forall b | b in s ensures IsBaseline(after, device, b) <==> IsBaseline(s, device, b) {}
    assert IsBaseline(after, device, id) <==> row.device == device && row.baseline;
    forall i, j | AtMostOneBaseline(s) && i in after && j in after && after[i].device == after[j].device
                  && after[i].baseline && after[j].baseline
      ensures i == j
    {
      if row.baseline {
        assert i in s ==> i in Rows(s, after[i].device);
        assert j in s ==> j in Rows(s, after[j].device);
      }
    }
  }

  lemma MarkAndBaseline(s: map<nat, Backup>, id: nat, device: nat)
    ensures HasBaseline(Marked(s, id), device) <==>
              if id in s && s[id].device == device then !s[id].baseline else HasBaseline(s, device)
    ensures AtMostOneBaseline(s) ==> AtMostOneBaseline(Marked(s, id))
  {
    var after := Marked(s, id);
    if id in s && s[id].device == device {
      assert !s[id].baseline ==> IsBaseline(after, device, id);
    } else {
      forall b | b in s ensures IsBaseline(after, device, b) <==> IsBaseline(s, device, b) {}
    }
  }

  lemma ForgetAndBaseline(s: map<nat, Backup>, d: nat, device: nat)
    ensures HasBaseline(Without(s, Rows(s, d)), device) <==> d != device && HasBaseline(s, device)
    ensures AtMostOneBaseline(s) ==> AtMostOneBaseline(Without(s, Rows(s, d)))
  {
    var after := Without(s, Rows(s, d));
    forall b | b in s ensures IsBaseline(after, device, b) <==> d != device && IsBaseline(s, device, b) {}
  }

  /** No event ever gives a device two baselines, and exactly one kind of event takes a baseline away. */
  lemma EventAndBaseline(full: Store, e: Event, device: nat)
    requires e.Capture? ==> e.id !in full.backups
    ensures HasBaseline(Unpruned(full, e).backups, device) <==> BaselineAfter(full, e, device)
    ensures AtMostOneBaseline(full.backups) ==> AtMostOneBaseline(Unpruned(full, e).backups)
  {
    hide HasBaseline, AtMostOneBaseline, Marked, Without, Rows;
    match e
    case Capture(id, d, h, t, p) =>
      AddAndBaseline(full.backups, id, CaptureRow(LastRow(full.backups, d), d, h, t, p), device);
    case Mark(id) => MarkAndBaseline(full.backups, id, device);
    case Keep(_, _) =>
    case Prune(_, _, _) =>
    case Forget(d) => ForgetAndBaseline(full.backups, d, device);
  }

  lemma MarkDevices(s: map<nat, Backup>, id: nat)
    ensures Marked(s, id).Keys == s.Keys && forall i :: i in s ==> Marked(s, id)[i].device == s[i].device
  {
  }

  /** Marking keeps one baseline for each device exactly when the marked row is not already the baseline. */
  lemma MarkKeepsOneBaseline(s: map<nat, Backup>, id: nat)
    requires OneBaseline(s)
    ensures OneBaseline(Marked(s, id)) <==> !(id in s && s[id].baseline)
  {
    hide AtMostOneBaseline, Marked, HasBaseline;
    MarkDevices(s, id);
    MarkAndBaseline(s, id, 0);
    forall i | i in s
      ensures HasBaseline(Marked(s, id), s[i].device) <==> !(id in s && s[id].device == s[i].device && s[id].baseline)
    {
      MarkAndBaseline(s, id, s[i].device);
    }
    if id in s && s[id].baseline { assert !HasBaseline(Marked(s, id), Marked(s, id)[id].device); }
  }

  /** The store that fails: one capture, which is the baseline, marked once more. */
  lemma RemarkLosesTheBaseline()
    ensures var s: map<nat, Backup> := map[1 := Backup(7, "h", 0, false, true, "f")];
            OneBaseline(s) && 1 in Marked(s, 1) && !HasBaseline(Marked(s, 1), 7)
  {
    var s: map<nat, Backup> := map[1 := Backup(7, "h", 0, false, true, "f")];
    assert IsBaseline(s, 7, 1);
  }

  /** An event keeps one baseline for each device with captures exactly when it does not mark one again. */
  lemma EventKeepsOneBaseline(full: Store, e: Event)
    requires OneBaseline(full.backups) && (e.Capture? ==> e.id !in full.backups)
    ensures OneBaseline(Unpruned(full, e).backups) <==> !Remarks(full, e)
  {
    if e.Mark? {
      MarkKeepsOneBaseline(full.backups, e.id);
    } else {
      var after := Unpruned(full, e).backups;
      EventAndBaseline(full, e, 0);
      forall i | i in after ensures HasBaseline(after, after[i].device) {
        EventAndBaseline(full, e, after[i].device);
        hide HasBaseline, Rows, AtMostOneBaseline;
      }
    }
  }

  /** The pruned history has the same baselines. */
  lemma SameBaselines(full: map<nat, Backup>, pruned: map<nat, Backup>, device: nat)
    requires Stands(full, pruned)
    ensures HasBaseline(full, device) <==> HasBaseline(pruned, device)
    ensures AtMostOneBaseline(full) ==> AtMostOneBaseline(pruned)
  {
    forall b ensures IsBaseline(full, device, b) <==> IsBaseline(pruned, device, b) {}
  }

  lemma SameOneBaseline(full: map<nat, Backup>, pruned: map<nat, Backup>)
    requires Stands(full, pruned) && OneBaseline(full)
    ensures OneBaseline(pruned)
  {
    forall i | i in pruned ensures HasBaseline(pruned, pruned[i].device) { SameBaselines(full, pruned, pruned[i].device); }
  }

  // ---------------------------------------------------------------- whole runs

  const EMPTY := Store(map[], map[], {})

  ghost function Run(events: seq<Event>, n: nat): Store
    requires n <= |events|
  {
    if n == 0 then EMPTY else After(Run(events, n - 1), events[n - 1])
  }

  ghost function FullRun(events: seq<Event>, n: nat): Store
    requires n <= |events|
  {
    if n == 0 then EMPTY else Unpruned(FullRun(events, n - 1), events[n - 1])
  }

  ghost predicate LegalRun(events: seq<Event>) {
    forall n :: 0 <= n < |events| ==> Admissible(FullRun(events, n), Run(events, n), events[n])
  }

  lemma {:induction false} RunsStand(events: seq<Event>, n: nat)
    requires LegalRun(events) && n <= |events|
    ensures Stands(FullRun(events, n).backups, Run(events, n).backups)
    ensures AtMostOneBaseline(FullRun(events, n).backups)
  {
    hide Stands, AtMostOneBaseline, After, Unpruned;
    if n == 0 {
      NothingStands();
    } else {
      RunsStand(events, n - 1);
      EventStands(FullRun(events, n - 1), Run(events, n - 1), events[n - 1]);
      EventAndBaseline(FullRun(events, n - 1), events[n - 1], 0);
    }
  }

  lemma NothingStands()
    ensures Stands(map[], map[]) && OneBaseline(map[])
  {
  }

  /**
    Retention only forgets: at every point of a run the pruned history holds rows of the full one, with
    the same content; it gives each new capture the same flags and each device the same newest capture and
    the same drift verdict; and no device has two baselines.
    */
  lemma PruningRefinesFullHistory(events: seq<Event>, n: nat, device: nat)
    requires LegalRun(events) && n <= |events|
    ensures var full, pruned := FullRun(events, n), Run(events, n);
            && (forall id :: id in pruned.backups ==> id in full.backups && full.backups[id] == pruned.backups[id])
            && LatestOf(full.backups, device) == LatestOf(pruned.backups, device)
            && (Drifted(full.backups, device) <==> Drifted(pruned.backups, device))
            && (HasBaseline(full.backups, device) <==> HasBaseline(pruned.backups, device))
            && AtMostOneBaseline(full.backups) && AtMostOneBaseline(pruned.backups)
    ensures n < |events| ==> Flags(FullRun(events, n), events[n]) == Flags(Run(events, n), events[n])
  {
    var full, pruned := FullRun(events, n), Run(events, n);
    RunsStand(events, n);
    SameLatest(full.backups, pruned.backups, device);
    SameDrift(full.backups, pruned.backups, device);
    SameBaselines(full.backups, pruned.backups, device);
    if n < |events| { EventStands(full, pruned, events[n]); }
  }

  // ---------------------------------------------------------------- what the changed flag tells over a run

  /** The hash of the device's newest capture, if it has one. */
  ghost function NewestHash(s: map<nat, Backup>, device: nat): Option<string> {
    if LatestOf(s, device).Some? then Some(s[LatestOf(s, device).value].hash) else None
  }

  /** The event captures the device's configuration, and the stored row is flagged changed or initial. */
  ghost predicate Flagged(store: Store, e: Event, device: nat) {
    e.Capture? && e.device == device && e.id in After(store, e).backups
    && (After(store, e).backups[e.id].changed || After(store, e).backups[e.id].baseline)
  }

  /** A capture later than all others of its device is the newest; no other event moves a newest capture. */
  lemma EventMovesNewest(full: Store, pruned: Store, e: Event, device: nat)
    requires Stands(full.backups, pruned.backups) && Admissible(full, pruned, e) && e != Forget(device)
    ensures NewestHash(After(pruned, e).backups, device)
              == if e.Capture? && e.device == device then Some(e.hash) else NewestHash(pruned.backups, device)
  {
    var s, after := pruned.backups, After(pruned, e).backups;
    if e.Capture? && e.device == device {
      assert IsLatest(after, device, e.id) by {
        forall x | x in after && after[x].device == device && x != e.id ensures NewerThan(after, e.id, x) {
          assert x in Rows(full.backups, device);
        }
      }
      NewestIs(after, device, e.id);
    } else if Rows(s, device) == {} {
      assert Rows(after, device) == {} by { assert forall x :: x in after && after[x].device == device ==> x in Rows(s, device); }
    } else {
      var l := LatestOf(s, device).value;
      LatestStays(pruned, e, device, l);
      NewestIs(after, device, l);
    }
  }

  lemma NewestIs(s: map<nat, Backup>, device: nat, l: nat)
    requires IsLatest(s, device, l)
    ensures LatestOf(s, device) == Some(l)
  {
    assert l in Rows(s, device);
  }

  lemma LatestStays(store: Store, e: Event, device: nat, l: nat)
    requires IsLatest(store.backups, device, l) && e != Forget(device) && !(e.Capture? && e.device == device)
    requires e.Capture? ==> e.id !in store.backups
    ensures IsLatest(After(store, e).backups, device, l) && After(store, e).backups[l].hash == store.backups[l].hash
  {
    var s, after := store.backups, After(store, e).backups;
    if e.Prune? {
      assert Newer(s, l) == {};
    }
    assert l in after;
    forall x | x in after && after[x].device == device && x != l ensures NewerThan(after, l, x) {
      assert x in s && NewerThan(s, l, x);
    }
  }

  lemma FlaggedMeansDiffers(store: Store, e: Event, device: nat)
    requires e.Capture? && e.device == device
    ensures Flagged(store, e, device) <==> NewestHash(store.backups, device) != Some(e.hash)
  {
    FlagsAreTold(store, e.id, e.device, e.hash, e.time, e.path);
    if LatestOf(store.backups, device).Some? {
      forall l: nat | IsLatest(store.backups, device, l) ensures LatestOf(store.backups, device) == Some(l) { NewestIs(store.backups, device, l); }
    }
  }

  /** Every capture of the device in [a, b) found this configuration. */
  ghost predicate AllFind(events: seq<Event>, a: nat, b: nat, device: nat, hash: Option<string>)
    requires b <= |events|
  {
    forall m :: a <= m < b && events[m].Capture? && events[m].device == device ==> hash == Some(events[m].hash)
  }

  ghost predicate NoneFlagged(events: seq<Event>, a: nat, b: nat, device: nat)
    requires b <= |events|
  {
    forall m :: a <= m < b ==> !Flagged(Run(events, m), events[m], device)
  }

  ghost predicate NeverForgotten(events: seq<Event>, a: nat, b: nat, device: nat)
    requires b <= |events|
  {
    forall m :: a <= m < b ==> events[m] != Forget(device)
  }

  /**
    The changed flag over a stretch of a run, with retention at work: no capture of the device is flagged
    exactly when every one of them found the configuration the stretch began with, which is then still the
    newest at its end.
    */
  lemma {:induction false} UnflaggedMeansUnchanged(events: seq<Event>, a: nat, b: nat, device: nat)
    requires LegalRun(events) && a <= b <= |events| && NeverForgotten(events, a, b, device)
    ensures NoneFlagged(events, a, b, device) <==>
              AllFind(events, a, b, device, NewestHash(Run(events, a).backups, device))
    ensures NoneFlagged(events, a, b, device) ==>
              NewestHash(Run(events, b).backups, device) == NewestHash(Run(events, a).backups, device)
    decreases b
  {
    if a < b {
      UnflaggedMeansUnchanged(events, a, b - 1, device);
      StretchStep(events, a, b - 1, device);
      hide *;
    }
  }

  lemma PointStep(events: seq<Event>, n: nat, device: nat)
    requires LegalRun(events) && n < |events| && events[n] != Forget(device)
    ensures var here, e := NewestHash(Run(events, n).backups, device), events[n];
            var captures := e.Capture? && e.device == device;
            && (Flagged(Run(events, n), e, device) <==> captures && here != Some(e.hash))
            && NewestHash(Run(events, n + 1).backups, device) == if captures then Some(e.hash) else here
  {
    hide After, NewestHash, Stands;
    var s, e := Run(events, n), events[n];
    RunsStand(events, n);
    assert Admissible(FullRun(events, n), s, e);
    assert Run(events, n + 1) == After(s, e);
    hide Run, FullRun, LegalRun, Admissible;
    EventMovesNewest(FullRun(events, n), s, e, device);
    if e.Capture? && e.device == device { FlaggedMeansDiffers(s, e, device); }
  }

  lemma StretchGrows(events: seq<Event>, a: nat, b: nat, device: nat, hash: Option<string>)
    requires a <= b < |events|
    ensures NoneFlagged(events, a, b + 1, device) <==> NoneFlagged(events, a, b, device) && !Flagged(Run(events, b), events[b], device)
    ensures AllFind(events, a, b + 1, device, hash) <==>
              AllFind(events, a, b, device, hash) && (events[b].Capture? && events[b].device == device ==> hash == Some(events[b].hash))
    ensures NeverForgotten(events, a, b + 1, device) <==> NeverForgotten(events, a, b, device) && events[b] != Forget(device)
  {
    hide Run, Flagged;
  }

  lemma StretchStep(events: seq<Event>, a: nat, b: nat, device: nat)
    requires LegalRun(events) && a <= b < |events| && NeverForgotten(events, a, b + 1, device)
    requires NoneFlagged(events, a, b, device) <==> AllFind(events, a, b, device, NewestHash(Run(events, a).backups, device))
    requires NoneFlagged(events, a, b, device) ==>
               NewestHash(Run(events, b).backups, device) == NewestHash(Run(events, a).backups, device)
    ensures NeverForgotten(events, a, b, device)
    ensures NoneFlagged(events, a, b + 1, device) <==>
              AllFind(events, a, b + 1, device, NewestHash(Run(events, a).backups, device))
    ensures NoneFlagged(events, a, b + 1, device) ==>
              NewestHash(Run(events, b + 1).backups, device) == NewestHash(Run(events, a).backups, device)
  {
    hide Run, FullRun, NewestHash, Flagged, LegalRun;
    PointStep(events, b, device);
    StretchGrows(events, a, b, device, NewestHash(Run(events, a).backups, device));
  }

  /** The last mark of the device's rows since it was last deleted was of the row that was its baseline. */
  ghost predicate LostBaseline(events: seq<Event>, n: nat, device: nat)
    requires n <= |events|
  {
    if n == 0 then false
    else
      var s, e := FullRun(events, n - 1).backups, events[n - 1];
      if e.Mark? && e.id in s && s[e.id].device == device then s[e.id].baseline
      else if e == Forget(device) then false
      else LostBaseline(events, n - 1, device)
  }

  lemma RowsMeetEvents(s: Store, e: Event, device: nat)
    ensures Rows(Unpruned(s, e).backups, device) ==
              if e == Forget(device) then {}
              else if e.Capture? && e.device == device then Rows(s.backups, device) + {e.id}
              else Rows(s.backups, device)
    requires e.Capture? ==> e.id !in s.backups
  {
  }

  /** The device has a baseline exactly when it has captures and the last mark did not lose it. */
  ghost predicate BaselineTold(events: seq<Event>, n: nat, device: nat)
    requires n <= |events|
  {
    && (HasBaseline(FullRun(events, n).backups, device) <==>
        Rows(FullRun(events, n).backups, device) != {} && !LostBaseline(events, n, device))
    && (LostBaseline(events, n, device) ==> Rows(FullRun(events, n).backups, device) != {})
  }

  lemma BaselineNext(events: seq<Event>, n: nat, device: nat)
    requires n < |events| && (events[n].Capture? ==> events[n].id !in FullRun(events, n).backups)
    requires BaselineTold(events, n, device)
    ensures BaselineTold(events, n + 1, device)
  {
    var s, e := FullRun(events, n), events[n];
    assert FullRun(events, n + 1) == Unpruned(s, e);
    assert e.Mark? && e.id in s.backups && s.backups[e.id].device == device ==> Rows(s.backups, device) != {} by {
      if e.Mark? && e.id in s.backups && s.backups[e.id].device == device { assert e.id in Rows(s.backups, device); }
    }
    hide HasBaseline, Rows, Unpruned, FullRun;
    RowsMeetEvents(s, e, device);
    EventAndBaseline(s, e, device);
  }

  /** At every point of a run, a device with captures has a baseline exactly when the last mark did not lose it. */
  lemma {:induction false} BaselineUnlessLost(events: seq<Event>, n: nat, device: nat)
    requires LegalRun(events) && n <= |events|
    ensures BaselineTold(events, n, device)
  {
    hide *;
    if n == 0 {
      NoBaselineYet(events, device);
    } else {
      BaselineUnlessLost(events, n - 1, device);
      LegalCapture(events, n - 1);
      BaselineNext(events, n - 1, device);
    }
  }

  lemma LegalCapture(events: seq<Event>, n: nat)
    requires LegalRun(events) && n < |events|
    ensures events[n].Capture? ==> events[n].id !in FullRun(events, n).backups
  {
    hide FullRun, Run, Rows;
    assert Admissible(FullRun(events, n), Run(events, n), events[n]);
  }

  lemma NoBaselineYet(events: seq<Event>, device: nat)
    ensures BaselineTold(events, 0, device)
  {
  }

  /** Every device with captures has exactly one baseline, in the full and in the pruned history. */
  ghost predicate OneBaselineAt(events: seq<Event>, n: nat)
    requires n <= |events|
  {
    OneBaseline(FullRun(events, n).backups) && OneBaseline(Run(events, n).backups)
  }

  lemma {:induction false} OneBaselineNext(events: seq<Event>, n: nat)
    requires LegalRun(events) && 0 < n <= |events| && OneBaselineAt(events, n - 1)
    ensures OneBaselineAt(events, n) <==> !Remarks(FullRun(events, n - 1), events[n - 1])
  {
    hide OneBaseline, Stands, Remarks;
    RunsStand(events, n);
    EventKeepsOneBaseline(FullRun(events, n - 1), events[n - 1]);
    if OneBaseline(FullRun(events, n).backups) { SameOneBaseline(FullRun(events, n).backups, Run(events, n).backups); }
  }

  ghost predicate NoRemark(events: seq<Event>, n: nat)
    requires n <= |events|
  {
    forall m :: 0 <= m < n ==> !Remarks(FullRun(events, m), events[m])
  }

  ghost predicate OneBaselineUpTo(events: seq<Event>, n: nat)
    requires n <= |events|
  {
    forall m :: 0 <= m <= n ==> OneBaselineAt(events, m)
  }

  lemma OneMorePoint(events: seq<Event>, n: nat)
    requires n < |events|
    ensures NoRemark(events, n + 1) <==> NoRemark(events, n) && !Remarks(FullRun(events, n), events[n])
    ensures OneBaselineUpTo(events, n + 1) <==> OneBaselineUpTo(events, n) && OneBaselineAt(events, n + 1)
    ensures OneBaselineUpTo(events, n) ==> OneBaselineAt(events, n)
  {
    hide OneBaselineAt, Remarks, FullRun;
  }

  lemma NothingRemarked(events: seq<Event>)
    ensures OneBaselineUpTo(events, 0) && NoRemark(events, 0)
  {
    NothingStands();
    assert OneBaselineAt(events, 0);
  }

  /** Every device with captures has exactly one baseline throughout a run exactly when no event marks one again. */
  lemma {:induction false} OneBaselineThroughout(events: seq<Event>, n: nat)
    requires LegalRun(events) && n <= |events|
    ensures OneBaselineUpTo(events, n) <==> NoRemark(events, n)
  {
    hide *;
    if n == 0 {
      NothingRemarked(events);
    } else {
      OneBaselineThroughout(events, n - 1);
      OneMorePoint(events, n - 1);
      if OneBaselineUpTo(events, n - 1) { OneBaselineNext(events, n); }
    }
  }

  // ---------------------------------------------------------------- ranks

  /** A device's rows, newest first. */
  ghost predicate NewestFirst(s: map<nat, Backup>, device: nat, rows: seq<nat>) {
    && (forall i :: 0 <= i < |rows| ==> rows[i] in Rows(s, device))
    && (forall id :: id in Rows(s, device) ==> id in rows)
    && (forall i, j :: 0 <= i < j < |rows| ==> NewerThan(s, rows[i], rows[j]))
  }

  /** The position of a row in its history is the number of newer rows. */
  lemma RankIsPosition(s: map<nat, Backup>, device: nat, rows: seq<nat>, i: nat)
    requires NewestFirst(s, device, rows) && i < |rows|
    ensures |Newer(s, rows[i])| == i
  {
    forall x: nat ensures x in Newer(s, rows[i]) <==> x in rows[..i] {
      if x in Newer(s, rows[i]) {
        assert rows[i] in Rows(s, device) && x in Rows(s, device);
        var j :| 0 <= j < |rows| && rows[j] == x;
      }
    }
    forall j, k | 0 <= j < k < i ensures rows[j] != rows[k] { assert NewerThan(s, rows[j], rows[k]); }
    assert Lists(rows[..i], Newer(s, rows[i]));
    ListingSize(rows[..i], Newer(s, rows[i]));
  }

  /** The newest n captures of a device. */
  ghost function Newest(s: map<nat, Backup>, device: nat, n: nat): set<nat> {
    set x | x in Rows(s, device) && |Newer(s, x)| < n
  }

  /** There are n of them unless the device has fewer, and each is newer than every row left out. */
  lemma NewestAreTheNewest(s: map<nat, Backup>, device: nat, n: nat, rows: seq<nat>)
    requires NewestFirst(s, device, rows)
    ensures |Newest(s, device, n)| == if |rows| < n then |rows| else n
    ensures forall x: nat, y: nat :: x in Newest(s, device, n) && y in Rows(s, device) && y !in Newest(s, device, n) ==> NewerThan(s, x, y)
  {
    var m := if |rows| < n then |rows| else n;
    forall i, j | 0 <= i < j < |rows| ensures rows[i] != rows[j] { assert NewerThan(s, rows[i], rows[j]); }
    forall i | 0 <= i < |rows| ensures rows[i] in Newest(s, device, n) <==> i < n { RankIsPosition(s, device, rows, i); }
    forall x: nat ensures x in Newest(s, device, n) <==> x in rows[..m] {
      if x in Newest(s, device, n) { var i :| 0 <= i < |rows| && rows[i] == x; }
    }
    assert Lists(rows[..m], Newest(s, device, n));
    ListingSize(rows[..m], Newest(s, device, n));
    forall x: nat, y: nat | x in rows[..m] && y in Rows(s, device) && y !in rows[..m] ensures NewerThan(s, x, y) {
      var i :| 0 <= i < m && rows[i] == x;
      var j :| 0 <= j < |rows| && rows[j] == y;
      assert j >= m;
    }
  }

  /** After a prune that keeps n > 0 captures, a device has its newest n and the row flagged as baseline, if any. */
  lemma Survivors(store: Store, devices: set<nat>, age: AgeRule, removable: set<string>, device: nat)
    requires device in devices && device in store.keep && store.keep[device] > 0
    ensures Rows(Pruned(store, devices, age, removable).backups, device)
              == Newest(store.backups, device, store.keep[device])
               + set b | b in Rows(store.backups, device) && store.backups[b].baseline
  {
  }

  /** Where no number is set, a prune by age leaves the newest capture, the flagged row, and what is not older than the cutoff. */
  lemma SurvivorsByAge(store: Store, devices: set<nat>, age: AgeRule, removable: set<string>, device: nat, id: nat)
    requires device in devices && device !in store.keep
    ensures id in Rows(Pruned(store, devices, age, removable).backups, device) <==>
              && id in Rows(store.backups, device)
              && (age.days <= 0 || store.backups[id].baseline || IsLatest(store.backups, device, id) || store.backups[id].time >= age.cutoff)
  {
    if id in Rows(store.backups, device) {
      forall x: nat ensures x in Newer(store.backups, id) <==> x in Rows(store.backups, device) && x != id && NewerThan(store.backups, x, id) {}
      assert IsLatest(store.backups, device, id) <==> Newer(store.backups, id) == {} by {
        if Newer(store.backups, id) == {} {
          forall x | x in store.backups && store.backups[x].device == device && x != id ensures NewerThan(store.backups, id, x) {
            assert x !in Newer(store.backups, id);
          }
        }
      }
    }
  }

  /** Rows of devices a prune is not about, and of devices whose number is 0, all stay as they were. */
  lemma PruneSparesOthers(store: Store, devices: set<nat>, age: AgeRule, removable: set<string>, id: nat)
    requires id in store.backups
    requires store.backups[id].device !in devices
             || (store.backups[id].device in store.keep && store.keep[store.backups[id].device] == 0)
    ensures id in Pruned(store, devices, age, removable).backups
    ensures Pruned(store, devices, age, removable).backups[id] == store.backups[id]
  {
  }

  /** A file goes with a prune exactly when it may be removed, a row that went named it and no row that stays does. */
  lemma PruneRemovesFiles(store: Store, devices: set<nat>, age: AgeRule, removable: set<string>, f: string)
    requires f in store.files
    ensures var after := Pruned(store, devices, age, removable);
            f !in after.files <==>
              && f in removable && f != ""
              && (exists id :: id in store.backups && id !in after.backups && store.backups[id].path == f)
              && forall id :: id in after.backups ==> after.backups[id].path != f
  {
    var after, gone := Pruned(store, devices, age, removable), RetiredRows(store, devices, age);
    hide Retired;
    forall id: nat | id in store.backups ensures id in gone <==> id !in after.backups {}
    if !KeptBy(store.backups, gone, f) {
      forall id | id in after.backups ensures after.backups[id].path != f { assert id in store.backups && id !in gone; }
    }
  }

  /** Forgetting a device takes its captures and its number, and leaves every other row. */
  lemma ForgetTakesAll(store: Store, device: nat)
    ensures var after := After(store, Forget(device));
            && Rows(after.backups, device) == {} && device !in after.keep && after.files == store.files
            && forall id :: id in store.backups && store.backups[id].device != device ==>
                 id in after.backups && after.backups[id] == store.backups[id]
  {
  }

  // ---------------------------------------------------------------- the service

  /** A row with its key, as a query returns it. */
  datatype Entry = Entry(id: nat, row: Backup)

  predicate EntryFirst(a: Entry, b: Entry) {
    a.row.time > b.row.time || (a.row.time == b.row.time && a.id >= b.id)
  }

  function Ids(entries: seq<Entry>): (r: seq<nat>)
    ensures |r| == |entries| && forall i :: 0 <= i < |r| ==> r[i] == entries[i].id
  {
    seq(|entries|, i requires 0 <= i < |entries| => entries[i].id)
  }

  /** The device's rows as entries, in some order. */
  ghost predicate EntriesOf(s: map<nat, Backup>, device: nat, entries: seq<Entry>) {
    && Distinct(entries)
    && forall e :: e in entries <==> e.id in Rows(s, device) && e.row == s[e.id]
  }

  lemma SortedEntries(s: map<nat, Backup>, device: nat, entries: seq<Entry>)
    requires EntriesOf(s, device, entries)
    ensures var sorted := Sorting.Sort(entries, EntryFirst);
            EntriesOf(s, device, sorted) && NewestFirst(s, device, Ids(sorted))
  {
    var sorted := Sorting.Sort(entries, EntryFirst);
    Sorting.DistinctIsPreserved(entries, sorted);
    forall e ensures e in sorted <==> e in entries { assert e in multiset(sorted) <==> e in multiset(entries); }
    assert Sorting.TotalPreorder(EntryFirst);
    Sorting.SortAscends(entries, EntryFirst);
    SortedMeansNewestFirst(s, device, sorted);
  }

  lemma SortedMeansNewestFirst(s: map<nat, Backup>, device: nat, sorted: seq<Entry>)
    requires EntriesOf(s, device, sorted) && Sorting.Ascending(sorted, EntryFirst)
    ensures NewestFirst(s, device, Ids(sorted))
  {
    var ids := Ids(sorted);
    forall i | 0 <= i < |ids| ensures ids[i] in Rows(s, device) { assert sorted[i] in sorted; }
    forall id | id in Rows(s, device) ensures id in ids {
      var i :| 0 <= i < |sorted| && sorted[i] == Entry(id, s[id]);
      assert ids[i] == id;
    }
    forall i, j | 0 <= i < j < |ids| ensures NewerThan(s, ids[i], ids[j]) {
      assert sorted[i] in sorted && sorted[j] in sorted && EntryFirst(sorted[i], sorted[j]);
      assert sorted[i] != sorted[j];
    }
  }

  class BackupStore {
    var backups: map<nat, Backup>
    var keep: map<nat, nat>
    var files: set<string>

    ghost function State(): Store
      reads this
    {
      Store(backups, keep, files)
    }

    constructor ()
      ensures State() == EMPTY
    {
      backups, keep, files := map[], map[], {};
    }

    /** A device's captures, newest first. */
    method History(device: nat) returns (rows: seq<Entry>)
      ensures EntriesOf(backups, device, rows) && NewestFirst(backups, device, Ids(rows))
    {
      var found: seq<Entry> := [];
      var todo := backups.Keys;
      while todo != {}
        invariant todo <= backups.Keys && Distinct(found)
        invariant forall e :: e in found <==> e.id in backups && e.id !in todo && backups[e.id].device == device && e.row == backups[e.id]
        decreases |todo|
      {
        var id: nat :| id in todo;
        todo := todo - {id};
        if backups[id].device == device { found := found + [Entry(id, backups[id])]; }
      }
      SortedEntries(backups, device, found);
      rows := Sorting.Sort(found, EntryFirst);
    }

    /**
      backup_device_config once a configuration has been read: it is flagged changed when it differs from
      the newest capture of the device, and initial, hence baseline, when there is none.
      */
    method Capture(id: nat, device: nat, hash: string, time: int, path: string) returns (changed: bool, initial: bool)
      requires id !in backups
      modifies this
      ensures State() == After(old(State()), Event.Capture(id, device, hash, time, path))
      ensures Flags(old(State()), Event.Capture(id, device, hash, time, path)) == Some((changed, initial))
      ensures changed <==> exists l :: IsLatest(old(backups), device, l) && old(backups)[l].hash != hash
      ensures initial <==> Rows(old(backups), device) == {}
      ensures backups == old(backups)[id := Backup(device, hash, time, changed, initial, path)]
      ensures files == old(files) + {path} && keep == old(keep)
    {
      var rows := History(device);
      NewestIsLatest(backups, device, rows);
      FlagsAreTold(State(), id, device, hash, time, path);
      hide IsLatest, Rows;
      var last := if rows == [] then None else Some(rows[0].row);
      changed := true;
      if last.Some? {
        if last.value.hash == hash { changed := false; }
      } else {
        changed := false;
      }
      initial := last.None?;
      files := files + {path};
      backups := backups[id := Backup(device, hash, time, changed, initial, path)];
    }

    /**
      mark_configuration_baseline: load the row, clear the device's flags in one statement, then set the
      flag of the loaded row, which is written only if the loaded value was different.
      */
    method MarkBaseline(id: nat) returns (status: nat)
      modifies this
      ensures State() == After(old(State()), Mark(id)) && (status == 200 <==> id in old(backups))
      ensures AtMostOneBaseline(old(backups)) ==> AtMostOneBaseline(backups)
      ensures id in backups ==> (HasBaseline(backups, backups[id].device) <==> !old(backups)[id].baseline)
      ensures id in backups ==> (IsBaseline(backups, backups[id].device, id) <==> !old(backups)[id].baseline)
      ensures forall x :: x in backups && id in backups && backups[x].device != backups[id].device ==> backups[x] == old(backups)[x]
    {
      if id !in backups { return 404; }
      MarkAndBaseline(backups, id, backups[id].device);
      var loaded := backups[id].baseline;
      ClearFlags(backups[id].device);
      if !loaded { backups := backups[id := backups[id].(baseline := true)]; }
      assert backups == Marked(old(backups), id);
      hide HasBaseline, AtMostOneBaseline;
      status := 200;
    }

    /** The bulk update: no row of the device keeps its flag. */
    method ClearFlags(device: nat)
      modifies `backups
      ensures backups == map x | x in old(backups) ::
                           if old(backups)[x].device == device then old(backups)[x].(baseline := false) else old(backups)[x]
    {
      var todo := backups.Keys;
      while todo != {}
        invariant todo <= backups.Keys == old(backups).Keys
        invariant forall x :: x in backups ==>
                    backups[x] == if x !in todo && old(backups)[x].device == device then old(backups)[x].(baseline := false)
                                  else old(backups)[x]
        decreases |todo|
      {
        var x: nat :| x in todo;
        todo := todo - {x};
        if backups[x].device == device && backups[x].baseline {
          backups := backups[x := backups[x].(baseline := false)];
        }
      }
    }

    /** set_retention: only this device's rows become more or less exposed to the next prune. */
    method SetRetention(device: nat, count: Option<nat>)
      modifies this
      ensures State() == After(old(State()), Keep(device, count))
      ensures forall id: nat, age: AgeRule :: id in backups && backups[id].device != device ==>
                (Retired(State(), id, age) <==> Retired(old(State()), id, age))
      ensures forall id: nat, age: AgeRule :: id in backups && backups[id].device == device && count.Some? ==>
                (Retired(State(), id, age) <==>
                 !backups[id].baseline && count.value > 0 && id !in Newest(backups, device, count.value))
      ensures forall id: nat, age: AgeRule :: id in backups && backups[id].device == device && count.None? && age.days <= 0 ==>
                !Retired(State(), id, age)
    {
      if count.None? { keep := keep - {device}; } else { keep := keep[device := count.value]; }
    }

    /** excess(): the rows past the newest `count`, but no baseline. */
    method Excess(device: nat, count: nat) returns (gone: set<nat>)
      ensures gone == set x | x in Rows(backups, device) && count != 0 && |Newer(backups, x)| >= count && !backups[x].baseline
    {
      gone := {};
      if count == 0 { return; }
      var rows := History(device);
      gone := PastRank(device, rows, count);
    }

    /** The rows from a position of the history on, but no baseline. */
    method PastRank(device: nat, rows: seq<Entry>, from: nat) returns (gone: set<nat>)
      requires EntriesOf(backups, device, rows) && NewestFirst(backups, device, Ids(rows))
      ensures gone == set x | x in Rows(backups, device) && |Newer(backups, x)| >= from && !backups[x].baseline
    {
      gone := {};
      var i := 0;
      while i < |rows|
        invariant i <= |rows|
        invariant forall x: nat :: x in gone <==> x in Ids(rows)[..i] && |Newer(backups, x)| >= from && !backups[x].baseline
      {
        assert rows[i] in rows;
        RankIsPosition(backups, device, Ids(rows), i);
        assert Ids(rows)[..i + 1] == Ids(rows)[..i] + [rows[i].id];
        if i >= from && !rows[i].row.baseline { gone := gone + {rows[i].id}; }
        i := i + 1;
      }
      assert Ids(rows)[..i] == Ids(rows);
    }

    /** What one device's retention takes away. */
    method RetiredOf(device: nat, age: AgeRule) returns (gone: set<nat>)
      ensures gone == RetiredRows(State(), {device}, age)
    {
      if device in keep {
        gone := Excess(device, keep[device]);
      } else if age.days > 0 {
        var rows := History(device);
        var past := PastRank(device, rows, 1);
        gone := set x | x in past && backups[x].time < age.cutoff;
        assert forall x: nat :: x in backups ==> (Newer(backups, x) == {} <==> |Newer(backups, x)| < 1);
      } else {
        gone := {};
      }
    }

    /** prune_old_backups: collect for every device, delete the rows, then the files nothing else names. */
    method PruneOldBackups(devices: seq<nat>, age: AgeRule, removable: set<string>)
      modifies this
      ensures State() == After(old(State()), Prune(Members(devices), age, removable))
    {
      hide Retired;
      var gone: set<nat> := {};
      var i := 0;
      while i < |devices|
        invariant i <= |devices| && State() == old(State())
        invariant gone == RetiredRows(State(), Members(devices[..i]), age)
      {
        var more := RetiredOf(devices[i], age);
        assert devices[..i + 1] == devices[..i] + [devices[i]];
        gone := gone + more;
        i := i + 1;
      }
      assert devices[..i] == devices;
      var paths := set id | id in gone :: backups[id].path;
      backups := backups - gone;
      RemoveFiles(paths, removable);
      assert backups == Without(old(backups), gone);
      forall f: string ensures Named(f) <==> KeptBy(old(backups), gone, f) {
        if Named(f) {
          var id: nat :| id in backups && backups[id].path == f;
          assert id in old(backups) && id !in gone;
        }
        if KeptBy(old(backups), gone, f) {
          var id: nat :| id in old(backups) && id !in gone && old(backups)[id].path == f;
          assert id in backups;
        }
      }
      assert files == FilesAfter(old(State()), gone, removable);
    }

    /** Unlink the named files that may go and that no stored row names. */
    method RemoveFiles(paths: set<string>, removable: set<string>)
      modifies `files
      ensures files == set f | f in old(files) && !(f in paths && f != "" && f in removable && !Named(f))
    {
      var todo := paths;
      while todo != {}
        invariant todo <= paths
        invariant files == set f | f in old(files) && !(f in paths - todo && f != "" && f in removable && !Named(f))
        decreases |todo|
      {
        var f: string :| f in todo;
        todo := todo - {f};
        if f != "" && f in removable && !Named(f) { files := files - {f}; }
      }
    }

    predicate Named(f: string)
      reads `backups
    {
      exists id :: id in backups && backups[id].path == f
    }

    /** Every capture, by device and then oldest first. */
    method WholeHistory() returns (rows: seq<Entry>)
      ensures Chronicle(backups, rows)
    {
      var found: seq<Entry> := [];
      var todo := backups.Keys;
      while todo != {}
        invariant todo <= backups.Keys && Distinct(found)
        invariant forall e :: e in found <==> e.id in backups && e.id !in todo && e.row == backups[e.id]
        decreases |todo|
      {
        var id: nat :| id in todo;
        todo := todo - {id};
        found := found + [Entry(id, backups[id])];
      }
      SortedChronicle(backups, found);
      rows := Sorting.Sort(found, EntryBefore);
    }

    /**
      list_configuration_changes: one pass over the history finds each capture's predecessor and each
      device's newest capture and baseline; a device has drifted when those two differ.
      */
    method ListChanges() returns (previous: map<nat, Ref>, latest: map<nat, nat>, baseline: map<nat, nat>, drifted: nat)
      requires AtMostOneBaseline(backups)
      ensures previous.Keys == backups.Keys && forall id :: id in backups ==> IsPrevious(backups, id, previous[id])
      ensures forall d :: if d in latest then IsLatest(backups, d, latest[d]) else Rows(backups, d) == {}
      ensures forall d :: if d in baseline then IsBaseline(backups, d, baseline[d]) else !HasBaseline(backups, d)
      ensures drifted == |DriftedAmong(backups, latest.Keys)|
    {
      hide AtMostOneBaseline, Chronicle, IsPrevious, IsLatest, IsBaseline, HasBaseline, Rows, Drifted;
      var rows := WholeHistory();
      previous, latest, baseline := map[], map[], map[];
      var i := 0;
      while i < |rows|
        invariant i <= |rows|
        invariant forall d :: RefAt(latest, d) == LastBefore(rows, i, d)
        invariant forall d :: RefAt(baseline, d) == BaseBefore(rows, i, d)
        invariant previous == PreviousUpTo(rows, i)
      {
        var e := rows[i];
        previous := previous[e.id := if e.row.device in latest then Some(latest[e.row.device]) else None];
        latest := latest[e.row.device := e.id];
        if e.row.baseline { baseline := baseline[e.row.device := e.id]; }
        i := i + 1;
      }
      PassFindsPrevious(backups, rows);
      PassFindsEnds(backups, rows, latest, baseline);
      drifted := CountDrift(latest, baseline);
    }

    method CountDrift(latest: map<nat, nat>, baseline: map<nat, nat>) returns (drifted: nat)
      requires AtMostOneBaseline(backups)
      requires forall d :: d in latest ==> IsLatest(backups, d, latest[d])
      requires forall d :: if d in baseline then IsBaseline(backups, d, baseline[d]) else !HasBaseline(backups, d)
      ensures drifted == |DriftedAmong(backups, latest.Keys)|
    {
      hide AtMostOneBaseline, HasBaseline, Drifted, NewerThan, DriftedAmong;
      drifted := 0;
      var todo := latest.Keys;
      NobodyDrifts(backups);
      assert latest.Keys - todo == {};
      while todo != {}
        invariant todo <= latest.Keys
        invariant drifted == |DriftedAmong(backups, latest.Keys - todo)|
        decreases |todo|
      {
        var d: nat :| d in todo;
        DriftIsDifference(backups, d, latest[d], if d in baseline then Some(baseline[d]) else None);
        DriftedAmongGrows(backups, latest.Keys - todo, d);
        assert latest.Keys - (todo - {d}) == latest.Keys - todo + {d};
        todo := todo - {d};
        if d in baseline && backups[latest[d]].hash != backups[baseline[d]].hash { drifted := drifted + 1; }
      }
      assert latest.Keys - todo == latest.Keys;
    }
  }

  ghost function DriftedAmong(s: map<nat, Backup>, devices: set<nat>): set<nat> {
    set d | d in devices && Drifted(s, d)
  }

  lemma NobodyDrifts(s: map<nat, Backup>)
    ensures DriftedAmong(s, {}) == {}
  {
  }

  lemma DriftedAmongGrows(s: map<nat, Backup>, devices: set<nat>, d: nat)
    requires d !in devices
    ensures |DriftedAmong(s, devices + {d})| == |DriftedAmong(s, devices)| + if Drifted(s, d) then 1 else 0
  {
    hide Drifted;
    if Drifted(s, d) { assert DriftedAmong(s, devices + {d}) == DriftedAmong(s, devices) + {d}; }
    else { assert DriftedAmong(s, devices + {d}) == DriftedAmong(s, devices); }
  }

  function RefAt(m: map<nat, nat>, d: nat): Ref {
    if d in m then Some(m[d]) else None
  }

  /** By device, then time, then key. */
  predicate EntryBefore(a: Entry, b: Entry) {
    a.row.device < b.row.device || (a.row.device == b.row.device && EntryFirst(b, a))
  }

  ghost predicate Chronicle(s: map<nat, Backup>, rows: seq<Entry>) {
    && Distinct(rows) && Sorting.Ascending(rows, EntryBefore)
    && forall e :: e in rows <==> e.id in s && e.row == s[e.id]
  }

  lemma SortedChronicle(s: map<nat, Backup>, entries: seq<Entry>)
    requires Distinct(entries) && forall e :: e in entries <==> e.id in s && e.row == s[e.id]
    ensures Chronicle(s, Sorting.Sort(entries, EntryBefore))
  {
    var sorted := Sorting.Sort(entries, EntryBefore);
    Sorting.DistinctIsPreserved(entries, sorted);
    forall e ensures e in sorted <==> e in entries { assert e in multiset(sorted) <==> e in multiset(entries); }
    assert Sorting.TotalPreorder(EntryBefore);
    Sorting.SortAscends(entries, EntryBefore);
  }

  /** The newest of the first n entries that belongs to the device, and the newest baseline. */
  ghost function LastBefore(rows: seq<Entry>, n: nat, d: nat): Ref
    requires n <= |rows|
  {
    if n == 0 then None else if rows[n - 1].row.device == d then Some(rows[n - 1].id) else LastBefore(rows, n - 1, d)
  }

  ghost function BaseBefore(rows: seq<Entry>, n: nat, d: nat): Ref
    requires n <= |rows|
  {
    if n == 0 then None
    else if rows[n - 1].row.device == d && rows[n - 1].row.baseline then Some(rows[n - 1].id)
    else BaseBefore(rows, n - 1, d)
  }

  /** The capture just before this one, if there is one. */
  ghost predicate IsPrevious(s: map<nat, Backup>, id: nat, p: Ref)
    requires id in s
  {
    if p.None? then forall x :: x in Rows(s, s[id].device) ==> !NewerThan(s, id, x)
    else
      && p.value in Rows(s, s[id].device) && NewerThan(s, id, p.value)
      && forall x :: x in Rows(s, s[id].device) && NewerThan(s, id, x) && x != p.value ==> NewerThan(s, p.value, x)
  }

  ghost function PreviousUpTo(rows: seq<Entry>, n: nat): map<nat, Ref>
    requires n <= |rows|
  {
    if n == 0 then map[]
    else PreviousUpTo(rows, n - 1)[rows[n - 1].id := LastBefore(rows, n - 1, rows[n - 1].row.device)]
  }

  lemma {:induction false} PreviousUpToHolds(s: map<nat, Backup>, rows: seq<Entry>, n: nat)
    requires Chronicle(s, rows) && n <= |rows|
    ensures forall id :: id in PreviousUpTo(rows, n) ==> id in s && IsPrevious(s, id, PreviousUpTo(rows, n)[id])
    ensures forall j :: 0 <= j < n ==> rows[j].id in PreviousUpTo(rows, n)
  {
    hide Chronicle, IsPrevious, LastBefore;
    if n > 0 {
      PreviousUpToHolds(s, rows, n - 1);
      LastIsPrevious(s, rows, n - 1);
    }
  }

  lemma PassFindsPrevious(s: map<nat, Backup>, rows: seq<Entry>)
    requires Chronicle(s, rows)
    ensures var previous := PreviousUpTo(rows, |rows|);
            previous.Keys == s.Keys && forall id :: id in s ==> IsPrevious(s, id, previous[id])
  {
    hide IsPrevious, PreviousUpTo;
    PreviousUpToHolds(s, rows, |rows|);
    forall id | id in s ensures id in PreviousUpTo(rows, |rows|) {
      assert Entry(id, s[id]) in rows;
      var j :| 0 <= j < |rows| && rows[j] == Entry(id, s[id]);
    }
  }

  /** Entries of one device appear oldest first. */
  lemma ChronicleOrder(s: map<nat, Backup>, rows: seq<Entry>, i: nat, j: nat)
    requires Chronicle(s, rows) && i < j < |rows| && rows[i].row.device == rows[j].row.device
    ensures rows[i].id in s && rows[j].id in s && NewerThan(s, rows[j].id, rows[i].id)
  {
    assert rows[i] in rows && rows[j] in rows && rows[i] != rows[j];
    assert EntryBefore(rows[i], rows[j]);
  }

  /** What LastBefore finds: the last position of the device, if any. */
  lemma {:induction false} LastBeforeFinds(rows: seq<Entry>, n: nat, d: nat) returns (k: nat)
    requires n <= |rows|
    ensures LastBefore(rows, n, d).None? ==> forall j :: 0 <= j < n ==> rows[j].row.device != d
    ensures LastBefore(rows, n, d).Some? ==>
              && k < n && rows[k].row.device == d && LastBefore(rows, n, d).value == rows[k].id
              && forall j :: k < j < n ==> rows[j].row.device != d
  {
    if n == 0 { k := 0; }
    else if rows[n - 1].row.device == d { k := n - 1; }
    else { k := LastBeforeFinds(rows, n - 1, d); }
  }

  lemma {:induction false} BaseBeforeFinds(rows: seq<Entry>, n: nat, d: nat) returns (k: nat)
    requires n <= |rows|
    ensures BaseBefore(rows, n, d).None? ==> forall j :: 0 <= j < n ==> !(rows[j].row.device == d && rows[j].row.baseline)
    ensures BaseBefore(rows, n, d).Some? ==>
              k < n && rows[k].row.device == d && rows[k].row.baseline && BaseBefore(rows, n, d).value == rows[k].id
  {
    if n == 0 { k := 0; }
    else if rows[n - 1].row.device == d && rows[n - 1].row.baseline { k := n - 1; }
    else { k := BaseBeforeFinds(rows, n - 1, d); }
  }

  /** An older row of the same device is the one LastBefore finds, or older than that. */
  lemma OlderIsCovered(s: map<nat, Backup>, rows: seq<Entry>, i: nat, k: nat, x: nat)
    requires Chronicle(s, rows) && i < |rows| && x in s && s[x].device == rows[i].row.device
    requires rows[i].id in s && NewerThan(s, rows[i].id, x)
    requires LastBefore(rows, i, rows[i].row.device).None? ==> forall j :: 0 <= j < i ==> rows[j].row.device != rows[i].row.device
    requires LastBefore(rows, i, rows[i].row.device).Some? ==>
               k < i && rows[k].row.device == rows[i].row.device && forall j :: k < j < i ==> rows[j].row.device != rows[i].row.device
    ensures LastBefore(rows, i, rows[i].row.device).Some?
    ensures x == rows[k].id || (rows[k].id in s && NewerThan(s, rows[k].id, x))
  {
    assert Entry(x, s[x]) in rows;
    var j :| 0 <= j < |rows| && rows[j] == Entry(x, s[x]);
    hide LastBefore;
    if i <= j {
      if i < j { ChronicleOrder(s, rows, i, j); }
      assert false;
    }
    if j < k { ChronicleOrder(s, rows, j, k); }
  }

  lemma LastIsPrevious(s: map<nat, Backup>, rows: seq<Entry>, i: nat)
    requires Chronicle(s, rows) && i < |rows|
    ensures rows[i].id in s && IsPrevious(s, rows[i].id, LastBefore(rows, i, rows[i].row.device))
  {
    var id, d := rows[i].id, rows[i].row.device;
    assert rows[i] in rows;
    var k := LastBeforeFinds(rows, i, d);
    if LastBefore(rows, i, d).Some? {
      assert rows[k] in rows;
      ChronicleOrder(s, rows, k, i);
    }
    hide Chronicle, NewerThan, LastBefore;
    forall x | x in Rows(s, d) && NewerThan(s, id, x)
      ensures LastBefore(rows, i, d).Some? && (x == rows[k].id || NewerThan(s, rows[k].id, x))
    {
      OlderIsCovered(s, rows, i, k, x);
    }
  }

  lemma LastIsLatest(s: map<nat, Backup>, rows: seq<Entry>, d: nat)
    requires Chronicle(s, rows)
    ensures var r := LastBefore(rows, |rows|, d); if r.Some? then IsLatest(s, d, r.value) else Rows(s, d) == {}
  {
    var k := LastBeforeFinds(rows, |rows|, d);
    forall x | x in Rows(s, d) ensures LastBefore(rows, |rows|, d).Some? && (x == rows[k].id || NewerThan(s, rows[k].id, x)) {
      assert Entry(x, s[x]) in rows;
      var j :| 0 <= j < |rows| && rows[j] == Entry(x, s[x]);
      if j < k { ChronicleOrder(s, rows, j, k); }
    }
    if LastBefore(rows, |rows|, d).Some? {
      assert rows[k] in rows;
      assert forall x :: x in s && s[x].device == d ==> x in Rows(s, d);
    }
  }

  lemma LastIsBaseline(s: map<nat, Backup>, rows: seq<Entry>, d: nat)
    requires Chronicle(s, rows)
    ensures var r := BaseBefore(rows, |rows|, d); if r.Some? then IsBaseline(s, d, r.value) else !HasBaseline(s, d)
  {
    var k := BaseBeforeFinds(rows, |rows|, d);
    if BaseBefore(rows, |rows|, d).Some? {
      assert rows[k] in rows;
    } else {
      forall b | b in s ensures !IsBaseline(s, d, b) { assert Entry(b, s[b]) in rows; }
    }
  }

  lemma PassFindsEnds(s: map<nat, Backup>, rows: seq<Entry>, latest: map<nat, nat>, baseline: map<nat, nat>)
    requires Chronicle(s, rows)
    requires forall d :: RefAt(latest, d) == LastBefore(rows, |rows|, d)
    requires forall d :: RefAt(baseline, d) == BaseBefore(rows, |rows|, d)
    ensures forall d :: if d in latest then IsLatest(s, d, latest[d]) else Rows(s, d) == {}
    ensures forall d :: if d in baseline then IsBaseline(s, d, baseline[d]) else !HasBaseline(s, d)
  {
    hide Chronicle, LastBefore, BaseBefore, IsLatest, IsBaseline, HasBaseline, Rows;
    forall d: nat ensures if d in latest then IsLatest(s, d, latest[d]) else Rows(s, d) == {} {
      LastIsLatest(s, rows, d);
      assert RefAt(latest, d) == LastBefore(rows, |rows|, d);
    }
    forall d: nat ensures if d in baseline then IsBaseline(s, d, baseline[d]) else !HasBaseline(s, d) {
      LastIsBaseline(s, rows, d);
      assert RefAt(baseline, d) == BaseBefore(rows, |rows|, d);
    }
  }

  lemma DriftIsDifference(s: map<nat, Backup>, d: nat, l: nat, b: Ref)
    requires AtMostOneBaseline(s) && IsLatest(s, d, l) && if b.Some? then IsBaseline(s, d, b.value) else !HasBaseline(s, d)
    ensures Drifted(s, d) <==> b.Some? && s[b.value].hash != s[l].hash
  {
    if Drifted(s, d) {
      var b', l' :| IsBaseline(s, d, b') && IsLatest(s, d, l') && s[b'].hash != s[l'].hash;
      assert l' == l;
    }
  }

  /** A file named by a stored row is never removed. */
  lemma PruneKeepsFiles(store: Store, devices: set<nat>, age: AgeRule, removable: set<string>)
    requires forall id :: id in store.backups ==> store.backups[id].path in store.files
    ensures var after := Pruned(store, devices, age, removable);
            forall id :: id in after.backups ==> after.backups[id].path in after.files
  {
    var gone := RetiredRows(store, devices, age);
    forall id | id in store.backups && id !in gone ensures KeptBy(store.backups, gone, store.backups[id].path) {
    }
  }

  lemma NewestIsLatest(s: map<nat, Backup>, device: nat, rows: seq<Entry>)
    requires EntriesOf(s, device, rows) && NewestFirst(s, device, Ids(rows))
    ensures LastRow(s, device) == if rows == [] then None else Some(rows[0].row)
  {
    if rows == [] {
      assert Rows(s, device) == {};
    } else {
      var top := rows[0].id;
      assert rows[0] in rows && top in Rows(s, device);
      forall x | x in s && s[x].device == device && x != top ensures NewerThan(s, top, x) {
        assert x in Rows(s, device);
        var j :| 0 <= j < |rows| && Ids(rows)[j] == x;
      }
      assert IsLatest(s, device, top);
    }
  }
}
