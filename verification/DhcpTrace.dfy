/**
  Every write of a DHCP sync traced back through a whole run: where its two reads were, what it writes,
  and which saves and deletions in between decide whether it writes at all.
  */
module DhcpTrace {
  import opened Collections
  import opened Addressing
  import opened IpamTables
  import opened IpamRules
  import opened DhcpSafety
  import opened IpamRuns

  // ---------------------------------------------------------------- points of a run

  /** The world after the first n events. */
  ghost function At(w: World, events: seq<Event>, n: nat): World
    requires n <= |events|
  {
    if n == 0 then w else Happen(At(w, events, n - 1), events[n - 1])
  }

  lemma {:induction false} RunOneMore(w: World, events: seq<Event>, e: Event)
    ensures Run(w, events + [e]) == Happen(Run(w, events), e)
    decreases |events|
  {
    hide Happen;
    if events == [] {
      assert (events + [e])[1..] == [];
    } else {
      assert (events + [e])[1..] == events[1..] + [e];
      RunOneMore(Happen(w, events[0]), events[1..], e);
    }
  }

  lemma {:induction false} AtIsRun(w: World, events: seq<Event>, n: nat)
    requires n <= |events|
    ensures At(w, events, n) == Run(w, events[..n])
  {
    hide Happen;
    if n > 0 {
      AtIsRun(w, events, n - 1);
      assert events[..n] == events[..n - 1] + [events[n - 1]];
      RunOneMore(w, events[..n - 1], events[n - 1]);
    }
  }

  // ---------------------------------------------------------------- where a sync in flight comes from

  /** The stored text of a source, if it is there. */
  ghost function Stored(w: World, source: nat): Option<Source> {
    if source in w.tables.sources then Some(w.tables.sources[source]) else None
  }

  /** Positions of the four steps a sync takes before its commit. */
  datatype Trace = Trace(read: nat, reread: nat, collect: nat, check: nat)

  /** The worker carries this sync, whatever its stage. */
  ghost predicate Carries(w: World, worker: nat, source: nat, before: Source) {
    worker in w.syncs && w.syncs[worker].source == source && w.syncs[worker].before == before
  }

  /** The sync began with event i and was never restarted up to n; it started from the text stored then. */
  ghost predicate BeganAt(w: World, events: seq<Event>, i: nat, n: nat, worker: nat, source: nat, before: Source)
    requires n <= |events|
  {
    && i < n && events[i] == SyncRead(worker, source) && worker !in At(w, events, i).syncs
    && Stored(At(w, events, i), source) == Some(before)
    && forall m :: i < m <= n ==> Carries(At(w, events, m), worker, source, before)
  }

  /** With event j the sync took the free lock and read the stored text a second time. */
  ghost predicate RereadAt(w: World, events: seq<Event>, j: nat, worker: nat, source: nat, original: Source)
    requires j <= |events|
  {
    j < |events| && events[j] == SyncReread(worker) && At(w, events, j).holder.None?
    && Stored(At(w, events, j), source) == Some(original)
  }

  /** With event c the reply arrived that the value to write is made from. */
  ghost predicate CollectedAt(events: seq<Event>, c: nat, worker: nat, before: Source, updated: Source) {
    c < |events| && events[c].SyncCollect? && events[c].worker == worker
    && updated == Collected(before, events[c].now, events[c].reply)
  }

  /** With event d the stored identity and settings were those of the first read. */
  ghost predicate CheckedAt(w: World, events: seq<Event>, d: nat, worker: nat, source: nat, before: Source)
    requires d <= |events|
  {
    && d < |events| && events[d] == SyncCheck(worker)
    && var stored := Stored(At(w, events, d), source);
       stored.Some? && stored.value.identity == before.identity && stored.value.settings == before.settings
  }

  ghost predicate Traced(w: World, events: seq<Event>, n: nat, worker: nat, t: Trace)
    requires n <= |events|
  {
    && worker in At(w, events, n).syncs
    && var s := At(w, events, n).syncs[worker];
       && BeganAt(w, events, t.read, n, worker, s.source, s.before)
       && (!s.HasRead? ==> t.read < t.reread < n && RereadAt(w, events, t.reread, worker, s.source, s.original))
       && (s.HasCollected? || s.HasChecked? ==> t.reread < t.collect < n && CollectedAt(events, t.collect, worker, s.before, s.updated))
       && (s.HasChecked? ==> t.collect < t.check < n && CheckedAt(w, events, t.check, worker, s.source, s.before))
  }

  /** A step of this worker's sync. */
  predicate Moves(e: Event, worker: nat) {
    !e.Call? && e.worker == worker
  }

  lemma OthersLeaveSync(w: World, e: Event, worker: nat)
    requires !Moves(e, worker)
    ensures worker in Happen(w, e).syncs <==> worker in w.syncs
    ensures worker in w.syncs ==> Happen(w, e).syncs[worker] == w.syncs[worker]
  {
    hide Step, Commit, Passes, Collected;
  }

  /** What one step of the worker does to its sync. */
  lemma OwnStep(w: World, e: Event, worker: nat)
    requires Moves(e, worker) && worker in Happen(w, e).syncs
    ensures worker !in w.syncs ==>
              e == SyncRead(worker, Happen(w, e).syncs[worker].source)
              && Happen(w, e).syncs[worker].HasRead?
              && Stored(w, Happen(w, e).syncs[worker].source) == Some(Happen(w, e).syncs[worker].before)
    ensures worker in w.syncs ==>
              var s, next := w.syncs[worker], Happen(w, e).syncs[worker];
              next.source == s.source && next.before == s.before
              && (next == s
                  || (s.HasRead? && next.HasReread? && e == SyncReread(worker) && w.holder.None? && Stored(w, s.source) == Some(next.original))
                  || (s.HasReread? && next.HasCollected? && e.SyncCollect? && next.original == s.original
                      && next.updated == Collected(s.before, e.now, e.reply))
                  || (s.HasCollected? && next.HasChecked? && e.SyncCheck? && next.original == s.original && next.updated == s.updated
                      && Passes(w.tables, s)))
  {
    hide Step, Commit, Passes, Collected;
  }

  /** One event further: the trace grows by the step just taken, if any. */
  ghost function Extended(w: World, e: Event, n: nat, worker: nat, t: Trace): Trace {
    if !Moves(e, worker) then t
    else match e
      case SyncRead(_, _) => if worker in w.syncs then t else t.(read := n)
      case SyncReread(_) => if worker in w.syncs && w.syncs[worker].HasRead? then t.(reread := n) else t
      case SyncCollect(_, _, _) => if worker in w.syncs && w.syncs[worker].HasReread? then t.(collect := n) else t
      case SyncCheck(_) => if worker in w.syncs && w.syncs[worker].HasCollected? then t.(check := n) else t
      case _ => t
  }

  lemma TraceGrows(w: World, events: seq<Event>, n: nat, worker: nat, t: Trace)
    requires n < |events| && (worker in At(w, events, n).syncs ==> Traced(w, events, n, worker, t))
    requires worker in At(w, events, n + 1).syncs
    ensures Traced(w, events, n + 1, worker, Extended(At(w, events, n), events[n], n, worker, t))
  {
    hide Happen, Collected, Passes;
    var here, e := At(w, events, n), events[n];
    assert At(w, events, n + 1) == Happen(here, e);
    if Moves(e, worker) {
      OwnStep(here, e, worker);
      if worker in here.syncs && here.syncs[worker].HasCollected? { PassesIsChecked(here, here.syncs[worker]); }
    } else {
      OthersLeaveSync(here, e, worker);
    }
  }

  lemma PassesIsChecked(w: World, s: Sync)
    requires s.HasCollected?
    ensures Passes(w.tables, s) <==>
              var stored := Stored(w, s.source);
              stored.Some? && stored.value.identity == s.before.identity && stored.value.settings == s.before.settings
  {
  }

  /** Every sync in flight can be traced back, in a run that starts with none by this worker. */
  lemma {:induction false} EverySyncIsTraced(w: World, events: seq<Event>, n: nat, worker: nat) returns (t: Trace)
    requires n <= |events| && worker !in w.syncs
    ensures worker in At(w, events, n).syncs ==> Traced(w, events, n, worker, t)
  {
    t := Trace(0, 0, 0, 0);
    if n > 0 {
      t := EverySyncIsTraced(w, events, n - 1, worker);
      if worker in At(w, events, n).syncs { TraceGrows(w, events, n - 1, worker, t); }
      t := Extended(At(w, events, n - 1), events[n - 1], n - 1, worker, t);
    }
  }

  // ---------------------------------------------------------------- who writes a source

  /** The event is accepted and stores or removes this source. */
  ghost predicate Writes(w: World, e: Event, source: nat) {
    match e
    case Call(OpSaveSource(id, req, isNew)) =>
      id == source && KeysFresh(w.tables, e.op) && SaveSource(w.tables, id, req, isNew).Done?
    case Call(OpDeleteSource(id)) => id == source && DeleteSource(w.tables, id).Done?
    case SyncCommit(worker) =>
      worker in w.syncs && w.syncs[worker].HasChecked? && w.syncs[worker].source == source
      && Stored(w, source) == Some(w.syncs[worker].original)
    case _ => false
  }

  /** The text a writing event leaves. */
  ghost function Left(w: World, e: Event, source: nat): Option<Source>
    requires Writes(w, e, source)
  {
    match e
    case Call(OpSaveSource(id, req, isNew)) => Some(SaveSource(w.tables, id, req, isNew).value.sources[source])
    case Call(OpDeleteSource(id)) => None
    case SyncCommit(worker) => Some(w.syncs[worker].updated)
  }

  lemma SaveMeetsSource(t: Tables, id: nat, req: SourceRequest, isNew: bool, source: nat)
    requires SaveSource(t, id, req, isNew).Done?
    ensures var after := SaveSource(t, id, req, isNew).value.sources;
            id in after
            && (source != id ==> (source in after <==> source in t.sources) && (source in t.sources ==> after[source] == t.sources[source]))
  {
    hide Linked, Target;
  }

  lemma BindMeetsSource(t: Tables, id: nat, source: Ref)
    requires BindPrefix(t, id, source).Done?
    ensures BindPrefix(t, id, source).value.sources == t.sources
  {
  }

  /** The event leaves what it wrote, if it wrote this source, and what was there otherwise. */
  ghost predicate Meets(w: World, e: Event, source: nat) {
    Stored(Happen(w, e), source) == if Writes(w, e, source) then Left(w, e, source) else Stored(w, source)
  }

  lemma QuietCallMeetsSource(w: World, op: Op, source: nat)
    requires !TouchesDhcp(op)
    ensures Meets(w, Call(op), source)
  {
    hide KeysFresh, Apply, SaveSource, DeleteSource;
    if KeysFresh(w.tables, op) && Apply(w.tables, op).Done? { OthersKeepDhcp(w.tables, op); }
  }

  lemma DhcpCallMeetsSource(w: World, op: Op, source: nat)
    requires TouchesDhcp(op)
    ensures Meets(w, Call(op), source)
  {
    hide Linked, SaveSource, BindPrefix;
    match op
    case OpSaveSource(id, req, isNew) =>
      if SaveSource(w.tables, id, req, isNew).Done? { SaveMeetsSource(w.tables, id, req, isNew, source); }
    case OpDeleteSource(id) =>
    case OpBind(id, bound) =>
      if BindPrefix(w.tables, id, bound).Done? { BindMeetsSource(w.tables, id, bound); }
  }

  lemma EventMeetsSource(w: World, e: Event, source: nat)
    ensures Meets(w, e, source)
  {
    if e.Call? {
      if TouchesDhcp(e.op) { DhcpCallMeetsSource(w, e.op, source); } else { QuietCallMeetsSource(w, e.op, source); }
    } else {
      hide Step, KeysFresh, SaveSource, DeleteSource, Passes, Collected;
    }
  }

  /** Event m writes the source. */
  ghost predicate WritesAt(w: World, events: seq<Event>, m: nat, source: nat) {
    m < |events| && Writes(At(w, events, m), events[m], source)
  }

  ghost function LeftAt(w: World, events: seq<Event>, m: nat, source: nat): Option<Source>
    requires WritesAt(w, events, m, source)
  {
    Left(At(w, events, m), events[m], source)
  }

  /** The last event in [i, j) that writes the source. */
  ghost function LastWrite(w: World, events: seq<Event>, i: nat, j: nat, source: nat): (r: Ref)
    requires i <= j <= |events|
    ensures r.Some? ==> i <= r.value < j && WritesAt(w, events, r.value, source)
    ensures forall m :: (if r.Some? then r.value + 1 else i) <= m < j ==> !WritesAt(w, events, m, source)
  {
    if i == j then None
    else if WritesAt(w, events, j - 1, source) then Some(j - 1)
    else LastWrite(w, events, i, j - 1, source)
  }

  /** Nothing in [i, j) writes the source, or the last event that does leaves this text. */
  ghost predicate Leaves(w: World, events: seq<Event>, i: nat, j: nat, source: nat, text: Source)
    requires i <= j <= |events|
  {
    var last := LastWrite(w, events, i, j, source);
    last.None? || LeftAt(w, events, last.value, source) == Some(text)
  }

  /** What is stored at j is what the last write before it left. */
  lemma {:induction false} LastWriteDecides(w: World, events: seq<Event>, i: nat, j: nat, source: nat)
    requires i <= j <= |events|
    ensures var last := LastWrite(w, events, i, j, source);
            Stored(At(w, events, j), source)
              == if last.None? then Stored(At(w, events, i), source) else LeftAt(w, events, last.value, source)
  {
    hide Happen, Writes, Left, Stored;
    if i < j {
      LastWriteDecides(w, events, i, j - 1, source);
      EventMeetsSource(At(w, events, j - 1), events[j - 1], source);
    }
  }

  lemma LeavesMeansStored(w: World, events: seq<Event>, i: nat, j: nat, source: nat, text: Source)
    requires i <= j <= |events| && Stored(At(w, events, i), source) == Some(text)
    ensures Leaves(w, events, i, j, source, text) <==> Stored(At(w, events, j), source) == Some(text)
  {
    LastWriteDecides(w, events, i, j, source);
    hide Happen, Writes, Left, Stored, LastWrite;
  }

  // ---------------------------------------------------------------- the process lock

  /** A sync past its second read holds the lock. */
  ghost predicate LockOk(w: World) {
    forall k :: k in w.syncs && !w.syncs[k].HasRead? ==> w.holder == Some(k)
  }

  lemma EventKeepsLock(w: World, e: Event)
    requires LockOk(w)
    ensures LockOk(Happen(w, e))
  {
    hide Step, Commit, Passes, Collected;
  }

  lemma {:induction false} LockThroughout(w: World, events: seq<Event>, n: nat)
    requires LockOk(w) && n <= |events|
    ensures LockOk(At(w, events, n))
  {
    hide Happen, LockOk;
    if n > 0 {
      LockThroughout(w, events, n - 1);
      EventKeepsLock(At(w, events, n - 1), events[n - 1]);
    }
  }

  /** Once past its second read, a sync stays past it while it is in flight. */
  lemma {:induction false} StaysPast(w: World, events: seq<Event>, j: nat, n: nat, worker: nat, source: nat, before: Source)
    requires j <= n <= |events|
    requires forall m :: j <= m <= n ==> Carries(At(w, events, m), worker, source, before)
    requires Past(At(w, events, j), worker)
    ensures Past(At(w, events, n), worker)
  {
    hide Happen;
    if j < n {
      StaysPast(w, events, j, n - 1, worker, source, before);
      var here, e := At(w, events, n - 1), events[n - 1];
      assert Carries(here, worker, source, before) && Carries(At(w, events, n), worker, source, before);
      if Moves(e, worker) { OwnStep(here, e, worker); } else { OthersLeaveSync(here, e, worker); }
    }
  }

  ghost predicate Past(w: World, worker: nat) {
    worker in w.syncs && !w.syncs[worker].HasRead?
  }

  // ---------------------------------------------------------------- the theorems

  /**
    The whole way of a sync up to position n: four of its own steps in this order, in flight throughout;
    `first` is the text stored at its first read and `again` the text stored at its second.
    */
  ghost predicate SyncPath(w: World, events: seq<Event>, n: nat, worker: nat, t: Trace, source: nat, first: Source, again: Source)
    requires n <= |events|
  {
    && t.read < t.reread < t.collect < t.check < n
    && BeganAt(w, events, t.read, n, worker, source, first)
    && RereadAt(w, events, t.reread, worker, source, again)
    && events[t.collect].SyncCollect? && events[t.collect].worker == worker
    && CheckedAt(w, events, t.check, worker, source, first)
  }

  /** What the sync made of the reply. */
  ghost function Made(events: seq<Event>, t: Trace, first: Source): Source
    requires t.collect < |events| && events[t.collect].SyncCollect?
  {
    Collected(first, events[t.collect].now, events[t.collect].reply)
  }

  ghost predicate AboutToCommit(w: World, e: Event, worker: nat) {
    e == SyncCommit(worker) && worker in w.syncs && w.syncs[worker].HasChecked?
  }

  /** A sync that is about to commit came the whole way, and holds what it read and made on it. */
  lemma CommitCameTheWay(w: World, events: seq<Event>, n: nat, worker: nat) returns (t: Trace)
    requires worker !in w.syncs && n < |events| && AboutToCommit(At(w, events, n), events[n], worker)
    ensures var s := At(w, events, n).syncs[worker];
            SyncPath(w, events, n, worker, t, s.source, s.before, s.original) && s.updated == Made(events, t, s.before)
  {
    t := EverySyncIsTraced(w, events, n, worker);
    hide At, BeganAt, RereadAt, CheckedAt, Collected;
  }

  /**
    Whatever a commit changes, it is the source its sync read twice: the text stored when it commits is
    the text stored at the second read, and what is stored instead is made of the text stored at the
    first read and the reply that came in between.
    */
  lemma CommitIsTraced(w: World, events: seq<Event>, n: nat, worker: nat)
    returns (t: Trace, source: nat, first: Source, again: Source)
    requires worker !in w.syncs && n < |events| && events[n] == SyncCommit(worker)
    requires At(w, events, n + 1).tables != At(w, events, n).tables
    ensures SyncPath(w, events, n, worker, t, source, first, again)
    ensures Stored(At(w, events, n), source) == Stored(At(w, events, t.reread), source)
    ensures At(w, events, n + 1).tables ==
              At(w, events, n).tables.(sources := At(w, events, n).tables.sources[source := Made(events, t, first)])
  {
    var here := At(w, events, n);
    t := CommitCameTheWay(w, events, n, worker);
    var s := here.syncs[worker];
    source, first, again := s.source, s.before, s.original;
    hide BeganAt, CheckedAt, Made;
  }

  /**
    And what is stored then says what the reply of that sync said: an acceptable reply is the new snapshot
    with its percentage and warning and without an error, any other leaves the snapshot of the first read.
    */
  lemma CommitStoresReply(w: World, events: seq<Event>, n: nat, worker: nat)
    returns (t: Trace, source: nat, first: Source, again: Source)
    requires worker !in w.syncs && n < |events| && events[n] == SyncCommit(worker)
    requires At(w, events, n + 1).tables != At(w, events, n).tables
    ensures SyncPath(w, events, n, worker, t, source, first, again)
    ensures Stored(At(w, events, n + 1), source).Some?
    ensures Reflects(first, events[t.collect].now, events[t.collect].reply, Stored(At(w, events, n + 1), source).value)
  {
    hide Reflects, BeganAt, RereadAt, CheckedAt, Collected;
    t, source, first, again := CommitIsTraced(w, events, n, worker);
    CollectedReflects(first, events[t.collect].now, events[t.collect].reply);
  }

  /** A source that says so of an acceptable reply can be bound to the prefix of that network, and to no other. */
  lemma GoodReplyAllowsBinding(t: Tables, prefix: nat, source: nat, before: Source, now: int, reply: Reply)
    requires prefix in t.prefixes && source in t.sources && Reflects(before, now, reply, t.sources[source])
    requires Acceptable(before, reply) && before.settings.mode == DHCP
    ensures BindPrefix(t, prefix, Some(source)).Done? <==> t.prefixes[prefix].net == Mask(reply.cidr)
    ensures BindPrefix(t, prefix, Some(source)).Done? ==>
              BindPrefix(t, prefix, Some(source)).value == t.(bindings := t.bindings[prefix := source])
  {
    hide Mask, Contains;
  }

  /**
    When it writes, by the events alone: a sync that is about to commit writes exactly if no event since
    its second read has written the source, or the last one that did put back the text of that read. The
    text it replaces is the one of its first read exactly if the events between its two reads left that.
    */
  lemma CommitWritesExactly(w: World, events: seq<Event>, n: nat, worker: nat) returns (t: Trace)
    requires worker !in w.syncs && n < |events| && AboutToCommit(At(w, events, n), events[n], worker)
    ensures var s := At(w, events, n).syncs[worker];
            && SyncPath(w, events, n, worker, t, s.source, s.before, s.original)
            && (WritesAt(w, events, n, s.source) <==> Leaves(w, events, t.reread, n, s.source, s.original))
            && (WritesAt(w, events, n, s.source) ==>
                  (Stored(At(w, events, n), s.source) == Stored(At(w, events, t.read), s.source) <==>
                   Leaves(w, events, t.read, t.reread, s.source, s.before)))
  {
    var s := At(w, events, n).syncs[worker];
    t := CommitCameTheWay(w, events, n, worker);
    LeavesMeansStored(w, events, t.reread, n, s.source, s.original);
    LeavesMeansStored(w, events, t.read, t.reread, s.source, s.before);
    hide At, Leaves, CheckedAt;
  }

  /** The process lock: only saves and deletions by calls can come between the second read and the commit. */
  lemma OnlyCallsIntervene(w: World, events: seq<Event>, n: nat, worker: nat, t: Trace, source: nat, first: Source, again: Source, m: nat)
    requires LockOk(w) && n < |events| && SyncPath(w, events, n, worker, t, source, first, again)
    requires t.reread <= m < n && WritesAt(w, events, m, source)
    ensures events[m].Call?
  {
    if t.reread < m {
      PastItsReread(w, events, n, worker, t, source, first, again);
      StaysPast(w, events, t.reread + 1, m, worker, source, first);
      LockThroughout(w, events, m);
      assert Carries(At(w, events, m + 1), worker, source, first);
      HolderAloneCommits(At(w, events, m), events[m], worker, source);
    }
    hide At, Happen;
  }

  /** While one sync is past its second read and stays in flight, no event but a call writes a source. */
  lemma HolderAloneCommits(w: World, e: Event, worker: nat, source: nat)
    requires LockOk(w) && Past(w, worker) && worker in Happen(w, e).syncs && Writes(w, e, source)
    ensures e.Call?
  {
    hide Step, KeysFresh, SaveSource, DeleteSource, Passes, Collected;
  }

  /** The second read succeeds only with the lock free, and puts the sync past it. */
  lemma PastItsReread(w: World, events: seq<Event>, n: nat, worker: nat, t: Trace, source: nat, first: Source, again: Source)
    requires LockOk(w) && n <= |events| && SyncPath(w, events, n, worker, t, source, first, again)
    ensures Past(At(w, events, t.reread + 1), worker)
  {
    var here, next := At(w, events, t.reread), At(w, events, t.reread + 1);
    LockThroughout(w, events, t.reread);
    assert Carries(here, worker, source, first) && Carries(next, worker, source, first);
    assert next == Happen(here, SyncReread(worker));
    hide At, SyncPath;
  }

  /** An operator's save after the second read stands, unless it put back exactly what was there. */
  lemma LaterSaveStands(w: World, events: seq<Event>, n: nat, worker: nat, t: Trace, m: nat)
    requires worker !in w.syncs && n < |events| && AboutToCommit(At(w, events, n), events[n], worker)
    requires var s := At(w, events, n).syncs[worker];
             && SyncPath(w, events, n, worker, t, s.source, s.before, s.original)
             && LastWrite(w, events, t.reread, n, s.source) == Some(m) && LeftAt(w, events, m, s.source) != Some(s.original)
    ensures At(w, events, n + 1).tables == At(w, events, n).tables
    ensures var source := At(w, events, n).syncs[worker].source;
            Stored(At(w, events, n + 1), source) == LeftAt(w, events, m, source)
  {
    LastWriteDecides(w, events, t.reread, n, At(w, events, n).syncs[worker].source);
    hide LastWrite, LeftAt, SyncPath;
  }
}
