/** Importing inventory rows from a file: nothing is overwritten, and nothing is added twice. */
module CsvImport {
  import opened Collections

  /** Texts stand for their normalised form; a network key carries its company, firewall, zone and VLAN. */
  datatype Key = Name(text: string) | Ip(text: string) | Network(text: string)

  /** A stored device, virtual machine or network. */
  datatype Row = Machine(name: string, ip: string, extras: seq<string>) | Net(network: string)

  datatype Kind = Devices | Vms | Networks

  /**
    A line of the file: `Broken` when its identity cannot be read, `unusable` when something else in it
    is wrong, which is only looked at once the line is known to be new.
    */
  datatype Line =
    | Broken
    | NetLine(network: string, unusable: bool)
    | MachineLine(name: string, ip: string, extras: seq<string>, unusable: bool)

  type Table = map<nat, Row>

  function Ips(texts: seq<string>): set<Key> {
    set t | t in texts && t != "" :: Ip(t)
  }

  /** keys_for: everything a stored row is known by. */
  function KeysOf(r: Row): set<Key> {
    match r
    case Machine(name, ip, extras) => {Name(name)} + Ips([ip] + extras)
    case Net(network) => {Network(network)}
  }

  function LineKeys(l: Line): set<Key> {
    match l
    case Broken => {}
    case NetLine(network, _) => {Network(network)}
    case MachineLine(name, ip, extras, _) => {Name(name)} + Ips([ip] + extras)
  }

  ghost function Holders(t: Table, k: Key): set<nat> {
    set id | id in t && k in KeysOf(t[id])
  }

  /** Rows sharing an identity with the line. */
  ghost function Matches(t: Table, keys: set<Key>): set<nat> {
    set id | id in t && KeysOf(t[id]) * keys != {}
  }

  /** Some other device already has this address. */
  ghost predicate UsedByOther(t: Table, ip: string, id: nat) {
    exists x :: x in t && x != id && t[x].Machine? && (t[x].ip == ip || ip in t[x].extras)
  }

  /** _set_device_ips and _set_vm_ips: each further address once, not the main one; devices skip taken ones. */
  ghost function StoredExtras(t: Table, kind: Kind, id: nat, ip: string, extras: seq<string>): (r: seq<string>) {
    if extras == [] then []
    else
      var before, last := StoredExtras(t, kind, id, ip, extras[..|extras| - 1]), extras[|extras| - 1];
      if last == "" || last == ip || last in before || (kind == Devices && UsedByOther(t, last, id)) then before else before + [last]
  }

  ghost function NewRow(t: Table, kind: Kind, id: nat, l: Line): Row
    requires !l.Broken?
  {
    match l
    case NetLine(network, _) => Net(network)
    case MachineLine(name, ip, extras, _) => Machine(name, ip, StoredExtras(t, kind, id, ip, extras))
  }

  datatype Progress = Progress(table: Table, created: seq<nat>, skipped: nat)

  /** One line: an error, a duplicate, or a new row under the next key. */
  ghost function ImportLine(p: Progress, kind: Kind, l: Line, id: nat): Outcome<Progress> {
    if l.Broken? then Refused(400)
    else if Matches(p.table, LineKeys(l)) != {} then Done(p.(skipped := p.skipped + 1))
    else if l.unusable then Refused(400)
    else Done(Progress(p.table[id := NewRow(p.table, kind, id, l)], p.created + [id], p.skipped))
  }

  ghost function ImportLines(t: Table, kind: Kind, lines: seq<Line>, ids: seq<nat>, n: nat): Outcome<Progress>
    requires n <= |lines| == |ids|
  {
    if n == 0 then Done(Progress(t, [], 0))
    else
      match ImportLines(t, kind, lines, ids, n - 1)
      case Refused(code) => Refused(code)
      case Done(p) => ImportLine(p, kind, lines[n - 1], ids[n - 1])
  }

  // ---------------------------------------------------------------- a new row and its keys

  lemma NotUsed(t: Table, id: nat, a: string)
    requires a != "" && Holders(t, Ip(a)) == {}
    ensures !UsedByOther(t, a, id)
  {
    forall x | x in t && t[x].Machine? ensures t[x].ip != a && a !in t[x].extras {
      assert x !in Holders(t, Ip(a));
      assert a !in [t[x].ip] + t[x].extras;
    }
  }

  /** Nothing is lost of the further addresses when no stored row has them. */
  lemma {:induction false} ExtrasAreKept(t: Table, kind: Kind, id: nat, ip: string, extras: seq<string>)
    requires id !in t && forall a :: a in extras && a != "" ==> Holders(t, Ip(a)) == {}
    ensures forall a :: a in StoredExtras(t, kind, id, ip, extras) <==> a in extras && a != "" && a != ip
    decreases |extras|
  {
    if extras != [] {
      var front, last := extras[..|extras| - 1], extras[|extras| - 1];
      assert extras == front + [last];
      ExtrasAreKept(t, kind, id, ip, front);
      if last != "" { NotUsed(t, id, last); }
    }
  }

  /** A new row is known by exactly the keys its line was checked for. */
  lemma NewRowHasLineKeys(t: Table, kind: Kind, id: nat, l: Line)
    requires !l.Broken? && id !in t && Matches(t, LineKeys(l)) == {}
    ensures KeysOf(NewRow(t, kind, id, l)) == LineKeys(l)
  {
    if l.MachineLine? {
      forall a | a in l.extras && a != "" ensures Holders(t, Ip(a)) == {} {
        assert a in [l.ip] + l.extras;
        assert Ip(a) in LineKeys(l);
        forall x | x in t ensures Ip(a) !in KeysOf(t[x]) { assert x !in Matches(t, LineKeys(l)); }
      }
      ExtrasAreKept(t, kind, id, l.ip, l.extras);
      var stored := NewRow(t, kind, id, l).extras;
      forall a ensures a in [l.ip] + stored && a != "" <==> a in [l.ip] + l.extras && a != "" {
      }
      assert Ips([l.ip] + stored) == Ips([l.ip] + l.extras);
    }
  }

  // ---------------------------------------------------------------- a whole file

  ghost predicate IdsFresh(ids: seq<nat>, t: Table) {
    Distinct(ids) && forall id :: id in ids ==> id !in t
  }

  /** No row shares an identity with the one under `id`. */
  ghost predicate Alone(t: Table, id: nat)
    requires id in t
  {
    forall x :: x in t && x != id ==> KeysOf(t[x]) * KeysOf(t[id]) == {}
  }

  /** What the lines so far have done to the table: old rows stand, new rows are alone. */
  ghost predicate Grown(t: Table, p: Progress, ids: set<nat>) {
    && (forall id :: id in t ==> id in p.table && p.table[id] == t[id])
    && (forall id :: id in p.table <==> id in t || id in p.created)
    && (forall id :: id in p.created ==> id in ids && id !in t && id in p.table && Alone(p.table, id))
  }

  lemma LineGrows(t: Table, p: Progress, kind: Kind, l: Line, id: nat, ids: set<nat>)
    requires Grown(t, p, ids) && id !in p.table && id !in ids && ImportLine(p, kind, l, id).Done?
    ensures Grown(t, ImportLine(p, kind, l, id).value, ids + {id})
  {
    hide KeysOf, NewRow, LineKeys, Matches, Alone;
    if Matches(p.table, LineKeys(l)) == {} {
      var r := NewRow(p.table, kind, id, l);
      NewRowIsAlone(p.table, kind, id, l);
      forall x | x in p.created ensures Alone(p.table[id := r], x) { StaysAlone(p.table, x, id, r); }
    }
  }

  lemma NewRowIsAlone(t: Table, kind: Kind, id: nat, l: Line)
    requires !l.Broken? && id !in t && Matches(t, LineKeys(l)) == {}
    ensures Alone(t[id := NewRow(t, kind, id, l)], id)
    ensures forall x :: x in t ==> KeysOf(t[x]) * KeysOf(NewRow(t, kind, id, l)) == {}
  {
    NewRowHasLineKeys(t, kind, id, l);
    hide KeysOf, NewRow;
    forall x | x in t ensures KeysOf(t[x]) * LineKeys(l) == {} { assert x !in Matches(t, LineKeys(l)); }
  }

  lemma StaysAlone(t: Table, x: nat, id: nat, r: Row)
    requires x in t && Alone(t, x) && id !in t && KeysOf(t[x]) * KeysOf(r) == {}
    ensures Alone(t[id := r], x)
  {
    hide KeysOf;
  }

  lemma {:induction false} LinesGrow(t: Table, kind: Kind, lines: seq<Line>, ids: seq<nat>, n: nat)
    requires n <= |lines| == |ids| && IdsFresh(ids, t) && ImportLines(t, kind, lines, ids, n).Done?
    ensures Grown(t, ImportLines(t, kind, lines, ids, n).value, Members(ids[..n]))
  {
    hide ImportLine;
    if n > 0 {
      LinesGrow(t, kind, lines, ids, n - 1);
      var p := ImportLines(t, kind, lines, ids, n - 1).value;
      assert ids[n - 1] in ids && ids[n - 1] !in ids[..n - 1];
      assert Members(ids[..n]) == Members(ids[..n - 1]) + {ids[n - 1]} by { assert ids[..n] == ids[..n - 1] + [ids[n - 1]]; }
      LineGrows(t, p, kind, lines[n - 1], ids[n - 1], Members(ids[..n - 1]));
    }
  }

  /** Every line of an accepted file was either added or skipped. */
  lemma {:induction false} LinesAreCounted(t: Table, kind: Kind, lines: seq<Line>, ids: seq<nat>, n: nat)
    requires n <= |lines| == |ids|
    ensures var r := ImportLines(t, kind, lines, ids, n); r.Done? ==> |r.value.created| + r.value.skipped == n
  {
    hide Matches, LineKeys, NewRow;
    if n > 0 { LinesAreCounted(t, kind, lines, ids, n - 1); }
  }

  /**
    An accepted file leaves every row that was there, and no row it added shares an identity with any
    other row of the table.
    */
  lemma AddedRowsAreAlone(t: Table, kind: Kind, lines: seq<Line>, ids: seq<nat>)
    requires |lines| == |ids| && IdsFresh(ids, t)
    ensures match ImportLines(t, kind, lines, ids, |lines|)
            case Refused(code) => code == 400
            case Done(p) =>
              && (forall id :: id in t ==> id in p.table && p.table[id] == t[id])
              && (forall id :: id in p.table && id !in t ==> Alone(p.table, id))
              && |p.created| + p.skipped == |lines|
  {
    RefusalsAre400(t, kind, lines, ids, |lines|);
    LinesAreCounted(t, kind, lines, ids, |lines|);
    if ImportLines(t, kind, lines, ids, |lines|).Done? { LinesGrow(t, kind, lines, ids, |lines|); }
  }

  lemma {:induction false} RefusalsAre400(t: Table, kind: Kind, lines: seq<Line>, ids: seq<nat>, n: nat)
    requires n <= |lines| == |ids|
    ensures var r := ImportLines(t, kind, lines, ids, n); r.Refused? ==> r.code == 400
  {
    hide Matches, LineKeys, NewRow;
    if n > 0 { RefusalsAre400(t, kind, lines, ids, n - 1); }
  }

  // ---------------------------------------------------------------- importing the file again

  /** The line is readable and somebody in the table already has one of its identities. */
  ghost predicate Covered(t: Table, l: Line) {
    !l.Broken? && Matches(t, LineKeys(l)) != {}
  }

  lemma {:induction false} AcceptedIsCovered(t: Table, kind: Kind, lines: seq<Line>, ids: seq<nat>, n: nat, m: nat)
    requires m < n <= |lines| == |ids| && IdsFresh(ids, t) && ImportLines(t, kind, lines, ids, n).Done?
    ensures Covered(ImportLines(t, kind, lines, ids, n).value.table, lines[m])
    decreases n
  {
    hide ImportLine, Matches, LineKeys;
    var p, q := ImportLines(t, kind, lines, ids, n - 1).value, ImportLines(t, kind, lines, ids, n).value;
    LinesGrow(t, kind, lines, ids, n - 1);
    assert ids[n - 1] in ids && ids[n - 1] !in ids[..n - 1];
    if m < n - 1 {
      AcceptedIsCovered(t, kind, lines, ids, n - 1, m);
      LineKeepsRows(p, kind, lines[n - 1], ids[n - 1]);
      StaysCovered(p.table, q.table, lines[m]);
    } else {
      LineIsCovered(p, kind, lines[m], ids[m]);
    }
  }

  lemma LineKeepsRows(p: Progress, kind: Kind, l: Line, id: nat)
    requires id !in p.table && ImportLine(p, kind, l, id).Done?
    ensures forall x :: x in p.table ==> x in ImportLine(p, kind, l, id).value.table && ImportLine(p, kind, l, id).value.table[x] == p.table[x]
  {
  }

  lemma StaysCovered(t: Table, u: Table, l: Line)
    requires Covered(t, l) && forall x :: x in t ==> x in u && u[x] == t[x]
    ensures Covered(u, l)
  {
    var x :| x in Matches(t, LineKeys(l));
    assert x in Matches(u, LineKeys(l));
  }

  lemma LineIsCovered(p: Progress, kind: Kind, l: Line, id: nat)
    requires id !in p.table && ImportLine(p, kind, l, id).Done?
    ensures Covered(ImportLine(p, kind, l, id).value.table, l)
  {
    if Matches(p.table, LineKeys(l)) == {} {
      NewRowHasLineKeys(p.table, kind, id, l);
      var q := ImportLine(p, kind, l, id).value;
      assert LineKeys(l) != {} by {
        if l.MachineLine? { assert Name(l.name) in LineKeys(l); } else { assert Network(l.network) in LineKeys(l); }
      }
      assert id in Matches(q.table, LineKeys(l));
    }
  }

  lemma {:induction false} CoveredLinesAreSkipped(t: Table, kind: Kind, lines: seq<Line>, ids: seq<nat>, n: nat)
    requires n <= |lines| == |ids| && forall m :: 0 <= m < |lines| ==> Covered(t, lines[m])
    ensures ImportLines(t, kind, lines, ids, n) == Done(Progress(t, [], n))
  {
    hide Matches, LineKeys, NewRow;
    if n > 0 { CoveredLinesAreSkipped(t, kind, lines, ids, n - 1); }
  }

  /** Importing an accepted file a second time adds nothing and changes nothing. */
  lemma SecondImportAddsNothing(t: Table, kind: Kind, lines: seq<Line>, ids: seq<nat>, again: seq<nat>)
    requires |lines| == |ids| == |again| && IdsFresh(ids, t) && ImportLines(t, kind, lines, ids, |lines|).Done?
    ensures var u := ImportLines(t, kind, lines, ids, |lines|).value.table;
            ImportLines(u, kind, lines, again, |lines|) == Done(Progress(u, [], |lines|))
  {
    var u := ImportLines(t, kind, lines, ids, |lines|).value.table;
    forall m | 0 <= m < |lines| ensures Covered(u, lines[m]) { AcceptedIsCovered(t, kind, lines, ids, |lines|, m); }
    CoveredLinesAreSkipped(u, kind, lines, again, |lines|);
  }

  // ---------------------------------------------------------------- the importer

  /** The incremental index: for each identity, the rows that have it. */
  type Index = map<Key, set<nat>>

  function Lookup(identities: Index, k: Key): set<nat> {
    if k in identities then identities[k] else {}
  }

  /** The index is the one that would be built from the table now. */
  ghost predicate Agrees(identities: Index, t: Table) {
    forall k :: Lookup(identities, k) == Holders(t, k)
  }

  /** What indexing one more row does to a lookup. */
  ghost function LookupWith(identities: Index, keys: set<Key>, id: nat, k: Key): set<nat> {
    if k in keys then Lookup(identities, k) + {id} else Lookup(identities, k)
  }

  ghost predicate IndexedUpTo(identities: Index, after: Index, keys: set<Key>, id: nat) {
    forall k :: Lookup(after, k) == LookupWith(identities, keys, id, k)
  }

  lemma NothingIndexed(identities: Index, id: nat)
    ensures IndexedUpTo(identities, identities, {}, id)
  {
  }

  lemma IndexOne(identities: Index, after: Index, keys: set<Key>, id: nat, k: Key)
    requires IndexedUpTo(identities, after, keys, id) && k !in keys
    ensures IndexedUpTo(identities, after[k := Lookup(after, k) + {id}], keys + {k}, id)
  {
    var next := after[k := Lookup(after, k) + {id}];
    forall x ensures Lookup(next, x) == LookupWith(identities, keys + {k}, id, x) {
      assert Lookup(after, x) == LookupWith(identities, keys, id, x);
    }
  }

  lemma AgreesAfter(identities: Index, after: Index, t: Table, id: nat, r: Row)
    requires Agrees(identities, t) && id !in t && IndexedUpTo(identities, after, KeysOf(r), id)
    ensures Agrees(after, t[id := r])
  {
    hide KeysOf;
    forall k ensures Lookup(after, k) == Holders(t[id := r], k) {
      HoldersWith(t, id, r, k);
      assert Lookup(identities, k) == Holders(t, k);
    }
  }

  lemma HoldersWith(t: Table, id: nat, r: Row, k: Key)
    requires id !in t
    ensures Holders(t[id := r], k) == Holders(t, k) + if k in KeysOf(r) then {id} else {}
  {
    hide KeysOf;
  }

  lemma {:induction false} MatchesAreHolders(t: Table, keys: set<Key>, x: nat)
    ensures x in Matches(t, keys) <==> exists k :: k in keys && x in Holders(t, k)
  {
    hide KeysOf;
    if x in Matches(t, keys) {
      var k :| k in KeysOf(t[x]) * keys;
      assert x in Holders(t, k);
    }
    if k :| k in keys && x in Holders(t, k) { assert k in KeysOf(t[x]) * keys; }
  }

  datatype Fate = Fails | Repeats | Adds

  /** Once a line is refused, so is the file. */
  lemma {:induction false} ImportStops(t: Table, kind: Kind, lines: seq<Line>, ids: seq<nat>, n: nat, m: nat)
    requires n < m <= |lines| == |ids| && ImportLines(t, kind, lines, ids, n).Done?
    requires ImportLine(ImportLines(t, kind, lines, ids, n).value, kind, lines[n], ids[n]) == Refused(400)
    ensures ImportLines(t, kind, lines, ids, m) == Refused(400)
    decreases m
  {
    hide ImportLine;
    if n < m - 1 { ImportStops(t, kind, lines, ids, n, m - 1); }
  }

  /** No position exceeds `top`, and the old ones stand. */
  ghost predicate Placed(before: map<nat, int>, after: map<nat, int>, top: int, created: seq<nat>) {
    && (forall x :: x in after ==> after[x] <= top && (x in before || x in created))
    && (forall x :: x in before ==> x in after && after[x] == before[x])
  }

  /** Each added network comes after everything that was there and after those added before it. */
  ghost predicate Ranked(before: map<nat, int>, after: map<nat, int>, t: Table, created: seq<nat>) {
    forall i :: 0 <= i < |created| && created[i] in t && t[created[i]].Net? ==>
      && created[i] in after
      && (forall x :: x in before ==> x in after && after[x] < after[created[i]])
      && (forall j :: 0 <= j < i && created[j] in after ==> after[created[j]] < after[created[i]])
  }

  lemma RanksGrow(before: map<nat, int>, order: map<nat, int>, t: Table, created: seq<nat>, top: int, id: nat, row: Row)
    requires Placed(before, order, top, created) && Ranked(before, order, t, created) && id !in t && id !in before
    requires forall x :: x in created ==> x in t
    ensures row.Net? ==> Placed(before, order[id := top + 1], top + 1, created + [id]) && Ranked(before, order[id := top + 1], t[id := row], created + [id])
    ensures !row.Net? ==> Placed(before, order, top, created + [id]) && Ranked(before, order, t[id := row], created + [id])
  {
  }

  class Importer {
    var table: Table
    /** The sort position of each stored network. */
    var order: map<nat, int>

    /** index(row): file the row under each of its keys. */
    method IndexRow(identities: Index, id: nat, row: Row) returns (after: Index)
      ensures IndexedUpTo(identities, after, KeysOf(row), id)
    {
      hide KeysOf, Lookup, LookupWith;
      after := identities;
      var keys := KeysOf(row);
      var todo := keys;
      assert keys - todo == {};
      NothingIndexed(identities, id);
      while todo != {}
        invariant todo <= keys && IndexedUpTo(identities, after, keys - todo, id)
        decreases |todo|
      {
        var k :| k in todo;
        IndexOne(identities, after, keys - todo, id, k);
        assert keys - (todo - {k}) == keys - todo + {k};
        todo := todo - {k};
        after := after[k := Lookup(after, k) + {id}];
      }
      assert keys - todo == keys;
    }

    /** The index of everything stored. */
    method BuildIndex() returns (identities: Index)
      ensures Agrees(identities, table)
    {
      identities := map[];
      var todo := table.Keys;
      ghost var done: Table := map[];
      assert Agrees(identities, done);
      while todo != {}
        invariant todo <= table.Keys && done == Outside(table, todo) && Agrees(identities, done)
        decreases |todo|
      {
        hide Agrees, IndexedUpTo;
        var id: nat :| id in todo;
        OutsideGrows(table, todo, id);
        var after := IndexRow(identities, id, table[id]);
        AgreesAfter(identities, after, done, id, table[id]);
        identities, todo, done := after, todo - {id}, done[id := table[id]];
      }
      assert done == table;
    }

    /** All rows that share an identity with the line, each once. */
    method FindMatches(identities: Index, keys: set<Key>) returns (matches: set<nat>)
      requires Agrees(identities, table)
      ensures matches == Matches(table, keys)
    {
      matches := {};
      var todo := keys;
      while todo != {}
        invariant todo <= keys
        invariant forall x :: x in matches <==> exists k :: k in keys - todo && x in Holders(table, k)
        decreases |todo|
      {
        var k :| k in todo;
        ghost var was, before := todo, matches;
        todo := todo - {k};
        assert Lookup(identities, k) == Holders(table, k);
        assert keys - todo == keys - was + {k};
        matches := matches + Lookup(identities, k);
      }
      assert keys - todo == keys;
      forall x ensures x in matches <==> x in Matches(table, keys) { MatchesAreHolders(table, keys, x); }
    }

    /** Each further address once, not the main one; a device does not take one in use. */
    method StoreExtras(kind: Kind, id: nat, ip: string, extras: seq<string>) returns (kept: seq<string>)
      ensures kept == StoredExtras(table, kind, id, ip, extras)
    {
      hide UsedByOther;
      kept := [];
      var n := 0;
      while n < |extras|
        invariant n <= |extras| && kept == StoredExtras(table, kind, id, ip, extras[..n])
      {
        var e := extras[n];
        assert extras[..n + 1][..n] == extras[..n];
        var used := InUse(e, id);
        if e != "" && e != ip && e !in kept && !(kind == Devices && used) { kept := kept + [e]; }
        n := n + 1;
      }
      assert extras[..n] == extras;
    }

    /** The highest position in use; 0 when there is none. */
    method TopOrder() returns (top: int)
      ensures forall x :: x in order ==> order[x] <= top
      ensures order == map[] ==> top == 0
    {
      top := 0;
      var todo := order.Keys;
      var first := true;
      while todo != {}
        invariant todo <= order.Keys && (first <==> todo == order.Keys) && (first ==> top == 0)
        invariant forall x :: x in order && x !in todo ==> order[x] <= top
        decreases |todo|
      {
        var x: nat :| x in todo;
        todo := todo - {x};
        if first || top < order[x] { top := order[x]; }
        first := false;
      }
    }

    /**
      run_import: one pass over the lines with an index kept up to date as rows are added. An error
      rolls everything back; new networks are placed after every network there was, in file order.
      */
    method RunImport(kind: Kind, lines: seq<Line>, ids: seq<nat>) returns (code: nat, created: seq<nat>, skipped: nat)
      requires |lines| == |ids| && IdsFresh(ids, table) && forall x :: x in order ==> x in table
      modifies this
      ensures match ImportLines(old(table), kind, lines, ids, |lines|)
              case Refused(c) => code == c && table == old(table) && order == old(order)
              case Done(p) => code == 200 && Progress(table, created, skipped) == p
      ensures code == 200 ==> forall x :: x in old(order) ==> x in order && order[x] == old(order)[x]
      ensures code == 200 ==> Ranked(old(order), order, table, created)
    {
      hide ImportLine, KeysOf, LineKeys, Matches, Agrees, IndexedUpTo, NewRow;
      var started, placed := table, order;
      var identities := BuildIndex();
      var maxOrder := TopOrder();
      created, skipped, code := [], 0, 200;
      var n := 0;
      while n < |lines|
        invariant n <= |lines| && code == 200
        invariant ImportLines(started, kind, lines, ids, n) == Done(Progress(table, created, skipped))
        invariant Agrees(identities, table)
        invariant Placed(placed, order, maxOrder, created) && Ranked(placed, order, table, created)
      {
        LinesGrow(started, kind, lines, ids, n);
        assert ids[n] in ids && ids[n] !in ids[..n];
        assert ids[n] !in Members(ids[..n]) && ids[n] !in table;
        var fate, row := Classify(kind, lines[n], ids[n], identities, Progress(table, created, skipped));
        if fate == Fails {
          ImportStops(started, kind, lines, ids, n, |lines|);
          table, order := started, placed;
          return 400, [], 0;
        } else if fate == Repeats {
          skipped := skipped + 1;
        } else {
          var after := IndexRow(identities, ids[n], row);
          AgreesAfter(identities, after, table, ids[n], row);
          identities := after;
          RanksGrow(placed, order, table, created, maxOrder, ids[n], row);
          table := table[ids[n] := row];
          if row.Net? {
            maxOrder := maxOrder + 1;
            order := order[ids[n] := maxOrder];
          }
          created := created + [ids[n]];
        }
        n := n + 1;
      }
    }

    /** What becomes of one line. */
    method Classify(kind: Kind, l: Line, id: nat, identities: Index, ghost p: Progress) returns (fate: Fate, row: Row)
      requires Agrees(identities, table) && id !in table && p.table == table
      ensures ImportLine(p, kind, l, id) ==
                match fate
                case Fails => Refused(400)
                case Repeats => Done(p.(skipped := p.skipped + 1))
                case Adds => Done(Progress(table[id := row], p.created + [id], p.skipped))
    {
      row := Net("");
      if l.Broken? { return Fails, row; }
      var matches := FindMatches(identities, LineKeys(l));
      if matches != {} { return Repeats, row; }
      if l.unusable { return Fails, row; }
      if l.NetLine? {
        row := Net(l.network);
      } else {
        var kept := StoreExtras(kind, id, l.ip, l.extras);
        row := Machine(l.name, l.ip, kept);
      }
      fate := Adds;
    }

    /** _ip_used_by_other */
    predicate InUse(ip: string, id: nat)
      reads this
      ensures InUse(ip, id) == UsedByOther(table, ip, id)
    {
      exists x :: x in table && x != id && table[x].Machine? && (table[x].ip == ip || ip in table[x].extras)
    }
  }
}
