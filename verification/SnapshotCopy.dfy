/** Copying a SQLite snapshot into an empty PostgreSQL schema, one statement at a time. */
module SnapshotCopy {
  import opened Collections

  datatype Cell = Empty | Int(i: int) | Text(s: string)

  type Row = map<string, Cell>
  type Key = seq<Cell>
  type Table = map<Key, Row>
  type Database = map<string, Table>

  /** A foreign key refers to the single primary column of another table, or of its own. */
  datatype Column = Column(nullable: bool, references: Option<string>)

  /** `serial` are the primary columns that own a sequence. */
  datatype Schema = Schema(columns: map<string, Column>, primary: seq<string>, serial: set<string>)

  const VERSION := "alembic_version"

  /** Primary columns exist and are never null; the check that one exists is the program's own. */
  ghost predicate Declared(s: Schema) {
    && (forall c :: c in s.primary ==> c in s.columns && !s.columns[c].nullable)
    && (forall c :: c in s.serial ==> c in s.columns)
  }

  function KeyOf(s: Schema, r: Row): Key
    requires forall c :: c in s.primary ==> c in r
  {
    seq(|s.primary|, i requires 0 <= i < |s.primary| => assert s.primary[i] in s.primary; r[s.primary[i]])
  }

  ghost predicate RowFits(s: Schema, k: Key, r: Row)
    requires Declared(s)
  {
    r.Keys == s.columns.Keys && KeyOf(s, r) == k
  }

  predicate Filled(s: Schema, r: Row) {
    forall c :: c in s.columns && !s.columns[c].nullable ==> c in r && r[c] != Empty
  }

  ghost predicate AllFilled(s: Schema, t: Table) {
    forall k :: k in t ==> Filled(s, t[k])
  }

  /** One foreign key column of one row points at an existing row, or at nothing. */
  predicate Points(db: Database, s: Schema, r: Row, c: string) {
    c in s.columns && s.columns[c].references.Some? && c in r && r[c] != Empty ==>
      var target := s.columns[c].references.value;
      target in db && [r[c]] in db[target]
  }

  predicate RowPoints(db: Database, s: Schema, r: Row) {
    forall c :: c in s.columns ==> Points(db, s, r, c)
  }

  predicate TablePoints(db: Database, s: Schema, t: Table) {
    forall k :: k in t ==> RowPoints(db, s, t[k])
  }

  /** Every foreign key of the database holds. */
  predicate Integrity(schemas: map<string, Schema>, db: Database) {
    forall t :: t in db && t in schemas ==> TablePoints(db, schemas[t], db[t])
  }

  /** Every row of the first database is, by its key, in the second. */
  ghost predicate KeysGrow(before: Database, after: Database) {
    forall t :: t in before ==> t in after && before[t].Keys <= after[t].Keys
  }

  lemma PointsGrow(before: Database, after: Database, s: Schema, r: Row)
    requires KeysGrow(before, after) && RowPoints(before, s, r)
    ensures RowPoints(after, s, r)
  {
    forall c | c in s.columns ensures Points(after, s, r, c) { assert Points(before, s, r, c); }
  }

  lemma TablePointsGrow(before: Database, after: Database, s: Schema, t: Table)
    requires KeysGrow(before, after) && TablePoints(before, s, t)
    ensures TablePoints(after, s, t)
  {
    forall k | k in t ensures RowPoints(after, s, t[k]) { PointsGrow(before, after, s, t[k]); }
  }

  /** One changed table keeps the rest: its new content points well, and no key went away. */
  lemma IntegrityAfter(schemas: map<string, Schema>, before: Database, name: string, content: Table)
    requires Integrity(schemas, before) && name in before && name in schemas && before[name].Keys <= content.Keys
    requires TablePoints(before[name := content], schemas[name], content)
    ensures Integrity(schemas, before[name := content])
  {
    var after := before[name := content];
    forall t | t in after && t in schemas ensures TablePoints(after, schemas[t], after[t]) {
      if t != name { TablePointsGrow(before, after, schemas[t], before[t]); }
    }
  }

  // ---------------------------------------------------------------- self references

  predicate SelfColumn(s: Schema, name: string, c: string) {
    c in s.columns && s.columns[c].references == Some(name)
  }

  /** Self references can wait only if they may be null for a while. */
  predicate SelfNullable(s: Schema, name: string) {
    forall c :: c in s.columns && SelfColumn(s, name, c) ==> s.columns[c].nullable
  }

  /** A row as first inserted: its self references are null. */
  function Blanked(s: Schema, name: string, r: Row): Row {
    map c | c in r :: if SelfColumn(s, name, c) then Empty else r[c]
  }

  /** The self references to restore. */
  function SelfValues(s: Schema, name: string, r: Row): Row {
    map c | c in r && SelfColumn(s, name, c) :: r[c]
  }

  lemma BlankedThenRestored(s: Schema, name: string, k: Key, r: Row)
    requires Declared(s) && SelfNullable(s, name) && RowFits(s, k, r)
    ensures Blanked(s, name, r) + SelfValues(s, name, r) == r
    ensures RowFits(s, k, Blanked(s, name, r))
    ensures Filled(s, Blanked(s, name, r)) <==> Filled(s, r)
  {
    var b := Blanked(s, name, r);
    forall c | c in s.primary ensures b[c] == r[c] { assert c in s.columns && !s.columns[c].nullable; }
    assert KeyOf(s, b) == KeyOf(s, r);
    if Filled(s, b) {
      forall c | c in s.columns && !s.columns[c].nullable ensures r[c] != Empty { assert b[c] != Empty; }
    }
  }

  /** With self references blanked, a row needs only the tables it names to be there. */
  lemma BlankedPoints(db: Database, target: Database, s: Schema, name: string, r: Row)
    requires RowPoints(db, s, r) && Ready(db, target, s, name)
    ensures RowPoints(target, s, Blanked(s, name, r))
  {
    forall c | c in s.columns ensures Points(target, s, Blanked(s, name, r), c) { assert Points(db, s, r, c); }
  }

  // ---------------------------------------------------------------- the target

  /** The tables a row of `name` refers to, other than `name`, have the keys they have in `db`. */
  ghost predicate Ready(db: Database, target: Database, s: Schema, name: string) {
    forall c :: c in s.columns && s.columns[c].references.Some? && !SelfColumn(s, name, c) ==>
      SameKeys(db, target, s.columns[c].references.value)
  }

  ghost predicate SameKeys(db: Database, target: Database, t: string) {
    t in db ==> t in target && target[t].Keys == db[t].Keys
  }

  lemma RestoredPoints(db: Database, target: Database, s: Schema, name: string, r: Row)
    requires RowPoints(db, s, r) && Ready(db, target, s, name) && SameKeys(db, target, name)
    ensures RowPoints(target, s, r)
  {
    forall c | c in s.columns ensures Points(target, s, r, c) { assert Points(db, s, r, c); }
  }

  /** The rows of a stretch of a listing, as inserted. */
  ghost function Inserted(s: Schema, name: string, t: Table, stretch: seq<Key>): Table {
    map k | k in stretch && k in t :: Blanked(s, name, t[k])
  }

  /** What a stretch of the listing leaves to restore. */
  ghost predicate Waiting(deferred: seq<(Key, Row)>, s: Schema, name: string, t: Table, stretch: seq<Key>) {
    if HasSelf(s, name) then
      |deferred| == |stretch| && forall i :: 0 <= i < |stretch| ==>
        stretch[i] in t && deferred[i] == (stretch[i], SelfValues(s, name, t[stretch[i]]))
    else deferred == []
  }

  lemma NothingInserted(s: Schema, name: string, t: Table)
    ensures Inserted(s, name, t, []) == map[] && Waiting([], s, name, t, [])
  {
  }

  lemma WaitingJoins(a: seq<(Key, Row)>, b: seq<(Key, Row)>, s: Schema, name: string, t: Table, order: seq<Key>, lo: nat, hi: nat)
    requires lo <= hi <= |order| && Waiting(a, s, name, t, order[..lo]) && Waiting(b, s, name, t, order[lo..hi])
    ensures Waiting(a + b, s, name, t, order[..hi])
  {
    hide HasSelf, SelfValues;
    assert order[..hi] == order[..lo] + order[lo..hi];
  }

  lemma StretchesJoin(s: Schema, name: string, t: Table, order: seq<Key>, lo: nat, hi: nat)
    requires lo <= hi <= |order| && Lists(order, t.Keys)
    ensures order[..hi] == order[..lo] + order[lo..hi]
    ensures Inserted(s, name, t, order[..lo]).Keys !! Inserted(s, name, t, order[lo..hi]).Keys
    ensures Inserted(s, name, t, order[..lo]) + Inserted(s, name, t, order[lo..hi]) == Inserted(s, name, t, order[..hi])
  {
    hide Blanked;
    assert order[..hi] == order[..lo] + order[lo..hi];
    forall k | k in order[..lo] ensures k !in order[lo..hi] {
      var i :| 0 <= i < lo && order[i] == k;
      assert forall j :: lo <= j < hi ==> order[j] != k;
    }
  }

  lemma StretchFits(s: Schema, name: string, t: Table, stretch: seq<Key>)
    requires Declared(s) && SelfNullable(s, name) && forall k :: k in t ==> RowFits(s, k, t[k])
    ensures forall k :: k in Inserted(s, name, t, stretch) ==> RowFits(s, k, Inserted(s, name, t, stretch)[k])
    ensures AllFilled(s, Inserted(s, name, t, stretch)) <==> forall k :: k in stretch && k in t ==> Filled(s, t[k])
  {
    forall k | k in stretch && k in t
      ensures RowFits(s, k, Blanked(s, name, t[k])) && (Filled(s, Blanked(s, name, t[k])) <==> Filled(s, t[k]))
    {
      BlankedThenRestored(s, name, k, t[k]);
    }
    var rows := Inserted(s, name, t, stretch);
    if AllFilled(s, rows) {
      forall k | k in stretch && k in t ensures Filled(s, t[k]) { assert k in rows && Filled(s, rows[k]); }
    }
  }

  lemma StretchPoints(db: Database, before: Database, content: Table, s: Schema, name: string, t: Table, stretch: seq<Key>)
    requires TablePoints(db, s, t) && Ready(db, before, s, name)
    ensures TablePoints(before[name := content], s, Inserted(s, name, t, stretch))
  {
    var after := before[name := content];
    forall c | c in s.columns && s.columns[c].references.Some? && !SelfColumn(s, name, c)
      ensures SameKeys(db, after, s.columns[c].references.value)
    {
      assert SameKeys(db, before, s.columns[c].references.value);
    }
    forall k | k in stretch && k in t ensures RowPoints(after, s, Blanked(s, name, t[k])) { BlankedPoints(db, after, s, name, t[k]); }
  }

  /** All rows are in, and those of `done` have their self references back. */
  ghost function Restored(s: Schema, name: string, t: Table, done: seq<Key>): (r: Table)
    ensures r.Keys == t.Keys
  {
    map k | k in t :: if k in done then t[k] else Blanked(s, name, t[k])
  }

  predicate HasSelf(s: Schema, name: string) {
    exists c :: c in s.columns && SelfColumn(s, name, c)
  }

  lemma RestoreStarts(s: Schema, name: string, t: Table, order: seq<Key>)
    requires Lists(order, t.Keys)
    ensures Inserted(s, name, t, order) == Restored(s, name, t, [])
    ensures !HasSelf(s, name) ==> Inserted(s, name, t, order) == t
    ensures Restored(s, name, t, order) == t
  {
    forall k | k in t && !HasSelf(s, name) ensures Blanked(s, name, t[k]) == t[k] {
      assert forall c :: c in s.columns ==> !SelfColumn(s, name, c);
    }
  }

  lemma RestoreOne(s: Schema, name: string, t: Table, done: seq<Key>, k: Key)
    requires k in t
    ensures Restored(s, name, t, done + [k]) == Restored(s, name, t, done)[k := t[k]]
  {
  }

  /** The stopped source: its schema, its rows, and what SQLite's integrity check says. */
  datatype Snapshot = Snapshot(schemas: map<string, Schema>, tables: Database, sound: bool)

  datatype Verdict = Copied | Cancelled(why: string)

  /** The checks made before the first row is written. */
  predicate Comparable(x: Snapshot, schemas: map<string, Schema>) {
    && schemas.Keys == x.schemas.Keys
    && (forall t :: t in schemas ==> schemas[t].columns.Keys == x.schemas[t].columns.Keys && schemas[t].primary != [])
    && VERSION in schemas
  }

  /** Schemas at the same migration agree on their keys and references. */
  ghost predicate SameMigration(x: Snapshot, schemas: map<string, Schema>) {
    forall t :: t in schemas && t in x.schemas ==>
      && schemas[t].primary == x.schemas[t].primary
      && forall c :: c in schemas[t].columns && c in x.schemas[t].columns ==>
           schemas[t].columns[c].references == x.schemas[t].columns[c].references
  }

  ghost predicate WellStored(x: Snapshot) {
    && x.tables.Keys == x.schemas.Keys
    && forall t :: t in x.schemas ==>
         Declared(x.schemas[t]) && forall k :: k in x.tables[t] ==> RowFits(x.schemas[t], k, x.tables[t][k])
  }

  /** A table comes after every other table it refers to. */
  ghost predicate DependencyOrder(schemas: map<string, Schema>, order: seq<string>) {
    && Lists(order, schemas.Keys - {VERSION})
    && forall i :: 0 <= i < |order| ==> order[i] in schemas && ReferencesBefore(schemas[order[i]], order[i], order[..i])
  }

  ghost predicate ReferencesBefore(s: Schema, name: string, before: seq<string>) {
    forall c :: c in s.columns && s.columns[c].references.Some? && !SelfColumn(s, name, c) ==> s.columns[c].references.value in before
  }

  ghost predicate ListsRows(listing: map<string, seq<Key>>, x: Snapshot) {
    forall t :: t in x.tables ==> t in listing && Lists(listing[t], x.tables[t].Keys)
  }

  /** Rows that fit a schema fit every schema with the same columns and primary columns. */
  lemma FitsBoth(a: Schema, b: Schema, t: Table)
    requires Declared(a) && Declared(b) && a.columns.Keys == b.columns.Keys && a.primary == b.primary
    requires forall k :: k in t ==> RowFits(a, k, t[k])
    ensures forall k :: k in t ==> RowFits(b, k, t[k])
  {
    forall k | k in t ensures RowFits(b, k, t[k]) { assert RowFits(a, k, t[k]); }
  }

  lemma PointsBoth(db: Database, a: Schema, b: Schema, t: Table)
    requires a.columns.Keys == b.columns.Keys && forall c :: c in a.columns ==> a.columns[c].references == b.columns[c].references
    requires TablePoints(db, a, t)
    ensures TablePoints(db, b, t)
  {
    forall k | k in t ensures RowPoints(db, b, t[k]) {
      forall c | c in b.columns ensures Points(db, b, t[k], c) { assert RowPoints(db, a, t[k]) && Points(db, a, t[k], c); }
    }
  }

  class Target {
    const schemas: map<string, Schema>
    var tables: Database
    /** The next value of the sequence behind a primary column. */
    var next: map<(string, string), int>

    /** What the database enforces after every statement. */
    ghost predicate Valid()
      reads this
    {
      && tables.Keys == schemas.Keys
      && (forall t :: t in schemas ==> Declared(schemas[t]))
      && Integrity(schemas, tables)
    }

    /**
      INSERT of several rows. The caller must bring new keys and rows whose foreign keys hold once
      the statement is done; the database still refuses the statement if a required column is empty.
      */
    method Insert(name: string, rows: Table) returns (ok: bool)
      requires Valid() && name in schemas && tables[name].Keys !! rows.Keys
      requires forall k :: k in rows ==> RowFits(schemas[name], k, rows[k])
      requires TablePoints(tables[name := tables[name] + rows], schemas[name], rows)
      modifies `tables
      ensures Valid()
      ensures ok <==> AllFilled(schemas[name], rows)
      ensures tables == if ok then old(tables)[name := old(tables[name]) + rows] else old(tables)
    {
      ok := forall k :: k in rows ==> forall c :: c in schemas[name].columns && !schemas[name].columns[c].nullable ==>
              c in rows[k] && rows[k][c] != Empty;
      if ok {
        var after := tables[name] + rows;
        assert TablePoints(tables[name := after], schemas[name], after) by {
          TablePointsGrow(tables, tables[name := after], schemas[name], tables[name]);
        }
        IntegrityAfter(schemas, tables, name, after);
        tables := tables[name := after];
      }
    }

    /** UPDATE of one row found by its primary key. */
    method Update(name: string, key: Key, values: Row)
      requires Valid() && name in schemas && key in tables[name]
      requires RowPoints(tables, schemas[name], tables[name][key] + values)
      modifies `tables
      ensures Valid()
      ensures tables == old(tables)[name := old(tables[name])[key := old(tables[name][key]) + values]]
    {
      var row := tables[name][key] + values;
      var after := tables[name][key := row];
      assert TablePoints(tables[name := after], schemas[name], after) by {
        TablePointsGrow(tables, tables[name := after], schemas[name], tables[name]);
        PointsGrow(tables, tables[name := after], schemas[name], row);
      }
      IntegrityAfter(schemas, tables, name, after);
      tables := tables[name := after];
    }

    /** One fetched batch: the rows with their self references blanked, and what to restore later. */
    method Stage(name: string, source: Table, batch: seq<Key>) returns (rows: Table, deferred: seq<(Key, Row)>)
      requires name in schemas && forall k :: k in batch ==> k in source
      ensures rows == Inserted(schemas[name], name, source, batch)
      ensures Waiting(deferred, schemas[name], name, source, batch)
    {
      hide Blanked, SelfValues, HasSelf;
      rows, deferred := map[], [];
      var i := 0;
      while i < |batch|
        invariant i <= |batch|
        invariant rows == Inserted(schemas[name], name, source, batch[..i])
        invariant Waiting(deferred, schemas[name], name, source, batch[..i])
      {
        var k := batch[i];
        assert k in batch && batch[..i + 1] == batch[..i] + [k];
        if HasSelf(schemas[name], name) {
          deferred := deferred + [(k, SelfValues(schemas[name], name, source[k]))];
        }
        rows := rows[k := Blanked(schemas[name], name, source[k])];
        i := i + 1;
      }
      assert batch[..i] == batch;
    }

    /** What InsertAll and RestoreAll need to know about one table of the snapshot. */
    ghost predicate Copyable(name: string, source: Table, order: seq<Key>)
    {
      && name in schemas && Declared(schemas[name]) && SelfNullable(schemas[name], name)
      && Lists(order, source.Keys) && forall k :: k in source ==> RowFits(schemas[name], k, source[k])
    }

    method InsertBatch(name: string, source: Table, ghost order: seq<Key>, batch: seq<Key>, ghost db: Database)
      returns (ok: bool, deferred: seq<(Key, Row)>)
      requires Valid() && Copyable(name, source, order) && forall k :: k in batch ==> k in source
      requires tables[name].Keys !! Inserted(schemas[name], name, source, batch).Keys
      requires TablePoints(db, schemas[name], source) && Ready(db, tables, schemas[name], name)
      modifies `tables
      ensures Valid() && Waiting(deferred, schemas[name], name, source, batch)
      ensures ok <==> forall k :: k in batch ==> Filled(schemas[name], source[k])
      ensures tables == if ok then old(tables)[name := old(tables[name]) + Inserted(schemas[name], name, source, batch)]
                        else old(tables)
    {
      var rows;
      rows, deferred := Stage(name, source, batch);
      StretchFits(schemas[name], name, source, batch);
      StretchPoints(db, tables, tables[name] + rows, schemas[name], name, source, batch);
      ok := Insert(name, rows);
    }

    /** Insert every row, a batch at a time, with self references blanked. */
    method InsertAll(name: string, source: Table, order: seq<Key>, batch: nat, ghost db: Database)
      returns (ok: bool, deferred: seq<(Key, Row)>)
      requires Valid() && Copyable(name, source, order) && tables[name] == map[] && batch > 0
      requires TablePoints(db, schemas[name], source) && Ready(db, tables, schemas[name], name)
      modifies `tables
      ensures Valid()
      ensures ok <==> AllFilled(schemas[name], source)
      ensures tables == old(tables)[name := tables[name]]
      ensures ok ==> tables[name] == Inserted(schemas[name], name, source, order)
      ensures ok ==> Waiting(deferred, schemas[name], name, source, order)
    {
      hide Integrity, TablePoints, RowPoints, RowFits, SelfNullable, SelfValues, Declared, Inserted, Filled, Waiting;
      deferred := [];
      var lo := 0;
      assert order[..0] == [];
      NothingInserted(schemas[name], name, source);
      while lo < |order|
        invariant lo <= |order| && Valid()
        invariant tables == old(tables)[name := Inserted(schemas[name], name, source, order[..lo])]
        invariant forall k :: k in order[..lo] ==> Filled(schemas[name], source[k])
        invariant Waiting(deferred, schemas[name], name, source, order[..lo])
      {
        var hi := if lo + batch < |order| then lo + batch else |order|;
        forall k | k in order[lo..hi] ensures k in source { assert k in order; }
        StretchesJoin(schemas[name], name, source, order, lo, hi);
        var staged;
        ok, staged := InsertBatch(name, source, order, order[lo..hi], db);
        if !ok { return; }
        WaitingJoins(deferred, staged, schemas[name], name, source, order, lo, hi);
        deferred := deferred + staged;
        lo := hi;
      }
      assert order[..lo] == order;
      ok := true;
    }

    /** Give every row its self references back: now all the rows they can name exist. */
    method RestoreAll(name: string, ghost source: Table, ghost order: seq<Key>, deferred: seq<(Key, Row)>, ghost db: Database)
      requires Valid() && Copyable(name, source, order) && HasSelf(schemas[name], name)
      requires tables[name] == Inserted(schemas[name], name, source, order) && Waiting(deferred, schemas[name], name, source, order)
      requires TablePoints(db, schemas[name], source) && Ready(db, tables, schemas[name], name)
      requires name in db && db[name].Keys == source.Keys
      modifies `tables
      ensures Valid() && tables == old(tables)[name := source]
    {
      hide Integrity, RowPoints, RowFits, SelfValues, Declared, Inserted, Blanked, HasSelf, Restored, SelfNullable, Ready;
      ghost var s := schemas[name];
      RestoreStarts(s, name, source, order);
      var i := 0;
      while i < |deferred|
        invariant i <= |deferred| == |order| && Valid()
        invariant tables == old(tables)[name := Restored(s, name, source, order[..i])]
      {
        ghost var k := order[i];
        assert k in order && order[..i + 1] == order[..i] + [k];
        RestoreOne(s, name, source, order[..i], k);
        assert k !in order[..i];
        RestoredRow(s, name, source, order[..i], k);
        StillReady(db, old(tables), Restored(s, name, source, order[..i]), s, name);
        RestoredPoints(db, tables, s, name, source[k]);
        Update(name, deferred[i].0, deferred[i].1);
        i := i + 1;
      }
      assert order[..i] == order;
    }

    /** The largest number in a column, if the table has rows. */
    method Maximum(name: string, c: string, order: seq<Key>) returns (m: Option<int>)
      requires Valid() && name in schemas && Lists(order, tables[name].Keys)
      ensures m.None? <==> forall k :: k in tables[name] ==> !Numbered(tables[name][k], c)
      ensures m.Some? ==> forall k :: k in tables[name] && Numbered(tables[name][k], c) ==> tables[name][k][c].i <= m.value
      ensures m.Some? ==> exists k :: k in tables[name] && Numbered(tables[name][k], c) && tables[name][k][c].i == m.value
    {
      m := None;
      var i := 0;
      while i < |order|
        invariant i <= |order|
        invariant m.None? <==> forall k :: k in order[..i] ==> !Numbered(tables[name][k], c)
        invariant m.Some? ==> forall k :: k in order[..i] && Numbered(tables[name][k], c) ==> tables[name][k][c].i <= m.value
        invariant m.Some? ==> exists k :: k in tables[name] && Numbered(tables[name][k], c) && tables[name][k][c].i == m.value
      {
        assert order[i] in order && order[..i + 1] == order[..i] + [order[i]];
        var row := tables[name][order[i]];
        if Numbered(row, c) && (m.None? || m.value < row[c].i) { m := Some(row[c].i); }
        i := i + 1;
      }
      assert order[..i] == order;
    }

    /** setval for every sequence behind a primary column of the table. */
    method SetSequences(name: string, order: seq<Key>)
      requires Valid() && name in schemas && Lists(order, tables[name].Keys)
      modifies `next
      ensures forall c :: c in schemas[name].serial ==> Beyond(tables[name], next, name, c)
      ensures forall x :: x in old(next) && x.0 != name ==> x in next && next[x] == old(next)[x]
    {
      var todo := schemas[name].serial;
      while todo != {}
        invariant todo <= schemas[name].serial
        invariant forall c :: c in schemas[name].serial - todo ==> Beyond(tables[name], next, name, c)
        invariant forall x :: x in old(next) && x.0 != name ==> x in next && next[x] == old(next)[x]
        decreases |todo|
      {
        var c :| c in todo;
        todo := todo - {c};
        var maximum := Maximum(name, c, order);
        var value := if maximum.Some? && maximum.value > 1 then maximum.value else 1;
        ghost var was := next;
        next := next[(name, c) := if maximum.Some? then value + 1 else value];
        forall d | d in schemas[name].serial - todo ensures Beyond(tables[name], next, name, d) {
          if d != c { assert Beyond(tables[name], was, name, d); }
        }
      }
    }

    /** One table: all rows, then their self references, then the comparison, then the sequences. */
    method CopyTable(name: string, source: Table, order: seq<Key>, batch: nat, ghost db: Database) returns (ok: bool)
      requires Valid() && name in schemas && tables[name] == map[] && batch > 0 && Lists(order, source.Keys)
      requires forall k :: k in source ==> RowFits(schemas[name], k, source[k])
      requires TablePoints(db, schemas[name], source) && Ready(db, tables, schemas[name], name)
      requires name in db && db[name].Keys == source.Keys
      modifies `tables, `next
      ensures Valid()
      ensures ok <==> SelfNullable(schemas[name], name) && AllFilled(schemas[name], source)
      ensures tables == old(tables)[name := tables[name]]
      ensures ok ==> tables[name] == source && SequencesSet(schemas[name], source, next, name)
      ensures forall x :: x in old(next) && x.0 != name ==> x in next && next[x] == old(next)[x]
    {
      hide Integrity, TablePoints, Declared, Inserted, RowFits, Waiting, HasSelf, AllFilled;
      if !SelfNullable(schemas[name], name) { return false; }
      var deferred;
      ok, deferred := InsertAll(name, source, order, batch, db);
      if !ok { return; }
      RestoreStarts(schemas[name], name, source, order);
      if HasSelf(schemas[name], name) {
        StillReady(db, old(tables), tables[name], schemas[name], name);
        RestoreAll(name, source, order, deferred, db);
      }
      if tables[name] != source { return false; }
      SetSequences(name, order);
    }

    /** What the copy may rely on: both sides stored properly, and the tables listed in dependency order. */
    ghost predicate Given(x: Snapshot, order: seq<string>, listing: map<string, seq<Key>>)
      reads this
    {
      && Valid() && WellStored(x) && ListsRows(listing, x) && DependencyOrder(schemas, order)
      && (Comparable(x, schemas) && tables[VERSION] == x.tables[VERSION] ==> SameMigration(x, schemas))
    }

    /** Exactly when the copy goes through. */
    ghost predicate Accepts(x: Snapshot, order: seq<string>)
      requires Valid() && WellStored(x) && DependencyOrder(schemas, order)
      reads this
    {
      && Comparable(x, schemas) && x.sound && Integrity(x.schemas, x.tables)
      && tables[VERSION] == x.tables[VERSION]
      && (forall t :: t in order ==> tables[t] == map[])
      && forall t :: t in order ==> SelfNullable(schemas[t], t) && AllFilled(schemas[t], x.tables[t])
    }

    /** What is true of the copy once the first n tables are done. */
    ghost predicate CopiedSoFar(x: Snapshot, order: seq<string>, n: nat)
      requires n <= |order| && Comparable(x, schemas) && WellStored(x) && DependencyOrder(schemas, order)
      reads this
    {
      && Valid()
      && tables[VERSION] == x.tables[VERSION]
      && (forall i :: 0 <= i < n ==> Finished(x, order[i]))
      && (forall i :: n <= i < |order| ==> order[i] in schemas && tables[order[i]] == map[])
    }

    ghost predicate Finished(x: Snapshot, t: string)
      requires Comparable(x, schemas) && WellStored(x) && Valid()
      reads this
    {
      && t in schemas && tables[t] == x.tables[t]
      && SelfNullable(schemas[t], t) && AllFilled(schemas[t], x.tables[t])
      && SequencesSet(schemas[t], tables[t], next, t)
    }

    lemma NextTableReady(x: Snapshot, order: seq<string>, listing: map<string, seq<Key>>, n: nat)
      requires Given(x, order, listing) && Comparable(x, schemas) && SameMigration(x, schemas) && Integrity(x.schemas, x.tables)
      requires n < |order| && CopiedSoFar(x, order, n)
      ensures order[n] in schemas && order[n] in x.tables && Lists(listing[order[n]], x.tables[order[n]].Keys)
      ensures forall k :: k in x.tables[order[n]] ==> RowFits(schemas[order[n]], k, x.tables[order[n]][k])
      ensures TablePoints(x.tables, schemas[order[n]], x.tables[order[n]])
      ensures Ready(x.tables, tables, schemas[order[n]], order[n])
    {
      var t := order[n];
      assert t in order;
      FitsBoth(x.schemas[t], schemas[t], x.tables[t]);
      PointsBoth(x.tables, x.schemas[t], schemas[t], x.tables[t]);
      assert ReferencesBefore(schemas[t], t, order[..n]);
      forall c | c in schemas[t].columns && schemas[t].columns[c].references.Some? && !SelfColumn(schemas[t], t, c)
        ensures SameKeys(x.tables, tables, schemas[t].columns[c].references.value)
      {
        var r := schemas[t].columns[c].references.value;
        var i :| 0 <= i < n && order[i] == r;
        assert Finished(x, order[i]);
      }
    }

    /**
      copy_verified_snapshot: after the checks, the tables in dependency order, each in batches. Every
      statement keeps every foreign key (Insert and Update demand it). The copy goes through exactly
      when Accepts says so, and then every table equals its source and every sequence is past every
      copied key; otherwise the rows are as they were.
      */
    method Copy(x: Snapshot, order: seq<string>, listing: map<string, seq<Key>>, batch: nat) returns (v: Verdict)
      requires Given(x, order, listing) && batch > 0
      modifies `tables, `next
      ensures Valid()
      ensures v.Copied? <==> old(Accepts(x, order))
      ensures v.Copied? ==> tables == x.tables && forall t :: t in order ==> SequencesSet(schemas[t], tables[t], next, t)
      ensures v.Cancelled? ==> tables == old(tables)
    {
      hide Integrity, AllFilled, SelfNullable, SameMigration, SequencesSet, ReferencesBefore, RowFits, ListsRows, CopiedSoFar;
      if schemas.Keys != x.schemas.Keys { return Cancelled("tables differ"); }
      if !Comparable(x, schemas) { return Cancelled("columns differ, or a primary key or the version table is missing"); }
      if !x.sound { return Cancelled("the snapshot fails its integrity check"); }
      if !Integrity(x.schemas, x.tables) { return Cancelled("the snapshot has dangling foreign keys"); }
      if tables[VERSION] != x.tables[VERSION] { return Cancelled("migration versions differ"); }
      var empty := HoldsNothing(order);
      if !empty { return Cancelled("the target holds data"); }
      NothingCopied(x, order);
      v := CopyTables(x, order, listing, batch);
      if v.Copied? {
        AllCopied(x, order);
      }
    }

    method HoldsNothing(order: seq<string>) returns (empty: bool)
      requires forall t :: t in order ==> t in tables
      ensures empty <==> forall t :: t in order ==> tables[t] == map[]
    {
      var i := 0;
      while i < |order|
        invariant i <= |order| && forall t :: t in order[..i] ==> tables[t] == map[]
      {
        assert order[i] in order && order[..i + 1] == order[..i] + [order[i]];
        if |tables[order[i]]| != 0 { return false; }
        i := i + 1;
      }
      assert order[..i] == order;
      empty := true;
    }

    lemma NothingCopied(x: Snapshot, order: seq<string>)
      requires Valid() && Comparable(x, schemas) && WellStored(x) && DependencyOrder(schemas, order)
      requires tables[VERSION] == x.tables[VERSION] && forall t :: t in order ==> tables[t] == map[]
      ensures CopiedSoFar(x, order, 0)
    {
    }

    lemma AllCopied(x: Snapshot, order: seq<string>)
      requires Valid() && Comparable(x, schemas) && WellStored(x) && DependencyOrder(schemas, order)
      requires CopiedSoFar(x, order, |order|)
      ensures tables == x.tables && forall t :: t in order ==> SequencesSet(schemas[t], tables[t], next, t)
    {
      forall t | t in order ensures tables[t] == x.tables[t] && SequencesSet(schemas[t], tables[t], next, t) {
        var j :| 0 <= j < |order| && order[j] == t;
        assert Finished(x, order[j]);
      }
      forall t | t in schemas ensures tables[t] == x.tables[t] {
        if t != VERSION { assert t in order; }
      }
    }

    method CopyTables(x: Snapshot, order: seq<string>, listing: map<string, seq<Key>>, batch: nat) returns (v: Verdict)
      requires Given(x, order, listing) && batch > 0 && Comparable(x, schemas) && SameMigration(x, schemas)
      requires Integrity(x.schemas, x.tables) && CopiedSoFar(x, order, 0)
      modifies `tables, `next
      ensures Valid() && (v.Cancelled? ==> tables == old(tables))
      ensures v.Copied? <==> forall t :: t in order ==> SelfNullable(schemas[t], t) && AllFilled(schemas[t], x.tables[t])
      ensures v.Copied? ==> CopiedSoFar(x, order, |order|)
    {
      hide Integrity, AllFilled, SelfNullable, SameMigration, TablePoints, Comparable;
      var begun := tables;
      var i := 0;
      while i < |order|
        invariant i <= |order| && CopiedSoFar(x, order, i)
      {
        NextTableReady(x, order, listing, i);
        ghost var was := next;
        var ok := CopyTable(order[i], x.tables[order[i]], listing[order[i]], batch, x.tables);
        if !ok {
          assert order[i] in order;
          tables := begun;
          return Cancelled("a table cannot be copied");
        }
        forall j | 0 <= j < i ensures Finished(x, order[j]) {
          SequencesStay(schemas[order[j]], tables[order[j]], was, next, order[j]);
        }
        i := i + 1;
      }
      v := Copied;
    }
  }

  lemma SequencesStay(s: Schema, t: Table, before: map<(string, string), int>, after: map<(string, string), int>, name: string)
    requires SequencesSet(s, t, before, name)
    requires forall x :: x in before && x.0 == name ==> x in after && after[x] == before[x]
    ensures SequencesSet(s, t, after, name)
  {
    forall c | c in s.serial ensures Beyond(t, after, name, c) { assert Beyond(t, before, name, c); }
  }

  ghost predicate SequencesSet(s: Schema, t: Table, next: map<(string, string), int>, name: string) {
    forall c :: c in s.serial ==> Beyond(t, next, name, c)
  }

  predicate Numbered(r: Row, c: string) {
    c in r && r[c].Int?
  }

  /**
    The next key the sequence hands out is above every key in the table, and no higher than need be:
    1 for no keys at all, else one past the largest, but at least 2.
    */
  ghost predicate Beyond(t: Table, next: map<(string, string), int>, name: string, c: string) {
    && (name, c) in next
    && (forall k :: k in t && Numbered(t[k], c) ==> t[k][c].i < next[(name, c)])
    && ((next[(name, c)] == 1 && forall k :: k in t ==> !Numbered(t[k], c))
        || (next[(name, c)] >= 2 && exists k :: k in t && Numbered(t[k], c) && (t[k][c].i == next[(name, c)] - 1 || next[(name, c)] == 2)))
  }

  lemma RestoredRow(s: Schema, name: string, t: Table, done: seq<Key>, k: Key)
    requires Declared(s) && SelfNullable(s, name) && k in t && RowFits(s, k, t[k]) && k !in done
    ensures k in Restored(s, name, t, done)
    ensures Restored(s, name, t, done)[k] + SelfValues(s, name, t[k]) == t[k]
  {
    BlankedThenRestored(s, name, k, t[k]);
  }

  /** Rewriting the rows of a table under the same keys leaves it as ready as it was. */
  lemma StillReady(db: Database, before: Database, content: Table, s: Schema, name: string)
    requires Ready(db, before, s, name) && name in db && db[name].Keys == content.Keys
    ensures Ready(db, before[name := content], s, name) && SameKeys(db, before[name := content], name)
  {
    forall c | c in s.columns && s.columns[c].references.Some? && !SelfColumn(s, name, c)
      ensures SameKeys(db, before[name := content], s.columns[c].references.value)
    {
      assert SameKeys(db, before, s.columns[c].references.value);
    }
  }
}
