/**
  What becomes of a file, told by its lines and the stored rows alone: which lines are new, when the file
  is accepted, and what the table then holds.
  */
module CsvOutcome {
  import opened Collections
  import opened CsvImport

  /** The address is the main one or one of the further ones. */
  predicate Among(a: string, ip: string, extras: seq<string>) {
    a != "" && (a == ip || a in extras)
  }

  predicate RowHas(r: Row, a: string) {
    r.Machine? && Among(a, r.ip, r.extras)
  }

  predicate LineHas(l: Line, a: string) {
    l.MachineLine? && Among(a, l.ip, l.extras)
  }

  /** The row and the line are the same network, or have a name or an address in common. */
  ghost predicate Repeats(r: Row, l: Line) {
    || (r.Net? && l.NetLine? && r.network == l.network)
    || (r.Machine? && l.MachineLine? && (r.name == l.name || exists a :: RowHas(r, a) && LineHas(l, a)))
  }

  ghost predicate SameAsLine(k: Line, l: Line) {
    || (k.NetLine? && l.NetLine? && k.network == l.network)
    || (k.MachineLine? && l.MachineLine? && (k.name == l.name || exists a :: LineHas(k, a) && LineHas(l, a)))
  }

  /** The line repeats no stored row and no earlier new line. */
  ghost predicate IsNew(t: Table, lines: seq<Line>, n: nat)
    requires n < |lines|
    decreases n
  {
    && (forall x :: x in t ==> !Repeats(t[x], lines[n]))
    && forall m: nat :: m < n ==> IsNew(t, lines, m) ==> !SameAsLine(lines[m], lines[n])
  }

  /** The line can be read and, if it is new, everything else in it is in order. */
  ghost predicate Fine(t: Table, lines: seq<Line>, n: nat)
    requires n < |lines|
  {
    !lines[n].Broken? && (IsNew(t, lines, n) ==> !lines[n].unusable)
  }

  /** The row says what the line says: each further address once, without the main one. */
  ghost predicate SaysLine(r: Row, l: Line) {
    match l
    case Broken => false
    case NetLine(network, _) => r == Net(network)
    case MachineLine(name, ip, extras, _) =>
      && r.Machine? && r.name == name && r.ip == ip && Distinct(r.extras)
      && forall a :: a in r.extras <==> a in extras && a != "" && a != ip
  }

  // ---------------------------------------------------------------- keys and what they stand for

  lemma IpsMean(ip: string, extras: seq<string>)
    ensures forall a :: Ip(a) in Ips([ip] + extras) <==> Among(a, ip, extras)
    ensures forall k :: k in Ips([ip] + extras) ==> k.Ip? && Among(k.text, ip, extras)
  {
  }

  /** Having a key in common is repeating. */
  lemma SharedKeyRepeats(r: Row, l: Line)
    ensures KeysOf(r) * LineKeys(l) != {} <==> Repeats(r, l)
  {
    if r.Machine? { IpsMean(r.ip, r.extras); }
    if l.MachineLine? { IpsMean(l.ip, l.extras); }
    hide Ips, Among;
    if k :| k in KeysOf(r) && k in LineKeys(l) {
      if k.Ip? { assert RowHas(r, k.text) && LineHas(l, k.text); }
    }
    if Repeats(r, l) {
      if r.Net? { assert Network(r.network) in KeysOf(r) * LineKeys(l); }
      else if r.name == l.name { assert Name(r.name) in KeysOf(r) * LineKeys(l); }
      else {
        var a: string :| RowHas(r, a) && LineHas(l, a);
        assert Ip(a) in KeysOf(r) * LineKeys(l);
      }
    }
  }

  lemma MatchesMean(t: Table, l: Line)
    ensures Matches(t, LineKeys(l)) == {} <==> forall x :: x in t ==> !Repeats(t[x], l)
  {
    hide KeysOf, LineKeys, Repeats;
    forall x | x in t ensures x in Matches(t, LineKeys(l)) <==> Repeats(t[x], l) { SharedKeyRepeats(t[x], l); }
  }

  lemma {:induction false} ExtrasDistinct(t: Table, kind: Kind, id: nat, ip: string, extras: seq<string>)
    ensures Distinct(StoredExtras(t, kind, id, ip, extras))
    decreases |extras|
  {
    if extras != [] { ExtrasDistinct(t, kind, id, ip, extras[..|extras| - 1]); }
  }

  lemma NewRowSaysLine(t: Table, kind: Kind, id: nat, l: Line)
    requires !l.Broken? && id !in t && forall x :: x in t ==> !Repeats(t[x], l)
    ensures SaysLine(NewRow(t, kind, id, l), l)
  {
    if l.MachineLine? {
      ExtrasDistinct(t, kind, id, l.ip, l.extras);
      forall a | a in l.extras && a != "" ensures Holders(t, Ip(a)) == {} {
        forall x | x in t ensures Ip(a) !in KeysOf(t[x]) {
          if t[x].Machine? {
            IpsMean(t[x].ip, t[x].extras);
            assert LineHas(l, a) && !RowHas(t[x], a);
          }
        }
      }
      ExtrasAreKept(t, kind, id, l.ip, l.extras);
    }
  }

  /** A row that says a line repeats exactly the lines that line is the same as. */
  lemma SaysMeansSame(r: Row, k: Line, l: Line)
    requires SaysLine(r, k)
    ensures Repeats(r, l) <==> SameAsLine(k, l)
  {
    assert forall a :: RowHas(r, a) <==> LineHas(k, a);
    hide Among;
  }

  // ---------------------------------------------------------------- the file

  /** The table after n lines: the old rows, and for each new line its row under the key the line was given. */
  ghost predicate Told(t: Table, u: Table, lines: seq<Line>, ids: seq<nat>, n: nat)
    requires n <= |lines| == |ids|
  {
    && (forall x :: x in t ==> x in u && u[x] == t[x])
    && (forall x :: x in u && x !in t ==> exists m :: 0 <= m < n && IsNew(t, lines, m) && x == ids[m])
    && (forall m :: 0 <= m < n && IsNew(t, lines, m) ==> ids[m] in u && ids[m] !in t && SaysLine(u[ids[m]], lines[m]))
  }

  /** The next line matches nothing in the table exactly when it is new. */
  lemma NoMatchMeansNew(t: Table, u: Table, lines: seq<Line>, ids: seq<nat>, n: nat)
    requires n < |lines| == |ids| && Told(t, u, lines, ids, n)
    ensures Matches(u, LineKeys(lines[n])) == {} <==> IsNew(t, lines, n)
  {
    MatchesMean(u, lines[n]);
    hide Matches, LineKeys, Repeats, SameAsLine, SaysLine;
    forall m: nat | m < n && IsNew(t, lines, m)
      ensures Repeats(u[ids[m]], lines[n]) <==> SameAsLine(lines[m], lines[n])
    {
      SaysMeansSame(u[ids[m]], lines[m], lines[n]);
    }
  }

  lemma ToldStep(t: Table, u: Table, lines: seq<Line>, ids: seq<nat>, n: nat, row: Row)
    requires n < |lines| == |ids| && Told(t, u, lines, ids, n) && ids[n] !in u
    ensures !IsNew(t, lines, n) ==> Told(t, u, lines, ids, n + 1)
    ensures IsNew(t, lines, n) && SaysLine(row, lines[n]) ==> Told(t, u[ids[n] := row], lines, ids, n + 1)
  {
    hide IsNew, SaysLine;
    var v := u[ids[n] := row];
    forall x | x in u && x !in t ensures exists m :: 0 <= m < n + 1 && IsNew(t, lines, m) && x == ids[m] {
      var m :| 0 <= m < n && IsNew(t, lines, m) && x == ids[m];
    }
    assert forall m :: 0 <= m < n && IsNew(t, lines, m) ==> ids[m] in u && ids[m] != ids[n];
  }

  ghost predicate AllFine(t: Table, lines: seq<Line>, n: nat)
    requires n <= |lines|
  {
    forall m :: 0 <= m < n ==> Fine(t, lines, m)
  }

  /** The keys of the new lines, in the order of the file. */
  ghost function NewIds(t: Table, lines: seq<Line>, ids: seq<nat>, n: nat): seq<nat>
    requires n <= |lines| == |ids|
  {
    if n == 0 then [] else NewIds(t, lines, ids, n - 1) + if IsNew(t, lines, n - 1) then [ids[n - 1]] else []
  }

  lemma {:induction false} LinesAreTold(t: Table, kind: Kind, lines: seq<Line>, ids: seq<nat>, n: nat)
    requires n <= |lines| == |ids| && IdsFresh(ids, t)
    ensures ImportLines(t, kind, lines, ids, n).Done? <==> AllFine(t, lines, n)
    ensures ImportLines(t, kind, lines, ids, n).Done? ==> Told(t, ImportLines(t, kind, lines, ids, n).value.table, lines, ids, n)
    ensures ImportLines(t, kind, lines, ids, n).Done? ==> ImportLines(t, kind, lines, ids, n).value.created == NewIds(t, lines, ids, n)
  {
    hide IsNew, SaysLine, Matches, LineKeys, NewRow, Told, Repeats;
    if n == 0 {
      NothingTold(t, lines, ids);
    } else {
      LinesAreTold(t, kind, lines, ids, n - 1);
      assert AllFine(t, lines, n) <==> AllFine(t, lines, n - 1) && Fine(t, lines, n - 1);
      if ImportLines(t, kind, lines, ids, n - 1).Done? {
        var u := ImportLines(t, kind, lines, ids, n - 1).value.table;
        LinesGrow(t, kind, lines, ids, n - 1);
        assert ids[n - 1] in ids && ids[n - 1] !in ids[..n - 1];
        NoMatchMeansNew(t, u, lines, ids, n - 1);
        if !lines[n - 1].Broken? { LineIsTold(t, u, kind, lines, ids, n - 1); }
      }
    }
  }

  lemma LineIsTold(t: Table, u: Table, kind: Kind, lines: seq<Line>, ids: seq<nat>, n: nat)
    requires n < |lines| == |ids| && Told(t, u, lines, ids, n) && ids[n] !in u && !lines[n].Broken?
    ensures !IsNew(t, lines, n) ==> Told(t, u, lines, ids, n + 1)
    ensures IsNew(t, lines, n) ==> Told(t, u[ids[n] := NewRow(u, kind, ids[n], lines[n])], lines, ids, n + 1)
  {
    hide IsNew, SaysLine, NewRow, Told, Repeats, Matches, LineKeys;
    ToldStep(t, u, lines, ids, n, NewRow(u, kind, ids[n], lines[n]));
    if IsNew(t, lines, n) {
      NoMatchMeansNew(t, u, lines, ids, n);
      MatchesMean(u, lines[n]);
      NewRowSaysLine(u, kind, ids[n], lines[n]);
    }
  }

  lemma NothingTold(t: Table, lines: seq<Line>, ids: seq<nat>)
    requires |lines| == |ids|
    ensures Told(t, t, lines, ids, 0)
  {
  }

  /**
    A file is accepted exactly when every line can be read and every new line is in order; then the table
    holds the old rows and, for each new line and no other, a row that says what the line says.
    */
  lemma FileIsTold(t: Table, kind: Kind, lines: seq<Line>, ids: seq<nat>)
    requires |lines| == |ids| && IdsFresh(ids, t)
    ensures ImportLines(t, kind, lines, ids, |lines|).Done? <==> AllFine(t, lines, |lines|)
    ensures ImportLines(t, kind, lines, ids, |lines|).Done? ==>
              && Told(t, ImportLines(t, kind, lines, ids, |lines|).value.table, lines, ids, |lines|)
              && ImportLines(t, kind, lines, ids, |lines|).value.created == NewIds(t, lines, ids, |lines|)
  {
    LinesAreTold(t, kind, lines, ids, |lines|);
  }
}
