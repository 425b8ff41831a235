/** The overview tree: aggregates, their top prefixes, and everything below them. */
module IpamTree {
  import opened Collections
  import opened Addressing
  import opened IpamTables

  datatype Node = Node(id: nat, children: seq<Node>)

  /** One entry of the overview; the group without an aggregate collects what no aggregate reached. */
  datatype Group = Group(aggregate: Ref, children: seq<Node>)

  /** The prefixes below and including a node, in the order they were built. */
  function Flat(n: Node): seq<nat> {
    [n.id] + FlatAll(n.children)
  }

  function FlatAll(ns: seq<Node>): seq<nat> {
    if ns == [] then [] else FlatAll(ns[..|ns| - 1]) + Flat(ns[|ns| - 1])
  }

  function FlatGroups(gs: seq<Group>): seq<nat> {
    if gs == [] then [] else FlatGroups(gs[..|gs| - 1]) + FlatAll(gs[|gs| - 1].children)
  }

  lemma FlatAppend(ns: seq<Node>, n: Node)
    ensures FlatAll(ns + [n]) == FlatAll(ns) + Flat(n)
  {
    assert (ns + [n])[..|ns|] == ns;
  }

  lemma FlatGroupsAppend(gs: seq<Group>, g: Group)
    ensures FlatGroups(gs + [g]) == FlatGroups(gs) + FlatAll(g.children)
  {
    assert (gs + [g])[..|gs|] == gs;
  }

  /** Building `flat` turned the visited set `before` into `after`, visiting each row once. */
  ghost predicate Visits(flat: seq<nat>, before: set<nat>, after: set<nat>) {
    before <= after && Distinct(flat) && forall x :: x in flat <==> x in after - before
  }

  lemma VisitsCompose(a: seq<nat>, b: seq<nat>, v0: set<nat>, v1: set<nat>, v2: set<nat>)
    requires Visits(a, v0, v1) && Visits(b, v1, v2)
    ensures Visits(a + b, v0, v2)
  {
    forall i, j | 0 <= i < j < |a + b| ensures (a + b)[i] != (a + b)[j] {
      if i < |a| <= j { assert a[i] in a && b[j - |a|] in b; }
    }
  }

  /** Every child hangs below the prefix that its own row names as its parent. */
  ghost predicate NestedNode(prefixes: map<nat, Prefix>, n: Node) {
    n.id in prefixes && NestedBelow(prefixes, n.children, Some(n.id))
  }

  ghost predicate NestedBelow(prefixes: map<nat, Prefix>, ns: seq<Node>, parent: Ref) {
    forall i :: 0 <= i < |ns| ==>
      NestedNode(prefixes, ns[i]) && (parent.Some? ==> prefixes[ns[i].id].parent == parent)
  }

  /** Climbing n parent links from p reaches a parentless prefix of an existing aggregate. */
  ghost predicate ClimbsIn(t: Tables, p: nat, n: nat)
    decreases n
  {
    && p in t.prefixes
    && var x := t.prefixes[p];
       if n == 0 then x.parent.None? && x.aggregate.Some? && x.aggregate.value in t.aggregates
       else x.parent.Some? && ClimbsIn(t, x.parent.value, n - 1)
  }

  ghost predicate Placed(t: Tables, p: nat) {
    exists n: nat :: ClimbsIn(t, p, n)
  }

  lemma ChildOfPlaced(t: Tables, p: nat, c: nat)
    requires Placed(t, p) && c in t.prefixes && t.prefixes[c].parent == Some(p)
    ensures Placed(t, c)
  {
    var n: nat :| ClimbsIn(t, p, n);
    assert ClimbsIn(t, c, n + 1);
  }

  /** Every child of the rows in `done` is in `seen`. */
  ghost predicate ChildrenSeen(prefixes: map<nat, Prefix>, done: set<nat>, seen: set<nat>) {
    forall c :: c in prefixes && prefixes[c].parent.Some? && prefixes[c].parent.value in done ==> c in seen
  }

  /** A set that holds the top rows and all children of its members holds every placed row. */
  lemma {:induction false} ClosedHoldsPlaced(t: Tables, seen: set<nat>, p: nat, n: nat)
    requires ChildrenSeen(t.prefixes, seen, seen) && (forall q :: ClimbsIn(t, q, 0) ==> q in seen)
    requires ClimbsIn(t, p, n)
    ensures p in seen
    decreases n
  {
    if n > 0 { ClosedHoldsPlaced(t, seen, t.prefixes[p].parent.value, n - 1); }
  }

  /** On a consistent inventory the placed prefixes are exactly those with an aggregate. */
  lemma PlacedMeansAggregated(t: Tables, p: nat)
    requires Keyed(t) && ForeignKeys(t) && ForestClean(t) && p in t.prefixes
    ensures Placed(t, p) <==> t.prefixes[p].aggregate.Some?
  {
    if t.prefixes[p].aggregate.Some? { Climb(t, p); }
    if Placed(t, p) {
      var n: nat :| ClimbsIn(t, p, n);
      ClimbKeepsAggregate(t, p, n);
    }
  }

  /** Parents are wider, so the climb ends. */
  lemma {:induction false} Climb(t: Tables, p: nat)
    requires Keyed(t) && ForeignKeys(t) && ForestClean(t) && p in t.prefixes && t.prefixes[p].aggregate.Some?
    ensures Placed(t, p)
    decreases t.prefixes[p].net.length
  {
    assert PrefixRelationOk(t, p) && PrefixKeysHold(t, t.prefixes[p]);
    if t.prefixes[p].parent.None? {
      assert ClimbsIn(t, p, 0);
    } else {
      var q := t.prefixes[p].parent.value;
      StrictSubnetIsLonger(t.prefixes[p].net, t.prefixes[q].net);
      Climb(t, q);
      ChildOfPlaced(t, q, p);
    }
  }

  lemma {:induction false} ClimbKeepsAggregate(t: Tables, p: nat, n: nat)
    requires Keyed(t) && ForestClean(t) && ClimbsIn(t, p, n)
    ensures t.prefixes[p].aggregate.Some?
    decreases n
  {
    assert PrefixRelationOk(t, p);
    if n > 0 { ClimbKeepsAggregate(t, t.prefixes[p].parent.value, n - 1); }
  }

  /** A top prefix of an aggregate. */
  ghost predicate TopOf(prefixes: map<nat, Prefix>, aggregate: nat, p: nat) {
    p in prefixes && prefixes[p].parent.None? && prefixes[p].aggregate == Some(aggregate)
  }

  ghost predicate TopsListed(prefixes: map<nat, Prefix>, group: Group) {
    && group.aggregate.Some? && NestedBelow(prefixes, group.children, None)
    && forall i :: 0 <= i < |group.children| ==> TopOf(prefixes, group.aggregate.value, group.children[i].id)
  }

  class TreeBuilder {
    const tables: Tables
    /** The order in which the query returned the prefixes. */
    const order: seq<nat>
    var visited: set<nat>

    ghost predicate Valid()
      reads this
    {
      Lists(order, tables.prefixes.Keys) && visited <= tables.prefixes.Keys
    }

    constructor (tables: Tables, order: seq<nat>)
      requires Lists(order, tables.prefixes.Keys)
      ensures Valid() && this.tables == tables && this.order == order && visited == {}
    {
      this.tables, this.order, this.visited := tables, order, {};
    }

    /** A row and everything below it that has not been listed yet. */
    method BuildNode(p: nat) returns (node: Node)
      requires Valid() && p in tables.prefixes && p !in visited
      modifies `visited
      ensures Valid() && node.id == p && p in visited && NestedNode(tables.prefixes, node)
      ensures Visits(Flat(node), old(visited), visited)
      ensures ChildrenSeen(tables.prefixes, visited - old(visited), visited)
      ensures Placed(tables, p) ==> forall x :: x in visited - old(visited) ==> Placed(tables, x)
      decreases tables.prefixes.Keys - visited, 0
    {
      ghost var before := visited;
      visited := visited + {p};
      var children := BuildBelow(Some(p));
      node := Node(p, children);
      assert Visits([p], before, before + {p});
      VisitsCompose([p], FlatAll(children), before, before + {p}, visited);
    }

    /** The rows not listed yet that hang directly below `parent`, each with everything below it. */
    method BuildBelow(parent: Ref) returns (children: seq<Node>)
      requires Valid() && parent.Some? && parent.value in tables.prefixes
      modifies `visited
      ensures Valid() && NestedBelow(tables.prefixes, children, parent)
      ensures Visits(FlatAll(children), old(visited), visited)
      ensures ChildrenSeen(tables.prefixes, visited - old(visited) + {parent.value}, visited)
      ensures Placed(tables, parent.value) ==> forall x :: x in visited - old(visited) ==> Placed(tables, x)
      decreases tables.prefixes.Keys - visited, 1
    {
      children := [];
      var i := 0;
      while i < |order|
        invariant i <= |order| && Valid() && old(visited) <= visited
        invariant NestedBelow(tables.prefixes, children, parent)
        invariant Visits(FlatAll(children), old(visited), visited)
        invariant ChildrenSeen(tables.prefixes, visited - old(visited), visited)
        invariant forall j :: 0 <= j < i && order[j] in tables.prefixes && tables.prefixes[order[j]].parent == parent ==> order[j] in visited
        invariant Placed(tables, parent.value) ==> forall x :: x in visited - old(visited) ==> Placed(tables, x)
      {
        var c := order[i];
        assert c in order;
        if tables.prefixes[c].parent == parent && c !in visited {
          ghost var before := visited;
          var child := BuildNode(c);
          if Placed(tables, parent.value) { ChildOfPlaced(tables, parent.value, c); }
          VisitsCompose(FlatAll(children), Flat(child), old(visited), before, visited);
          FlatAppend(children, child);
          children := children + [child];
        }
        i := i + 1;
      }
    }

    /** The parentless rows of one aggregate, each with everything below it. */
    method BuildAggregate(aggregate: nat) returns (group: Group)
      requires Valid() && aggregate in tables.aggregates
      modifies `visited
      ensures Valid() && group.aggregate == Some(aggregate) && TopsListed(tables.prefixes, group)
      ensures Visits(FlatAll(group.children), old(visited), visited)
      ensures ChildrenSeen(tables.prefixes, visited - old(visited), visited)
      ensures forall p :: TopOf(tables.prefixes, aggregate, p) ==> p in visited
      ensures forall x :: x in visited - old(visited) ==> Placed(tables, x)
    {
      var children := [];
      var i := 0;
      while i < |order|
        invariant i <= |order| && Valid() && old(visited) <= visited
        invariant TopsListed(tables.prefixes, Group(Some(aggregate), children))
        invariant Visits(FlatAll(children), old(visited), visited)
        invariant ChildrenSeen(tables.prefixes, visited - old(visited), visited)
        invariant forall p :: p in order[..i] && TopOf(tables.prefixes, aggregate, p) ==> p in visited
        invariant forall x :: x in visited - old(visited) ==> Placed(tables, x)
      {
        var p := order[i];
        assert p in order && order[..i + 1] == order[..i] + [p];
        if tables.prefixes[p].aggregate == Some(aggregate) && tables.prefixes[p].parent.None? && p !in visited {
          ghost var before := visited;
          var child := BuildNode(p);
          assert ClimbsIn(tables, p, 0);
          VisitsCompose(FlatAll(children), Flat(child), old(visited), before, visited);
          FlatAppend(children, child);
          children := children + [child];
        }
        i := i + 1;
      }
      assert order[..i] == order;
      group := Group(Some(aggregate), children);
    }

    /** Whatever the aggregates did not reach, listed under no aggregate. */
    method BuildLeftover() returns (children: seq<Node>)
      requires Valid()
      modifies `visited
      ensures visited == tables.prefixes.Keys && NestedBelow(tables.prefixes, children, None)
      ensures Visits(FlatAll(children), old(visited), visited)
    {
      children := [];
      var i := 0;
      while i < |order|
        invariant i <= |order| && Valid() && old(visited) <= visited
        invariant NestedBelow(tables.prefixes, children, None)
        invariant Visits(FlatAll(children), old(visited), visited)
        invariant forall p :: p in order[..i] ==> p in visited
      {
        var p := order[i];
        assert p in order && order[..i + 1] == order[..i] + [p];
        if p !in visited {
          ghost var before := visited;
          var child := BuildNode(p);
          VisitsCompose(FlatAll(children), Flat(child), old(visited), before, visited);
          FlatAppend(children, child);
          children := children + [child];
        }
        i := i + 1;
      }
      assert order[..i] == order;
    }

    /** The groups of the first aggregates. */
    method BuildAggregates(aggregates: seq<nat>) returns (groups: seq<Group>)
      requires Valid() && visited == {} && Lists(aggregates, tables.aggregates.Keys)
      modifies `visited
      ensures Valid() && |groups| == |aggregates|
      ensures forall i :: 0 <= i < |groups| ==> groups[i].aggregate == Some(aggregates[i]) && TopsListed(tables.prefixes, groups[i])
      ensures Visits(FlatGroups(groups), {}, visited)
      ensures forall p :: p in visited <==> Placed(tables, p)
    {
      groups := [];
      var i := 0;
      while i < |aggregates|
        invariant i <= |aggregates| && Valid() && |groups| == i
        invariant forall j :: 0 <= j < i ==> groups[j].aggregate == Some(aggregates[j]) && TopsListed(tables.prefixes, groups[j])
        invariant Visits(FlatGroups(groups), {}, visited)
        invariant ChildrenSeen(tables.prefixes, visited, visited)
        invariant forall a, p :: a in aggregates[..i] && TopOf(tables.prefixes, a, p) ==> p in visited
        invariant forall p :: p in visited ==> Placed(tables, p)
      {
        assert aggregates[i] in aggregates && aggregates[..i + 1] == aggregates[..i] + [aggregates[i]];
        ghost var before := visited;
        var group := BuildAggregate(aggregates[i]);
        VisitsCompose(FlatGroups(groups), FlatAll(group.children), {}, before, visited);
        FlatGroupsAppend(groups, group);
        groups := groups + [group];
        i := i + 1;
      }
      assert aggregates[..i] == aggregates;
      forall p | Placed(tables, p) ensures p in visited {
        var n: nat :| ClimbsIn(tables, p, n);
        forall q: nat | ClimbsIn(tables, q, 0) ensures q in visited {
          assert TopOf(tables.prefixes, tables.prefixes[q].aggregate.value, q);
        }
        ClosedHoldsPlaced(tables, visited, p, n);
      }
    }

    /**
      The overview: one group per aggregate, then a group for what is left if anything is. Every
      prefix is listed exactly once whatever its links are, below the parent it names unless it
      starts a group; the leftover group holds exactly the prefixes no aggregate's top row leads to.
      */
    method BuildTree(aggregates: seq<nat>) returns (groups: seq<Group>)
      requires Valid() && visited == {} && Lists(aggregates, tables.aggregates.Keys)
      modifies `visited
      ensures Lists(FlatGroups(groups), tables.prefixes.Keys)
      ensures |aggregates| <= |groups| <= |aggregates| + 1
      ensures forall i :: 0 <= i < |aggregates| ==> groups[i].aggregate == Some(aggregates[i]) && TopsListed(tables.prefixes, groups[i])
      ensures |groups| == |aggregates| ==> forall p :: p in tables.prefixes ==> Placed(tables, p)
      ensures |groups| > |aggregates| ==>
                && groups[|aggregates|].aggregate.None? && groups[|aggregates|].children != []
                && NestedBelow(tables.prefixes, groups[|aggregates|].children, None)
                && forall p :: p in FlatAll(groups[|aggregates|].children) <==> p in tables.prefixes && !Placed(tables, p)
    {
      groups := BuildAggregates(aggregates);
      if visited != tables.prefixes.Keys {
        ghost var before := visited;
        var children := BuildLeftover();
        VisitsCompose(FlatGroups(groups), FlatAll(children), {}, before, visited);
        FlatGroupsAppend(groups, Group(None, children));
        groups := groups + [Group(None, children)];
      }
    }
  }
}
