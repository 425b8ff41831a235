/** The local check on one prefix decides exactly what the audit of the whole forest would say. */
module IpamValidation {
  import opened Collections
  import opened Addressing
  import opened IpamTables
  import opened IpamRules

  /** The forest after prefix `id` has been created or moved. */
  ghost function Installed(t: Tables, id: nat, net: Network, aggregate: Ref, parent: Ref, details: PrefixDetails): Tables {
    t.(prefixes := t.prefixes[id := Prefix(net, aggregate, parent, details)])
  }

  /** Nothing seen on the way up can come back: every seen network lies strictly inside the cursor's. */
  lemma {:induction false} ChainEnds(after: Tables, t: Tables, own: nat, cursor: nat, seen: set<nat>)
    requires cursor in t.prefixes && own in seen
    requires after.prefixes.Keys == t.prefixes.Keys + {own}
    requires forall p :: p in t.prefixes && p != own ==> after.prefixes[p] == t.prefixes[p]
    requires forall p :: p in after.prefixes ==> PrefixRelationOk(after, p)
    requires forall s :: s in seen ==> s in after.prefixes && StrictSubnetOf(after.prefixes[s].net, after.prefixes[cursor].net)
    ensures !Loops(t, cursor, seen)
    decreases t.prefixes.Keys - seen
  {
    assert cursor !in seen;
    var up := t.prefixes[cursor].parent;
    if IsSet(up) && up.value in t.prefixes {
      assert PrefixRelationOk(after, cursor);
      forall s | s in seen ensures StrictSubnetOf(after.prefixes[s].net, after.prefixes[up.value].net) {
        StrictTransitive(after.prefixes[s].net, after.prefixes[cursor].net, after.prefixes[up.value].net);
      }
      ChainEnds(after, t, own, up.value, seen + {cursor});
    }
  }

  /** `Loops` only grows with the set of rows already seen. */
  lemma {:induction false} LoopsMonotone(t: Tables, cursor: nat, seen: set<nat>, more: set<nat>)
    requires cursor in t.prefixes && seen <= more && Loops(t, cursor, seen)
    ensures Loops(t, cursor, more)
    decreases t.prefixes.Keys - seen
  {
    if cursor !in more {
      LoopsMonotone(t, t.prefixes[cursor].parent.value, seen + {cursor}, more + {cursor});
    }
  }

  lemma StrictTransitive(a: Network, b: Network, c: Network)
    requires StrictSubnetOf(a, b) && StrictSubnetOf(b, c)
    ensures StrictSubnetOf(a, c)
  {
    StrictSubnetIsLonger(a, b);
    StrictSubnetIsLonger(b, c);
  }

  /**
    Soundness and completeness of validate_prefix. On a forest whose audit is empty, a create (with
    a new key) or an edit (of an existing row) is accepted exactly when the forest with the row
    installed has an empty audit.
    */
  lemma LocalCheckIsExact(t: Tables, id: nat, isNew: bool, net: Network, aggregate: Ref, parent: Ref, details: PrefixDetails)
    requires ForestClean(t) && Keyed(t) && id != 0
    requires isNew <==> id !in t.prefixes
    ensures Accepts(t, net, aggregate, parent, if isNew then None else Some(id)) <==>
              ForestClean(Installed(t, id, net, EffectiveAggregate(t, aggregate, parent), parent, details))
  {
    var effective := EffectiveAggregate(t, aggregate, parent);
    var after := Installed(t, id, net, effective, parent, details);
    if Accepts(t, net, aggregate, parent, if isNew then None else Some(id)) {
      AcceptedStaysClean(t, id, isNew, net, effective, parent, details);
    }
    if ForestClean(after) {
      CleanIsAccepted(t, id, isNew, net, effective, parent, details);
    }
  }

  lemma AcceptedStaysClean(t: Tables, id: nat, isNew: bool, net: Network, effective: Ref, parent: Ref, details: PrefixDetails)
    requires ForestClean(t) && Keyed(t) && id != 0
    requires isNew <==> id !in t.prefixes
    requires var own: Ref := if isNew then None else Some(id);
             && ParentAccepts(t, net, effective, parent, own)
             && AggregateAccepts(t, net, effective)
             && SiblingsAccept(t, net, effective, own)
             && ChildrenAccept(t, net, effective, own)
    ensures ForestClean(Installed(t, id, net, effective, parent, details))
  {
    var after := Installed(t, id, net, effective, parent, details);
    forall p | p in after.prefixes ensures PrefixRelationOk(after, p) {
      if p == id {
        // An edit cannot name itself as parent: the walk starts from the row's own key.
        assert !isNew && parent == Some(id) ==> Loops(t, id, {id});
      } else {
        assert PrefixRelationOk(t, p);
      }
    }
    forall i, j | i in after.prefixes && j in after.prefixes && i != j
      ensures !SamePlace(after.prefixes[i], after.prefixes[j])
    {
      if i != id && j != id { assert !SamePlace(t.prefixes[i], t.prefixes[j]); }
    }
  }

  lemma CleanIsAccepted(t: Tables, id: nat, isNew: bool, net: Network, effective: Ref, parent: Ref, details: PrefixDetails)
    requires ForestClean(t) && Keyed(t) && id != 0
    requires isNew <==> id !in t.prefixes
    requires ForestClean(Installed(t, id, net, effective, parent, details))
    ensures var own: Ref := if isNew then None else Some(id);
            && ParentAccepts(t, net, effective, parent, own)
            && AggregateAccepts(t, net, effective)
            && SiblingsAccept(t, net, effective, own)
            && ChildrenAccept(t, net, effective, own)
  {
    var after := Installed(t, id, net, effective, parent, details);
    assert PrefixRelationOk(after, id);
    if IsSet(parent) {
      ChainEnds(after, t, id, parent.value, {id});
      if isNew && Loops(t, parent.value, {}) { LoopsMonotone(t, parent.value, {}, {id}); }
    }
    forall i | i in t.prefixes && i != id
      ensures !(t.prefixes[i].aggregate == effective && t.prefixes[i].net == net)
    {
      assert !SamePlace(after.prefixes[i], after.prefixes[id]);
    }
    if !isNew {
      forall i | i in t.prefixes && t.prefixes[i].parent == Some(id)
        ensures StrictSubnetOf(t.prefixes[i].net, net) && t.prefixes[i].aggregate == effective
      {
        assert PrefixRelationOk(after, i);
      }
    }
  }
}
