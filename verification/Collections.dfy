/** Small vocabulary shared by every module. */
module Collections {
  datatype Option<+T> = None | Some(value: T)

  /** A primary key that may be absent. The program tests such keys for truth, so key 0 reads as absent. */
  type Ref = Option<nat>

  predicate IsSet(r: Ref) {
    r.Some? && r.value != 0
  }

  /** A field of a partial update: not sent, sent as null, or sent with a value. */
  datatype Field<+T> = Unset | Null | Value(value: T)

  /** The answer of an endpoint: the work is done, or refused with an HTTP status. */
  datatype Outcome<+T> = Done(value: T) | Refused(code: nat)

  /** The single member of a one-element set. */
  ghost function TheOnly<T>(s: set<T>): (x: T)
    requires |s| == 1
    ensures s == {x}
  {
    OneMember(s);
    var x :| x in s;
    x
  }

  lemma OneMember<T>(s: set<T>)
    requires |s| == 1
    ensures exists x :: s == {x}
  {
    var x :| x in s;
    assert |s - {x}| == 0;
    assert s == {x};
  }

  lemma SubsetSize<T>(a: set<T>, b: set<T>)
    requires a <= b
    ensures |a| <= |b|
  {
    assert b == a + (b - a);
  }

  /** A set of whole numbers in [lo, hi) has at most hi - lo members. */
  lemma {:induction false} RangeBound(s: set<int>, lo: int, hi: int)
    requires lo <= hi
    requires forall x :: x in s ==> lo <= x < hi
    ensures |s| <= hi - lo
    decreases hi - lo
  {
    if lo < hi {
      RangeBound(s - {hi - 1}, lo, hi - 1);
      assert s <= (s - {hi - 1}) + {hi - 1};
      SubsetSize(s, (s - {hi - 1}) + {hi - 1});
    } else {
      assert s == {};
    }
  }

  /** `order` lists each member of `keys` exactly once: one order in which a query may return rows. */
  ghost predicate Lists<T(!new)>(order: seq<T>, keys: set<T>) {
    && (forall i, j :: 0 <= i < j < |order| ==> order[i] != order[j])
    && (forall k :: k in keys <==> k in order)
  }

  ghost predicate Distinct<T(!new)>(s: seq<T>) {
    forall i, j :: 0 <= i < j < |s| ==> s[i] != s[j]
  }

  /** A listing is as long as the set it lists. */
  lemma {:induction false} ListingSize<T(!new)>(order: seq<T>, keys: set<T>)
    requires Lists(order, keys)
    ensures |order| == |keys|
    decreases |order|
  {
    if order == [] {
      assert keys == {};
    } else {
      var last := order[|order| - 1];
      assert last in order;
      var front := order[..|order| - 1];
      assert order == front + [last];
      assert Lists(front, keys - {last});
      ListingSize(front, keys - {last});
    }
  }

  function Members<T(==)>(s: seq<T>): set<T> {
    set x | x in s
  }

  /** The entries of a map whose keys are not in `todo`. */
  ghost function Outside<K, V>(m: map<K, V>, todo: set<K>): map<K, V> {
    map k | k in m && k !in todo :: m[k]
  }

  lemma OutsideGrows<K, V>(m: map<K, V>, todo: set<K>, k: K)
    requires k in todo && k in m
    ensures k !in Outside(m, todo) && Outside(m, todo - {k}) == Outside(m, todo)[k := m[k]]
  {
  }
}
