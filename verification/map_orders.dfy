/** The orders in which a Go map can be ranged over: every key once. */
module MapOrders {
  ghost predicate IsOrder<T(!new)>(order: seq<T>, keys: set<T>) {
    && (forall k :: k in order <==> k in keys)
    && (forall i, j :: 0 <= i < j < |order| ==> order[i] != order[j])
  }

  /** Some of the keys, each at most once. */
  ghost predicate Listing<T(!new)>(order: seq<T>, keys: set<T>) {
    && (forall k :: k in order ==> k in keys)
    && (forall i, j :: 0 <= i < j < |order| ==> order[i] != order[j])
  }

  lemma ListingFront<T(!new)>(order: seq<T>, keys: set<T>)
    requires order != [] && Listing(order, keys)
    ensures var front, last := order[..|order| - 1], order[|order| - 1];
      && Listing(front, keys) && Keys(front) <= keys && last in keys && last !in Keys(front)
      && Keys(order) == Keys(front) + {last}
  {
  }

  ghost function Keys<T>(order: seq<T>): set<T> {
    set k | k in order
  }

  lemma {:induction false} OrderExists<T(!new)>(keys: set<T>) returns (order: seq<T>)
    ensures IsOrder(order, keys)
  {
    if keys == {} {
      order := [];
    } else {
      var k :| k in keys;
      var rest := OrderExists(keys - {k});
      order := rest + [k];
    }
  }

  /** An order of some of the keys, followed by one of the others. */
  lemma JoinOrders<T(!new)>(keys: set<T>, order: seq<T>, rest: seq<T>, pending: set<T>)
    requires pending <= keys && IsOrder(order, keys - pending) && IsOrder(rest, pending)
    ensures IsOrder(order + rest, keys)
  {
    var all := order + rest;
    assert forall i :: 0 <= i < |order| ==> order[i] in order && all[i] == order[i];
    assert forall i :: 0 <= i < |rest| ==> rest[i] in rest && all[|order| + i] == rest[i];
    assert forall k :: k in all <==> k in order || k in rest;
  }

  /** One more key that was pending. */
  lemma OrderStep<T(!new)>(keys: set<T>, order: seq<T>, k: T, pending: set<T>)
    requires pending <= keys && k in keys && k !in pending && IsOrder(order, keys - (pending + {k}))
    ensures IsOrder(order + [k], keys - pending)
    ensures forall q :: q in order ==> q in keys
  {
    assert forall i :: 0 <= i < |order| ==> order[i] in order;
  }

  lemma OrderEndingWith<T(!new)>(keys: set<T>, last: T) returns (front: seq<T>)
    requires last in keys
    ensures IsOrder(front, keys - {last}) && IsOrder(front + [last], keys)
  {
    front := OrderExists(keys - {last});
    JoinOrders(keys, front, [last], {last});
  }
}
