/** The replacement cache for contacts that found their bucket full. */
module NodeCaches {
  import opened Contacts

  function Keep(order: seq<nat>, size: nat): seq<nat>
  {
    if |order| > size then order[1..] else order
  }

  // First in, first out: a new id goes to the tail, and the head leaves when there is no room.  An id
  // that is queued already stays as it is.
  ghost predicate Queued(size: nat, cache: map<nat, Contact>, order: seq<nat>, c: Contact,
                         cache': map<nat, Contact>, order': seq<nat>)
  {
    if c.node.id in cache then cache' == cache && order' == order
    else
      var longer := order + [c.node.id];
      && order' == Keep(longer, size)
      && cache' == if |longer| > size then cache[c.node.id := c] - {longer[0]} else cache[c.node.id := c]
  }

  class NodeCache {
    const size: nat
    var cache: map<nat, Contact>
    var cacheOrder: seq<nat>

    // The order list is a duplicate-free permutation of the keys and never longer than `size`.
    ghost predicate Valid()
      reads this
    {
      && NoDuplicates(cacheOrder) && Elements(cacheOrder) == cache.Keys
      && |cacheOrder| <= size
      && forall id :: id in cache ==> cache[id].node.id == id
    }

    constructor (size: nat)
      ensures Valid() && cache == map[] && this.size == size
    {
      this.size := size;
      cache, cacheOrder := map[], [];
    }

    method InsertNode(c: Contact) returns (popped: Option<nat>)
      requires Valid()
      modifies this
      ensures Valid() && Queued(size, old(cache), old(cacheOrder), c, cache, cacheOrder)
      ensures popped == if c.node.id !in old(cache) && |old(cacheOrder)| + 1 > size
                        then Some((old(cacheOrder) + [c.node.id])[0]) else None
    {
      popped := None;
      var id := c.node.id;
      if id !in cache {
        cache := cache[id := c];
        assert id !in Elements(cacheOrder);
        assert Elements(cacheOrder + [id]) == Elements(cacheOrder) + {id};
        cacheOrder := cacheOrder + [id];
        if |cacheOrder| > size {
          ghost var order := cacheOrder;
          popped := Some(cacheOrder[0]);
          cacheOrder := cacheOrder[1..];
          cache := cache - {popped.value};
          assert order == [order[0]] + cacheOrder;
          assert Elements(order) == {order[0]} + Elements(cacheOrder);
        }
      }
    }

    // None exactly when the id is not queued; otherwise the one contact of that id.
    method GetNode(nodeID: nat) returns (r: Option<Contact>)
      requires Valid()
      ensures r.None? <==> nodeID !in cacheOrder
      ensures r.Some? ==> r.value.node.id == nodeID && r.value in cache.Values
      ensures forall c :: c in cache.Values && c.node.id == nodeID ==> r == Some(c)
    {
      assert nodeID in cache <==> nodeID in Elements(cacheOrder);
      r := if nodeID in cache then Some(cache[nodeID]) else None;
    }

    method RemoveNode(c: Contact)
      requires Valid()
      modifies this
      ensures Valid()
      ensures cache == old(cache) - {c.node.id}
      ensures cacheOrder == RemoveFirst(old(cacheOrder), c.node.id)
    {
      RemoveFirstElements(cacheOrder, c.node.id);
      SizeOfElements(cacheOrder);
      SizeOfElements(RemoveFirst(cacheOrder, c.node.id));
      SubsetSize(Elements(RemoveFirst(cacheOrder, c.node.id)), Elements(cacheOrder));
      if c.node.id in cache {
        cache := cache - {c.node.id};
        cacheOrder := RemoveFirst(cacheOrder, c.node.id);
      } else {
        RemoveAbsent(cacheOrder, c.node.id);
      }
    }
  }

  lemma {:induction false} RemoveAbsent(s: seq<nat>, x: nat)
    requires x !in Elements(s)
    ensures RemoveFirst(s, x) == s
  {
    if s != [] {
      assert s == [s[0]] + s[1..];
      RemoveAbsent(s[1..], x);
    }
  }
}
