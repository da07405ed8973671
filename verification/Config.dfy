/** The known-nodes record beside the routing table: the only writer of the replacement cache. */
module Config {
  import opened Contacts
  import opened Buckets
  import opened TableOps
  import opened TableRuns
  import opened NodeCaches
  import opened Routing

  class FludConfig {
    var nodes: set<nat>
    const routing: KRouting

    constructor (routing: KRouting)
      requires routing.Valid() && routing.replacementCache.cache == map[]
      requires Views(routing.kBuckets) == Start(routing.bits, routing.node).buckets
      ensures this.routing == routing && nodes == {} && Separated()
    {
      this.routing := routing;
      nodes := {};
    }

    // No id is both in a bucket and in the cache, and the table holds no id that was never added
    // except the local one.
    ghost predicate Separated()
      reads this, routing, routing.kBuckets, routing.replacementCache
    {
      && routing.Valid()
      && SeparatedIn(Views(routing.kBuckets), routing.replacementCache.cache.Keys, nodes,
                     routing.node.node.id)
    }

    // What inserting `c` into these buckets, and queueing it in this cache when another contact is
    // named, leaves behind.
    ghost predicate Inserts(r: Outcome, before: seq<Bucket>, cache: map<nat, Contact>,
                            order: seq<nat>, c: Contact)
      reads routing, routing.kBuckets, routing.replacementCache
    {
      if r.Oldest? then
        && routing.k >= 3 && Table(routing.bits, routing.k, routing.node.node.id, before)
        && c.node.id <= Pow2(routing.bits)
        && Insert(routing.bits, routing.k, routing.node.node.id, before, c).oldest == Some(r.c)
        && Views(routing.kBuckets) == before
        && Queued(300, cache, order, c,
                  routing.replacementCache.cache, routing.replacementCache.cacheOrder)
      else routing.Refines(r, before, cache, order, c)
    }

    // A new id goes to the table, or to the cache when its bucket has no place for it.  The
    // separation is lost in one case only, which needs the local id.
    method AddNode(c: Contact) returns (ghost r: Outcome)
      requires routing.Valid()
      modifies this, routing, routing.kBuckets, routing.replacementCache
      ensures routing.Valid() && fresh(Elements(routing.kBuckets) - old(Elements(routing.kBuckets)))
      ensures nodes == old(nodes) + {c.node.id}
      ensures c.node.id in old(nodes) ==>
        && Views(routing.kBuckets) == old(Views(routing.kBuckets))
        && routing.replacementCache.cache == old(routing.replacementCache.cache)
        && routing.replacementCache.cacheOrder == old(routing.replacementCache.cacheOrder)
      ensures c.node.id !in old(nodes) ==>
        Inserts(r, old(Views(routing.kBuckets)), old(routing.replacementCache.cache),
                old(routing.replacementCache.cacheOrder), c)
      ensures c.node.id !in old(nodes) && c.node.id <= Pow2(routing.bits) ==>
        && (r.Oldest? <==> old(NoPlace(routing.k, routing.node.node.id, Views(routing.kBuckets), c)))
        && (r.Oldest? ==> c.node.id in routing.replacementCache.cache
                          && Views(routing.kBuckets) == old(Views(routing.kBuckets)))
        && (LastIn(Views(routing.kBuckets), c)
            || NoPlace(routing.k, routing.node.node.id, Views(routing.kBuckets), c))
        && (old(HasRoom(routing.k, Views(routing.kBuckets), c)) ==> LastIn(Views(routing.kBuckets), c))
      ensures c.node.id !in old(nodes) ==>
        CacheAfter(LastIn(Views(routing.kBuckets), c),
                   c.node.id <= Pow2(routing.bits)
                   && old(NoPlace(routing.k, routing.node.node.id, Views(routing.kBuckets), c)),
                   old(routing.replacementCache.cache),
                   old(routing.replacementCache.cacheOrder), c,
                   routing.replacementCache.cache, routing.replacementCache.cacheOrder)
      ensures c.node.id > Pow2(routing.bits) ==>
        Views(routing.kBuckets) == old(Views(routing.kBuckets))
      ensures old(Separated()) ==>
        (Separated() <==> c.node.id in old(nodes) || !old(Crowded(routing, c)))
      ensures SameOrSeen(old(Views(routing.kBuckets)), Views(routing.kBuckets), c)
    {
      hide Table, Insert, Known, NoPlace, HasRoom, LastIn, Find, SeparatedIn, SameOrSeen, Inserts;
      hide CacheAfter, CrowdedIn;
      ghost var before := Views(routing.kBuckets);
      ghost var cache, order := routing.replacementCache.cache, routing.replacementCache.cacheOrder;
      ghost var known := nodes;
      r := Done;
      if c.node.id !in nodes {
        nodes := nodes + {c.node.id};
        var n := InsertOrQueue(c);
        r := n;
        InsertsMean(r, before, cache, order, c);
        InsertsSeparates(r, before, cache, order, known, c);
      } else {
        InsertedEffect(routing.bits, routing.k, routing.node.node.id, before, c);
      }
    }

    method InsertOrQueue(c: Contact) returns (n: Outcome)
      requires routing.Valid()
      modifies routing, routing.kBuckets, routing.replacementCache
      ensures routing.Valid() && fresh(Elements(routing.kBuckets) - old(Elements(routing.kBuckets)))
      ensures Inserts(n, old(Views(routing.kBuckets)), old(routing.replacementCache.cache),
                      old(routing.replacementCache.cacheOrder), c)
    {
      hide Table, Insert, Queued, Distinct, NoDuplicates, Elements, Remove;
      ghost var before := Views(routing.kBuckets);
      ghost var cache, order := routing.replacementCache.cache, routing.replacementCache.cacheOrder;
      n := routing.InsertNode(c);
      if n.Oldest? {
        OldestMeans(n, before, cache, order, c);
        var popped := routing.replacementCache.InsertNode(c);
      }
    }

    lemma OldestMeans(r: Outcome, before: seq<Bucket>, cache: map<nat, Contact>, order: seq<nat>,
                      c: Contact)
      requires routing.Valid() && routing.Refines(r, before, cache, order, c) && r.Oldest?
      ensures Table(routing.bits, routing.k, routing.node.node.id, before)
      ensures c.node.id <= Pow2(routing.bits)
      ensures Insert(routing.bits, routing.k, routing.node.node.id, before, c).oldest == Some(r.c)
      ensures Views(routing.kBuckets) == before
      ensures routing.replacementCache.cache == cache && routing.replacementCache.cacheOrder == order
    {
      hide Table, Insert;
      OldestUnchanged(routing.bits, routing.k, routing.node.node.id, before, c);
    }

    lemma InsertsMean(r: Outcome, before: seq<Bucket>, cache: map<nat, Contact>, order: seq<nat>,
                      c: Contact)
      requires routing.Valid() && Inserts(r, before, cache, order, c)
      requires Table(routing.bits, routing.k, routing.node.node.id, before)
      ensures SameOrSeen(before, Views(routing.kBuckets), c)
      ensures c.node.id > Pow2(routing.bits) ==>
                r == TooLarge && Views(routing.kBuckets) == before
      ensures c.node.id <= Pow2(routing.bits) ==>
        && (r.Oldest? <==> NoPlace(routing.k, routing.node.node.id, before, c))
        && (r.Oldest? ==> Views(routing.kBuckets) == before)
        && (LastIn(Views(routing.kBuckets), c)
            || NoPlace(routing.k, routing.node.node.id, Views(routing.kBuckets), c))
        && (HasRoom(routing.k, before, c) ==> LastIn(Views(routing.kBuckets), c))
      ensures CacheAfter(LastIn(Views(routing.kBuckets), c),
                         c.node.id <= Pow2(routing.bits)
                         && NoPlace(routing.k, routing.node.node.id, before, c),
                         cache, order, c,
                         routing.replacementCache.cache, routing.replacementCache.cacheOrder)
    {
      hide Table, Insert, Known, NoPlace, HasRoom, LastIn, SameOrSeen, Queued, CrowdedIn;
      InsertedEffect(routing.bits, routing.k, routing.node.node.id, before, c);
      InsertedWhen(routing.bits, routing.k, routing.node.node.id, before, c);
      PlacedWhen(routing.bits, routing.k, routing.node.node.id, before, c);
      LastOrNot(routing.k, routing.node.node.id, Views(routing.kBuckets), c);
    }

    lemma InsertsSeparates(r: Outcome, before: seq<Bucket>, cache: map<nat, Contact>, order: seq<nat>,
                           known: set<nat>, c: Contact)
      requires routing.Valid() && Inserts(r, before, cache, order, c) && c.node.id !in known
      requires Elements(order) == cache.Keys
      requires Table(routing.bits, routing.k, routing.node.node.id, before)
      ensures r.Oldest? ==> c.node.id in routing.replacementCache.cache
      ensures SeparatedIn(before, cache.Keys, known, routing.node.node.id) ==>
        (SeparatedIn(Views(routing.kBuckets), routing.replacementCache.cache.Keys,
                     known + {c.node.id}, routing.node.node.id)
         <==> !CrowdedIn(routing.k, routing.node.node.id, before, c))
    {
      hide Table, Insert, Known, NoPlace, LastIn, SameOrSeen, CrowdedIn, SeparatedIn, HasRoom;
      if r.Oldest? {
        QueuedHolds(300, cache, order, c,
                    routing.replacementCache.cache, routing.replacementCache.cacheOrder);
      }
      var me, cached' := routing.node.node.id, routing.replacementCache.cache.Keys;
      InsertedWhen(routing.bits, routing.k, me, before, c);
      InsertedEffect(routing.bits, routing.k, me, before, c);
      CrowdedIsNamed(routing.bits, routing.k, me, before, c);
      if SeparatedIn(before, cache.Keys, known, me) {
        if c.node.id <= Pow2(routing.bits) {
          SeparatedThen(routing.bits, routing.k, me, before, c, cache.Keys, cached', known);
        } else {
          StillSeparated(before, cache.Keys, known, me, c.node.id);
        }
      }
    }

    // `updateNode` for a peer whose key has been checked: record it, then mark it as just seen.
    // The table's own `updateNode` gives nothing back, so that no contact is ever replaced here:
    // the table keeps every other contact it has.  False where the source raises.
    method UpdateNode(c: Contact) returns (ok: bool)
      requires routing.Valid()
      modifies this, routing, routing.kBuckets, routing.replacementCache
      ensures routing.Valid() && nodes == old(nodes) + {c.node.id}
      ensures ok <==> c.node.id <= Pow2(routing.bits)
      ensures Marked(routing.bits, routing.k, routing.node.node.id,
                     old(Views(routing.kBuckets)), Views(routing.kBuckets), c)
      ensures CacheAfter(LastIn(Views(routing.kBuckets), c),
                         c.node.id !in old(nodes) && c.node.id <= Pow2(routing.bits)
                         && old(NoPlace(routing.k, routing.node.node.id, Views(routing.kBuckets), c)),
                         old(routing.replacementCache.cache),
                         old(routing.replacementCache.cacheOrder), c,
                         routing.replacementCache.cache, routing.replacementCache.cacheOrder)
      ensures old(Separated()) ==>
        (Separated() <==> c.node.id in old(nodes) || !old(Crowded(routing, c)))
    {
      hide Known, Table, Insert, NoPlace, Inserts, HasRoom, LastIn, Marked, OnceOrNot, SameOrSeen;
      ghost var before := Views(routing.kBuckets);
      if c.node.id !in nodes {
        CrowdedIsNamed(routing.bits, routing.k, routing.node.node.id, before, c);
        var r := AddNode(c);
        AddedOnce(r, before, old(routing.replacementCache.cache),
                  old(routing.replacementCache.cacheOrder), c);
      } else {
        NotYet(routing.bits, routing.k, routing.node.node.id, before, c);
      }
      ghost var cache, order := routing.replacementCache.cache, routing.replacementCache.cacheOrder;
      ghost var now := Views(routing.kBuckets);
      ok := SeeAgain(c, before);
      LastOrNot(routing.k, routing.node.node.id, now, c);
      CacheTwice(LastIn(now, c), old(routing.replacementCache.cache),
                 old(routing.replacementCache.cacheOrder), c, cache, order,
                 routing.replacementCache.cache, routing.replacementCache.cacheOrder);
    }

    // The table after adding is the old one or the one that an insertion makes of it.
    lemma AddedOnce(r: Outcome, before: seq<Bucket>, cache: map<nat, Contact>, order: seq<nat>,
                    c: Contact)
      requires routing.Valid() && Inserts(r, before, cache, order, c)
      requires Table(routing.bits, routing.k, routing.node.node.id, before)
      ensures OnceOrNot(routing.bits, routing.k, routing.node.node.id, before,
                        Views(routing.kBuckets), c)
    {
    }

    method SeeAgain(c: Contact, ghost before: seq<Bucket>) returns (ok: bool)
      requires routing.Valid() && c.node.id in nodes
      requires OnceOrNot(routing.bits, routing.k, routing.node.node.id, before,
                         Views(routing.kBuckets), c)
      modifies this, routing, routing.kBuckets, routing.replacementCache
      ensures routing.Valid() && nodes == old(nodes)
      ensures ok <==> c.node.id <= Pow2(routing.bits)
      ensures old(Separated()) ==> Separated()
      ensures c.node.id <= Pow2(routing.bits)
              && old(NoPlace(routing.k, routing.node.node.id, Views(routing.kBuckets), c)) ==>
        (Separated() <==> old(Separated()))
      ensures Marked(routing.bits, routing.k, routing.node.node.id,
                     before, Views(routing.kBuckets), c)
      ensures CacheAfter(LastIn(Views(routing.kBuckets), c), false,
                         old(routing.replacementCache.cache),
                         old(routing.replacementCache.cacheOrder), c,
                         routing.replacementCache.cache, routing.replacementCache.cacheOrder)
      ensures c.node.id > Pow2(routing.bits)
              || old(NoPlace(routing.k, routing.node.node.id, Views(routing.kBuckets), c)) ==>
        Views(routing.kBuckets) == old(Views(routing.kBuckets))
      ensures old(LastIn(Views(routing.kBuckets), c)) ==> LastIn(Views(routing.kBuckets), c)
    {
      hide Table, Insert, Known, NoPlace, Marked, OnceOrNot, LastIn, HasRoom;
      ghost var now := Views(routing.kBuckets);
      PlacedWhen(routing.bits, routing.k, routing.node.node.id, now, c);
      InsertedEffect(routing.bits, routing.k, routing.node.node.id, now, c);
      InsertedWhen(routing.bits, routing.k, routing.node.node.id, now, c);
      MarkedOnce(routing.bits, routing.k, routing.node.node.id, before, now, c);
      var done, r := routing.UpdateNode(c);
      ok := done;
    }
  }

  // A contact that got into its bucket leaves the cache; one that has no place is queued there when
  // it is new.
  ghost predicate CacheAfter(placed: bool, queued: bool, cache: map<nat, Contact>, order: seq<nat>,
                             c: Contact, cache': map<nat, Contact>, order': seq<nat>)
  {
    if placed then cache' == cache - {c.node.id} && order' == RemoveFirst(order, c.node.id)
    else if queued then Queued(300, cache, order, c, cache', order')
    else cache' == cache && order' == order
  }

  lemma CacheTwice(placed: bool, cache0: map<nat, Contact>, order0: seq<nat>, c: Contact,
                   cache1: map<nat, Contact>, order1: seq<nat>,
                   cache2: map<nat, Contact>, order2: seq<nat>)
    requires NoDuplicates(order0)
    ensures forall queued: bool ::
      CacheAfter(placed, queued, cache0, order0, c, cache1, order1)
      && CacheAfter(placed, false, cache1, order1, c, cache2, order2) ==>
        CacheAfter(placed, queued, cache0, order0, c, cache2, order2)
  {
    RemoveFirstElements(order0, c.node.id);
    RemoveAbsent(RemoveFirst(order0, c.node.id), c.node.id);
  }

  lemma QueuedHolds(size: nat, cache: map<nat, Contact>, order: seq<nat>, c: Contact,
                    cache': map<nat, Contact>, order': seq<nat>)
    requires Queued(size, cache, order, c, cache', order') && Elements(order) == cache.Keys && size > 0
    ensures c.node.id in cache' && cache'.Keys <= cache.Keys + {c.node.id}
  {
    if c.node.id !in cache && |order| + 1 > size {
      assert order[0] in Elements(order);
    }
  }

  lemma LastOrNot(depth: nat, me: nat, bs: seq<Bucket>, c: Contact)
    ensures !(LastIn(bs, c) && NoPlace(depth, me, bs, c))
  {
  }

  ghost predicate OnceOrNot(bits: nat, depth: nat, me: nat, bs: seq<Bucket>, bs': seq<Bucket>, c: Contact)
  {
    && depth >= 3 && Table(bits, depth, me, bs)
    && (bs' == bs || (c.node.id <= Pow2(bits) && bs' == Insert(bits, depth, me, bs, c).buckets))
  }

  lemma NotYet(bits: nat, depth: nat, me: nat, bs: seq<Bucket>, c: Contact)
    requires depth >= 3 && Table(bits, depth, me, bs)
    ensures OnceOrNot(bits, depth, me, bs, bs, c)
  {
  }

  // The table is the one that inserting the contact makes: the contact is the last of its bucket or
  // has no place there; where there was room it is the last.  Nobody else is dropped.
  ghost predicate Marked(bits: nat, depth: nat, me: nat, bs: seq<Bucket>, bs': seq<Bucket>, c: Contact)
  {
    && depth >= 3 && Table(bits, depth, me, bs)
    && SameOrSeen(bs, bs', c)
    && if c.node.id > Pow2(bits) then bs' == bs
       else
         && bs' == Insert(bits, depth, me, bs, c).buckets
         && (LastIn(bs', c) || NoPlace(depth, me, bs', c))
         && (HasRoom(depth, bs, c) ==> LastIn(bs', c))
  }

  lemma MarkedOnce(bits: nat, depth: nat, me: nat, bs: seq<Bucket>, now: seq<Bucket>, c: Contact)
    requires OnceOrNot(bits, depth, me, bs, now, c) && Table(bits, depth, me, now)
    ensures Marked(bits, depth, me, bs,
                   if c.node.id > Pow2(bits) then now else Insert(bits, depth, me, now, c).buckets, c)
  {
    InsertedEffect(bits, depth, me, bs, c);
    if c.node.id <= Pow2(bits) {
      InsertPlaces(bits, depth, me, bs, c);
      InsertTwice(bits, depth, me, bs, c);
    }
    hide Insert, Table, LastIn, NoPlace, HasRoom, SameOrSeen;
  }

  ghost predicate SeparatedIn(bs: seq<Bucket>, cached: set<nat>, nodes: set<nat>, me: nat)
  {
    forall c :: Known(bs, c) ==> c.node.id !in cached && (c.node.id in nodes || c.node.id == me)
  }

  lemma StillSeparated(bs: seq<Bucket>, cached: set<nat>, nodes: set<nat>, me: nat, id: nat)
    requires SeparatedIn(bs, cached, nodes, me)
    ensures SeparatedIn(bs, cached, nodes + {id}, me)
  {
  }

  // What adding a new contact, and caching it when the table names another one, does to that.
  lemma SeparatedThen(bits: nat, depth: nat, me: nat, bs: seq<Bucket>, c: Contact,
                      cached: set<nat>, cached': set<nat>, nodes: set<nat>)
    requires depth >= 3 && Table(bits, depth, me, bs) && c.node.id <= Pow2(bits)
    requires SeparatedIn(bs, cached, nodes, me) && c.node.id !in nodes
    requires cached' <= cached + {c.node.id}
    requires var r := Insert(bits, depth, me, bs, c);
             if r.oldest.Some? then c.node.id in cached'
             else if r.placed then c.node.id !in cached'
             else cached' == cached
    ensures SeparatedIn(Insert(bits, depth, me, bs, c).buckets, cached', nodes + {c.node.id}, me)
            <==> !CrowdedIn(depth, me, bs, c)
  {
    hide Insert, Table, Known;
    InsertedEffect(bits, depth, me, bs, c);
    InsertedWhen(bits, depth, me, bs, c);
    if d :| Known(bs, d) && d.node.id == c.node.id {
      assert c.node.id == me;
    }
  }

  // The local id comes with another address, its bucket ends with it and is full, and the bucket
  // knows it already.
  ghost predicate Crowded(routing: KRouting, c: Contact)
    reads routing, routing.kBuckets
  {
    CrowdedIn(routing.k, routing.node.node.id, Views(routing.kBuckets), c)
  }

  ghost predicate CrowdedIn(depth: nat, me: nat, bs: seq<Bucket>, c: Contact)
  {
    var j := Find(bs, me);
    && c.node.id == me && j < |bs| && bs[j].end == me && |bs[j].contents| >= depth
    && c !in bs[j].contents && me in IdsIn(bs[j].contents)
  }

  lemma CrowdedIsNamed(bits: nat, depth: nat, me: nat, bs: seq<Bucket>, c: Contact)
    requires Table(bits, depth, me, bs)
    ensures CrowdedIn(depth, me, bs, c) ==> NoPlace(depth, me, bs, c) && c.node.id <= Pow2(bits)
  {
    if CrowdedIn(depth, me, bs, c) {
      var j := Find(bs, me);
      var d :| d in bs[j].contents && d.node.id == me;
      assert GoodBucket(depth, bs[j]);
      KnownInSpace(bits, depth, me, bs, d);
    }
  }

  lemma PlacedWhen(bits: nat, depth: nat, me: nat, bs: seq<Bucket>, c: Contact)
    requires depth >= 3 && Table(bits, depth, me, bs)
    ensures c.node.id <= Pow2(bits) ==>
      var r := Insert(bits, depth, me, bs, c);
      (r.placed <==> LastIn(r.buckets, c)) && (LastIn(bs, c) ==> r.buckets == bs)
    ensures c.node.id > Pow2(bits) ==> !LastIn(bs, c)
  {
    if c.node.id <= Pow2(bits) {
      InsertPlaces(bits, depth, me, bs, c);
      InsertLast(bits, depth, me, bs, c);
    } else {
      FindTooLarge(bits, depth, me, bs, c.node.id);
    }
  }

  // What an insertion of this contact means for the table, and when it has no room.
  lemma InsertedWhen(bits: nat, depth: nat, me: nat, bs: seq<Bucket>, c: Contact)
    requires depth >= 3 && Table(bits, depth, me, bs)
    ensures c.node.id <= Pow2(bits) ==>
      var r := Insert(bits, depth, me, bs, c);
      && (r.oldest.Some? <==> NoPlace(depth, me, bs, c))
      && (r.oldest.Some? ==> r.buckets == bs)
      && (LastIn(r.buckets, c) || NoPlace(depth, me, r.buckets, c))
      && (HasRoom(depth, bs, c) ==> LastIn(r.buckets, c))
    ensures c.node.id == me && c.node.id <= Pow2(bits) ==>
      (CrowdedIn(depth, me, bs, c) <==>
       NoPlace(depth, me, bs, c) && exists d :: Known(bs, d) && d.node.id == me)
  {
    if c.node.id <= Pow2(bits) {
      NamedWhen(bits, depth, me, bs, c);
      OldestUnchanged(bits, depth, me, bs, c);
      InsertPlaces(bits, depth, me, bs, c);
      FindCovers(bits, depth, bs, c.node.id);
      if d :| Known(bs, d) && d.node.id == c.node.id {
        KnownWhere(bits, depth, me, bs, d);
      }
    }
  }

  // The table holds what it held, or it holds `c` in the place of whatever had its id.
  ghost predicate SameOrSeen(bs: seq<Bucket>, bs': seq<Bucket>, c: Contact)
  {
    (forall x :: Known(bs', x) <==> Known(bs, x))
    || (forall x :: Known(bs', x) <==> x == c || (Known(bs, x) && x.node.id != c.node.id))
  }

  // Which contacts an insertion leaves in the table.
  lemma InsertedEffect(bits: nat, depth: nat, me: nat, bs: seq<Bucket>, c: Contact)
    requires depth >= 3 && Table(bits, depth, me, bs)
    ensures SameOrSeen(bs, bs, c)
    ensures c.node.id <= Pow2(bits) ==>
      var r := Insert(bits, depth, me, bs, c);
      && SameOrSeen(bs, r.buckets, c)
      && (r.placed ==> forall x :: Known(r.buckets, x) <==> x == c || (Known(bs, x) && x.node.id != c.node.id))
      && (!r.placed ==> forall x :: Known(r.buckets, x) <==> Known(bs, x))
      && (r.oldest.Some? ==> !r.placed)
  {
    if c.node.id <= Pow2(bits) {
      InsertKeeps(bits, depth, me, bs, c);
      OldestUnchanged(bits, depth, me, bs, c);
    }
  }
}
