/** Windows of neighbouring buckets, from which a table answers a node query. */
module Windows {
  import opened Contacts
  import opened Buckets
  import opened TableOps

  // The contacts of the buckets `lo` up to (not including) `hi`.
  ghost function Window(bs: seq<Bucket>, lo: nat, hi: nat): set<Contact>
    requires hi <= |bs|
  {
    set i, c | lo <= i < hi && c in bs[i].contents :: c
  }

  lemma NoSharedIds(bits: nat, depth: nat, bs: seq<Bucket>, i: nat, j: nat, c: Contact, d: Contact)
    requires Tiles(bits, bs) && AllGood(depth, bs) && i < |bs| && j < |bs|
    requires c in bs[i].contents && d in bs[j].contents && c.node.id == d.node.id
    ensures i == j
  {
    assert GoodBucket(depth, bs[i]) && GoodBucket(depth, bs[j]);
    assert Covers(bs[i], c.node.id) && Covers(bs[j], c.node.id);
    MeInSpace(bits, depth, c.node.id, bs, i);
    FindCovers(bits, depth, bs, c.node.id);
  }

  lemma DistinctAppend(a: seq<Contact>, b: seq<Contact>)
    requires DistinctIds(a) && DistinctIds(b)
    requires forall c, d :: c in a && d in b ==> c.node.id != d.node.id
    ensures DistinctIds(a + b)
    ensures Elements(a + b) == Elements(a) + Elements(b)
  {
  }

  // Adding one more bucket on either side widens the window by it.
  lemma Widen(bits: nat, depth: nat, bs: seq<Bucket>, lo: nat, hi: nat, lo': nat, hi': nat,
              nodes: seq<Contact>, j: nat)
    requires Tiles(bits, bs) && AllGood(depth, bs)
    requires lo <= hi <= |bs| && lo' <= hi' <= |bs| && j < |bs|
    requires (j == hi && lo' == lo && hi' == hi + 1) || (j + 1 == lo && lo' == j && hi' == hi)
    requires DistinctIds(nodes) && Elements(nodes) == Window(bs, lo, hi)
    ensures DistinctIds(nodes + bs[j].contents)
    ensures Elements(nodes + bs[j].contents) == Window(bs, lo', hi')
  {
    assert GoodBucket(depth, bs[j]);
    forall c, d | c in nodes && d in bs[j].contents
      ensures c.node.id != d.node.id
    {
      assert c in Elements(nodes);
      var i :| lo <= i < hi && c in bs[i].contents;
      if c.node.id == d.node.id {
        NoSharedIds(bits, depth, bs, i, j, c, d);
      }
    }
    DistinctAppend(nodes, bs[j].contents);
  }

  lemma OneBucket(depth: nat, bs: seq<Bucket>, j: nat)
    requires AllGood(depth, bs) && j < |bs|
    ensures DistinctIds(bs[j].contents)
    ensures Elements(bs[j].contents) == Window(bs, j, j + 1)
  {
  }

  lemma DistinctNodes(nodes: seq<Contact>)
    requires DistinctIds(nodes)
    ensures NoDuplicates(nodes) && UniqueIds(Elements(nodes)) && |Elements(nodes)| == |nodes|
  {
    SizeOfElements(nodes);
  }

  // What a table answers to a query: the `depth` nearest contacts of a window of buckets around
  // the one of the id, which was widened step by step until it held enough or was the whole table.
  ghost predicate AnswersQuery(depth: nat, bs: seq<Bucket>, id: nat, steps: nat, r: seq<Contact>)
  {
    var p := Find(bs, id);
    && p < |bs|
    && Nearest(Distance(id), depth, Around(bs, p, steps), r)
    && (|Around(bs, p, steps)| >= depth || (steps >= p && p + steps + 1 >= |bs|))
    && (steps > 0 ==> |Around(bs, p, steps - 1)| < depth)
  }

  ghost function Around(bs: seq<Bucket>, p: nat, steps: nat): set<Contact>
    requires p < |bs|
  {
    Window(bs, if steps <= p then p - steps else 0, if p + steps + 1 <= |bs| then p + steps + 1 else |bs|)
  }

  // As many contacts as the table has, but no more than `depth`; all of them known.
  lemma AnswerSize(bits: nat, depth: nat, me: nat, bs: seq<Bucket>, id: nat, steps: nat, r: seq<Contact>)
    requires Table(bits, depth, me, bs) && AnswersQuery(depth, bs, id, steps, r)
    ensures var all := Window(bs, 0, |bs|); |r| == if |all| <= depth then |all| else depth
    ensures forall c :: c in r ==> Known(bs, c)
    ensures forall c :: c in Window(bs, 0, |bs|) <==> Known(bs, c)
  {
    var some, all := Around(bs, Find(bs, id), steps), Window(bs, 0, |bs|);
    assert some <= all;
    SubsetSize(some, all);
    forall c | c in r
      ensures Known(bs, c)
    {
      assert c in Elements(r);
    }
  }

  // A known contact with the wanted id comes first.
  lemma AnswerStartsWithExact(bits: nat, depth: nat, me: nat, bs: seq<Bucket>, steps: nat,
                              r: seq<Contact>, c: Contact)
    requires Table(bits, depth, me, bs) && Known(bs, c) && depth > 0
    requires AnswersQuery(depth, bs, c.node.id, steps, r)
    ensures r != [] && r[0] == c
  {
    var id := c.node.id;
    KnownInSpace(bits, depth, me, bs, c);
    KnownWhere(bits, depth, me, bs, c);
    var some := Around(bs, Find(bs, id), steps);
    NearestHead(Distance(id), depth, some, r, c);
    XorSelf(id);
    XorInjective(id, r[0].node.id, id);
    IdsUnique(bits, depth, me, bs, r[0], c);
  }

  // ---------- when the answer is the nearest part of the whole table ----------

  ghost function Nearer(some: set<Contact>, id: nat, c: Contact): set<Contact>
  {
    set x | x in some && Distance(id)(x) < Distance(id)(c)
  }

  // Everything outside the window is farther than `depth` contacts inside.
  ghost predicate WindowSuffices(depth: nat, bs: seq<Bucket>, id: nat, steps: nat)
  {
    var p := Find(bs, id);
    p < |bs|
    && forall c :: c in Window(bs, 0, |bs|) && c !in Around(bs, p, steps) ==>
         |Nearer(Around(bs, p, steps), id, c)| >= depth
  }

  lemma OutsideFarther(d: Contact -> nat, depth: nat, some: set<Contact>, r: seq<Contact>,
                       near: set<Contact>, c: Contact, y: Contact)
    requires Nearest(d, depth, some, r) && |near| >= depth && near <= some && y in r
    requires forall x :: x in near ==> d(x) < d(c)
    ensures d(y) <= d(c)
  {
    SizeAtMost(r);
    if near <= Elements(r) - {y} {
      SubsetSize(near, Elements(r) - {y});
    }
    var z :| z in near && z !in Elements(r) - {y};
    assert z in r ==> z == y;
  }

  lemma AllDistances(bits: nat, depth: nat, me: nat, bs: seq<Bucket>, id: nat, c: Contact, y: Contact)
    requires Table(bits, depth, me, bs) && Known(bs, c) && Known(bs, y) && c != y
    ensures Distance(id)(c) != Distance(id)(y)
  {
    if Distance(id)(c) == Distance(id)(y) {
      XorInjective(id, c.node.id, y.node.id);
      IdsUnique(bits, depth, me, bs, c, y);
    }
  }

  lemma NearestOfAll(bits: nat, depth: nat, me: nat, bs: seq<Bucket>, id: nat, steps: nat,
                     r: seq<Contact>)
    requires Table(bits, depth, me, bs) && AnswersQuery(depth, bs, id, steps, r)
    ensures Nearest(Distance(id), depth, Window(bs, 0, |bs|), r)
        <==> WindowSuffices(depth, bs, id, steps)
  {
    var d, some, all := Distance(id), Around(bs, Find(bs, id), steps), Window(bs, 0, |bs|);
    AnswerSize(bits, depth, me, bs, id, steps, r);
    assert some <= all;
    SubsetSize(some, all);
    if WindowSuffices(depth, bs, id, steps) {
      forall x, y | x in all && x !in r && y in r
        ensures d(y) <= d(x)
      {
        if x !in some {
          OutsideFarther(d, depth, some, r, Nearer(some, id, x), x, y);
        }
      }
    }
    if Nearest(d, depth, all, r) {
      forall c | c in all && c !in some
        ensures |Nearer(some, id, c)| >= depth
      {
        assert c !in Elements(r);
        forall y | y in Elements(r)
          ensures y in Nearer(some, id, c)
        {
          AllDistances(bits, depth, me, bs, id, c, y);
        }
        SizeOfElements(r);
        SubsetSize(Elements(r), Nearer(some, id, c));
      }
    }
  }

  // A table of at most `depth` contacts answers with all of them.
  lemma SmallTable(bits: nat, depth: nat, me: nat, bs: seq<Bucket>, id: nat, steps: nat,
                   r: seq<Contact>)
    requires Table(bits, depth, me, bs) && AnswersQuery(depth, bs, id, steps, r)
    requires |Window(bs, 0, |bs|)| <= depth
    ensures WindowSuffices(depth, bs, id, steps)
    ensures Nearest(Distance(id), depth, Window(bs, 0, |bs|), r)
    ensures Elements(r) == Window(bs, 0, |bs|)
  {
    var some, all := Around(bs, Find(bs, id), steps), Window(bs, 0, |bs|);
    assert some <= all;
    SubsetSize(some, all);
    NearestOfAll(bits, depth, me, bs, id, steps, r);
    SizeOfElements(r);
    SubsetSize(Elements(r), all);
  }
}
