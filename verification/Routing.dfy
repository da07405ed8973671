/** The routing table with its objects: buckets edited in place, a list of buckets, the cache. */
module Routing {
  import opened Contacts
  import opened Buckets
  import opened TableOps
  import opened TableRuns
  import opened NodeCaches
  import opened Windows

  class KBucket {
    const k: nat
    var begin: nat
    var end: nat
    var contents: seq<Contact>

    constructor (begin: nat, end: nat, depth: nat)
      ensures this.begin == begin && this.end == end && contents == [] && k == depth
    {
      this.begin, this.end, contents, k := begin, end, [], depth;
    }

    function View(): Bucket
      reads this
    {
      Bucket(begin, end, contents)
    }

    // True when the bucket is full and refuses the contact.
    method AddNode(c: Contact) returns (full: bool)
      modifies this`contents
      ensures full <==> AddTo(old(contents), k, c).None?
      ensures contents == if full then old(contents) else AddTo(old(contents), k, c).value
    {
      full := false;
      if c in contents {
        contents := RemoveFirst(contents, c);
        contents := contents + [c];
      } else if |contents| >= k {
        full := true;
      } else {
        contents := RemoveId(contents, c.node.id);
        contents := contents + [c];
      }
    }

    method UpdateNode(c: Contact) returns (full: bool)
      modifies this`contents
      ensures full <==> AddTo(old(contents), k, c).None?
      ensures contents == if full then old(contents) else AddTo(old(contents), k, c).value
    {
      full := AddNode(c);
    }

    method DelNode(c: Contact)
      modifies this`contents
      ensures contents == RemoveFirst(old(contents), c)
    {
      contents := RemoveFirst(contents, c);
    }

    method FindNode(nodeID: nat) returns (r: Option<Contact>)
      ensures r.None? ==> nodeID !in IdsIn(contents)
      ensures r.Some? ==> r.value in contents && r.value.node.id == nodeID
    {
      var i := 0;
      while i < |contents|
        invariant 0 <= i <= |contents|
        invariant forall j :: 0 <= j < i ==> contents[j].node.id != nodeID
      {
        if contents[i].node.id == nodeID {
          return Some(contents[i]);
        }
        i := i + 1;
      }
      r := None;
    }
  }

  ghost predicate Distinct(bs: seq<KBucket>)
  {
    forall i, j :: 0 <= i < j < |bs| ==> bs[i] != bs[j]
  }

  ghost function Views(bs: seq<KBucket>): (r: seq<Bucket>)
    reads bs
    ensures |r| == |bs|
    ensures forall i :: 0 <= i < |bs| ==> r[i] == bs[i].View()
  {
    seq(|bs|, i requires 0 <= i < |bs| reads bs => bs[i].View())
  }

  // ---------- moving the upper half of a bucket ----------

  lemma {:induction false} LowAppend(s: seq<Contact>, x: Contact, mid: nat)
    ensures Low(s + [x], mid) == Low(s, mid) + if x.node.id <= mid then [x] else []
  {
    if s == [] {
      assert s + [x] == [x];
    } else {
      LowAppend(s[1..], x, mid);
      assert (s + [x])[1..] == s[1..] + [x];
    }
  }

  lemma {:induction false} HighAppend(s: seq<Contact>, x: Contact, mid: nat)
    ensures High(s + [x], mid) == High(s, mid) + if x.node.id > mid then [x] else []
  {
    if s == [] {
      assert s + [x] == [x];
    } else {
      HighAppend(s[1..], x, mid);
      assert (s + [x])[1..] == s[1..] + [x];
    }
  }

  lemma {:induction false} RemoveMiddle(a: seq<Contact>, x: Contact, b: seq<Contact>)
    requires x !in a
    ensures RemoveFirst(a + [x] + b, x) == a + b
  {
    if a == [] {
      assert a + [x] + b == [x] + b;
    } else {
      var s := a + [x] + b;
      assert s[1..] == a[1..] + [x] + b;
      RemoveMiddle(a[1..], x, b);
    }
  }

  lemma {:induction false} RemoveNoId(s: seq<Contact>, id: nat)
    requires id !in IdsIn(s)
    ensures RemoveId(s, id) == s
  {
    if s != [] {
      assert s[0] in s;
      assert s == [s[0]] + s[1..];
      RemoveNoId(s[1..], id);
    }
  }

  // The two lists after the contacts before `i` have been looked at.
  function Staying(all: seq<Contact>, i: nat, mid: nat): seq<Contact>
    requires i <= |all|
  {
    Low(all[..i], mid) + all[i..]
  }

  function Moved(all: seq<Contact>, i: nat, mid: nat): seq<Contact>
    requires i <= |all|
  {
    High(all[..i], mid)
  }

  lemma MoveEnds(all: seq<Contact>, mid: nat)
    ensures Staying(all, 0, mid) == all && Moved(all, 0, mid) == []
    ensures Staying(all, |all|, mid) == Low(all, mid) && Moved(all, |all|, mid) == High(all, mid)
  {
    assert all[..|all|] == all;
  }

  // A contact of the lower half stays where it is ...
  lemma StayOne(all: seq<Contact>, i: nat, mid: nat)
    requires i < |all| && all[i].node.id <= mid
    ensures Staying(all, i + 1, mid) == Staying(all, i, mid) && Moved(all, i + 1, mid) == Moved(all, i, mid)
  {
    assert all[..i + 1] == all[..i] + [all[i]];
    LowAppend(all[..i], all[i], mid);
    HighAppend(all[..i], all[i], mid);
    assert all[i..] == [all[i]] + all[i + 1..];
  }

  // ... and one of the upper half goes to the tail of the new bucket.
  lemma MoveOne(all: seq<Contact>, i: nat, mid: nat, depth: nat)
    requires DistinctIds(all) && i < |all| <= depth && all[i].node.id > mid
    ensures Staying(all, i + 1, mid) == RemoveFirst(Staying(all, i, mid), all[i])
    ensures AddTo(Moved(all, i, mid), depth, all[i]) == Some(Moved(all, i + 1, mid))
  {
    var front, x, back := all[..i], all[i], all[i + 1..];
    assert all[..i + 1] == front + [x];
    LowAppend(front, x, mid);
    HighAppend(front, x, mid);
    LowHighKeep(front, mid);
    assert forall c :: c in front ==> c.node.id != x.node.id;
    assert all[i..] == [x] + back;
    assert Low(front, mid) + all[i..] == Low(front, mid) + [x] + back;
    RemoveMiddle(Low(front, mid), x, back);
    RemoveNoId(High(front, mid), x.node.id);
  }

  method MoveUpperHalf(bucket: KBucket, newbucket: KBucket)
    requires bucket != newbucket && newbucket.contents == []
    requires DistinctIds(bucket.contents) && |bucket.contents| <= newbucket.k
    modifies bucket`contents, newbucket`contents
    ensures bucket.contents == Low(old(bucket.contents), bucket.end)
    ensures newbucket.contents == High(old(bucket.contents), bucket.end)
  {
    hide Staying, Moved, Low, High, RemoveFirst, AddTo;
    var all := bucket.contents;
    ghost var mid := bucket.end;
    MoveEnds(all, mid);
    var i := 0;
    while i < |all|
      invariant 0 <= i <= |all|
      invariant bucket.contents == Staying(all, i, mid) && newbucket.contents == Moved(all, i, mid)
    {
      if all[i].node.id > bucket.end {
        MoveOne(all, i, mid, newbucket.k);
        bucket.DelNode(all[i]);
        var full := newbucket.AddNode(all[i]);
      } else {
        StayOne(all, i, mid);
      }
      i := i + 1;
    }
  }

  // The first insertion puts the local node into the one empty bucket.
  lemma FirstInsert(bits: nat, depth: nat, me: Contact)
    requires depth >= 3 && me.node.id <= Pow2(bits)
    ensures var bs := [Bucket(0, Pow2(bits), [])];
            && Table(bits, depth, me.node.id, bs)
            && Insert(bits, depth, me.node.id, bs, me) == Inserted(Start(bits, me).buckets, None, true)
  {
    var bs := [Bucket(0, Pow2(bits), [])];
    assert Covers(bs[0], me.node.id) && GoodBucket(depth, bs[0]);
    FindCovers(bits, depth, bs, me.node.id);
    assert RemoveId([], me.node.id) + [me] == [me];
    assert SetContents(bs, 0, [me]) == Start(bits, me).buckets;
  }

  // The three ways an insertion goes.
  lemma InsertCases(bits: nat, depth: nat, me: nat, bs: seq<Bucket>, c: Contact)
    requires depth >= 3 && Table(bits, depth, me, bs) && c.node.id <= Pow2(bits)
    ensures var j := Find(bs, c.node.id);
            var r := Insert(bits, depth, me, bs, c);
            && j < |bs| && DistinctIds(bs[j].contents)
            && match AddTo(bs[j].contents, depth, c)
               case Some(s) =>
                 r == Inserted(SetContents(bs, j, s), None, true) && Table(bits, depth, me, r.buckets)
               case None =>
                 if bs[j].begin <= me < bs[j].end then
                   && bs[j].end - bs[j].begin >= 2 && Covers(bs[j], me)
                   && Table(bits, depth, me, Split(bs, j))
                   && LocalWidth(Split(bs, j), me) < LocalWidth(bs, me)
                   && r == Insert(bits, depth, me, Split(bs, j), c).(oldest := None)
                 else
                   bs[j].contents != [] && r == Inserted(bs, Some(bs[j].contents[0]), false)
  {
    FindCovers(bits, depth, bs, c.node.id);
    InsertKeeps(bits, depth, me, bs, c);
    var j := Find(bs, c.node.id);
    assert GoodBucket(depth, bs[j]);
    if AddTo(bs[j].contents, depth, c).None? && bs[j].begin <= me < bs[j].end {
      FullBucketIsWide(depth, bs[j]);
      SplitKeepsTable(bits, depth, me, bs, j);
    }
  }

  lemma FindUnique(bs: seq<Bucket>, id: nat, j: nat)
    requires j <= |bs| && (j < |bs| ==> id <= bs[j].end)
    requires forall i :: 0 <= i < j ==> bs[i].end < id
    ensures j == Find(bs, id)
  {
  }

  // ---------- the table object ----------

  // What `insertNode` gives back: it raises for an id beyond the id space, and names the oldest
  // contact of a full bucket that it will not split.
  datatype Outcome = TooLarge | Done | Oldest(c: Contact)

  // A new bucket object in the list of buckets.
  lemma InsertObject(bs: seq<KBucket>, i: nat, b: KBucket)
    requires i <= |bs| && Distinct(bs) && b !in bs
    ensures var r := bs[..i] + [b] + bs[i..];
            Distinct(r) && Elements(r) == Elements(bs) + {b}
  {
  }

  lemma ViewsAt(bs: seq<KBucket>, r: seq<Bucket>)
    requires |r| == |bs| && forall i :: 0 <= i < |bs| ==> r[i] == bs[i].View()
    ensures Views(bs) == r
  {
  }

  class KRouting {
    const k: nat
    ghost const bits: nat
    const node: Contact
    const replacementCache: NodeCache
    var kBuckets: seq<KBucket>

    ghost predicate Valid()
      reads this, kBuckets, replacementCache
    {
      && k >= 3 && Distinct(kBuckets)
      && (forall i :: 0 <= i < |kBuckets| ==> kBuckets[i].k == k)
      && Table(bits, k, node.node.id, Views(kBuckets))
      && replacementCache.Valid() && replacementCache.size == 300
    }

    // The buckets and the cache are as after inserting `c` into the buckets `before`, and `r` is
    // what that insertion gives back.
    ghost predicate Refines(r: Outcome, before: seq<Bucket>, cache: map<nat, Contact>,
                            order: seq<nat>, c: Contact)
      reads this, kBuckets, replacementCache
    {
      if c.node.id > Pow2(bits) then
        r == TooLarge && Views(kBuckets) == before
        && replacementCache.cache == cache && replacementCache.cacheOrder == order
      else
        && k >= 3 && Table(bits, k, node.node.id, before)
        && var after := Insert(bits, k, node.node.id, before, c);
           && Views(kBuckets) == after.buckets
           && r == (if after.oldest.Some? then Oldest(after.oldest.value) else Done)
           && replacementCache.cache == (if after.placed then cache - {c.node.id} else cache)
           && replacementCache.cacheOrder ==
                if after.placed then RemoveFirst(order, c.node.id) else order
    }

    // The table of a node whose id lies in the id space: one bucket that holds the node itself.
    constructor (node: Contact, bits: nat, depth: nat)
      requires depth >= 3 && node.node.id <= Pow2(bits)
      ensures Valid() && fresh(Elements(kBuckets)) && fresh(replacementCache)
      ensures this.node == node && this.bits == bits && k == depth
      ensures Views(kBuckets) == Start(bits, node).buckets && replacementCache.cache == map[]
    {
      k := depth;
      this.bits := bits;
      this.node := node;
      replacementCache := new NodeCache(300);
      var first := new KBucket(0, Pow2(bits), depth);
      kBuckets := [first];
      new;
      ViewsAt(kBuckets, [Bucket(0, Pow2(bits), [])]);
      FirstInsert(bits, depth, node);
      var r := InsertNode(node);
    }

    // `bisect_left` over the list of buckets, which compares a bucket with an id by its end.
    method BisectLeft(i: nat) returns (lo: nat)
      requires Valid()
      ensures lo == Find(Views(kBuckets), i)
    {
      ghost var bs := Views(kBuckets);
      var hi;
      lo, hi := 0, |kBuckets|;
      while lo < hi
        invariant 0 <= lo <= hi <= |kBuckets|
        invariant forall j :: 0 <= j < lo ==> bs[j].end < i
        invariant forall j :: hi <= j < |bs| ==> i <= bs[j].end
      {
        var mid := (lo + hi) / 2;
        EndsAscend(bits, k, bs, mid);
        if kBuckets[mid].end < i {
          lo := mid + 1;
        } else {
          hi := mid;
        }
      }
      FindUnique(bs, i, lo);
    }

    // The index of the bucket that would hold an id; no index for an id beyond the id space, for
    // which the source raises.
    method FindBucket(id: nat) returns (bl: nat)
      requires Valid()
      ensures bl == Find(Views(kBuckets), id)
      ensures bl < |kBuckets| <==> id <= Pow2(bits)
    {
      bl := BisectLeft(id);
      FindTooLarge(bits, k, node.node.id, Views(kBuckets), id);
    }

    // `list.index` with an id: the first bucket whose range holds it.
    method IndexOfId(id: nat) returns (i: nat)
      requires Valid() && id <= Pow2(bits)
      ensures i == Find(Views(kBuckets), id) && i < |kBuckets|
    {
      ghost var bs := Views(kBuckets);
      FindCovers(bits, k, bs, id);
      i := 0;
      while !(kBuckets[i].begin <= id && id <= kBuckets[i].end)
        invariant 0 <= i <= Find(bs, id)
        decreases |kBuckets| - i
      {
        i := i + 1;
      }
    }

    // The upper half of the range goes to a new bucket behind the one at `i`.
    method Halve(bucket: KBucket, i: nat) returns (newbucket: KBucket)
      requires i < |kBuckets| && bucket == kBuckets[i]
      requires bucket.begin <= bucket.end
      requires DistinctIds(bucket.contents) && |bucket.contents| <= k && Distinct(kBuckets)
      modifies this`kBuckets, bucket
      ensures kBuckets == old(kBuckets)[..i + 1] + [newbucket] + old(kBuckets)[i + 1..]
      ensures fresh(newbucket) && newbucket.k == k
      ensures bucket.View() == LeftHalf(old(bucket.View()))
      ensures newbucket.View() == RightHalf(old(bucket.View()))
      ensures forall m :: 0 <= m < |old(kBuckets)| && m != i ==>
                old(kBuckets)[m].View() == old(kBuckets[m].View())
    {
      var halfpoint := (bucket.end - bucket.begin) / 2;
      newbucket := new KBucket(bucket.end - halfpoint + 1, bucket.end, k);
      kBuckets := kBuckets[..i + 1] + [newbucket] + kBuckets[i + 1..];
      bucket.end := bucket.end - halfpoint;
      MoveUpperHalf(bucket, newbucket);
    }

    // The place of a bucket is found by its beginning.
    method IndexOfBegin(bucket: KBucket, ghost j: nat) returns (i: nat)
      requires Valid() && j < |kBuckets| && bucket == kBuckets[j]
      ensures i == j && DistinctIds(bucket.contents) && |bucket.contents| <= k
      ensures bucket.begin <= bucket.end
    {
      SplitReady(bits, k, node.node.id, Views(kBuckets), j);
      i := IndexOfId(bucket.begin);
    }

    // A table stays one when the bucket of the local id is split that spans more than two ids.
    method SplitBucket(bucket: KBucket, ghost j: nat)
      requires Valid() && j < |kBuckets| && bucket == kBuckets[j]
      modifies this`kBuckets, bucket
      ensures old(bucket.begin <= bucket.end) && Views(kBuckets) == Split(old(Views(kBuckets)), j)
      ensures old(bucket.end - bucket.begin >= 2 && Covers(bucket.View(), node.node.id)) ==> Valid()
      ensures fresh(Elements(kBuckets) - old(Elements(kBuckets)))
    {
      ghost var bs, objects := Views(kBuckets), kBuckets;
      hide Table, Split, LeftHalf, RightHalf, Elements;
      var i := IndexOfBegin(bucket, j);
      var newbucket := Halve(bucket, i);
      InsertObject(objects, j + 1, newbucket);
      SplitViews(bits, k, node.node.id, bs, j, kBuckets);
    }

    // Refines the insertion on values; a contact that gets into a bucket leaves the cache.
    method InsertNode(c: Contact) returns (r: Outcome)
      requires Valid()
      modifies this`kBuckets, kBuckets, replacementCache
      ensures Valid() && fresh(Elements(kBuckets) - old(Elements(kBuckets)))
      ensures Refines(r, old(Views(kBuckets)), old(replacementCache.cache),
                      old(replacementCache.cacheOrder), c)
      decreases LocalWidth(Views(kBuckets), node.node.id)
    {
      hide Insert, Table, Tiles, AllGood, Narrow, AddTo, Split, LocalWidth, Find;
      ghost var bs := Views(kBuckets);
      var bl := FindBucket(c.node.id);
      if bl >= |kBuckets| {
        return TooLarge;
      }
      var bucket := kBuckets[bl];
      InsertCases(bits, k, node.node.id, bs, c);
      var full := bucket.UpdateNode(c);
      if !full {
        ViewsAt(kBuckets, SetContents(bs, bl, bucket.contents));
        replacementCache.RemoveNode(c);
        return Done;
      }
      ViewsAt(kBuckets, bs);
      if bucket.begin <= node.node.id < bucket.end {
        SplitBucket(bucket, bl);
        var ignored := InsertNode(c);
        return Done;
      }
      return Oldest(bucket.contents[0]);
    }

    // False when the id lies beyond the id space, for which the source raises.
    method RemoveNode(c: Contact) returns (ok: bool)
      requires Valid()
      modifies kBuckets
      ensures Valid() && Views(kBuckets) == Remove(bits, old(Views(kBuckets)), c)
      ensures ok <==> c.node.id <= Pow2(bits)
      ensures !ok ==> Views(kBuckets) == old(Views(kBuckets))
    {
      hide Table, Find;
      ghost var bs := Views(kBuckets);
      var bl := FindBucket(c.node.id);
      RemoveKeeps(bits, k, node.node.id, bs, c);
      if bl >= |kBuckets| {
        return false;
      }
      kBuckets[bl].DelNode(c);
      ViewsAt(kBuckets, Remove(bits, bs, c));
      ok := true;
    }

    // Inserts, but gives nothing back: a caller never learns of an oldest contact.
    method UpdateNode(c: Contact) returns (ok: bool, ghost r: Outcome)
      requires Valid()
      modifies this`kBuckets, kBuckets, replacementCache
      ensures Valid() && fresh(Elements(kBuckets) - old(Elements(kBuckets)))
      ensures ok <==> c.node.id <= Pow2(bits)
      ensures Refines(r, old(Views(kBuckets)), old(replacementCache.cache),
                      old(replacementCache.cacheOrder), c)
    {
      var ignored := InsertNode(c);
      ok := !ignored.TooLarge?;
      r := ignored;
    }

    // Makes room by expunging `replacee`; what the insertion gives back is dropped.
    method ReplaceNode(replacee: Contact, replacer: Contact)
      returns (ok: bool, ghost r: Outcome)
      requires Valid()
      modifies this`kBuckets, kBuckets, replacementCache
      ensures Valid() && fresh(Elements(kBuckets) - old(Elements(kBuckets)))
      ensures ok <==> replacee.node.id <= Pow2(bits) && replacer.node.id <= Pow2(bits)
      ensures replacee.node.id > Pow2(bits) ==>
        Views(kBuckets) == old(Views(kBuckets))
        && replacementCache.cache == old(replacementCache.cache)
        && replacementCache.cacheOrder == old(replacementCache.cacheOrder)
      ensures replacee.node.id <= Pow2(bits) ==>
        Refines(r, Remove(bits, old(Views(kBuckets)), replacee), old(replacementCache.cache),
                old(replacementCache.cacheOrder), replacer)
    {
      hide Table, Insert, Remove, Views;
      r := TooLarge;
      ok := RemoveNode(replacee);
      if ok {
        var ignored := InsertNode(replacer);
        ok := !ignored.TooLarge?;
        r := ignored;
      }
    }

    // ---------- answering a query ----------

    // `list.index` with a bucket, which compares two buckets by whether their ranges overlap.
    method IndexOfBucket(bucket: KBucket, ghost j: nat) returns (i: nat)
      requires Valid() && j < |kBuckets| && bucket == kBuckets[j]
      ensures i == j
    {
      ghost var bs := Views(kBuckets);
      OnlyItselfOverlaps(bits, k, bs, j);
      i := 0;
      while !(bucket.end >= kBuckets[i].begin && bucket.begin <= kBuckets[i].end)
        invariant 0 <= i <= j
        decreases |kBuckets| - i
      {
        i := i + 1;
      }
      assert bs[i] == kBuckets[i].View();
    }

    method NextBucket(bucket: KBucket?, ghost j: nat) returns (r: KBucket?)
      requires Valid() && (if j < |kBuckets| then bucket == kBuckets[j] else bucket == null)
      ensures if j + 1 < |kBuckets| then r == kBuckets[j + 1] else r == null
    {
      if bucket == null {
        return null;
      }
      var i := IndexOfBucket(bucket, j);
      i := i + 1;
      r := if i >= |kBuckets| then null else kBuckets[i];
    }

    // `j` counts from one, so that zero stands for the place before the first bucket.
    method PrevBucket(bucket: KBucket?, ghost j: nat) returns (r: KBucket?)
      requires Valid() && j <= |kBuckets| && (if j > 0 then bucket == kBuckets[j - 1] else bucket == null)
      ensures if j > 1 then r == kBuckets[j - 2] else r == null
    {
      if bucket == null {
        return null;
      }
      var i := IndexOfBucket(bucket, j - 1);
      r := if i < 1 then null else kBuckets[i - 1];
    }

    // The walk outwards from bucket `bl`: where it stands and what it has collected.
    ghost predicate Walking(nextbucket: KBucket?, prevbucket: KBucket?, nodes: seq<Contact>, bl: nat, steps: nat)
      reads this, kBuckets
    {
      && (if bl + steps + 1 < |kBuckets| then nextbucket == kBuckets[bl + steps + 1] else nextbucket == null)
      && bl < |kBuckets|
      && (if steps < bl then prevbucket == kBuckets[bl - steps - 1] else prevbucket == null)
      && Collected(Views(kBuckets), bl, steps, nodes)
      && (steps > 0 ==> |Around(Views(kBuckets), bl, steps - 1)| < k)
    }

    method StartWalk(bl: nat) returns (nextbucket: KBucket?, prevbucket: KBucket?)
      requires Valid() && bl < |kBuckets|
      ensures Walking(nextbucket, prevbucket, kBuckets[bl].contents, bl, 0)
    {
      FirstWindow(bits, k, node.node.id, Views(kBuckets), bl);
      nextbucket := NextBucket(kBuckets[bl], bl);
      prevbucket := PrevBucket(kBuckets[bl], bl + 1);
    }

    method Collect(nextbucket: KBucket?, prevbucket: KBucket?, nodes: seq<Contact>, ghost bl: nat, ghost steps: nat)
      returns (nodes': seq<Contact>)
      requires Valid() && Walking(nextbucket, prevbucket, nodes, bl, steps)
      ensures Collected(Views(kBuckets), bl, steps + 1, nodes')
      ensures |Around(Views(kBuckets), bl, steps)| == |nodes|
    {
      hide Collected, Around, Table, Distinct;
      nodes' := nodes;
      if nextbucket != null {
        nodes' := nodes' + nextbucket.contents;
      }
      if prevbucket != null {
        nodes' := nodes' + prevbucket.contents;
      }
      NextWindow(bits, k, node.node.id, Views(kBuckets), bl, steps, nodes, nodes');
    }

    // One step outwards on both sides.
    method StepOut(nextbucket: KBucket?, prevbucket: KBucket?, nodes: seq<Contact>, ghost bl: nat, ghost steps: nat)
      returns (nextbucket': KBucket?, prevbucket': KBucket?, nodes': seq<Contact>)
      requires Valid() && Walking(nextbucket, prevbucket, nodes, bl, steps)
      requires |nodes| < k && (nextbucket != null || prevbucket != null)
      ensures Walking(nextbucket', prevbucket', nodes', bl, steps + 1)
      ensures steps < bl + |kBuckets|
    {
      hide Collected, Around, Table, Distinct;
      nodes' := Collect(nextbucket, prevbucket, nodes, bl, steps);
      nextbucket' := NextBucket(nextbucket, bl + steps + 1);
      prevbucket' := PrevBucket(prevbucket, if steps < bl then bl - steps else 0);
    }

    lemma WalkEnds(nextbucket: KBucket?, prevbucket: KBucket?, nodes: seq<Contact>, bl: nat, steps: nat,
                   nodeID: nat)
      requires Valid() && bl == Find(Views(kBuckets), nodeID)
      requires Walking(nextbucket, prevbucket, nodes, bl, steps)
      requires |nodes| >= k || (nextbucket == null && prevbucket == null)
      ensures AnswersQuery(k, Views(kBuckets), nodeID, steps, Take(k, SortBy(Distance(nodeID), nodes)))
    {
      CollectedAnswers(k, Views(kBuckets), nodeID, bl, steps, nodes);
    }

    // The contacts of the bucket of the id, and of its neighbours on both sides until there are
    // enough, sorted by distance and cut.
    method FindNode(nodeID: nat) returns (r: Option<seq<Contact>>, ghost steps: nat)
      requires Valid()
      ensures r.None? <==> nodeID > Pow2(bits)
      ensures r.Some? ==> AnswersQuery(k, Views(kBuckets), nodeID, steps, r.value)
    {
      hide Valid, Walking, AnswersQuery, Find;
      steps := 0;
      var bl := FindBucket(nodeID);
      if bl >= |kBuckets| {
        return None, 0;
      }
      var bucket := kBuckets[bl];
      var nodes := bucket.contents;
      var nextbucket, prevbucket := StartWalk(bl);
      while |nodes| < k && (nextbucket != null || prevbucket != null)
        invariant Walking(nextbucket, prevbucket, nodes, bl, steps)
        decreases bl + |kBuckets| - steps
      {
        nextbucket, prevbucket, nodes := StepOut(nextbucket, prevbucket, nodes, bl, steps);
        steps := steps + 1;
      }
      WalkEnds(nextbucket, prevbucket, nodes, bl, steps, nodeID);
      r := Some(Take(k, SortBy(Distance(nodeID), nodes)));
    }

    method GetNode(nodeID: nat) returns (r: Option<Option<Contact>>)
      requires Valid()
      ensures r.None? <==> nodeID > Pow2(bits)
      ensures r.Some? && r.value.Some? ==>
        (|| (r.value.value.node.id == nodeID && Known(Views(kBuckets), r.value.value))
         || (nodeID in replacementCache.cache && replacementCache.cache[nodeID] == r.value.value))
      ensures r.Some? && r.value.Some? ==> r.value.value.node.id == nodeID
      ensures r.Some? && r.value.None? ==>
        && nodeID !in replacementCache.cache
        && forall c :: Known(Views(kBuckets), c) ==> c.node.id != nodeID
    {
      hide Table, Find, NoDuplicates, Distinct;
      ghost var bs := Views(kBuckets);
      var bl := FindBucket(nodeID);
      if bl >= |kBuckets| {
        return None;
      }
      forall c | Known(bs, c) && c.node.id == nodeID
        ensures nodeID in IdsIn(kBuckets[bl].contents)
      {
        KnownWhere(bits, k, node.node.id, bs, c);
      }
      var n := kBuckets[bl].FindNode(nodeID);
      assert n.Some? ==> n.value in bs[bl].contents;
      if n.None? {
        n := replacementCache.GetNode(nodeID);
      }
      r := Some(n);
    }
  }

  lemma OnlyItselfOverlaps(bits: nat, depth: nat, bs: seq<Bucket>, j: nat)
    requires Tiles(bits, bs) && AllGood(depth, bs) && j < |bs|
    ensures forall i :: 0 <= i < |bs| && bs[j].end >= bs[i].begin && bs[j].begin <= bs[i].end ==> i == j
    ensures bs[j].begin <= bs[j].end
  {
    assert GoodBucket(depth, bs[j]);
    forall i | 0 <= i < |bs| && i != j
      ensures bs[j].end < bs[i].begin || bs[i].end < bs[j].begin
    {
      if i < j {
        TilesOrdered(bits, depth, bs, i, j);
      } else {
        TilesOrdered(bits, depth, bs, j, i);
      }
    }
  }

  // `nodes` holds exactly the contacts of the window reached after so many steps.
  ghost predicate Collected(bs: seq<Bucket>, p: nat, steps: nat, nodes: seq<Contact>)
  {
    p < |bs| && DistinctIds(nodes) && Elements(nodes) == Around(bs, p, steps) && |nodes| == |Around(bs, p, steps)|
  }

  lemma FirstWindow(bits: nat, depth: nat, me: nat, bs: seq<Bucket>, p: nat)
    requires Table(bits, depth, me, bs) && p < |bs|
    ensures Collected(bs, p, 0, bs[p].contents)
  {
    OneBucket(depth, bs, p);
    DistinctNodes(bs[p].contents);
  }

  lemma NextWindow(bits: nat, depth: nat, me: nat, bs: seq<Bucket>, p: nat, steps: nat,
                   nodes: seq<Contact>, nodes': seq<Contact>)
    requires Table(bits, depth, me, bs) && Collected(bs, p, steps, nodes)
    requires var up := if p + steps + 1 < |bs| then nodes + bs[p + steps + 1].contents else nodes;
             nodes' == if steps < p then up + bs[p - steps - 1].contents else up
    ensures Collected(bs, p, steps + 1, nodes') && |Around(bs, p, steps)| == |nodes|
  {
    var lo := if steps <= p then p - steps else 0;
    var hi := if p + steps + 1 <= |bs| then p + steps + 1 else |bs|;
    var up := if p + steps + 1 < |bs| then nodes + bs[p + steps + 1].contents else nodes;
    var hi' := if hi < |bs| then hi + 1 else hi;
    if hi < |bs| {
      Widen(bits, depth, bs, lo, hi, lo, hi + 1, nodes, hi);
    }
    assert DistinctIds(up) && Elements(up) == Window(bs, lo, hi');
    if steps < p {
      Widen(bits, depth, bs, lo, hi', lo - 1, hi', up, lo - 1);
    }
    DistinctNodes(nodes');
  }

  lemma CollectedAnswers(depth: nat, bs: seq<Bucket>, id: nat, p: nat, steps: nat, nodes: seq<Contact>)
    requires p == Find(bs, id) && Collected(bs, p, steps, nodes)
    requires |nodes| >= depth || (steps >= p && p + steps + 1 >= |bs|)
    requires steps > 0 ==> |Around(bs, p, steps - 1)| < depth
    ensures AnswersQuery(depth, bs, id, steps, Take(depth, SortBy(Distance(id), nodes)))
  {
  }

  lemma FindTooLarge(bits: nat, depth: nat, me: nat, bs: seq<Bucket>, id: nat)
    requires Table(bits, depth, me, bs)
    ensures Find(bs, id) == |bs| <==> id > Pow2(bits)
  {
    if id <= Pow2(bits) {
      FindCovers(bits, depth, bs, id);
    } else if Find(bs, id) < |bs| {
      EndsAscend(bits, depth, bs, |bs| - 1);
    }
  }

  lemma EndsAscend(bits: nat, depth: nat, bs: seq<Bucket>, i: nat)
    requires Tiles(bits, bs) && AllGood(depth, bs) && i < |bs|
    ensures forall j :: 0 <= j <= i ==> bs[j].end <= bs[i].end
    ensures forall j :: i <= j < |bs| ==> bs[i].end <= bs[j].end
  {
    forall j | 0 <= j < |bs|
      ensures j < i ==> bs[j].end <= bs[i].end
      ensures i < j ==> bs[i].end <= bs[j].end
    {
      assert GoodBucket(depth, bs[i]) && GoodBucket(depth, bs[j]);
      if j < i {
        TilesOrdered(bits, depth, bs, j, i);
      } else if i < j {
        TilesOrdered(bits, depth, bs, i, j);
      }
    }
  }

  lemma SplitReady(bits: nat, depth: nat, me: nat, bs: seq<Bucket>, j: nat)
    requires Table(bits, depth, me, bs) && j < |bs|
    ensures DistinctIds(bs[j].contents) && |bs[j].contents| <= depth
    ensures bs[j].begin <= bs[j].end
    ensures bs[j].begin <= Pow2(bits) && Find(bs, bs[j].begin) == j
  {
    assert GoodBucket(depth, bs[j]);
    SameBucket(bits, depth, bs, j);
  }

  // A bucket is the one that covers its own beginning.
  lemma SameBucket(bits: nat, depth: nat, bs: seq<Bucket>, j: nat)
    requires Tiles(bits, bs) && AllGood(depth, bs) && j < |bs|
    ensures bs[j].begin <= Pow2(bits) && Find(bs, bs[j].begin) == j
  {
    assert GoodBucket(depth, bs[j]);
    assert Covers(bs[j], bs[j].begin);
    MeInSpace(bits, depth, bs[j].begin, bs, j);
    FindCovers(bits, depth, bs, bs[j].begin);
  }

  lemma SplitViews(bits: nat, depth: nat, me: nat, bs: seq<Bucket>, j: nat, objects: seq<KBucket>)
    requires Table(bits, depth, me, bs) && j < |bs|
    requires |objects| == |bs| + 1 && bs[j].begin <= bs[j].end
    requires objects[j].View() == LeftHalf(bs[j]) && objects[j + 1].View() == RightHalf(bs[j])
    requires forall i :: 0 <= i < j ==> objects[i].View() == bs[i]
    requires forall i :: j + 1 < i < |objects| ==> objects[i].View() == bs[i - 1]
    ensures Views(objects) == Split(bs, j)
    ensures Covers(bs[j], me) && bs[j].end - bs[j].begin >= 2 ==>
              Table(bits, depth, me, Split(bs, j))
  {
    if Covers(bs[j], me) && bs[j].end - bs[j].begin >= 2 {
      SplitKeepsTable(bits, depth, me, bs, j);
    }
    hide Table, Tiles, AllGood, Narrow, Split, LeftHalf, RightHalf;
    var r := Views(objects);
    SplitAt(bs, j, 0);
    forall i | 0 <= i < |r|
      ensures r[i] == Split(bs, j)[i]
    {
      SplitAt(bs, j, i);
    }
  }
}
