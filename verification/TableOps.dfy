/** Operations on the k-bucket table and the guarantees that hold over every run of them. */
module TableOps {
  import opened Contacts
  import opened Buckets

  // `placed` tells whether the contact is in the table afterwards.
  datatype Inserted = Inserted(buckets: seq<Bucket>, oldest: Option<Contact>, placed: bool)

  function SetContents(bs: seq<Bucket>, j: nat, s: seq<Contact>): seq<Bucket>
    requires j < |bs|
  {
    bs[j := bs[j].(contents := s)]
  }

  // A full bucket is split as long as it is the one of the local id; the answer of the retry is
  // dropped.  Any other full bucket names its oldest contact.
  function Insert(bits: nat, depth: nat, me: nat, bs: seq<Bucket>, c: Contact): Inserted
    requires depth >= 3 && Table(bits, depth, me, bs) && c.node.id <= Pow2(bits)
    decreases LocalWidth(bs, me)
  {
    FindCovers(bits, depth, bs, c.node.id);
    var j := Find(bs, c.node.id);
    assert GoodBucket(depth, bs[j]);
    match AddTo(bs[j].contents, depth, c)
    case Some(s) => Inserted(SetContents(bs, j, s), None, true)
    case None =>
      if bs[j].begin <= me < bs[j].end then
        FullBucketIsWide(depth, bs[j]);
        SplitKeepsTable(bits, depth, me, bs, j);
        Insert(bits, depth, me, Split(bs, j), c).(oldest := None)
      else
        Inserted(bs, Some(bs[j].contents[0]), false)
  }

  // ---------- who is in the table ----------

  ghost predicate Known(bs: seq<Bucket>, c: Contact)
  {
    exists i :: 0 <= i < |bs| && c in bs[i].contents
  }

  lemma KnownWhere(bits: nat, depth: nat, me: nat, bs: seq<Bucket>, c: Contact)
    requires Table(bits, depth, me, bs) && c.node.id <= Pow2(bits)
    ensures Find(bs, c.node.id) < |bs|
    ensures Known(bs, c) <==> c in bs[Find(bs, c.node.id)].contents
  {
    FindCovers(bits, depth, bs, c.node.id);
    if Known(bs, c) {
      var i :| 0 <= i < |bs| && c in bs[i].contents;
      assert GoodBucket(depth, bs[i]);
      assert Covers(bs[i], c.node.id);
    }
  }

  lemma KnownInSpace(bits: nat, depth: nat, me: nat, bs: seq<Bucket>, c: Contact)
    requires Table(bits, depth, me, bs) && Known(bs, c)
    ensures c.node.id <= Pow2(bits)
  {
    var i :| 0 <= i < |bs| && c in bs[i].contents;
    assert GoodBucket(depth, bs[i]);
    assert Covers(bs[i], c.node.id);
    MeInSpace(bits, depth, c.node.id, bs, i);
  }

  // An id stands for one contact in the whole table.
  lemma IdsUnique(bits: nat, depth: nat, me: nat, bs: seq<Bucket>, c: Contact, d: Contact)
    requires Table(bits, depth, me, bs) && Known(bs, c) && Known(bs, d)
    requires c.node.id == d.node.id
    ensures c == d
  {
    KnownInSpace(bits, depth, me, bs, c);
    KnownWhere(bits, depth, me, bs, c);
    KnownWhere(bits, depth, me, bs, d);
    var j := Find(bs, c.node.id);
    assert GoodBucket(depth, bs[j]);
    var a :| 0 <= a < |bs[j].contents| && bs[j].contents[a] == c;
    var b :| 0 <= b < |bs[j].contents| && bs[j].contents[b] == d;
    assert a == b;
  }

  // ---------- one insertion ----------

  lemma SetContentsTable(bits: nat, depth: nat, me: nat, bs: seq<Bucket>, j: nat, s: seq<Contact>)
    requires Table(bits, depth, me, bs) && j < |bs|
    requires GoodBucket(depth, bs[j].(contents := s))
    ensures Table(bits, depth, me, SetContents(bs, j, s))
  {
  }

  lemma SetContentsKnown(bs: seq<Bucket>, j: nat, s: seq<Contact>, c: Contact)
    requires j < |bs|
    ensures Known(SetContents(bs, j, s), c) <==>
            c in s || exists i :: 0 <= i < |bs| && i != j && c in bs[i].contents
  {
    var r := SetContents(bs, j, s);
    if Known(r, c) {
      var i :| 0 <= i < |r| && c in r[i].contents;
      assert i != j ==> c in bs[i].contents;
    }
    if i :| 0 <= i < |bs| && i != j && c in bs[i].contents {
      assert c in r[i].contents;
    }
    if c in s {
      assert c in r[j].contents;
    }
  }

  lemma SplitKnown(depth: nat, bs: seq<Bucket>, j: nat, c: Contact)
    requires AllGood(depth, bs) && j < |bs|
    ensures bs[j].begin <= bs[j].end
    ensures Known(Split(bs, j), c) <==> Known(bs, c)
  {
    assert GoodBucket(depth, bs[j]);
    var r := Split(bs, j);
    LowHighKeep(bs[j].contents, Mid(bs[j]));
    if Known(bs, c) {
      var i :| 0 <= i < |bs| && c in bs[i].contents;
      SplitAt(bs, j, i);
      SplitAt(bs, j, i + 1);
      assert c in r[i].contents || c in r[i + 1].contents;
    }
    if Known(r, c) {
      var i :| 0 <= i < |r| && c in r[i].contents;
      SplitAt(bs, j, i);
      assert (i <= j && c in bs[i].contents) || (i > 0 && c in bs[i - 1].contents);
    }
  }

  // What an insertion does to the table as a whole.
  ghost predicate InsertEffect(bits: nat, depth: nat, me: nat, bs: seq<Bucket>, c: Contact, r: Inserted)
  {
    && Table(bits, depth, me, r.buckets)
    && (r.placed ==> forall x :: Known(r.buckets, x) <==> x == c || (Known(bs, x) && x.node.id != c.node.id))
    && (!r.placed ==> forall x :: Known(r.buckets, x) <==> Known(bs, x))
    && (r.placed <==> Known(r.buckets, c))
  }

  lemma PlaceEffect(bits: nat, depth: nat, me: nat, bs: seq<Bucket>, c: Contact, s: seq<Contact>)
    requires Table(bits, depth, me, bs) && c.node.id <= Pow2(bits)
    ensures Find(bs, c.node.id) < |bs|
    ensures AddTo(bs[Find(bs, c.node.id)].contents, depth, c) == Some(s) ==>
            InsertEffect(bits, depth, me, bs, c, Inserted(SetContents(bs, Find(bs, c.node.id), s), None, true))
  {
    FindCovers(bits, depth, bs, c.node.id);
    var j := Find(bs, c.node.id);
    if AddTo(bs[j].contents, depth, c) == Some(s) {
      var r := SetContents(bs, j, s);
      assert GoodBucket(depth, bs[j]);
      AddToGood(depth, bs[j], c);
      SetContentsTable(bits, depth, me, bs, j, s);
      RemoveIdKeeps(bs[j].contents, c.node.id);
      forall x
        ensures Known(r, x) <==> x == c || (Known(bs, x) && x.node.id != c.node.id)
      {
        SetContentsKnown(bs, j, s, x);
        if i :| 0 <= i < |bs| && i != j && x in bs[i].contents {
          assert GoodBucket(depth, bs[i]);
          assert Covers(bs[i], x.node.id);
        }
      }
    }
  }

  lemma {:induction false} InsertKeeps(bits: nat, depth: nat, me: nat, bs: seq<Bucket>, c: Contact)
    requires depth >= 3 && Table(bits, depth, me, bs) && c.node.id <= Pow2(bits)
    ensures InsertEffect(bits, depth, me, bs, c, Insert(bits, depth, me, bs, c))
    decreases LocalWidth(bs, me)
  {
    FindCovers(bits, depth, bs, c.node.id);
    var j := Find(bs, c.node.id);
    assert GoodBucket(depth, bs[j]);
    match AddTo(bs[j].contents, depth, c) {
      case Some(s) =>
        PlaceEffect(bits, depth, me, bs, c, s);
      case None =>
        if bs[j].begin <= me < bs[j].end {
          FullBucketIsWide(depth, bs[j]);
          SplitKeepsTable(bits, depth, me, bs, j);
          InsertKeeps(bits, depth, me, Split(bs, j), c);
          forall x
            ensures Known(Split(bs, j), x) <==> Known(bs, x)
          {
            SplitKnown(depth, bs, j, x);
          }
        } else {
          KnownWhere(bits, depth, me, bs, c);
        }
    }
  }

  // When a contact is named, nothing has changed, and it heads a full bucket that covers the new
  // id and is not split for the local one.
  lemma OldestUnchanged(bits: nat, depth: nat, me: nat, bs: seq<Bucket>, c: Contact)
    requires depth >= 3 && Table(bits, depth, me, bs) && c.node.id <= Pow2(bits)
    ensures var r := Insert(bits, depth, me, bs, c);
            var j := Find(bs, c.node.id);
            r.oldest.Some? ==>
              && !r.placed && r.buckets == bs && !Known(bs, c)
              && j < |bs| && |bs[j].contents| == depth && r.oldest.value == bs[j].contents[0]
              && !(bs[j].begin <= me < bs[j].end)
  {
    FindCovers(bits, depth, bs, c.node.id);
    KnownWhere(bits, depth, me, bs, c);
    assert GoodBucket(depth, bs[Find(bs, c.node.id)]);
  }

  // The contact stands last in the bucket of its id, which is where the latest sighting belongs.
  ghost predicate LastIn(bs: seq<Bucket>, c: Contact)
  {
    var j := Find(bs, c.node.id);
    j < |bs| && bs[j].contents != [] && bs[j].contents[|bs[j].contents| - 1] == c
  }

  // The bucket of the id is full, does not hold the contact, and is not split for the local id.
  ghost predicate NoPlace(depth: nat, me: nat, bs: seq<Bucket>, c: Contact)
  {
    var j := Find(bs, c.node.id);
    && j < |bs| && c !in bs[j].contents && |bs[j].contents| >= depth
    && !(bs[j].begin <= me < bs[j].end)
  }

  ghost predicate HasRoom(depth: nat, bs: seq<Bucket>, c: Contact)
  {
    var j := Find(bs, c.node.id);
    j < |bs| && (c in bs[j].contents || |bs[j].contents| < depth)
  }

  // Afterwards the contact is the last of its bucket, or that bucket has no place for it.  Where
  // there was room no bucket is split, no other bucket changes, and the rest keeps its order.
  lemma {:induction false} InsertPlaces(bits: nat, depth: nat, me: nat, bs: seq<Bucket>, c: Contact)
    requires depth >= 3 && Table(bits, depth, me, bs) && c.node.id <= Pow2(bits)
    ensures var r := Insert(bits, depth, me, bs, c);
            && (r.placed ==> LastIn(r.buckets, c))
            && (!r.placed ==> NoPlace(depth, me, r.buckets, c))
    ensures HasRoom(depth, bs, c) ==>
              var r, j := Insert(bits, depth, me, bs, c), Find(bs, c.node.id);
              && r.placed && Find(r.buckets, c.node.id) == j && |r.buckets| == |bs|
              && r.buckets[j].begin == bs[j].begin && r.buckets[j].end == bs[j].end
              && (forall i :: 0 <= i < |bs| && i != j ==> r.buckets[i] == bs[i])
              && r.buckets[j].contents == RemoveId(bs[j].contents, c.node.id) + [c]
    decreases LocalWidth(bs, me)
  {
    FindCovers(bits, depth, bs, c.node.id);
    var j := Find(bs, c.node.id);
    assert GoodBucket(depth, bs[j]);
    match AddTo(bs[j].contents, depth, c) {
      case Some(s) =>
        if c in bs[j].contents {
          RemoveFirstIsRemoveId(bs[j].contents, c);
        }
        SameFind(bs, j, s, c.node.id);
      case None =>
        if bs[j].begin <= me < bs[j].end {
          FullBucketIsWide(depth, bs[j]);
          SplitKeepsTable(bits, depth, me, bs, j);
          InsertPlaces(bits, depth, me, Split(bs, j), c);
        }
    }
  }

  lemma {:induction false} SameFind(bs: seq<Bucket>, j: nat, s: seq<Contact>, id: nat)
    requires j < |bs|
    ensures Find(SetContents(bs, j, s), id) == Find(bs, id)
  {
    if j > 0 && id > bs[0].end {
      SameFind(bs[1..], j - 1, s, id);
      assert SetContents(bs, j, s)[1..] == SetContents(bs[1..], j - 1, s);
    } else if j == 0 {
      assert SetContents(bs, j, s)[1..] == bs[1..];
    }
  }

  lemma InsertLast(bits: nat, depth: nat, me: nat, bs: seq<Bucket>, c: Contact)
    requires depth >= 3 && Table(bits, depth, me, bs) && c.node.id <= Pow2(bits)
    ensures LastIn(bs, c) ==> Insert(bits, depth, me, bs, c) == Inserted(bs, None, true)
    ensures NoPlace(depth, me, bs, c) ==>
              var r := Insert(bits, depth, me, bs, c); r.buckets == bs && r.oldest.Some? && !r.placed
  {
    FindCovers(bits, depth, bs, c.node.id);
    var j := Find(bs, c.node.id);
    assert GoodBucket(depth, bs[j]);
    if LastIn(bs, c) {
      MovedToTheEnd(bs[j].contents, c);
      assert SetContents(bs, j, bs[j].contents) == bs;
    }
  }

  // Inserting a contact once more changes nothing, whether it was placed or not.
  lemma InsertTwice(bits: nat, depth: nat, me: nat, bs: seq<Bucket>, c: Contact)
    requires depth >= 3 && Table(bits, depth, me, bs) && c.node.id <= Pow2(bits)
    ensures var once := Insert(bits, depth, me, bs, c);
            && Table(bits, depth, me, once.buckets)
            && var twice := Insert(bits, depth, me, once.buckets, c);
               && twice.buckets == once.buckets && twice.placed == once.placed
               && (twice.oldest.Some? <==> !once.placed)
  {
    InsertKeeps(bits, depth, me, bs, c);
    InsertPlaces(bits, depth, me, bs, c);
    hide Insert, Table, LastIn, NoPlace, Known, Find;
    InsertLast(bits, depth, me, Insert(bits, depth, me, bs, c).buckets, c);
  }

  lemma MovedToTheEnd(s: seq<Contact>, c: Contact)
    requires DistinctIds(s) && s != [] && s[|s| - 1] == c
    ensures c in s && RemoveFirst(s, c) + [c] == s
  {
    RemovedAtTheEnd(s, c);
  }

  lemma {:induction false} RemovedAtTheEnd(s: seq<Contact>, c: Contact)
    requires DistinctIds(s) && s != [] && s[|s| - 1] == c
    ensures RemoveFirst(s, c) == s[..|s| - 1]
  {
    if |s| > 1 {
      RemovedAtTheEnd(s[1..], c);
      assert s[0] != c;
    }
  }

  // An insertion names a contact exactly where this can be seen beforehand: the bucket of the new
  // id is full, does not hold the contact, and is not split for the local id.
  lemma NamedWhen(bits: nat, depth: nat, me: nat, bs: seq<Bucket>, c: Contact)
    requires depth >= 3 && Table(bits, depth, me, bs) && c.node.id <= Pow2(bits)
    ensures Find(bs, c.node.id) < |bs|
    ensures var b := bs[Find(bs, c.node.id)];
            Insert(bits, depth, me, bs, c).oldest.Some?
            <==> c !in b.contents && |b.contents| >= depth && !(b.begin <= me < b.end)
  {
    FindCovers(bits, depth, bs, c.node.id);
  }

  // ---------- why the depth must be three at least ----------

  // An insertion splits before it tries again.
  ghost predicate Splits(depth: nat, me: nat, bs: seq<Bucket>, c: Contact)
  {
    var j := Find(bs, c.node.id);
    j < |bs| && AddTo(bs[j].contents, depth, c).None? && bs[j].begin <= me < bs[j].end
  }

  // Where the full bucket spans no more than two ids, it splits again after every number of splits.
  lemma SplitsForEver(depth: nat, me: nat, bs: seq<Bucket>, c: Contact, n: nat)
    requires Splits(depth, me, bs, c)
    requires var b := bs[Find(bs, c.node.id)];
             InRange(b.contents, b.begin, b.end) && b.end <= b.begin + 1
    ensures Splits(depth, me, SplitAgain(bs, Find(bs, c.node.id), n), c)
  {
    NarrowSplitsForEver(bs, Find(bs, c.node.id), c.node.id, n);
  }
}
