/** The k-bucket table as a value: interval buckets, insertion with splitting, and what they keep. */
module Buckets {
  import opened Contacts

  datatype Bucket = Bucket(begin: nat, end: nat, contents: seq<Contact>)

  function Pow2(n: nat): nat
  {
    if n == 0 then 1 else 2 * Pow2(n - 1)
  }

  // ---------- one bucket ----------

  function IdsIn(s: seq<Contact>): set<nat>
  {
    set c | c in s :: c.node.id
  }

  ghost predicate DistinctIds(s: seq<Contact>)
  {
    forall i, j :: 0 <= i < j < |s| ==> s[i].node.id != s[j].node.id
  }

  ghost predicate InRange(s: seq<Contact>, begin: nat, end: nat)
  {
    forall c :: c in s ==> begin <= c.node.id <= end
  }

  ghost predicate GoodBucket(depth: nat, b: Bucket)
  {
    && b.begin <= b.end
    && |b.contents| <= depth
    && DistinctIds(b.contents)
    && InRange(b.contents, b.begin, b.end)
  }

  function RemoveId(s: seq<Contact>, id: nat): seq<Contact>
  {
    if s == [] then [] else if s[0].node.id == id then s[1..] else [s[0]] + RemoveId(s[1..], id)
  }

  // A known contact moves to the tail; a full bucket refuses any other; else the contact goes to
  // the tail in place of one with the same id.
  function AddTo(s: seq<Contact>, depth: nat, c: Contact): Option<seq<Contact>>
  {
    if c in s then Some(RemoveFirst(s, c) + [c])
    else if |s| >= depth then None
    else Some(RemoveId(s, c.node.id) + [c])
  }

  lemma {:induction false} RemoveFirstIsRemoveId(s: seq<Contact>, c: Contact)
    requires DistinctIds(s) && c in s
    ensures RemoveFirst(s, c) == RemoveId(s, c.node.id)
  {
    assert s == [s[0]] + s[1..];
    if s[0] != c {
      var i :| 0 <= i < |s| && s[i] == c;
      assert s[1..][i - 1] == c;
      RemoveFirstIsRemoveId(s[1..], c);
    }
  }

  // A head with an id of its own in front of a list of distinct ids.
  lemma PrependDistinct(head: Contact, r: seq<Contact>)
    requires DistinctIds(r) && forall c :: c in r ==> c.node.id != head.node.id
    ensures DistinctIds([head] + r)
  {
  }

  lemma TailDistinct(s: seq<Contact>)
    requires s != [] && DistinctIds(s)
    ensures DistinctIds(s[1..])
    ensures forall c :: c in s[1..] ==> c.node.id != s[0].node.id
    ensures forall c :: c in s <==> c == s[0] || c in s[1..]
  {
  }

  lemma {:induction false} RemoveIdKeeps(s: seq<Contact>, id: nat)
    requires DistinctIds(s)
    ensures DistinctIds(RemoveId(s, id))
    ensures forall c :: c in RemoveId(s, id) <==> c in s && c.node.id != id
    ensures |RemoveId(s, id)| == if id in IdsIn(s) then |s| - 1 else |s|
  {
    if s != [] {
      TailDistinct(s);
      assert IdsIn(s) == IdsIn(s[1..]) + {s[0].node.id};
      if s[0].node.id != id {
        RemoveIdKeeps(s[1..], id);
        PrependDistinct(s[0], RemoveId(s[1..], id));
      }
    }
  }

  lemma AddToGood(depth: nat, b: Bucket, c: Contact)
    requires GoodBucket(depth, b) && b.begin <= c.node.id <= b.end
    requires AddTo(b.contents, depth, c).Some?
    ensures GoodBucket(depth, b.(contents := AddTo(b.contents, depth, c).value))
    ensures AddTo(b.contents, depth, c).value == RemoveId(b.contents, c.node.id) + [c]
  {
    var s := b.contents;
    RemoveIdKeeps(s, c.node.id);
    if c in s {
      RemoveFirstIsRemoveId(s, c);
      assert c.node.id in IdsIn(s);
    }
    var r := RemoveId(s, c.node.id);
    assert forall i :: 0 <= i < |r| ==> r[i] in r;
  }

  lemma {:induction false} IdsSize(s: seq<Contact>)
    requires DistinctIds(s)
    ensures |IdsIn(s)| == |s|
  {
    if s != [] {
      IdsSize(s[1..]);
      assert IdsIn(s) == IdsIn(s[1..]) + {s[0].node.id};
      assert s[0].node.id !in IdsIn(s[1..]);
    } else {
      assert IdsIn(s) == {};
    }
  }

  function Interval(begin: nat, n: nat): set<nat>
  {
    if n == 0 then {} else Interval(begin, n - 1) + {begin + n - 1}
  }

  lemma {:induction false} IntervalSize(begin: nat, n: nat)
    ensures |Interval(begin, n)| == n
    ensures forall i :: i in Interval(begin, n) <==> begin <= i < begin + n
  {
    if n > 0 {
      IntervalSize(begin, n - 1);
    }
  }

  // Pigeonhole: distinct ids of a range are no more than the range holds.
  lemma RangeHolds(s: seq<Contact>, begin: nat, end: nat)
    requires DistinctIds(s) && InRange(s, begin, end) && begin <= end
    ensures |s| <= end + 1 - begin
  {
    IdsSize(s);
    var n := end + 1 - begin;
    IntervalSize(begin, n);
    SubsetSize(IdsIn(s), Interval(begin, n));
  }

  // ---------- the table ----------

  ghost predicate Tiles(bits: nat, bs: seq<Bucket>)
  {
    && bs != [] && bs[0].begin == 0 && bs[|bs| - 1].end == Pow2(bits)
    && forall i :: 0 <= i < |bs| - 1 ==> bs[i].end + 1 == bs[i + 1].begin
  }

  ghost predicate AllGood(depth: nat, bs: seq<Bucket>)
  {
    forall i :: 0 <= i < |bs| ==> GoodBucket(depth, bs[i])
  }

  predicate Covers(b: Bucket, id: nat)
  {
    b.begin <= id <= b.end
  }

  // Each split halves the bucket of the local id, so after n - 1 of them it is this narrow.
  ghost predicate Narrow(bits: nat, me: nat, bs: seq<Bucket>)
  {
    && |bs| <= bits + 1
    && forall i :: 0 <= i < |bs| && Covers(bs[i], me) ==>
         bs[i].end - bs[i].begin <= Pow2(bits + 1 - |bs|)
  }

  ghost predicate Table(bits: nat, depth: nat, me: nat, bs: seq<Bucket>)
  {
    Tiles(bits, bs) && AllGood(depth, bs) && Narrow(bits, me, bs)
  }

  // The first bucket that does not end before `id`: what `bisect_left` finds.
  function Find(bs: seq<Bucket>, id: nat): (j: nat)
    ensures j <= |bs|
    ensures j < |bs| ==> id <= bs[j].end
    ensures forall i :: 0 <= i < j ==> bs[i].end < id
  {
    if bs == [] then 0 else if id <= bs[0].end then 0 else 1 + Find(bs[1..], id)
  }

  lemma {:induction false} TilesOrdered(bits: nat, depth: nat, bs: seq<Bucket>, i: nat, j: nat)
    requires Tiles(bits, bs) && AllGood(depth, bs) && i < j < |bs|
    ensures bs[i].end < bs[j].begin
    decreases j - i
  {
    assert GoodBucket(depth, bs[i]) && bs[i].end + 1 == bs[i + 1].begin;
    if i + 1 < j {
      assert GoodBucket(depth, bs[i + 1]);
      TilesOrdered(bits, depth, bs, i + 1, j);
    }
  }

  // Exactly one bucket covers an id of the id space, and it is the one found.
  lemma FindCovers(bits: nat, depth: nat, bs: seq<Bucket>, id: nat)
    requires Tiles(bits, bs) && AllGood(depth, bs) && id <= Pow2(bits)
    ensures Find(bs, id) < |bs| && Covers(bs[Find(bs, id)], id)
    ensures forall i :: 0 <= i < |bs| && Covers(bs[i], id) ==> i == Find(bs, id)
  {
    var j := Find(bs, id);
    assert bs[|bs| - 1].end >= id;
    if j > 0 {
      assert bs[j - 1].end + 1 == bs[j - 1 + 1].begin;
    }
    forall i | 0 <= i < |bs| && Covers(bs[i], id)
      ensures i == j
    {
      if j < i {
        TilesOrdered(bits, depth, bs, j, i);
      }
    }
  }

  // ---------- splitting ----------

  // The contacts up to `mid` and those beyond it, each in their old order.
  function Low(s: seq<Contact>, mid: nat): seq<Contact>
  {
    if s == [] then [] else (if s[0].node.id <= mid then [s[0]] else []) + Low(s[1..], mid)
  }

  function High(s: seq<Contact>, mid: nat): seq<Contact>
  {
    if s == [] then [] else (if s[0].node.id > mid then [s[0]] else []) + High(s[1..], mid)
  }

  lemma {:induction false} LowHighKeep(s: seq<Contact>, mid: nat)
    requires DistinctIds(s)
    ensures DistinctIds(Low(s, mid)) && DistinctIds(High(s, mid))
    ensures forall c :: c in Low(s, mid) <==> c in s && c.node.id <= mid
    ensures forall c :: c in High(s, mid) <==> c in s && c.node.id > mid
    ensures |Low(s, mid)| + |High(s, mid)| == |s|
  {
    if s != [] {
      TailDistinct(s);
      LowHighKeep(s[1..], mid);
      PrependDistinct(s[0], Low(s[1..], mid));
      PrependDistinct(s[0], High(s[1..], mid));
    }
  }

  function Mid(b: Bucket): (mid: int)
    requires b.begin <= b.end
    ensures b.begin <= mid <= b.end
  {
    b.end - (b.end - b.begin) / 2
  }

  function LeftHalf(b: Bucket): Bucket
    requires b.begin <= b.end
  {
    Bucket(b.begin, Mid(b), Low(b.contents, Mid(b)))
  }

  function RightHalf(b: Bucket): Bucket
    requires b.begin <= b.end
  {
    Bucket(Mid(b) + 1, b.end, High(b.contents, Mid(b)))
  }

  function Split(bs: seq<Bucket>, j: nat): seq<Bucket>
    requires j < |bs| && bs[j].begin <= bs[j].end
  {
    bs[..j] + [LeftHalf(bs[j]), RightHalf(bs[j])] + bs[j + 1..]
  }

  lemma SplitAt(bs: seq<Bucket>, j: nat, i: nat)
    requires j < |bs| && bs[j].begin <= bs[j].end && i <= |bs|
    ensures |Split(bs, j)| == |bs| + 1
    ensures Split(bs, j)[i] == if i < j then bs[i] else if i == j then LeftHalf(bs[j])
                               else if i == j + 1 then RightHalf(bs[j]) else bs[i - 1]
  {
  }

  // A full bucket of at least three contacts spans at least three ids, so both halves of a
  // split are real ranges.
  lemma FullBucketIsWide(depth: nat, b: Bucket)
    requires GoodBucket(depth, b) && |b.contents| == depth && depth >= 3
    ensures b.end - b.begin >= 2
  {
    RangeHolds(b.contents, b.begin, b.end);
  }

  lemma {:induction false} LowOfAll(s: seq<Contact>, mid: nat)
    requires forall c :: c in s ==> c.node.id <= mid
    ensures Low(s, mid) == s && High(s, mid) == []
  {
    if s != [] {
      assert s == [s[0]] + s[1..];
      assert s[0] in s;
      LowOfAll(s[1..], mid);
    }
  }

  // What a split does otherwise: on a range of one or two ids it leaves the bucket as it is and
  // adds an empty range behind it, so the next search finds the same full bucket again.
  lemma NarrowSplitIsIdle(bs: seq<Bucket>, j: nat, id: nat)
    requires j < |bs| && InRange(bs[j].contents, bs[j].begin, bs[j].end)
    requires bs[j].begin <= bs[j].end <= bs[j].begin + 1
    requires Find(bs, id) == j
    ensures Split(bs, j)[j] == bs[j] && Find(Split(bs, j), id) == j
    ensures Split(bs, j)[j + 1].begin > Split(bs, j)[j + 1].end && Split(bs, j)[j + 1].contents == []
  {
    LowOfAll(bs[j].contents, bs[j].end);
    forall i | 0 <= i <= j + 1
      ensures i <= j ==> Split(bs, j)[i] == bs[i]
      ensures i == j + 1 ==> Split(bs, j)[i] == RightHalf(bs[j])
    {
      SplitAt(bs, j, i);
    }
  }

  function SplitAgain(bs: seq<Bucket>, j: nat, n: nat): (r: seq<Bucket>)
    requires j < |bs| && bs[j].begin <= bs[j].end
    ensures |r| == |bs| + n && r[j].begin <= r[j].end
  {
    if n == 0 then bs else Split(SplitAgain(bs, j, n - 1), j)
  }

  // However often such a bucket is split, it stays as it was and is found again.
  lemma {:induction false} NarrowSplitsForEver(bs: seq<Bucket>, j: nat, id: nat, n: nat)
    requires j < |bs| && InRange(bs[j].contents, bs[j].begin, bs[j].end)
    requires bs[j].begin <= bs[j].end <= bs[j].begin + 1
    requires Find(bs, id) == j
    ensures SplitAgain(bs, j, n)[j] == bs[j] && Find(SplitAgain(bs, j, n), id) == j
  {
    if n > 0 {
      NarrowSplitsForEver(bs, j, id, n - 1);
      NarrowSplitIsIdle(SplitAgain(bs, j, n - 1), j, id);
    }
  }

  lemma HalvesGood(depth: nat, b: Bucket)
    requires GoodBucket(depth, b) && b.end - b.begin >= 2
    ensures GoodBucket(depth, LeftHalf(b)) && GoodBucket(depth, RightHalf(b))
  {
    LowHighKeep(b.contents, Mid(b));
  }

  lemma SplitTiles(bits: nat, depth: nat, bs: seq<Bucket>, j: nat)
    requires Tiles(bits, bs) && AllGood(depth, bs) && j < |bs| && bs[j].end - bs[j].begin >= 2
    ensures Tiles(bits, Split(bs, j)) && AllGood(depth, Split(bs, j))
  {
    var r := Split(bs, j);
    HalvesGood(depth, bs[j]);
    forall i | 0 <= i < |r|
      ensures GoodBucket(depth, r[i])
      ensures i < |r| - 1 ==> r[i].end + 1 == r[i + 1].begin
    {
      SplitAt(bs, j, i);
      if i < |r| - 1 {
        SplitAt(bs, j, i + 1);
      }
      assert i > 0 && i - 1 < |bs| - 1 ==> bs[i - 1].end + 1 == bs[i - 1 + 1].begin;
    }
    SplitAt(bs, j, 0);
    SplitAt(bs, j, |bs|);
  }

  lemma SplitKeepsTable(bits: nat, depth: nat, me: nat, bs: seq<Bucket>, j: nat)
    requires Table(bits, depth, me, bs) && j < |bs|
    requires Covers(bs[j], me) && bs[j].end - bs[j].begin >= 2
    ensures Table(bits, depth, me, Split(bs, j))
    ensures LocalWidth(Split(bs, j), me) < LocalWidth(bs, me)
  {
    hide Tiles, AllGood, Split;
    SplitTiles(bits, depth, bs, j);
    var r, n := Split(bs, j), |bs|;
    SplitAt(bs, j, j);
    MeInSpace(bits, depth, me, bs, j);
    FindCovers(bits, depth, bs, me);
    assert Pow2(bits + 1 - n) >= 2;
    assert n <= bits;
    assert Pow2(bits + 1 - n) == 2 * Pow2(bits + 1 - (n + 1));
    forall i | 0 <= i < |r| && Covers(r[i], me)
      ensures r[i].end - r[i].begin <= Pow2(bits + 1 - |r|)
      ensures r[i].end - r[i].begin < bs[j].end - bs[j].begin
    {
      SplitAt(bs, j, i);
    }
    FindCovers(bits, depth, r, me);
  }

  lemma MeInSpace(bits: nat, depth: nat, me: nat, bs: seq<Bucket>, j: nat)
    requires Tiles(bits, bs) && AllGood(depth, bs) && j < |bs| && Covers(bs[j], me)
    ensures me <= Pow2(bits)
  {
    if j < |bs| - 1 {
      TilesOrdered(bits, depth, bs, j, |bs| - 1);
      assert GoodBucket(depth, bs[|bs| - 1]);
    }
  }

  // The width of the bucket that covers the local id.
  function LocalWidth(bs: seq<Bucket>, me: nat): nat
  {
    var j := Find(bs, me);
    if j < |bs| && bs[j].begin <= bs[j].end then bs[j].end - bs[j].begin else 0
  }
}
