/** Tables at which the code does not do what one may expect of it. */
module TableExamples {
  import opened Contacts
  import opened Buckets
  import opened TableOps
  import opened TableRuns
  import opened Windows
  import opened Config
  import opened Routing

  function Peer(id: nat): Contact
  {
    Contact(Node("peer", 1, id), 0)
  }

  // ---------- tables of depth one and two ----------

  lemma HalfOfPower(n: nat, s: seq<Contact>)
    requires forall c :: c in s ==> c.node.id <= 1
    ensures LeftHalf(Bucket(0, Pow2(n), s)) == Bucket(0, Pow2(if n > 0 then n - 1 else 0), s)
  {
    Pow2Positive(if n > 0 then n - 1 else 0);
    LowOfAll(s, Mid(Bucket(0, Pow2(n), s)));
  }

  // Splits that leave the first bucket with the ids zero and one.
  lemma {:induction false} FirstBucketAfter(bits: nat, s: seq<Contact>, n: nat)
    requires forall c :: c in s ==> c.node.id <= 1
    ensures SplitAgain([Bucket(0, Pow2(bits), s)], 0, n)[0]
         == Bucket(0, Pow2(if n < bits then bits - n else 0), s)
  {
    hide Pow2, LeftHalf, RightHalf;
    if n > 0 {
      FirstBucketAfter(bits, s, n - 1);
      SplitAt(SplitAgain([Bucket(0, Pow2(bits), s)], 0, n - 1), 0, 0);
      HalfOfPower(if n - 1 < bits then bits - (n - 1) else 0, s);
    }
  }

  // A full first bucket of such ids splits for ever when it is to take another contact.
  lemma ShallowTable(bits: nat, depth: nat, s: seq<Contact>, c: Contact, n: nat)
    requires |s| == depth && DistinctIds(s) && InRange(s, 0, 1) && c !in s && c.node.id == 1
    ensures var bs := [Bucket(0, Pow2(bits), s)];
            Table(bits, depth, 0, bs) && Splits(depth, 0, SplitAgain(bs, 0, n), c)
  {
    FreshTable(bits, depth, s);
    FirstBucketAfter(bits, s, n);
    Pow2Positive(if n < bits then bits - n else 0);
  }

  // In every id space the fresh table of depth one is such, and that of depth two with one more
  // contact.
  lemma DepthOneAndTwo(bits: nat, c: Contact, n: nat)
    requires c.node.id == 1 && c != Peer(1)
    ensures Splits(1, 0, SplitAgain(Start(bits, Peer(0)).buckets, 0, n), c)
    ensures AddTo([Peer(0)], 2, Peer(1)) == Some([Peer(0), Peer(1)])
    ensures Splits(2, 0, SplitAgain([Bucket(0, Pow2(bits), [Peer(0), Peer(1)])], 0, n), c)
  {
    hide Splits;
    assert RemoveId([Peer(0)], 1) == [Peer(0)] + RemoveId([Peer(0)][1..], 1) == [Peer(0)];
    assert [Peer(0)] + [Peer(1)] == [Peer(0), Peer(1)];
    ShallowTable(bits, 1, [Peer(0)], c, n);
    ShallowTable(bits, 2, [Peer(0), Peer(1)], c, n);
  }

  lemma FreshTable(bits: nat, depth: nat, s: seq<Contact>)
    requires |s| <= depth && DistinctIds(s) && InRange(s, 0, 1)
    ensures Table(bits, depth, 0, [Bucket(0, Pow2(bits), s)])
  {
    Pow2Positive(bits);
    var bs := [Bucket(0, Pow2(bits), s)];
    assert GoodBucket(depth, bs[0]);
  }

  lemma {:induction false} Pow2Positive(n: nat)
    ensures Pow2(n) >= 1
  {
    if n > 0 {
      Pow2Positive(n - 1);
    }
  }

  // ---------- running a table step by step ----------

  lemma {:induction false} RemoveAbsentId(s: seq<Contact>, id: nat)
    requires id !in IdsIn(s)
    ensures RemoveId(s, id) == s
  {
    if s != [] {
      assert s == [s[0]] + s[1..];
      assert s[0] in s;
      RemoveAbsentId(s[1..], id);
    }
  }

  lemma RoomForOne(s: seq<Contact>, depth: nat, c: Contact)
    requires |s| < depth && c.node.id !in IdsIn(s)
    ensures AddTo(s, depth, c) == Some(s + [c])
  {
    RemoveAbsentId(s, c.node.id);
  }

  lemma RunStep(bits: nat, depth: nat, me: Contact, ops: seq<Op>, c: Contact)
    requires depth >= 3 && me.node.id <= Pow2(bits) && c.node.id <= Pow2(bits)
    ensures var bs := Run(bits, depth, me, ops).buckets;
            Table(bits, depth, me.node.id, bs) &&
            Run(bits, depth, me, ops + [See(c)]).buckets == Insert(bits, depth, me.node.id, bs, c).buckets
  {
    hide Insert, Table;
    assert (ops + [See(c)])[..|ops|] == ops;
  }

  ghost predicate Room(depth: nat, bs: seq<Bucket>, c: Contact, j: nat)
  {
    j == Find(bs, c.node.id) && j < |bs|
    && |bs[j].contents| < depth && forall d :: d in bs[j].contents ==> d.node.id != c.node.id
  }

  ghost predicate FullOfMine(depth: nat, me: nat, bs: seq<Bucket>, c: Contact, j: nat)
  {
    j == Find(bs, c.node.id) && j < |bs|
    && |bs[j].contents| == depth && c !in bs[j].contents && bs[j].begin <= me < bs[j].end
  }

  // Seeing a new contact when its bucket has room, ...
  lemma SeeNew(bits: nat, depth: nat, me: Contact, ops: seq<Op>, c: Contact, bs: seq<Bucket>, j: nat)
    requires depth >= 3 && me.node.id <= Pow2(bits) && c.node.id <= Pow2(bits)
    requires Run(bits, depth, me, ops).buckets == bs && Room(depth, bs, c, j)
    ensures j < |bs|
    ensures Run(bits, depth, me, ops + [See(c)]).buckets == SetContents(bs, j, bs[j].contents + [c])
  {
    hide Run, Insert, Table, AddTo, Find;
    RunStep(bits, depth, me, ops, c);
    InsertCases(bits, depth, me.node.id, bs, c);
    RoomForOne(bs[j].contents, depth, c);
  }

  // ... and when it is full and the one of the local id, and has room once it is split.
  lemma SeeSplit(bits: nat, depth: nat, me: Contact, ops: seq<Op>, c: Contact, bs: seq<Bucket>, j: nat,
                 bs': seq<Bucket>, j': nat)
    requires depth >= 3 && me.node.id <= Pow2(bits) && c.node.id <= Pow2(bits)
    requires Run(bits, depth, me, ops).buckets == bs && FullOfMine(depth, me.node.id, bs, c, j)
    requires bs' == Split(bs, j) && Room(depth, bs', c, j')
    ensures j' < |bs'|
    ensures Run(bits, depth, me, ops + [See(c)]).buckets == SetContents(bs', j', bs'[j'].contents + [c])
  {
    RunStep(bits, depth, me, ops, c);
    InsertCases(bits, depth, me.node.id, bs, c);
    assert AddTo(bs[j].contents, depth, c).None?;
    hide Run, Insert, Table, AddTo, Find, Split;
    InsertCases(bits, depth, me.node.id, bs', c);
    RoomForOne(bs'[j'].contents, depth, c);
  }

  lemma RunFresh(bits: nat, depth: nat, me: Contact)
    requires depth >= 3 && me.node.id <= Pow2(bits)
    ensures Run(bits, depth, me, []).buckets == [Bucket(0, Pow2(bits), [me])]
  {
  }

  // ---------- the local id in a bucket and in the cache ----------

  lemma SeeInOnly(bits: nat, depth: nat, me: Contact, ops: seq<Op>, c: Contact, s: seq<Contact>)
    requires depth >= 3 && me.node.id <= Pow2(bits) && c.node.id <= Pow2(bits)
    requires Run(bits, depth, me, ops).buckets == [Bucket(0, Pow2(bits), s)]
    requires |s| < depth && forall i :: 0 <= i < |s| ==> s[i].node.id != c.node.id
    ensures Run(bits, depth, me, ops + [See(c)]).buckets == [Bucket(0, Pow2(bits), s + [c])]
  {
    hide Run, Pow2;
    SeeNew(bits, depth, me, ops, c, [Bucket(0, Pow2(bits), s)], 0);
  }

  lemma LowHighNext(a: Contact, s: seq<Contact>, mid: nat)
    ensures Low([a] + s, mid) == (if a.node.id <= mid then [a] else []) + Low(s, mid)
    ensures High([a] + s, mid) == (if a.node.id > mid then [a] else []) + High(s, mid)
  {
    assert ([a] + s)[1..] == s;
  }

  lemma LowHighOfThree(a: Contact, b: Contact, c: Contact, mid: nat)
    ensures Low([a, b, c], mid)
         == (if a.node.id <= mid then [a] else []) + ((if b.node.id <= mid then [b] else [])
            + (if c.node.id <= mid then [c] else []))
    ensures High([a, b, c], mid)
         == (if a.node.id > mid then [a] else []) + ((if b.node.id > mid then [b] else [])
            + (if c.node.id > mid then [c] else []))
  {
    hide Low, High;
    LowHighNext(a, [b, c], mid);
    LowHighNext(b, [c], mid);
    LowHighNext(c, [], mid);
    assert [a] + [b, c] == [a, b, c] && [b] + [c] == [b, c] && [c] + [] == [c];
    LowHighNone(mid);
  }

  lemma LowHighNone(mid: nat)
    ensures Low([], mid) == [] && High([], mid) == []
  {
  }

  function ThreeOfFour(): seq<Bucket>
  {
    [Bucket(0, 4, [Peer(2), Peer(0), Peer(1)])]
  }

  function InHalves(): seq<Bucket>
  {
    [Bucket(0, 2, [Peer(2), Peer(0), Peer(1)]), Bucket(3, 4, [])]
  }

  function FullUpToMe(): seq<Bucket>
  {
    [Bucket(0, 2, [Peer(2), Peer(0), Peer(1)]), Bucket(3, 4, [Peer(3)])]
  }

  lemma HalvesOfFour()
    ensures InHalves() == Split(ThreeOfFour(), 0)
    ensures FullOfMine(3, 2, ThreeOfFour(), Peer(3), 0) && Room(3, InHalves(), Peer(3), 1)
    ensures SetContents(InHalves(), 1, InHalves()[1].contents + [Peer(3)]) == FullUpToMe()
  {
    hide Low, High;
    LowHighOfThree(Peer(2), Peer(0), Peer(1), 2);
    assert LeftHalf(ThreeOfFour()[0]) == InHalves()[0] && RightHalf(ThreeOfFour()[0]) == InHalves()[1];
    assert [] + [Peer(3)] == [Peer(3)];
  }

  function LocalSightings(): seq<Op>
  {
    [See(Peer(0))] + [See(Peer(1))] + [See(Peer(3))]
  }

  lemma AfterLocalSightings()
    ensures Run(2, 3, Peer(2), LocalSightings()).buckets == FullUpToMe()
  {
    assert Pow2(2) == 4;
    hide Run, Pow2, Split, Room, FullOfMine, SetContents, InHalves, FullUpToMe;
    var me, a, b := Peer(2), Peer(0), Peer(1);
    RunFresh(2, 3, me);
    SeeInOnly(2, 3, me, [], a, [me]);
    assert [] + [See(a)] == [See(a)];
    SeeInOnly(2, 3, me, [See(a)], b, [me] + [a]);
    assert [me] + [a] + [b] == [me, a, b];
    HalvesOfFour();
    SeeSplit(2, 3, me, [See(a)] + [See(b)], Peer(3), ThreeOfFour(), 0, InHalves(), 1);
  }

  // The bucket of the local id 2 ends with it and is full, so it is not split; known under another
  // address, the local id goes to the cache, while the bucket keeps it under the first.
  lemma LocalIdTwice(other: Contact)
    requires other.node.id == 2 && other != Peer(2)
    ensures CrowdedIn(3, 2, Run(2, 3, Peer(2), LocalSightings()).buckets, other)
  {
    AfterLocalSightings();
    assert FullUpToMe()[0].contents[0] == Peer(2);
  }

  // ---------- an answer that leaves out nearer contacts ----------

  // The table of the local id 0 after it has seen 16, 5, 6, 7 and 1.
  function Sightings(n: nat): seq<Op>
  {
    if n == 0 then []
    else Sightings(n - 1)
         + [See(Peer(if n == 1 then 16 else if n <= 4 then n + 3 else 1))]
  }

  function TwoSeen(): seq<Bucket>
  {
    [Bucket(0, 16, [Peer(0), Peer(16), Peer(5)])]
  }

  function TwoSplit(): seq<Bucket>
  {
    [Bucket(0, 8, [Peer(0), Peer(5)]), Bucket(9, 16, [Peer(16)])]
  }

  function ThreeSeen(): seq<Bucket>
  {
    [Bucket(0, 8, [Peer(0), Peer(5), Peer(6)]), Bucket(9, 16, [Peer(16)])]
  }

  function ThreeSplit(): seq<Bucket>
  {
    [Bucket(0, 4, [Peer(0)]), Bucket(5, 8, [Peer(5), Peer(6)]), Bucket(9, 16, [Peer(16)])]
  }

  function FourSeen(): seq<Bucket>
  {
    [Bucket(0, 4, [Peer(0)]), Bucket(5, 8, [Peer(5), Peer(6), Peer(7)]), Bucket(9, 16, [Peer(16)])]
  }

  function FiveSeen(): seq<Bucket>
  {
    [Bucket(0, 4, [Peer(0), Peer(1)]), Bucket(5, 8, [Peer(5), Peer(6), Peer(7)]),
     Bucket(9, 16, [Peer(16)])]
  }

  lemma FirstSplit()
    ensures TwoSplit() == Split(TwoSeen(), 0)
    ensures FullOfMine(3, 0, TwoSeen(), Peer(6), 0) && Room(3, TwoSplit(), Peer(6), 0)
    ensures SetContents(TwoSplit(), 0, TwoSplit()[0].contents + [Peer(6)]) == ThreeSeen()
  {
    hide Low, High;
    LowHighOfThree(Peer(0), Peer(16), Peer(5), 8);
    assert LeftHalf(TwoSeen()[0]) == TwoSplit()[0] && RightHalf(TwoSeen()[0]) == TwoSplit()[1];
    assert [Peer(0), Peer(5)] + [Peer(6)] == [Peer(0), Peer(5), Peer(6)];
  }

  lemma SecondSplit()
    ensures ThreeSplit() == Split(ThreeSeen(), 0)
    ensures FullOfMine(3, 0, ThreeSeen(), Peer(7), 0) && Room(3, ThreeSplit(), Peer(7), 1)
    ensures SetContents(ThreeSplit(), 1, ThreeSplit()[1].contents + [Peer(7)]) == FourSeen()
  {
    hide Low, High;
    LowHighOfThree(Peer(0), Peer(5), Peer(6), 4);
    assert LeftHalf(ThreeSeen()[0]) == ThreeSplit()[0] && RightHalf(ThreeSeen()[0]) == ThreeSplit()[1];
    assert [Peer(5), Peer(6)] + [Peer(7)] == [Peer(5), Peer(6), Peer(7)];
  }

  lemma LastSighting()
    ensures Room(3, FourSeen(), Peer(1), 0)
    ensures SetContents(FourSeen(), 0, FourSeen()[0].contents + [Peer(1)]) == FiveSeen()
  {
    assert [Peer(0)] + [Peer(1)] == [Peer(0), Peer(1)];
  }

  lemma AfterTwo()
    ensures Run(4, 3, Peer(0), Sightings(2)).buckets == TwoSeen()
  {
    assert Pow2(4) == 16;
    assert Sightings(0) == [];
    hide Run, Pow2;
    RunFresh(4, 3, Peer(0));
    SeeInOnly(4, 3, Peer(0), Sightings(0), Peer(16), [Peer(0)]);
    assert Sightings(1) == Sightings(0) + [See(Peer(16))];
    SeeInOnly(4, 3, Peer(0), Sightings(1), Peer(5), [Peer(0)] + [Peer(16)]);
    assert Sightings(2) == Sightings(1) + [See(Peer(5))];
    assert [Peer(0)] + [Peer(16)] + [Peer(5)] == [Peer(0), Peer(16), Peer(5)];
  }

  lemma AfterFive()
    ensures Run(4, 3, Peer(0), Sightings(5)).buckets == FiveSeen()
  {
    assert Pow2(4) == 16;
    hide Run, Pow2, Split, Room, FullOfMine, SetContents, Sightings;
    hide TwoSeen, TwoSplit, ThreeSeen, ThreeSplit, FourSeen, FiveSeen;
    AfterTwo();
    NextSightings();
    FirstSplit();
    SeeSplit(4, 3, Peer(0), Sightings(2), Peer(6), TwoSeen(), 0, TwoSplit(), 0);
    SecondSplit();
    SeeSplit(4, 3, Peer(0), Sightings(3), Peer(7), ThreeSeen(), 0, ThreeSplit(), 1);
    LastSighting();
    SeeNew(4, 3, Peer(0), Sightings(4), Peer(1), FourSeen(), 0);
  }

  lemma NextSightings()
    ensures Sightings(3) == Sightings(2) + [See(Peer(6))]
    ensures Sightings(4) == Sightings(3) + [See(Peer(7))]
    ensures Sightings(5) == Sightings(4) + [See(Peer(1))]
  {
  }

  lemma TwoBuckets(bs: seq<Bucket>, lo: nat)
    requires lo + 2 <= |bs|
    ensures Window(bs, lo + 1, lo + 2) == Elements(bs[lo + 1].contents)
    ensures Window(bs, lo, lo + 2) == Elements(bs[lo].contents) + Elements(bs[lo + 1].contents)
  {
  }

  lemma WindowOfFour()
    ensures Window(FiveSeen(), 2, 3) == {Peer(16)}
    ensures Window(FiveSeen(), 1, 3) == {Peer(5), Peer(6), Peer(7), Peer(16)}
  {
    TwoBuckets(FiveSeen(), 1);
  }

  // The walk stops after one step outwards.
  lemma OneStep(r: seq<Contact>, steps: nat)
    requires AnswersQuery(3, FiveSeen(), 9, steps, r)
    ensures Nearest(Distance(9), 3, {Peer(5), Peer(6), Peer(7), Peer(16)}, r)
  {
    hide Nearest, Window;
    var bs := FiveSeen();
    WindowOfFour();
    assert Find(bs, 9) == 2;
    assert Around(bs, 2, 0) == {Peer(16)};
    assert Around(bs, 2, 1) == {Peer(5), Peer(6), Peer(7), Peer(16)};
    if steps > 1 {
      WidestWindow(steps - 1);
      SubsetSize({Peer(5), Peer(6), Peer(7), Peer(16)}, Around(bs, 2, steps - 1));
    }
  }

  lemma WidestWindow(steps: nat)
    requires steps >= 1
    ensures Window(FiveSeen(), 1, 3) <= Around(FiveSeen(), 2, steps)
  {
  }

  lemma DistancesFromNine()
    ensures Xor(9, 1) == 8 && Xor(9, 0) == 9 && Xor(9, 5) == 12 && Xor(9, 7) == 14 && Xor(9, 6) == 15
    ensures Xor(9, 16) == 25
  {
  }

  lemma ThreeNearest(r: seq<Contact>)
    requires Nearest(Distance(9), 3, {Peer(5), Peer(6), Peer(7), Peer(16)}, r)
    ensures r == [Peer(5), Peer(7), Peer(6)]
  {
    var all := {Peer(5), Peer(6), Peer(7), Peer(16)};
    NearestOfTheFour();
    hide Nearest;
    NearestUnique(Distance(9), 3, all, r, [Peer(5), Peer(7), Peer(6)]);
  }

  lemma NearestOfTheFour()
    ensures var all := {Peer(5), Peer(6), Peer(7), Peer(16)};
            Nearest(Distance(9), 3, all, [Peer(5), Peer(7), Peer(6)]) && InjectiveOn(Distance(9), all)
  {
    hide Xor;
    DistancesFromNine();
  }

  // Asked for 9, that table answers 5, 7 and 6, although it knows 1 and 0, which are nearer.
  lemma NearerLeftOut(r: seq<Contact>, steps: nat)
    requires AnswersQuery(3, Run(4, 3, Peer(0), Sightings(5)).buckets, 9, steps, r)
    ensures r == [Peer(5), Peer(7), Peer(6)]
    ensures var bs := Run(4, 3, Peer(0), Sightings(5)).buckets;
            Known(bs, Peer(1)) && Known(bs, Peer(0))
            && Xor(9, 1) < Xor(9, 0) < Xor(9, 5) < Xor(9, 7) < Xor(9, 6)
            && !Nearest(Distance(9), 3, Window(bs, 0, |bs|), r)
  {
    hide Run, Xor, Sightings, AnswersQuery;
    AfterFive();
    OneStep(r, steps);
    ThreeNearest(r);
    DistancesFromNine();
    var bs := FiveSeen();
    assert bs[0].contents[1] == Peer(1) && bs[0].contents[0] == Peer(0);
    assert Peer(1) in Window(bs, 0, |bs|) && Peer(1) !in r && r[0] in r;
  }
}
