/** Whole runs of the k-bucket table: what holds after any sequence of operations. */
module TableRuns {
  import opened Contacts
  import opened Buckets
  import opened TableOps

  datatype Op =
    | See(c: Contact)                        // insertNode / updateNode
    | Forget(c: Contact)                     // removeNode
    | Replace(replacee: Contact, replacer: Contact)  // replaceNode

  // A table, and a ghost clock that records when each contact was last successfully seen.
  datatype History = History(buckets: seq<Bucket>, lastSeen: map<Contact, nat>, clock: nat)

  // ---------- recency order ----------

  ghost predicate Recency(s: seq<Contact>, lastSeen: map<Contact, nat>)
  {
    && (forall c :: c in s ==> c in lastSeen)
    && forall i, j :: 0 <= i < j < |s| ==> lastSeen[s[i]] < lastSeen[s[j]]
  }

  ghost predicate AllRecency(bs: seq<Bucket>, lastSeen: map<Contact, nat>)
  {
    forall i :: 0 <= i < |bs| ==> Recency(bs[i].contents, lastSeen)
  }

  ghost predicate Past(lastSeen: map<Contact, nat>, clock: nat)
  {
    forall c :: c in lastSeen ==> lastSeen[c] < clock
  }

  lemma RecencyTail(s: seq<Contact>, lastSeen: map<Contact, nat>)
    requires s != [] && Recency(s, lastSeen)
    ensures Recency(s[1..], lastSeen)
    ensures s[0] in lastSeen
    ensures forall c :: c in s[1..] ==> lastSeen[s[0]] < lastSeen[c]
    ensures forall c :: c in s <==> c == s[0] || c in s[1..]
  {
  }

  lemma RecencyPrepend(head: Contact, s: seq<Contact>, lastSeen: map<Contact, nat>)
    requires Recency(s, lastSeen) && head in lastSeen
    requires forall c :: c in s ==> lastSeen[head] < lastSeen[c]
    ensures Recency([head] + s, lastSeen)
  {
  }

  lemma {:induction false} RecencyRemove(s: seq<Contact>, id: nat, lastSeen: map<Contact, nat>)
    requires Recency(s, lastSeen)
    ensures Recency(RemoveId(s, id), lastSeen)
    ensures forall c :: c in RemoveId(s, id) ==> c in s
  {
    if s != [] {
      RecencyTail(s, lastSeen);
      if s[0].node.id != id {
        RecencyRemove(s[1..], id, lastSeen);
        RecencyPrepend(s[0], RemoveId(s[1..], id), lastSeen);
      }
    }
  }

  lemma {:induction false} RecencyRemoveFirst(s: seq<Contact>, c: Contact, lastSeen: map<Contact, nat>)
    requires Recency(s, lastSeen)
    ensures Recency(RemoveFirst(s, c), lastSeen)
    ensures forall x :: x in RemoveFirst(s, c) ==> x in s
  {
    if s != [] {
      RecencyTail(s, lastSeen);
      if s[0] != c {
        RecencyRemoveFirst(s[1..], c, lastSeen);
        RecencyPrepend(s[0], RemoveFirst(s[1..], c), lastSeen);
      }
    }
  }

  lemma {:induction false} RecencyHalves(s: seq<Contact>, mid: nat, lastSeen: map<Contact, nat>)
    requires Recency(s, lastSeen)
    ensures Recency(Low(s, mid), lastSeen) && Recency(High(s, mid), lastSeen)
    ensures forall c :: c in Low(s, mid) || c in High(s, mid) ==> c in s
  {
    if s != [] {
      RecencyTail(s, lastSeen);
      RecencyHalves(s[1..], mid, lastSeen);
      RecencyPrepend(s[0], Low(s[1..], mid), lastSeen);
      RecencyPrepend(s[0], High(s[1..], mid), lastSeen);
    }
  }

  // Seeing `c` now keeps the order of a list that does not hold `c`, and lets `c` stand last.
  lemma RecencyNow(s: seq<Contact>, c: Contact, lastSeen: map<Contact, nat>, now: nat)
    requires Recency(s, lastSeen) && Past(lastSeen, now) && c !in s
    ensures Recency(s, lastSeen[c := now])
    ensures Recency(s + [c], lastSeen[c := now])
  {
  }

  lemma SplitRecency(depth: nat, bs: seq<Bucket>, j: nat, lastSeen: map<Contact, nat>)
    requires AllGood(depth, bs) && j < |bs| && AllRecency(bs, lastSeen)
    ensures bs[j].begin <= bs[j].end
    ensures AllRecency(Split(bs, j), lastSeen)
  {
    assert GoodBucket(depth, bs[j]);
    assert Recency(bs[j].contents, lastSeen);
    RecencyHalves(bs[j].contents, Mid(bs[j]), lastSeen);
    var r := Split(bs, j);
    forall i | 0 <= i < |r|
      ensures Recency(r[i].contents, lastSeen)
    {
      SplitAt(bs, j, i);
      assert i < |bs| ==> Recency(bs[i].contents, lastSeen);
      assert i > 0 ==> Recency(bs[i - 1].contents, lastSeen);
    }
  }

  lemma PlaceRecency(bits: nat, depth: nat, me: nat, bs: seq<Bucket>, c: Contact, s: seq<Contact>,
                     lastSeen: map<Contact, nat>, now: nat)
    requires Table(bits, depth, me, bs) && c.node.id <= Pow2(bits)
    requires AllRecency(bs, lastSeen) && Past(lastSeen, now)
    requires Find(bs, c.node.id) < |bs|
    requires AddTo(bs[Find(bs, c.node.id)].contents, depth, c) == Some(s)
    ensures AllRecency(SetContents(bs, Find(bs, c.node.id), s), lastSeen[c := now])
  {
    FindCovers(bits, depth, bs, c.node.id);
    var j := Find(bs, c.node.id);
    var r := SetContents(bs, j, s);
    forall i | 0 <= i < |r|
      ensures Recency(r[i].contents, lastSeen[c := now])
    {
      assert GoodBucket(depth, bs[i]) && Recency(bs[i].contents, lastSeen);
      if i == j {
        AddToGood(depth, bs[j], c);
        RemoveIdKeeps(bs[j].contents, c.node.id);
        RecencyRemove(bs[j].contents, c.node.id, lastSeen);
        RecencyNow(RemoveId(bs[j].contents, c.node.id), c, lastSeen, now);
      } else {
        assert c in bs[i].contents ==> Covers(bs[i], c.node.id);
        RecencyNow(bs[i].contents, c, lastSeen, now);
      }
    }
  }

  lemma {:induction false} InsertRecency(bits: nat, depth: nat, me: nat, bs: seq<Bucket>, c: Contact,
                                         lastSeen: map<Contact, nat>, now: nat)
    requires depth >= 3 && Table(bits, depth, me, bs) && c.node.id <= Pow2(bits)
    requires AllRecency(bs, lastSeen) && Past(lastSeen, now)
    ensures var r := Insert(bits, depth, me, bs, c);
            AllRecency(r.buckets, if r.placed then lastSeen[c := now] else lastSeen)
    decreases LocalWidth(bs, me)
  {
    FindCovers(bits, depth, bs, c.node.id);
    var j := Find(bs, c.node.id);
    assert GoodBucket(depth, bs[j]);
    match AddTo(bs[j].contents, depth, c) {
      case Some(s) =>
        PlaceRecency(bits, depth, me, bs, c, s, lastSeen, now);
      case None =>
        if bs[j].begin <= me < bs[j].end {
          FullBucketIsWide(depth, bs[j]);
          SplitKeepsTable(bits, depth, me, bs, j);
          SplitRecency(depth, bs, j, lastSeen);
          InsertRecency(bits, depth, me, Split(bs, j), c, lastSeen, now);
        }
    }
  }

  // ---------- removal ----------

  // Contacts outside the id space make the lookup of their bucket fail and change nothing.
  function Remove(bits: nat, bs: seq<Bucket>, c: Contact): seq<Bucket>
  {
    var j := Find(bs, c.node.id);
    if j < |bs| then SetContents(bs, j, RemoveFirst(bs[j].contents, c)) else bs
  }

  lemma {:induction false} RemoveFirstKeeps(s: seq<Contact>, c: Contact)
    requires DistinctIds(s)
    ensures DistinctIds(RemoveFirst(s, c)) && |RemoveFirst(s, c)| <= |s|
    ensures forall x :: x in RemoveFirst(s, c) <==> x in s && x != c
  {
    if s != [] {
      TailDistinct(s);
      if s[0] != c {
        RemoveFirstKeeps(s[1..], c);
        PrependDistinct(s[0], RemoveFirst(s[1..], c));
      }
    }
  }

  lemma RemoveKeeps(bits: nat, depth: nat, me: nat, bs: seq<Bucket>, c: Contact)
    requires Table(bits, depth, me, bs)
    ensures Table(bits, depth, me, Remove(bits, bs, c))
    ensures forall x :: Known(Remove(bits, bs, c), x) <==> Known(bs, x) && x != c
  {
    var j := Find(bs, c.node.id);
    var r := Remove(bits, bs, c);
    if j < |bs| {
      assert GoodBucket(depth, bs[j]);
      RemoveFirstKeeps(bs[j].contents, c);
      SetContentsTable(bits, depth, me, bs, j, RemoveFirst(bs[j].contents, c));
    }
    forall x
      ensures Known(r, x) <==> Known(bs, x) && x != c
    {
      if Known(bs, c) {
        KnownInSpace(bits, depth, me, bs, c);
        KnownWhere(bits, depth, me, bs, c);
        FindCovers(bits, depth, bs, c.node.id);
      }
      if j < |bs| {
        SetContentsKnown(bs, j, RemoveFirst(bs[j].contents, c), x);
        if i :| 0 <= i < |bs| && i != j && x in bs[i].contents {
          assert GoodBucket(depth, bs[i]);
          assert Covers(bs[i], x.node.id);
        }
      }
    }
  }

  lemma RemoveRecency(bits: nat, bs: seq<Bucket>, c: Contact, lastSeen: map<Contact, nat>)
    requires AllRecency(bs, lastSeen)
    ensures AllRecency(Remove(bits, bs, c), lastSeen)
  {
    var j := Find(bs, c.node.id);
    var r := Remove(bits, bs, c);
    forall i | 0 <= i < |r|
      ensures Recency(r[i].contents, lastSeen)
    {
      assert Recency(bs[i].contents, lastSeen);
      RecencyRemoveFirst(bs[i].contents, c, lastSeen);
    }
  }

  // ---------- runs ----------

  // The table after `__init__`, which inserts the local node before anything else.
  function Start(bits: nat, me: Contact): History
  {
    History([Bucket(0, Pow2(bits), [me])], map[me := 0], 1)
  }

  ghost predicate Sound(bits: nat, depth: nat, me: Contact, h: History)
  {
    Table(bits, depth, me.node.id, h.buckets) && AllRecency(h.buckets, h.lastSeen) && Past(h.lastSeen, h.clock)
  }

  function SeeStep(bits: nat, depth: nat, me: Contact, h: History, c: Contact): History
    requires depth >= 3 && Table(bits, depth, me.node.id, h.buckets)
  {
    if c.node.id > Pow2(bits) then h.(clock := h.clock + 1)
    else
      var r := Insert(bits, depth, me.node.id, h.buckets, c);
      History(r.buckets, if r.placed then h.lastSeen[c := h.clock] else h.lastSeen, h.clock + 1)
  }

  lemma SeeStepSound(bits: nat, depth: nat, me: Contact, h: History, c: Contact)
    requires depth >= 3 && Sound(bits, depth, me, h)
    ensures Sound(bits, depth, me, SeeStep(bits, depth, me, h, c))
  {
    if c.node.id <= Pow2(bits) {
      InsertKeeps(bits, depth, me.node.id, h.buckets, c);
      InsertRecency(bits, depth, me.node.id, h.buckets, c, h.lastSeen, h.clock);
    }
  }

  function Step(bits: nat, depth: nat, me: Contact, h: History, op: Op): History
    requires depth >= 3 && Table(bits, depth, me.node.id, h.buckets)
  {
    match op
    case See(c) => SeeStep(bits, depth, me, h, c)
    case Forget(c) => h.(buckets := Remove(bits, h.buckets, c))
    case Replace(replacee, replacer) =>
      RemoveKeeps(bits, depth, me.node.id, h.buckets, replacee);
      if replacee.node.id > Pow2(bits) then h
      else SeeStep(bits, depth, me, h.(buckets := Remove(bits, h.buckets, replacee)), replacer)
  }

  lemma StepSound(bits: nat, depth: nat, me: Contact, h: History, op: Op)
    requires depth >= 3 && Sound(bits, depth, me, h)
    ensures Sound(bits, depth, me, Step(bits, depth, me, h, op))
  {
    match op {
      case See(c) =>
        SeeStepSound(bits, depth, me, h, c);
      case Forget(c) =>
        RemoveKeeps(bits, depth, me.node.id, h.buckets, c);
        RemoveRecency(bits, h.buckets, c, h.lastSeen);
      case Replace(replacee, replacer) =>
        RemoveKeeps(bits, depth, me.node.id, h.buckets, replacee);
        RemoveRecency(bits, h.buckets, replacee, h.lastSeen);
        SeeStepSound(bits, depth, me, h.(buckets := Remove(bits, h.buckets, replacee)), replacer);
    }
  }

  // The table after a run of operations.  Every run keeps it sound.
  function Run(bits: nat, depth: nat, me: Contact, ops: seq<Op>): (h: History)
    requires depth >= 3 && me.node.id <= Pow2(bits)
    ensures Sound(bits, depth, me, h)
  {
    if ops == [] then
      assert GoodBucket(depth, Bucket(0, Pow2(bits), [me]));
      Start(bits, me)
    else
      var before := Run(bits, depth, me, ops[..|ops| - 1]);
      StepSound(bits, depth, me, before, ops[|ops| - 1]);
      Step(bits, depth, me, before, ops[|ops| - 1])
  }

  function Total(bs: seq<Bucket>): nat
  {
    if bs == [] then 0 else |bs[0].contents| + Total(bs[1..])
  }

  lemma {:induction false} TotalBound(depth: nat, bs: seq<Bucket>)
    requires AllGood(depth, bs)
    ensures Total(bs) <= depth * |bs|
  {
    if bs != [] {
      assert GoodBucket(depth, bs[0]);
      assert forall i :: 0 <= i < |bs[1..]| ==> bs[1..][i] == bs[i + 1];
      TotalBound(depth, bs[1..]);
      assert depth * |bs| == depth + depth * (|bs| - 1);
    }
  }

  // However many operations, the table stays logarithmic in the id space.
  lemma RunBounded(bits: nat, depth: nat, me: Contact, ops: seq<Op>)
    requires depth >= 3 && me.node.id <= Pow2(bits)
    ensures |Run(bits, depth, me, ops).buckets| <= bits + 1
    ensures Total(Run(bits, depth, me, ops).buckets) <= depth * (bits + 1)
  {
    var h := Run(bits, depth, me, ops);
    TotalBound(depth, h.buckets);
    MulMonotone(depth, |h.buckets|, bits + 1);
  }

  lemma MulMonotone(a: nat, b: nat, c: nat)
    requires b <= c
    ensures a * b <= a * c
  {
  }

  // After any run, the contact that an insertion names is the least recently seen one of the full
  // bucket that had no room.
  lemma NamedIsLeastRecentlySeen(bits: nat, depth: nat, me: Contact, ops: seq<Op>, c: Contact)
    requires depth >= 3 && me.node.id <= Pow2(bits)
    requires c.node.id <= Pow2(bits)
    ensures var h := Run(bits, depth, me, ops);
            var r := Insert(bits, depth, me.node.id, h.buckets, c);
            var j := Find(h.buckets, c.node.id);
            r.oldest.Some? ==>
              && j < |h.buckets| && |h.buckets[j].contents| == depth && r.oldest.value in h.buckets[j].contents
              && forall x :: x in h.buckets[j].contents ==>
                   && x in h.lastSeen && r.oldest.value in h.lastSeen
                   && h.lastSeen[r.oldest.value] <= h.lastSeen[x]
  {
  }
}
