/** `k_find_node`: the iterative node lookup. */
module FindNode {
  import opened Contacts
  import opened Network
  import opened LookupState
  import opened RunLog

  // The lookup ends with the merged list, or with the one answer that named the key alone.
  datatype NodeResult = Closest(k: seq<Contact>) | Exact(id: nat, k: seq<Contact>)

  predicate IsExact(key: nat, k: seq<Contact>)
  {
    |k| == 1 && k[0].node.id == key
  }

  // ---------- what the list of candidates keeps ----------

  // The list that a log leads to: answers are merged, sorted and cut, lost nodes struck off.
  function Listing(key: nat, local: Local, net: Answers, log: Log): seq<Contact>
  {
    match log
    case Empty => Take(K, SortBy(Distance(key), AppendNew([], local.table)))
    case Turn(_, earlier) => Listing(key, local, net, earlier)
    case Sent(_, n, ok, earlier) =>
      var list := Listing(key, local, net, earlier);
      if !ok then Without(list, n)
      else if n in net then Take(K, SortBy(Distance(key), AppendNew(list, net[n])))
      else list
  }

  // No answer has named the key alone.
  ghost predicate NoneExact(key: nat, local: Local, net: Answers, log: Log)
  {
    && !IsExact(key, local.table)
    && forall n :: n in Answerers(log) && n in net ==> !IsExact(key, net[n])
  }

  ghost function NoFarther(key: nat, seen: set<Contact>, c: Contact): set<Contact>
  {
    set d | d in seen && d != c && Distance(key)(d) <= Distance(key)(c)
  }

  // A contact that was named and is not listed lost a query, or there are enough others to list
  // that are no farther.
  ghost predicate LeavesOut(key: nat, seen: set<Contact>, lost: set<Node>, list: seq<Contact>)
  {
    forall c :: c in seen && c !in list ==> c.node in lost || |NoFarther(key, seen, c)| >= K
  }

  ghost predicate Listed(key: nat, local: Local, net: Answers, list: seq<Contact>, log: Log)
  {
    var seen := Seen(local.table, net, Answerers(log));
    && list == Listing(key, local, net, log)
    && |list| <= K && Ascending(Distance(key), list)
    && NoDuplicates(list) && Elements(list) <= seen
    && LeavesOut(key, seen, Lost(log), list)
    && (Lost(log) == {} ==> Nearest(Distance(key), K, seen, list))
  }

  ghost predicate Running(key: nat, local: Local, net: Answers, fails: (nat, Node) -> bool, s: State,
                          rest: seq<Node>, log: Log)
  {
    && Going(key, local, net, fails, s, rest, log)
    && Listed(key, local, net, s.kclosest, log) && NoneExact(key, local, net, log)
  }

  // What is cut off leaves enough that is no farther.
  lemma CutLeavesOut(key: nat, seen: set<Contact>, lost: set<Node>, list: seq<Contact>,
                     k: seq<Contact>, r: seq<Contact>)
    requires LeavesOut(key, seen, lost, list) && NoDuplicates(list) && Elements(list) <= seen
    requires r == Take(K, SortBy(Distance(key), AppendNew(list, k)))
    ensures LeavesOut(key, seen + Elements(k), lost, r)
    ensures |r| <= K && Ascending(Distance(key), r) && NoDuplicates(r)
    ensures Elements(r) <= seen + Elements(k)
  {
    var all, m := seen + Elements(k), AppendNew(list, k);
    AppendNewElements(list, k);
    SortOnceIsNearest(Distance(key), K, m);
    forall c | c in all && c !in r && c.node !in lost
      ensures |NoFarther(key, all, c)| >= K
    {
      if c in Elements(m) {
        SizeOfElements(r);
        SizeOfElements(m);
        SubsetSize(Elements(r), Elements(m));
        assert forall x :: x in Elements(r) ==> x in r;
        SubsetSize(Elements(r), NoFarther(key, all, c));
      } else {
        assert c in seen && c !in list;
        SubsetSize(NoFarther(key, seen, c), NoFarther(key, all, c));
      }
    }
  }

  lemma ListedStart(key: nat, local: Local, net: Answers, list: seq<Contact>)
    requires list == Take(K, SortBy(Distance(key), AppendNew([], local.table)))
    ensures Listed(key, local, net, list, Empty)
  {
    CutLeavesOut(key, {}, {}, [], local.table, list);
    AppendNewElements([], local.table);
    SortOnceIsNearest(Distance(key), K, AppendNew([], local.table));
    assert Seen(local.table, net, {}) == Elements(AppendNew([], local.table)) == {} + Elements(local.table);
  }

  lemma ListedAnswer(key: nat, local: Local, net: Answers, list: seq<Contact>, round: nat, n: Node,
                     log: Log, r: seq<Contact>)
    requires Listed(key, local, net, list, log) && n in net
    requires r == Take(K, SortBy(Distance(key), AppendNew(list, net[n])))
    ensures Listed(key, local, net, r, Sent(round, n, true, log))
  {
    hide Seen, LeavesOut, NoDuplicates, Ascending, AppendNew, SortBy, Nearest;
    var seen := Seen(local.table, net, Answerers(log));
    SeenGrows(local.table, net, Answerers(log), n);
    CutLeavesOut(key, seen, Lost(log), list, net[n], r);
    if Lost(log) == {} {
      StillNearest(key, seen, list, net[n], r);
    }
  }

  lemma StillNearest(key: nat, seen: set<Contact>, list: seq<Contact>, k: seq<Contact>, r: seq<Contact>)
    requires Nearest(Distance(key), K, seen, list)
    requires r == Take(K, SortBy(Distance(key), AppendNew(list, k)))
    ensures Nearest(Distance(key), K, seen + Elements(k), r)
  {
    AppendNewElements(list, k);
    NearestMerge(Distance(key), K, seen, list, AppendNew(list, k));
    assert seen + Elements(AppendNew(list, k)) == seen + Elements(k);
  }

  lemma AscendingTail(d: Contact -> nat, s: seq<Contact>)
    requires s != [] && Ascending(d, s)
    ensures Ascending(d, s[1..]) && forall c :: c in s[1..] ==> d(s[0]) <= d(c)
  {
  }

  lemma AscendingFrom(d: Contact -> nat, head: Contact, s: seq<Contact>)
    requires Ascending(d, s) && forall c :: c in s ==> d(head) <= d(c)
    ensures Ascending(d, [head] + s)
  {
  }

  lemma {:induction false} WithoutSorted(key: nat, s: seq<Contact>, n: Node)
    requires Ascending(Distance(key), s)
    ensures Ascending(Distance(key), Without(s, n))
    ensures |Without(s, n)| <= |s|
    ensures forall c :: c in Without(s, n) <==> c in s && c.node != n
  {
    WithoutKeeps(s, n);
    if s != [] {
      AscendingTail(Distance(key), s);
      WithoutSorted(key, s[1..], n);
      hide Ascending;
      AscendingFrom(Distance(key), s[0], Without(s[1..], n));
    }
  }

  lemma ListedFailure(key: nat, local: Local, net: Answers, list: seq<Contact>, round: nat, n: Node,
                      log: Log)
    requires Listed(key, local, net, list, log)
    ensures Listed(key, local, net, Without(list, n), Sent(round, n, false, log))
  {
    hide Seen, Ascending;
    WithoutSorted(key, list, n);
    WithoutElements(list, n);
  }

  lemma RunningStart(key: nat, local: Local, net: Answers, fails: (nat, Node) -> bool,
                     outstanding: set<Node>, t: State)
    requires outstanding == {} && !IsExact(key, local.table)
    requires Absorbed(key, State(map[], outstanding, [], []), local.node, local.table, t)
    ensures Running(key, local, net, fails, t, [], Empty)
  {
    GoingStart(key, local, net, fails, t);
    hide Going, Listed;
    ListedStart(key, local, net, t.kclosest);
  }

  lemma RunningAnswer(key: nat, local: Local, net: Answers, fails: (nat, Node) -> bool, s: State,
                      round: nat, n: Node, rest: seq<Node>, log: Log, t: State)
    requires Running(key, local, net, fails, s, [n] + rest, log) && round + 1 == Turns(log)
    requires n in net && !fails(round, n) && Absorbed(key, s, n, net[n], t)
    requires !IsExact(key, net[n])
    ensures Running(key, local, net, fails, t, rest, Sent(round, n, true, log))
  {
    hide Going, Listed, IsExact;
    GoingAnswer(key, local, net, fails, s, round, n, rest, log, t);
    ListedAnswer(key, local, net, s.kclosest, round, n, log, t.kclosest);
  }

  lemma RunningFailure(key: nat, local: Local, net: Answers, fails: (nat, Node) -> bool, s: State,
                       round: nat, n: Node, rest: seq<Node>, log: Log, t: State)
    requires Running(key, local, net, fails, s, [n] + rest, log) && round + 1 == Turns(log)
    requires n !in net || fails(round, n)
    requires t == s.(kclosest := Without(s.kclosest, n))
    ensures Running(key, local, net, fails, t, rest, Sent(round, n, false, log))
  {
    hide Going, Listed, IsExact;
    GoingFailure(key, local, net, fails, s, round, n, rest, log, t);
    ListedFailure(key, local, net, s.kclosest, round, n, log);
  }

  lemma RunningPop(key: nat, local: Local, net: Answers, fails: (nat, Node) -> bool, s: State, n: nat,
                   log: Log)
    requires Running(key, local, net, fails, s, [], log)
    requires 0 < n <= |s.pending| && n == (if |s.pending| < ALPHA then |s.pending| else ALPHA)
    ensures Running(key, local, net, fails, s.(pending := s.pending[n..]), s.pending[..n],
                    Turn(s.pending[..n], log))
  {
    hide Going, IsExact, LeavesOut, Seen;
    GoingPop(key, local, net, fails, s, n, log);
  }

  lemma RunningBounds(key: nat, local: Local, net: Answers, fails: (nat, Node) -> bool, s: State,
                      log: Log)
    requires Running(key, local, net, fails, s, [], log)
    ensures s.outstanding == {} && AnswerCount(log) <= |net.Keys|
  {
    AnswersBound(key, local, net, fails, s, log);
  }

  // ---------- the lookup ----------

  method UpdateState(key: nat, s: State, responder: Node, k: seq<Contact>)
    returns (exact: Option<NodeResult>, t: State)
    ensures exact == if IsExact(key, k) then Some(Exact(responder.id, k)) else None
    ensures exact == None ==>
      Absorbed(key, s.(outstanding := s.outstanding - {responder}), responder, k, t)
  {
    t := s;
    if |k| == 1 && k[0].node.id == key {
      if k[0] !in t.kclosest {
        t := t.(kclosest := Take(K, [k[0]] + t.kclosest));
      }
      return Some(Exact(responder.id, k)), t;
    }
    t := t.(outstanding := t.outstanding - {responder});
    t := Absorb(key, t, responder, k);
    exact := None;
  }

  // The answer that stopped the lookup is the first that named the key alone: that of the local
  // table, with nobody asked, or that of the node whose reply was next.
  ghost predicate ExactFrom(key: nat, local: Local, net: Answers, fails: (nat, Node) -> bool,
                            id: nat, k: seq<Contact>, log: Log)
  {
    && IsExact(key, k)
    && (|| (log == Empty && id == local.node.id && k == local.table)
        || (&& NoneExact(key, local, net, log) && Open(log) != []
            && var n := Open(log)[0];
               && n in NodesOf(Reachable(local, net)) && n.id != local.node.id
               && Turns(log) > 0 && n in net && !fails(Turns(log) - 1, n)
               && id == n.id && k == net[n]))
  }

  lemma ExactNext(key: nat, local: Local, net: Answers, fails: (nat, Node) -> bool, s: State,
                  n: Node, rest: seq<Node>, log: Log)
    requires Running(key, local, net, fails, s, [n] + rest, log) && Turns(log) > 0
    requires n in net && !fails(Turns(log) - 1, n) && IsExact(key, net[n])
    ensures ExactFrom(key, local, net, fails, n.id, net[n], log)
  {
    AskedReachable(key, local, net, fails, s, n, rest, log);
    hide Tracked, Reliable, Agrees, Orderly, Listed, NoneExact, Reachable;
  }

  lemma NothingOut(key: nat, local: Local, net: Answers, fails: (nat, Node) -> bool, s: State,
                   rest: seq<Node>, log: Log)
    requires Running(key, local, net, fails, s, rest, log)
    ensures s.outstanding == {}
  {
  }

  // One reply: a lost query strikes the node off the list, an answer is merged.
  method Process(key: nat, local: Local, net: Answers, fails: (nat, Node) -> bool, s: State, round: nat,
                 n: Node, reply: Reply, ghost rest: seq<Node>,
                 ghost log0: Log)
    returns (exact: Option<NodeResult>, t: State, ghost log: Log)
    requires Running(key, local, net, fails, s, [n] + rest, log0) && round + 1 == Turns(log0)
    requires reply == AskNodes(net, fails, round, n)
    ensures match exact
            case Some(e) => e.Exact? && ExactFrom(key, local, net, fails, e.id, e.k, log0)
            case None => Running(key, local, net, fails, t, rest, log)
    ensures log == if exact.Some? then log0 else Sent(round, n, reply.Nodes?, log0)
    ensures reply.Failed? ==> t.pending == s.pending
  {
    hide Running, IsExact, Absorbed, ExactFrom;
    exact, log := None, log0;
    match reply {
      case Failed =>
        t := s.(kclosest := Without(s.kclosest, n));
        RunningFailure(key, local, net, fails, s, round, n, rest, log, t);
        log := Sent(round, n, false, log);
      case Nodes(id, k) =>
        exact, t := UpdateState(key, s, n, k);
        if exact.Some? {
          ExactNext(key, local, net, fails, s, n, rest, log);
        } else {
          NothingOut(key, local, net, fails, s, [n] + rest, log);
          assert s.outstanding - {n} == s.outstanding;
          RunningAnswer(key, local, net, fails, s, round, n, rest, log, t);
          log := Sent(round, n, true, log);
        }
      case Value(_) =>
        assert false;
    }
  }

  // What is known of the log when the lookup stops, and of the list when nothing is left to ask.
  ghost predicate Stopped(key: nat, local: Local, net: Answers, fails: (nat, Node) -> bool,
                          exact: Option<NodeResult>, log: Log)
  {
    && Truthful(net, fails, log) && AnswersOnce(log) && Orderly(key, local, net, log)
    && (exact.Some? ==>
          exact.value.Exact?
          && ExactFrom(key, local, net, fails, exact.value.id, exact.value.k, log))
  }

  lemma StoppedHere(key: nat, local: Local, net: Answers, fails: (nat, Node) -> bool, s: State,
                    rest: seq<Node>, log: Log)
    requires Running(key, local, net, fails, s, rest, log)
    ensures Stopped(key, local, net, fails, None, log)
  {
  }

  // One round: the replies of the batch are processed in the order of the batch.
  method Round(key: nat, local: Local, net: Answers, fails: (nat, Node) -> bool, s: State, round: nat,
               batch: seq<Node>, ghost log0: Log)
    returns (exact: Option<NodeResult>, t: State, ghost log: Log)
    requires Running(key, local, net, fails, s, batch, log0) && s.outstanding == {}
    requires round + 1 == Turns(log0)
    ensures exact.None? ==> Running(key, local, net, fails, t, [], log)
    ensures Stopped(key, local, net, fails, exact, log)
    ensures Turns(log) == Turns(log0) && AnswerCount(log0) <= AnswerCount(log)
    ensures exact.None? && AnswerCount(log) == AnswerCount(log0) ==> t.pending == s.pending
  {
    hide Running, Truthful, AnswersOnce, Orderly, ExactFrom;
    var replies;
    replies, t := Gather(n => AskNodes(net, fails, round, n), s, batch);
    exact, log := None, log0;
    var i := 0;
    ghost var rest := batch;
    while i < |batch|
      invariant 0 <= i <= |batch| && rest == batch[i..]
      invariant exact.None? && Running(key, local, net, fails, t, rest, log)
      invariant Turns(log) == Turns(log0) && AnswerCount(log0) <= AnswerCount(log)
      invariant AnswerCount(log) == AnswerCount(log0) ==> t.pending == s.pending
    {
      StoppedHere(key, local, net, fails, t, rest, log);
      rest := Tail(batch, i, rest);
      exact, t, log := Process(key, local, net, fails, t, round, batch[i], replies[i], rest, log);
      if exact.Some? {
        return;
      }
      i := i + 1;
    }
    assert rest == [];
    StoppedHere(key, local, net, fails, t, [], log);
  }

  // The round loop.  A node that failed may be queued again by a later answer, but every round
  // either gains an answer or shortens the queue.
  method Rounds(key: nat, local: Local, net: Answers, fails: (nat, Node) -> bool, s: State)
    returns (exact: Option<NodeResult>, t: State, ghost log: Log)
    requires Running(key, local, net, fails, s, [], Empty)
    ensures exact.None? ==> t.pending == [] && Running(key, local, net, fails, t, [], log)
    ensures Stopped(key, local, net, fails, exact, log)
  {
    hide Running, Stopped;
    exact, t, log := None, s, Empty;
    var round := 0;
    RunningBounds(key, local, net, fails, t, log);
    while t.pending != [] || t.outstanding != {}
      invariant exact.None? && Running(key, local, net, fails, t, [], log)
      invariant AnswerCount(log) <= |net.Keys| && t.outstanding == {}
      invariant round == Turns(log)
      decreases |net.Keys| - AnswerCount(log), |t.pending|
    {
      var size := if |t.pending| < ALPHA then |t.pending| else ALPHA;
      var batch := t.pending[..size];
      if batch == [] {
        break;
      }
      RunningPop(key, local, net, fails, t, size, log);
      log := Turn(batch, log);
      t := t.(pending := t.pending[size..]);
      exact, t, log := Round(key, local, net, fails, t, round, batch, log);
      if exact.Some? {
        return;
      }
      RunningBounds(key, local, net, fails, t, log);
      round := round + 1;
    }
    StoppedHere(key, local, net, fails, t, [], log);
  }

  // ---------- when nothing is left to ask ----------

  // Every listed contact answered ...
  lemma FinishedVouched(key: nat, local: Local, net: Answers, fails: (nat, Node) -> bool, s: State,
                        log: Log)
    requires Running(key, local, net, fails, s, [], log) && s.pending == []
    ensures Elements(s.kclosest) <= Reachable(local, net)
    ensures forall c :: c in s.kclosest ==>
              c.node.id == local.node.id || c.node.id in IdsOf(Answerers(log))
  {
    RunsOut(key, local, net, fails, s, log);
    forall c | c in s.kclosest
      ensures c.node.id in s.queried
    {
      assert c in Elements(s.kclosest);
    }
  }

  // ... and without failures the list is the nearest part of everything reachable.
  lemma FinishedNearest(key: nat, local: Local, net: Answers, fails: (nat, Node) -> bool, s: State,
                        log: Log)
    requires Running(key, local, net, fails, s, [], log) && s.pending == []
    requires AllAnswer(local, net, fails) && OneAddress(local, net)
    ensures Nearest(Distance(key), K, Reachable(local, net), s.kclosest)
  {
    NoFailures(key, local, net, fails, s, log);
    SeenIsReachable(local, net, s, Answerers(log));
  }

  // Where ids are unique such a list equals sorting the whole reachable set once, in whatever order
  // it is enumerated.
  lemma LookupSortsEverything(key: nat, local: Local, net: Answers, k: seq<Contact>, all: seq<Contact>)
    requires Nearest(Distance(key), K, Reachable(local, net), k)
    requires UniqueIds(Reachable(local, net))
    requires NoDuplicates(all) && Elements(all) == Reachable(local, net)
    ensures k == Take(K, SortBy(Distance(key), all))
  {
    DistanceInjective(key, Reachable(local, net));
    SortOnceIsNearest(Distance(key), K, all);
    NearestUnique(Distance(key), K, Reachable(local, net), k, Take(K, SortBy(Distance(key), all)));
  }

  lemma FinalSort(key: nat, k: seq<Contact>)
    requires |k| <= K && Ascending(Distance(key), k)
    ensures Take(K, SortBy(Distance(key), k)) == k
  {
    SortSorted(Distance(key), k);
  }

  // The list of a lookup that ran until nobody was left to ask, whatever failed.
  ghost predicate ClosestOf(key: nat, local: Local, net: Answers, log: Log, k: seq<Contact>)
  {
    && k == Listing(key, local, net, log) && NoneExact(key, local, net, log)
    && Open(log) == [] && Queue(local, net, log) == {} && Exhausted(local, net, log)
    && |k| <= K && NoDuplicates(k) && Ascending(Distance(key), k)
    && Elements(k) <= Reachable(local, net)
    && (forall c :: c in k ==> c.node.id == local.node.id || c.node.id in IdsOf(Answerers(log)))
    && LeavesOut(key, Seen(local.table, net, Answerers(log)), Lost(log), k)
  }

  // What a lookup promises of its result and of its queries.
  ghost predicate LookedUp(key: nat, local: Local, net: Answers, fails: (nat, Node) -> bool,
                           r: NodeResult, log: Log)
  {
    && Truthful(net, fails, log) && AnswersOnce(log) && Paced(log) && Orderly(key, local, net, log)
    && (r.Closest? ==> ClosestOf(key, local, net, log, r.k))
    && (r.Exact? ==> ExactFrom(key, local, net, fails, r.id, r.k, log))
    && (r.Closest? && AllAnswer(local, net, fails) && OneAddress(local, net) ==>
          Nearest(Distance(key), K, Reachable(local, net), r.k))
  }

  lemma Finished(key: nat, local: Local, net: Answers, fails: (nat, Node) -> bool, s: State, log: Log)
    requires Running(key, local, net, fails, s, [], log) && s.pending == []
    ensures LookedUp(key, local, net, fails, Closest(s.kclosest), log)
    ensures Take(K, SortBy(Distance(key), s.kclosest)) == s.kclosest
  {
    ClosestHere(key, local, net, fails, s, log);
    hide ClosestOf, Listed, Tracked, Reachable, Seen, Truthful;
    FinalSort(key, s.kclosest);
    OrderlyIsPaced(key, local, net, log);
    if AllAnswer(local, net, fails) && OneAddress(local, net) {
      FinishedNearest(key, local, net, fails, s, log);
    }
  }

  lemma ClosestHere(key: nat, local: Local, net: Answers, fails: (nat, Node) -> bool, s: State, log: Log)
    requires Running(key, local, net, fails, s, [], log) && s.pending == []
    ensures ClosestOf(key, local, net, log, s.kclosest)
    ensures |s.kclosest| <= K && Ascending(Distance(key), s.kclosest)
  {
    hide Tracked, Reachable, Seen, LeavesOut, Exhausted, Orderly, Truthful;
    FinishedVouched(key, local, net, fails, s, log);
    RunsOut(key, local, net, fails, s, log);
    assert Elements(s.pending) == {};
  }

  // The whole run: every listed contact answered (or is the asking peer), whoever is left out lost a
  // query or is farther than enough others, and if every reachable peer answers and has one address
  // the list is exactly the nearest of the reachable contacts.
  method KFindNode(key: nat, local: Local, net: Answers, fails: (nat, Node) -> bool)
    returns (r: NodeResult, ghost log: Log)
    ensures LookedUp(key, local, net, fails, r, log)
    ensures r.Closest? ==>
      |r.k| <= K && NoDuplicates(r.k) && Ascending(Distance(key), r.k)
      && Elements(r.k) <= Reachable(local, net)
    ensures r.Closest? && AllAnswer(local, net, fails) && OneAddress(local, net) ==>
      Nearest(Distance(key), K, Reachable(local, net), r.k)
    ensures r.Exact? ==> IsExact(key, r.k)
  {
    r, log := Search(key, local, net, fails);
    hide Nearest, Reachable, Seen, LeavesOut, Exhausted, Orderly, Truthful, Queue, Listing, IsExact;
  }

  method Search(key: nat, local: Local, net: Answers, fails: (nat, Node) -> bool)
    returns (r: NodeResult, ghost log: Log)
    ensures LookedUp(key, local, net, fails, r, log)
  {
    hide LookedUp, Running, Absorbed;
    var s := State(map[], {}, [], []);
    var exact;
    exact, s := UpdateState(key, s, local.node, local.table);
    log := Empty;
    if exact.Some? {
      LocalExact(key, local, net, fails);
      return exact.value, log;
    }
    RunningStart(key, local, net, fails, {} - {local.node}, s);
    exact, s, log := Rounds(key, local, net, fails, s);
    if exact.Some? {
      StoppedExact(key, local, net, fails, exact.value, log);
      return exact.value, log;
    }
    Finished(key, local, net, fails, s, log);
    r := Closest(Take(K, SortBy(Distance(key), s.kclosest)));
  }

  lemma LocalExact(key: nat, local: Local, net: Answers, fails: (nat, Node) -> bool)
    requires IsExact(key, local.table)
    ensures LookedUp(key, local, net, fails, Exact(local.node.id, local.table), Empty)
  {
  }

  lemma StoppedExact(key: nat, local: Local, net: Answers, fails: (nat, Node) -> bool, r: NodeResult,
                     log: Log)
    requires Stopped(key, local, net, fails, Some(r), log)
    ensures LookedUp(key, local, net, fails, r, log)
  {
    OrderlyIsPaced(key, local, net, log);
  }

  // Where no more contacts were named than a list holds, all are in it that never lost a query.
  lemma FewAreAllListed(key: nat, local: Local, net: Answers, fails: (nat, Node) -> bool,
                        r: NodeResult, log: Log)
    requires LookedUp(key, local, net, fails, r, log) && r.Closest?
    requires |Seen(local.table, net, Answerers(log))| <= K
    ensures forall c :: c in Seen(local.table, net, Answerers(log)) && c.node !in Lost(log) ==> c in r.k
  {
    var seen := Seen(local.table, net, Answerers(log));
    forall c | c in seen && c.node !in Lost(log)
      ensures c in r.k
    {
      SubsetSize(NoFarther(key, seen, c), seen - {c});
    }
  }

  // Whichever way a run without failures ends, its first contact is the nearest reachable one.
  lemma FirstIsNearest(key: nat, local: Local, net: Answers, fails: (nat, Node) -> bool,
                       r: NodeResult, log: Log, c: Contact)
    requires LookedUp(key, local, net, fails, r, log)
    requires AllAnswer(local, net, fails) && OneAddress(local, net)
    requires c in Reachable(local, net)
    ensures r.k != [] && Xor(key, r.k[0].node.id) <= Xor(key, c.node.id)
  {
    match r {
      case Exact(_, k) =>
        XorSelf(key);
      case Closest(k) =>
        NearestHead(Distance(key), K, Reachable(local, net), k, c);
    }
  }
}
