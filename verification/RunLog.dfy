/** The record of the queries a lookup has sent, and what every step keeps of it. */
module RunLog {
  import opened Contacts
  import opened Network
  import opened LookupState

  // A run, latest first: the batch that each round asks, and its queries with their replies.
  datatype Log =
    | Empty
    | Turn(batch: seq<Node>, earlier: Log)
    | Sent(round: nat, node: Node, ok: bool, earlier: Log)

  function Answerers(log: Log): set<Node>
  {
    match log
    case Empty => {}
    case Turn(_, earlier) => Answerers(earlier)
    case Sent(_, n, ok, earlier) => if ok then Answerers(earlier) + {n} else Answerers(earlier)
  }

  // The nodes to which some query was lost.
  function Lost(log: Log): set<Node>
  {
    match log
    case Empty => {}
    case Turn(_, earlier) => Lost(earlier)
    case Sent(_, n, ok, earlier) => if ok then Lost(earlier) else Lost(earlier) + {n}
  }

  function AnswerCount(log: Log): nat
  {
    match log
    case Empty => 0
    case Turn(_, earlier) => AnswerCount(earlier)
    case Sent(_, _, ok, earlier) => AnswerCount(earlier) + (if ok then 1 else 0)
  }

  function QueriesIn(log: Log, round: nat): nat
  {
    match log
    case Empty => 0
    case Turn(_, earlier) => QueriesIn(earlier, round)
    case Sent(r, _, _, earlier) => QueriesIn(earlier, round) + (if r == round then 1 else 0)
  }

  // Each entry tells what the network did with that query.
  ghost predicate Truthful(net: Answers, fails: (nat, Node) -> bool, log: Log)
  {
    match log
    case Empty => true
    case Turn(_, earlier) => Truthful(net, fails, earlier)
    case Sent(r, n, ok, earlier) => ok == (n in net && !fails(r, n)) && Truthful(net, fails, earlier)
  }

  // A node may be asked again after a lost query, but it answers at most once:
  // there are as many answers as there are answerers.
  ghost predicate AnswersOnce(log: Log)
  {
    AnswerCount(log) == |Answerers(log)|
  }

  // No round has more than ALPHA queries in flight.
  ghost predicate Paced(log: Log)
  {
    forall round :: QueriesIn(log, round) <= ALPHA
  }

  function Turns(log: Log): nat
  {
    match log
    case Empty => 0
    case Turn(_, earlier) => Turns(earlier) + 1
    case Sent(_, _, _, earlier) => Turns(earlier)
  }

  // The part of the latest batch whose replies have not been used.
  function Open(log: Log): seq<Node>
  {
    match log
    case Empty => []
    case Turn(batch, _) => batch
    case Sent(_, _, _, earlier) => if Open(earlier) == [] then [] else Open(earlier)[1..]
  }

  // Named by somebody, neither answered nor asked in vain: the nodes that are due to be asked.
  ghost function Due(local: Local, net: Answers, log: Log): set<Node>
  {
    set n | n in NodesOf(Seen(local.table, net, Answerers(log)))
            && n.id !in IdsOf(Answerers(log)) + {local.node.id} && n !in Lost(log)
  }

  // Who has answered, by id, and under which address.
  function Queried(local: Local, log: Log): map<nat, (string, int)>
  {
    match log
    case Empty => map[local.node.id := (local.node.host, local.node.port)]
    case Turn(_, earlier) => Queried(local, earlier)
    case Sent(_, n, ok, earlier) =>
      if ok then Queried(local, earlier)[n.id := (n.host, n.port)] else Queried(local, earlier)
  }

  // The nodes that are waiting: an answer adds those it names, unless an id has answered already,
  // and a batch takes its own away.  A node that failed comes back when it is named again.
  function Queue(local: Local, net: Answers, log: Log): set<Node>
  {
    match log
    case Empty => Fresh(local.table, Queried(local, log)) - QueriedNodes(Queried(local, log))
    case Turn(batch, earlier) => Queue(local, net, earlier) - Elements(batch)
    case Sent(_, n, ok, earlier) =>
      if ok && n in net then
        Queue(local, net, earlier) + Fresh(net[n], Queried(local, log)) - QueriedNodes(Queried(local, log))
      else Queue(local, net, earlier)
  }

  // A batch is the nearest part of the queue, and the queue holds every node that is due and no
  // node that was not named, has answered, or is the asking peer.
  ghost predicate Chosen(key: nat, local: Local, net: Answers, batch: seq<Node>, log: Log)
  {
    && batch != [] && Nearest(NodeDistance(key), ALPHA, Queue(local, net, log), batch)
    && Due(local, net, log) <= Queue(local, net, log)
    && forall n :: n in Queue(local, net, log) ==>
         n in NodesOf(Seen(local.table, net, Answerers(log)))
         && n !in Answerers(log) && n.id != local.node.id
  }

  // Rounds follow one another: each asks a well-chosen batch, and its replies are used in the order
  // of the batch before the next one is chosen.
  ghost predicate Orderly(key: nat, local: Local, net: Answers, log: Log)
  {
    match log
    case Empty => true
    case Turn(batch, earlier) =>
      Open(earlier) == [] && Chosen(key, local, net, batch, earlier)
      && Orderly(key, local, net, earlier)
    case Sent(round, n, _, earlier) =>
      Open(earlier) != [] && Open(earlier)[0] == n && round + 1 == Turns(earlier)
      && Orderly(key, local, net, earlier)
  }

  lemma {:induction false} QueriesOfRounds(key: nat, local: Local, net: Answers, log: Log, round: nat)
    requires Orderly(key, local, net, log)
    ensures round >= Turns(log) ==> QueriesIn(log, round) == 0
    ensures round + 1 == Turns(log) ==> QueriesIn(log, round) + |Open(log)| <= ALPHA
    ensures QueriesIn(log, round) <= ALPHA
  {
    if log != Empty {
      QueriesOfRounds(key, local, net, log.earlier, round);
    }
  }

  lemma OrderlyIsPaced(key: nat, local: Local, net: Answers, log: Log)
    requires Orderly(key, local, net, log)
    ensures Paced(log)
  {
    forall round: nat
      ensures QueriesIn(log, round) <= ALPHA
    {
      QueriesOfRounds(key, local, net, log, round);
    }
  }

  lemma {:induction false} LostQueryFails(net: Answers, fails: (nat, Node) -> bool, log: Log, n: Node)
    returns (round: nat)
    requires Truthful(net, fails, log) && n in Lost(log)
    ensures n !in net || fails(round, n)
  {
    if log.Sent? && log.node == n && !log.ok {
      round := log.round;
    } else {
      round := LostQueryFails(net, fails, log.earlier, n);
    }
  }

  // ---------- what holds between two steps of either lookup ----------

  // The log tells the truth, nobody has answered twice, and all that was named can be reached.
  ghost predicate Reliable(local: Local, net: Answers, fails: (nat, Node) -> bool, log: Log)
  {
    && Truthful(net, fails, log) && AnswersOnce(log)
    && Seen(local.table, net, Answerers(log)) <= Reachable(local, net)
  }

  // The state is the one that the log leads to.
  ghost predicate Agrees(key: nat, local: Local, net: Answers, s: State, log: Log)
  {
    && s.queried == Queried(local, log) && s.outstanding == {}
    && Ascending(NodeDistance(key), s.pending) && Elements(s.pending) == Queue(local, net, log)
  }

  ghost predicate Going(key: nat, local: Local, net: Answers, fails: (nat, Node) -> bool, s: State,
                        rest: seq<Node>, log: Log)
  {
    && Tracked(local, net, s, rest, Answerers(log), Lost(log))
    && Reliable(local, net, fails, log)
    && Agrees(key, local, net, s, log)
    && Orderly(key, local, net, log) && Open(log) == rest
  }

  lemma GoingStart(key: nat, local: Local, net: Answers, fails: (nat, Node) -> bool, t: State)
    requires Absorbed(key, State(map[], {}, [], []), local.node, local.table, t)
    ensures Going(key, local, net, fails, t, [], Empty)
  {
    hide Tracked, Agrees, Reachable, Absorbed;
    TrackedStart(key, local, net, t);
    TableReachable(local, net);
    assert Seen(local.table, net, {}) == Elements(local.table);
    AgreesStart(key, local, net, t);
  }

  lemma AgreesStart(key: nat, local: Local, net: Answers, t: State)
    requires Absorbed(key, State(map[], {}, [], []), local.node, local.table, t)
    ensures Agrees(key, local, net, t, Empty)
  {
    hide Fresh, QueriedNodes, Ascending;
    assert Elements(t.pending) == Elements<Node>([]) + Fresh(local.table, t.queried) - {}
                                  - QueriedNodes(t.queried);
  }

  lemma OpenNext(log: Log, n: Node, rest: seq<Node>, round: nat, ok: bool)
    requires Open(log) == [n] + rest
    ensures Open(Sent(round, n, ok, log)) == rest && Open(log)[0] == n
  {
  }

  lemma AgreesAnswer(key: nat, local: Local, net: Answers, s: State, round: nat, n: Node, log: Log,
                     t: State)
    requires Agrees(key, local, net, s, log)
    requires n in net && Absorbed(key, s, n, net[n], t)
    ensures Agrees(key, local, net, t, Sent(round, n, true, log))
  {
    hide Fresh, QueriedNodes, Ascending;
    assert Elements(t.pending) == Elements(s.pending) + Fresh(net[n], t.queried) - {}
                                  - QueriedNodes(t.queried);
  }

  lemma ReliableAnswer(local: Local, net: Answers, fails: (nat, Node) -> bool, s: State, round: nat,
                       n: Node, rest: seq<Node>, log: Log)
    requires Tracked(local, net, s, [n] + rest, Answerers(log), Lost(log))
    requires Reliable(local, net, fails, log)
    requires n in net && !fails(round, n) && n !in Answerers(log)
    ensures Reliable(local, net, fails, Sent(round, n, true, log))
  {
    hide Tracked, Reachable, Seen;
    SeenReachable(local, net, s, rest, Answerers(log), Lost(log), n);
  }

  lemma GoingAnswer(key: nat, local: Local, net: Answers, fails: (nat, Node) -> bool, s: State,
                    round: nat, n: Node, rest: seq<Node>, log: Log, t: State)
    requires Going(key, local, net, fails, s, [n] + rest, log) && round + 1 == Turns(log)
    requires n in net && !fails(round, n) && Absorbed(key, s, n, net[n], t)
    ensures Going(key, local, net, fails, t, rest, Sent(round, n, true, log))
  {
    hide Reliable, Agrees, Tracked, Absorbed, Chosen;
    OpenNext(log, n, rest, round, true);
    AnswerTracked(key, local, net, s, n, rest, Answerers(log), Lost(log), t);
    ReliableAnswer(local, net, fails, s, round, n, rest, log);
    AgreesAnswer(key, local, net, s, round, n, log, t);
  }

  lemma GoingFailure(key: nat, local: Local, net: Answers, fails: (nat, Node) -> bool, s: State,
                     round: nat, n: Node, rest: seq<Node>, log: Log, t: State)
    requires Going(key, local, net, fails, s, [n] + rest, log) && round + 1 == Turns(log)
    requires n !in net || fails(round, n)
    requires t == s.(kclosest := Without(s.kclosest, n))
    ensures Going(key, local, net, fails, t, rest, Sent(round, n, false, log))
  {
    hide Tracked, Agrees, Reliable, Chosen;
    OpenNext(log, n, rest, round, false);
    BooksFailure(key, local, net, fails, s, round, n, log, t);
    FailureTracked(local, net, s, n, rest, Answerers(log), Lost(log), t);
  }

  lemma BooksFailure(key: nat, local: Local, net: Answers, fails: (nat, Node) -> bool, s: State,
                     round: nat, n: Node, log: Log, t: State)
    requires Agrees(key, local, net, s, log) && Reliable(local, net, fails, log)
    requires n !in net || fails(round, n)
    requires t == s.(kclosest := Without(s.kclosest, n))
    ensures Agrees(key, local, net, t, Sent(round, n, false, log))
    ensures Reliable(local, net, fails, Sent(round, n, false, log))
  {
    hide Reachable, Seen, Ascending;
  }

  // The queue holds every node that is due, and only nodes that were named and did not answer.
  lemma QueueHolds(local: Local, net: Answers, s: State, log: Log)
    requires Tracked(local, net, s, [], Answerers(log), Lost(log))
    ensures NoDuplicates(s.pending)
    ensures forall n :: n in Elements(s.pending) ==>
              n in NodesOf(Seen(local.table, net, Answerers(log))) && n !in Answerers(log)
              && n.id != local.node.id
    ensures Due(local, net, log) <= Elements(s.pending)
  {
    assert Elements(s.pending) + Elements<Node>([]) == Elements(s.pending);
  }

  // The batch that a round takes off the queue is well chosen, ...
  lemma BatchChosen(key: nat, local: Local, net: Answers, s: State, n: nat, log: Log)
    requires Tracked(local, net, s, [], Answerers(log), Lost(log)) && Agrees(key, local, net, s, log)
    requires 0 < n <= |s.pending| && n == (if |s.pending| < ALPHA then |s.pending| else ALPHA)
    ensures Chosen(key, local, net, s.pending[..n], log)
  {
    hide Tracked, Seen, Due, NodesOf, Nearest, Ascending, NoDuplicates, Queue;
    QueueHolds(local, net, s, log);
    NearestBatch(key, s.pending, n);
  }

  lemma NearestBatch(key: nat, pending: seq<Node>, n: nat)
    requires NoDuplicates(pending) && Ascending(NodeDistance(key), pending)
    requires 0 < n <= |pending| && n == (if |pending| < ALPHA then |pending| else ALPHA)
    ensures Nearest(NodeDistance(key), ALPHA, Elements(pending), pending[..n])
  {
    TakeIsNearest(NodeDistance(key), ALPHA, pending);
    assert pending[..n] == Take(ALPHA, pending);
  }

  // ... and what is left is the queue.
  lemma AgreesPop(key: nat, local: Local, net: Answers, s: State, n: nat, log: Log)
    requires Agrees(key, local, net, s, log) && n <= |s.pending| && NoDuplicates(s.pending)
    ensures Agrees(key, local, net, s.(pending := s.pending[n..]), Turn(s.pending[..n], log))
  {
    var batch, left := s.pending[..n], s.pending[n..];
    assert s.pending == batch + left;
  }

  // Popping a batch off the queue moves its nodes to the batch in flight.
  lemma GoingPop(key: nat, local: Local, net: Answers, fails: (nat, Node) -> bool, s: State, n: nat,
                 log: Log)
    requires Going(key, local, net, fails, s, [], log)
    requires 0 < n <= |s.pending| && n == (if |s.pending| < ALPHA then |s.pending| else ALPHA)
    ensures Going(key, local, net, fails, s.(pending := s.pending[n..]), s.pending[..n],
                  Turn(s.pending[..n], log))
  {
    hide Tracked, Agrees, Reachable, Seen, Chosen;
    QueueHolds(local, net, s, log);
    BatchChosen(key, local, net, s, n, log);
    AgreesPop(key, local, net, s, n, log);
    PoppedTracked(local, net, s, n, Answerers(log), Lost(log));
  }

  lemma PoppedTracked(local: Local, net: Answers, s: State, n: nat,
                      answered: set<Node>, failed: set<Node>)
    requires Tracked(local, net, s, [], answered, failed) && n <= |s.pending|
    ensures Tracked(local, net, s.(pending := s.pending[n..]), s.pending[..n], answered, failed)
  {
  }

  // Whoever is asked was named by someone and can be reached.
  lemma AskedReachable(key: nat, local: Local, net: Answers, fails: (nat, Node) -> bool, s: State, n: Node,
                       rest: seq<Node>, log: Log)
    requires Going(key, local, net, fails, s, [n] + rest, log)
    ensures n in NodesOf(Reachable(local, net)) && n.id != local.node.id
  {
    hide Agrees, Orderly, Reachable;
    NextNamed(local, net, s, n, rest, Answerers(log), Lost(log));
  }

  lemma NextNamed(local: Local, net: Answers, s: State, n: Node, rest: seq<Node>,
                  answered: set<Node>, failed: set<Node>)
    requires Tracked(local, net, s, [n] + rest, answered, failed)
    ensures n in NodesOf(Seen(local.table, net, answered)) && n.id != local.node.id
  {
    assert ([n] + rest)[0] in Elements(s.pending) + Elements([n] + rest);
  }

  lemma AnswersBound(key: nat, local: Local, net: Answers, fails: (nat, Node) -> bool, s: State, log: Log)
    requires Going(key, local, net, fails, s, [], log)
    ensures AnswerCount(log) <= |net.Keys|
  {
    SubsetSize(Answerers(log), net.Keys);
  }

  lemma MustAnswer(local: Local, net: Answers, fails: (nat, Node) -> bool, c: Contact, round: nat)
    requires AllAnswer(local, net, fails)
    requires c in Reachable(local, net) && c.node.id != local.node.id
    ensures c.node in net && !fails(round, c.node)
  {
  }

  // Nobody failed who was bound to answer.
  lemma NoFailures(key: nat, local: Local, net: Answers, fails: (nat, Node) -> bool, s: State, log: Log)
    requires Going(key, local, net, fails, s, [], log)
    requires AllAnswer(local, net, fails)
    ensures Lost(log) == {}
  {
    if n :| n in Lost(log) {
      assert n in Answerers(log) + Lost(log);
      var c :| c in Seen(local.table, net, Answerers(log)) && c.node == n;
      var round := LostQueryFails(net, fails, log, n);
      MustAnswer(local, net, fails, c, round);
      assert false;
    }
  }

  // A search that has run out was exhaustive: each contact that the table or an answerer ever
  // named has answered itself, or is the asking peer, or was asked in vain.
  ghost predicate Exhausted(local: Local, net: Answers, log: Log)
  {
    forall c :: c in Seen(local.table, net, Answerers(log)) ==>
      c.node.id in IdsOf(Answerers(log)) + {local.node.id} || c.node in Lost(log)
  }

  lemma RunsOut(key: nat, local: Local, net: Answers, fails: (nat, Node) -> bool, s: State, log: Log)
    requires Going(key, local, net, fails, s, [], log) && s.pending == []
    ensures Exhausted(local, net, log)
  {
  }

  // The queries of a batch start and end in whatever order; all have ended before any reply is used.
  method Gather(ask: Node -> Reply, s: State, batch: seq<Node>) returns (replies: seq<Reply>, t: State)
    requires s.outstanding == {}
    ensures t == s && |replies| == |batch|
    ensures forall i :: 0 <= i < |batch| ==> replies[i] == ask(batch[i])
  {
    t := s;
    replies := seq(|batch|, i => Failed);
    var places := seq(|batch|, i => i);
    forall i | 0 <= i < |batch|
      ensures i in Elements(places)
    {
      assert places[i] == i;
      assert places[i] in places;
    }
    var unsent, flying := Elements(places), {};
    while unsent + flying != {}
      invariant unsent !! flying && forall i :: i in unsent + flying ==> 0 <= i < |batch|
      invariant t == s.(outstanding := t.outstanding)
      invariant forall n :: n in t.outstanding ==> exists i :: i in flying && batch[i] == n
      invariant |replies| == |batch|
      invariant forall i :: 0 <= i < |batch| && i !in unsent + flying ==> replies[i] == ask(batch[i])
      decreases unsent + flying, unsent
    {
      var i :| i in unsent + flying;
      ghost var before := flying;
      if i in unsent {
        t := t.(outstanding := t.outstanding + {batch[i]});
        unsent, flying := unsent - {i}, flying + {i};
        assert unsent + flying == unsent + {i} + before;
      } else {
        replies := replies[i := ask(batch[i])];
        t := t.(outstanding := t.outstanding - {batch[i]});
        flying := flying - {i};
        assert forall j :: j in before && j != i ==> j in flying;
      }
    }
    assert t.outstanding == {};
  }

  lemma Tail<T>(s: seq<T>, i: nat, rest: seq<T>) returns (tail: seq<T>)
    requires i < |s| && rest == s[i..]
    ensures rest == [s[i]] + tail && tail == s[i + 1..]
  {
    tail := s[i + 1..];
  }
}
