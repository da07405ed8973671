/** `k_find_value`: reading the values held in the DHT. */
module FindValue {
  import opened Contacts
  import opened Network
  import opened LookupState
  import opened RunLog

  // The lookup may die on the query it sends to its own peer.
  datatype ValueResult = Raised | Found(data: string) | NotFound

  // `held` maps each node that holds a value under the key to that value.
  ghost predicate Searching(key: nat, local: Local, net: Answers, held: map<Node, string>,
                            fails: (nat, Node) -> bool, s: State, rest: seq<Node>, log: Log)
  {
    Going(key, local, net, fails, s, rest, log) && Answerers(log) !! held.Keys
  }

  lemma SearchingStart(key: nat, local: Local, net: Answers, held: map<Node, string>,
                       fails: (nat, Node) -> bool, t: State)
    requires Absorbed(key, State(map[], {}, [], []), local.node, local.table, t)
    ensures Searching(key, local, net, held, fails, t, [], Empty)
  {
    hide Going, Absorbed;
    GoingStart(key, local, net, fails, t);
  }

  lemma SearchingAnswer(key: nat, local: Local, net: Answers, held: map<Node, string>,
                        fails: (nat, Node) -> bool, s: State, round: nat, n: Node, rest: seq<Node>,
                        log: Log, t: State)
    requires Searching(key, local, net, held, fails, s, [n] + rest, log) && round + 1 == Turns(log)
    requires n in net && !fails(round, n) && n !in held && Absorbed(key, s, n, net[n], t)
    ensures Searching(key, local, net, held, fails, t, rest, Sent(round, n, true, log))
  {
    hide Going, Absorbed;
    GoingAnswer(key, local, net, fails, s, round, n, rest, log, t);
  }

  lemma SearchingFailure(key: nat, local: Local, net: Answers, held: map<Node, string>,
                         fails: (nat, Node) -> bool, s: State, round: nat, n: Node, rest: seq<Node>,
                         log: Log, t: State)
    requires Searching(key, local, net, held, fails, s, [n] + rest, log) && round + 1 == Turns(log)
    requires n !in net || fails(round, n)
    requires t == s.(kclosest := Without(s.kclosest, n))
    ensures Searching(key, local, net, held, fails, t, rest, Sent(round, n, false, log))
  {
    hide Going;
    GoingFailure(key, local, net, fails, s, round, n, rest, log, t);
  }

  lemma SearchingPop(key: nat, local: Local, net: Answers, held: map<Node, string>,
                     fails: (nat, Node) -> bool, s: State, n: nat, log: Log)
    requires Searching(key, local, net, held, fails, s, [], log)
    requires 0 < n <= |s.pending| && n == (if |s.pending| < ALPHA then |s.pending| else ALPHA)
    ensures Searching(key, local, net, held, fails, s.(pending := s.pending[n..]), s.pending[..n],
                      Turn(s.pending[..n], log))
  {
    hide Going;
    GoingPop(key, local, net, fails, s, n, log);
  }

  lemma SearchingBounds(key: nat, local: Local, net: Answers, held: map<Node, string>,
                        fails: (nat, Node) -> bool, s: State, log: Log)
    requires Searching(key, local, net, held, fails, s, [], log)
    ensures s.outstanding == {} && AnswerCount(log) <= |net.Keys|
  {
    AnswersBound(key, local, net, fails, s, log);
  }

  // ---------- the lookup ----------

  // A value ends the search: it is counted, the queue is emptied and the value is returned.
  method UpdateState(key: nat, s: State, values: map<string, nat>, responder: Node, reply: Reply)
    returns (value: Option<string>, done: bool, t: State, values': map<string, nat>)
    requires !reply.Failed?
    ensures reply.Value? ==>
      && value == Some(reply.data) && done && t.pending == [] && t.outstanding == {}
      && values' == values[reply.data := (if reply.data in values then values[reply.data] else 0) + 1]
    ensures reply.Nodes? ==> value == None && !done && values' == values && Absorbed(key, s, responder, reply.k, t)
  {
    match reply {
      case Value(data) =>
        values' := values[data := (if data in values then values[data] else 0) + 1];
        t := s.(pending := [], outstanding := {});
        value, done := Some(data), true;
      case Nodes(_, k) =>
        t := Absorb(key, s, responder, k);
        value, done, values' := None, false, values;
    }
  }

  // The value is that of the node whose reply was next, which can be reached; nobody who answered
  // before held one.
  ghost predicate HeldByNext(local: Local, net: Answers, held: map<Node, string>,
                             fails: (nat, Node) -> bool, log: Log, v: string)
  {
    && Answerers(log) !! held.Keys && Open(log) != [] && Turns(log) > 0
    && var n := Open(log)[0];
       && n in NodesOf(Reachable(local, net)) && n.id != local.node.id
       && n in net && !fails(Turns(log) - 1, n) && n in held && held[n] == v
  }

  lemma HolderReached(key: nat, local: Local, net: Answers, held: map<Node, string>,
                      fails: (nat, Node) -> bool, s: State, n: Node, rest: seq<Node>, log: Log)
    requires Searching(key, local, net, held, fails, s, [n] + rest, log) && Turns(log) > 0
    requires n in net && !fails(Turns(log) - 1, n) && n in held
    ensures HeldByNext(local, net, held, fails, log, held[n])
  {
    AskedReachable(key, local, net, fails, s, n, rest, log);
    hide Tracked, Reliable, Agrees, Orderly, Reachable;
  }

  method Process(key: nat, local: Local, net: Answers, held: map<Node, string>,
                 fails: (nat, Node) -> bool, s: State, values: map<string, nat>, round: nat,
                 n: Node, reply: Reply, ghost rest: seq<Node>, ghost log0: Log)
    returns (value: Option<string>, t: State, values': map<string, nat>, ghost log: Log)
    requires Searching(key, local, net, held, fails, s, [n] + rest, log0) && round + 1 == Turns(log0)
    requires reply == AskValue(net, held, fails, round, n)
    ensures match value
            case Some(v) => HeldByNext(local, net, held, fails, log0, v)
            case None => Searching(key, local, net, held, fails, t, rest, log) && values' == values
    ensures value.Some? <==> reply.Value?
    ensures log == if value.Some? then log0 else Sent(round, n, reply.Nodes?, log0)
    ensures reply.Failed? ==> t.pending == s.pending
  {
    hide Searching, Absorbed, HeldByNext;
    value, values', log := None, values, log0;
    if reply.Failed? {
      t := s.(kclosest := Without(s.kclosest, n));
      SearchingFailure(key, local, net, held, fails, s, round, n, rest, log, t);
      log := Sent(round, n, false, log);
    } else {
      var done;
      value, done, t, values' := UpdateState(key, s, values, n, reply);
      if value.Some? {
        HolderReached(key, local, net, held, fails, s, n, rest, log);
      } else {
        SearchingAnswer(key, local, net, held, fails, s, round, n, rest, log, t);
        log := Sent(round, n, true, log);
      }
    }
  }

  // What is known of the log when the search stops.
  ghost predicate Stopped(key: nat, local: Local, net: Answers, held: map<Node, string>,
                          fails: (nat, Node) -> bool, value: Option<string>, log: Log)
  {
    && Truthful(net, fails, log) && AnswersOnce(log) && Orderly(key, local, net, log)
    && Answerers(log) !! held.Keys
    && (value.Some? ==> HeldByNext(local, net, held, fails, log, value.value))
  }

  lemma StoppedHere(key: nat, local: Local, net: Answers, held: map<Node, string>,
                    fails: (nat, Node) -> bool, s: State, rest: seq<Node>, log: Log)
    requires Searching(key, local, net, held, fails, s, rest, log)
    ensures Stopped(key, local, net, held, fails, None, log)
  {
  }

  method Round(key: nat, local: Local, net: Answers, held: map<Node, string>,
               fails: (nat, Node) -> bool, s: State, values: map<string, nat>, round: nat,
               batch: seq<Node>, ghost log0: Log)
    returns (value: Option<string>, t: State, values': map<string, nat>, ghost log: Log)
    requires Searching(key, local, net, held, fails, s, batch, log0) && s.outstanding == {}
    requires round + 1 == Turns(log0)
    ensures value.None? ==>
              Searching(key, local, net, held, fails, t, [], log) && values' == values
    ensures Stopped(key, local, net, held, fails, value, log)
    ensures Turns(log) == Turns(log0) && AnswerCount(log0) <= AnswerCount(log)
    ensures value.None? && AnswerCount(log) == AnswerCount(log0) ==> t.pending == s.pending
  {
    hide Searching, Truthful, AnswersOnce, Orderly, HeldByNext;
    var replies;
    replies, t := Gather(n => AskValue(net, held, fails, round, n), s, batch);
    value, values', log := None, values, log0;
    var i := 0;
    ghost var rest := batch;
    while i < |batch|
      invariant 0 <= i <= |batch| && rest == batch[i..]
      invariant value.None? && values' == values
      invariant Searching(key, local, net, held, fails, t, rest, log)
      invariant Turns(log) == Turns(log0) && AnswerCount(log0) <= AnswerCount(log)
      invariant AnswerCount(log) == AnswerCount(log0) ==> t.pending == s.pending
    {
      StoppedHere(key, local, net, held, fails, t, rest, log);
      rest := Tail(batch, i, rest);
      value, t, values', log :=
        Process(key, local, net, held, fails, t, values', round, batch[i], replies[i], rest, log);
      if value.Some? {
        return;
      }
      i := i + 1;
    }
    assert rest == [];
    StoppedHere(key, local, net, held, fails, t, [], log);
  }

  method Rounds(key: nat, local: Local, net: Answers, held: map<Node, string>,
                fails: (nat, Node) -> bool, s: State, values: map<string, nat>)
    returns (value: Option<string>, t: State, values': map<string, nat>, ghost log: Log)
    requires Searching(key, local, net, held, fails, s, [], Empty)
    ensures value.None? ==>
              t.pending == [] && Searching(key, local, net, held, fails, t, [], log) && values' == values
    ensures Stopped(key, local, net, held, fails, value, log)
  {
    hide Searching, Stopped;
    value, t, values', log := None, s, values, Empty;
    var round := 0;
    SearchingBounds(key, local, net, held, fails, t, log);
    while t.pending != [] || t.outstanding != {}
      invariant value.None? && values' == values
      invariant Searching(key, local, net, held, fails, t, [], log)
      invariant AnswerCount(log) <= |net.Keys| && t.outstanding == {}
      invariant round == Turns(log)
      decreases |net.Keys| - AnswerCount(log), |t.pending|
    {
      var size := if |t.pending| < ALPHA then |t.pending| else ALPHA;
      var batch := t.pending[..size];
      if batch == [] {
        break;
      }
      SearchingPop(key, local, net, held, fails, t, size, log);
      log := Turn(batch, log);
      t := t.(pending := t.pending[size..]);
      value, t, values', log := Round(key, local, net, held, fails, t, values', round, batch, log);
      if value.Some? {
        return;
      }
      SearchingBounds(key, local, net, held, fails, t, log);
      round := round + 1;
    }
    StoppedHere(key, local, net, held, fails, t, [], log);
  }

  // Every reachable peer was asked in vain.
  lemma NobodyHolds(key: nat, local: Local, net: Answers, held: map<Node, string>,
                    fails: (nat, Node) -> bool, s: State, log: Log, c: Contact)
    requires Searching(key, local, net, held, fails, s, [], log) && s.pending == []
    requires AllAnswer(local, net, fails) && OneAddress(local, net)
    requires c in Reachable(local, net) && c.node.id != local.node.id
    ensures c.node !in held
  {
    NoFailures(key, local, net, fails, s, log);
    SeenIsReachable(local, net, s, Answerers(log));
    AskedToo(local, net, s, Answerers(log), c);
  }

  lemma AskedToo(local: Local, net: Answers, s: State, answered: set<Node>, c: Contact)
    requires Tracked(local, net, s, [], answered, {}) && s.pending == []
    requires Seen(local.table, net, answered) == Reachable(local, net) && OneAddress(local, net)
    requires c in Reachable(local, net) && c.node.id != local.node.id
    ensures c.node in answered
  {
    hide Reachable;
    assert c.node.id in s.queried;
    var n :| n in answered && n.id == c.node.id;
    assert n in answered + {};
    var d :| d in Reachable(local, net) && d.node == n;
    assert c.node == d.node;
  }

  // Nobody who was asked, and nobody reachable, holds a value.
  ghost predicate NoneHeld(local: Local, net: Answers, held: map<Node, string>)
  {
    && local.node !in held
    && forall c :: c in Reachable(local, net) && c.node.id != local.node.id ==> c.node !in held
  }

  // What a value search promises: the own value at once, else that of the first node that holds one
  // in the order of the replies, else nothing when nobody is left to ask.
  ghost predicate Searched(key: nat, local: Local, net: Answers, held: map<Node, string>,
                           fails: (nat, Node) -> bool, r: ValueResult, log: Log)
  {
    && Truthful(net, fails, log) && AnswersOnce(log) && Paced(log) && Orderly(key, local, net, log)
    && (local.node in held ==> r == Found(held[local.node]) && log == Empty)
    && (local.node !in held && r.Found? ==> HeldByNext(local, net, held, fails, log, r.data))
    && (r.NotFound? ==>
          && local.node !in held && Answerers(log) !! held.Keys
          && Open(log) == [] && Queue(local, net, log) == {} && Exhausted(local, net, log))
    && (AllAnswer(local, net, fails) && OneAddress(local, net) ==>
          (r.NotFound? <==> NoneHeld(local, net, held)))
    && !r.Raised?
  }

  lemma FoundIt(key: nat, local: Local, net: Answers, held: map<Node, string>,
                fails: (nat, Node) -> bool, v: string, log: Log)
    requires Stopped(key, local, net, held, fails, Some(v), log) && local.node !in held
    ensures Searched(key, local, net, held, fails, Found(v), log)
  {
    OrderlyIsPaced(key, local, net, log);
    hide Reachable, Orderly, Truthful;
    var n := Open(log)[0];
    var c :| c in Reachable(local, net) && c.node == n;
  }

  lemma FoundNothing(key: nat, local: Local, net: Answers, held: map<Node, string>,
                     fails: (nat, Node) -> bool, s: State, log: Log)
    requires Searching(key, local, net, held, fails, s, [], log) && s.pending == []
    requires local.node !in held
    ensures Searched(key, local, net, held, fails, NotFound, log)
  {
    OrderlyIsPaced(key, local, net, log);
    RunsOut(key, local, net, fails, s, log);
    assert Elements(s.pending) == {};
    if AllAnswer(local, net, fails) && OneAddress(local, net) {
      forall c | c in Reachable(local, net) && c.node.id != local.node.id
        ensures c.node !in held
      {
        NobodyHolds(key, local, net, held, fails, s, log, c);
      }
    }
    hide Tracked, Reachable, Orderly, Truthful, Exhausted, Queue, AllAnswer, OneAddress;
  }

  lemma OwnValue(key: nat, local: Local, net: Answers, held: map<Node, string>,
                 fails: (nat, Node) -> bool)
    requires local.node in held
    ensures Searched(key, local, net, held, fails, Found(held[local.node]), Empty)
  {
  }

  // The lookup may also die on the query it sends to its own peer.
  method KFindValue(key: nat, local: Local, net: Answers, held: map<Node, string>,
                    fails: (nat, Node) -> bool, localFails: bool)
    returns (r: ValueResult, ghost log: Log)
    ensures localFails ==> r == Raised && log == Empty
    ensures !localFails ==> Searched(key, local, net, held, fails, r, log)
    ensures !localFails && local.node in held ==> r == Found(held[local.node])
    ensures r.Found? && local.node !in held ==>
      exists c :: c in Reachable(local, net) && c.node in held && held[c.node] == r.data
    ensures !localFails && AllAnswer(local, net, fails) && OneAddress(local, net) ==>
      (r.NotFound? <==> NoneHeld(local, net, held))
  {
    if localFails {
      return Raised, Empty;
    }
    r, log := Search(key, local, net, held, fails);
    SearchedMeans(key, local, net, held, fails, r, log);
    hide Reachable, Orderly, Truthful, Exhausted, Queue, HeldByNext;
  }

  lemma SearchedMeans(key: nat, local: Local, net: Answers, held: map<Node, string>,
                      fails: (nat, Node) -> bool, r: ValueResult, log: Log)
    requires Searched(key, local, net, held, fails, r, log)
    ensures r.Found? && local.node !in held ==>
      exists c :: c in Reachable(local, net) && c.node in held && held[c.node] == r.data
  {
    hide Reachable, Orderly, Truthful, Exhausted, Queue;
    if r.Found? && local.node !in held {
      var c :| c in Reachable(local, net) && c.node == Open(log)[0];
      assert c.node in held && held[c.node] == r.data;
    }
  }

  method Search(key: nat, local: Local, net: Answers, held: map<Node, string>,
                fails: (nat, Node) -> bool)
    returns (r: ValueResult, ghost log: Log)
    ensures Searched(key, local, net, held, fails, r, log)
  {
    hide Searched, Searching, Absorbed, Stopped;
    log := Empty;
    var s, values := State(map[], {}, [], []), map[];
    var initial := if local.node in held then Value(held[local.node]) else Nodes(local.node.id, local.table);
    var value, done;
    value, done, s, values := UpdateState(key, s, values, local.node, initial);
    if value.Some? {
      OwnValue(key, local, net, held, fails);
      return Found(value.value), log;
    }
    SearchingStart(key, local, net, held, fails, s);
    value, s, values, log := Rounds(key, local, net, held, fails, s, values);
    if value.Some? {
      FoundIt(key, local, net, held, fails, value.value, log);
      return Found(value.value), log;
    }
    FoundNothing(key, local, net, held, fails, s, log);
    // The ballot over several values is always empty here: the first value ends the search.
    assert values == map[];
    r := NotFound;
  }
}
