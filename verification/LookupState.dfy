/** The state shared by the two iterative lookups and the merge that absorbs one answer. */
module LookupState {
  import opened Contacts
  import opened Network

  const K: nat := 12     // length of a result: FludkRouting.k
  const ALPHA: nat := 3  // queries in flight at once: FludkRouting.a

  datatype State = State(queried: map<nat, (string, int)>, outstanding: set<Node>,
                         pending: seq<Node>, kclosest: seq<Contact>)

  // ---------- specification of the merge ----------

  // The candidates not yet listed are appended in the order of the answer.
  function AppendNew(s: seq<Contact>, k: seq<Contact>): seq<Contact>
  {
    if k == [] then s
    else
      var r := AppendNew(s, k[..|k| - 1]);
      if k[|k| - 1] in r then r else r + [k[|k| - 1]]
  }

  lemma {:induction false} AppendNewElements(s: seq<Contact>, k: seq<Contact>)
    requires NoDuplicates(s)
    ensures NoDuplicates(AppendNew(s, k))
    ensures Elements(AppendNew(s, k)) == Elements(s) + Elements(k)
  {
    if k == [] {
      assert Elements(k) == {};
    } else {
      var front, last := k[..|k| - 1], k[|k| - 1];
      AppendNewElements(s, front);
      assert k == front + [last];
      assert Elements(k) == Elements(front) + {last};
      var r := AppendNew(s, front);
      assert Elements(r + [last]) == Elements(r) + {last};
    }
  }

  function QueriedNodes(queried: map<nat, (string, int)>): set<Node>
  {
    set id | id in queried :: Node(queried[id].0, queried[id].1, id)
  }

  function Fresh(k: seq<Contact>, queried: map<nat, (string, int)>): set<Node>
  {
    set c | c in k && c.node.id !in queried :: c.node
  }

  // `t` is `s` after the answer `k` of `responder` has been merged into it.
  ghost predicate Absorbed(key: nat, s: State, responder: Node, k: seq<Contact>, t: State)
  {
    && t.queried == s.queried[responder.id := (responder.host, responder.port)]
    && t.outstanding == s.outstanding
    && NoDuplicates(t.pending) && Ascending(NodeDistance(key), t.pending)
    && Elements(t.pending) ==
         Elements(s.pending) + Fresh(k, t.queried) - s.outstanding - QueriedNodes(t.queried)
    && t.kclosest == Take(K, SortBy(Distance(key), AppendNew(s.kclosest, k)))
  }

  // ---------- the merge ----------

  // `list(set)`: every element once, in an order Python does not promise.
  method ListOf<T(==)>(s: set<T>) returns (l: seq<T>)
    ensures NoDuplicates(l) && Elements(l) == s
  {
    l := [];
    var rest := s;
    while rest != {}
      invariant NoDuplicates(l)
      invariant Elements(l) !! rest && Elements(l) + rest == s
      decreases rest
    {
      var x :| x in rest;
      assert x !in Elements(l);
      assert Elements(l + [x]) == Elements(l) + {x};
      l, rest := l + [x], rest - {x};
    }
  }

  method AddCandidates(s: State, k: seq<Contact>) returns (pending: seq<Node>, kclosest: seq<Contact>)
    ensures Elements(pending) == Elements(s.pending) + (Fresh(k, s.queried) - s.outstanding)
    ensures kclosest == AppendNew(s.kclosest, k)
  {
    pending, kclosest := s.pending, s.kclosest;
    var i := 0;
    while i < |k|
      invariant 0 <= i <= |k|
      invariant Elements(pending) == Elements(s.pending) + (Fresh(k[..i], s.queried) - s.outstanding)
      invariant kclosest == AppendNew(s.kclosest, k[..i])
    {
      var candidate := k[i];
      assert k[..i + 1] == k[..i] + [candidate];
      assert k[..i + 1][..i] == k[..i];
      assert Fresh(k[..i + 1], s.queried) == Fresh(k[..i], s.queried) +
                (if candidate.node.id in s.queried then {} else {candidate.node});
      var node := candidate.node;
      if node.id !in s.queried && node !in pending && node !in s.outstanding {
        assert Elements(pending + [node]) == Elements(pending) + {node};
        pending := pending + [node];
      }
      if candidate !in kclosest {
        kclosest := kclosest + [candidate];
      }
      i := i + 1;
    }
    assert k[..|k|] == k;
  }

  method DropQueried(queried: map<nat, (string, int)>, pending: seq<Node>) returns (r: seq<Node>)
    requires NoDuplicates(pending)
    ensures NoDuplicates(r)
    ensures Elements(r) == Elements(pending) - QueriedNodes(queried)
  {
    r := pending;
    var rest := queried.Keys;
    ghost var gone: set<Node> := {};
    while rest != {}
      invariant rest <= queried.Keys
      invariant gone == set id | id in queried && id !in rest :: Node(queried[id].0, queried[id].1, id)
      invariant NoDuplicates(r)
      invariant Elements(r) == Elements(pending) - gone
      decreases rest
    {
      var id :| id in rest;
      var node := Node(queried[id].0, queried[id].1, id);
      if node in r {
        RemoveFirstElements(r, node);
        r := RemoveFirst(r, node);
      }
      gone := gone + {node};
      rest := rest - {id};
    }
    assert gone == QueriedNodes(queried);
  }

  lemma SortPending(key: nat, pending: seq<Node>)
    requires NoDuplicates(pending)
    ensures var r := SortBy(NodeDistance(key), pending);
            NoDuplicates(r) && Ascending(NodeDistance(key), r) && Elements(r) == Elements(pending)
  {
    SortBySorted(NodeDistance(key), pending);
    SizeOfElements(pending);
    SizeFromElements(SortBy(NodeDistance(key), pending));
  }

  method Absorb(key: nat, s: State, responder: Node, k: seq<Contact>) returns (t: State)
    ensures Absorbed(key, s, responder, k, t)
  {
    t := s.(queried := s.queried[responder.id := (responder.host, responder.port)]);
    var pending, kclosest := AddCandidates(t, k);
    kclosest := Take(K, SortBy(Distance(key), kclosest));
    pending := ListOf(Elements(pending) - t.outstanding);
    pending := DropQueried(t.queried, pending);
    SortPending(key, pending);
    t := t.(pending := SortBy(NodeDistance(key), pending), kclosest := kclosest);
  }

  // ---------- what every step of a lookup keeps ----------

  // Nodes that are waiting were named by someone, are not the asking peer and never answered.
  ghost predicate Waiting(me: nat, named: set<Node>, todo: set<Node>, answered: set<Node>)
  {
    forall n :: n in todo ==> n !in answered && n.id != me && n in named
  }

  ghost predicate Asked(me: nat, named: set<Node>, asked: set<Node>)
  {
    forall n :: n in asked ==> n.id != me && n in named
  }

  // Each contact in `s` has answered, or its node is in `todo`.
  ghost predicate Covered(answeredIds: set<nat>, todo: set<Node>, s: set<Contact>)
  {
    forall c :: c in s ==> c.node.id in answeredIds || c.node in todo
  }

  // `rest` is the part of the current batch whose replies are still unprocessed.
  ghost predicate Tracked(local: Local, net: Answers, s: State, rest: seq<Node>,
                          answered: set<Node>, failed: set<Node>)
  {
    var seen := Seen(local.table, net, answered);
    var todo := Elements(s.pending) + Elements(rest);
    && s.outstanding == {}
    && NoDuplicates(s.pending) && NoDuplicates(rest) && NoDuplicates(s.kclosest)
    && answered <= net.Keys
    && s.queried.Keys == IdsOf(answered) + {local.node.id}
    && Waiting(local.node.id, NodesOf(seen), todo, answered)
    && Asked(local.node.id, NodesOf(seen), answered + failed)
    // whoever is listed has answered or is still going to be asked
    && Elements(s.kclosest) <= seen
    && Covered(s.queried.Keys, todo, Elements(s.kclosest))
    // nobody who was ever named is forgotten
    && Covered(s.queried.Keys, todo + failed, seen)
  }

  lemma TrackedStart(key: nat, local: Local, net: Answers, t: State)
    requires Absorbed(key, State(map[], {}, [], []), local.node, local.table, t)
    ensures Tracked(local, net, t, [], {}, {})
  {
    TakeKeeps(key, [], local.table, t.kclosest);
    var seen := Seen(local.table, net, {});
    assert seen == Elements(local.table);
    FreshCovers(local.table, [], local.node, map[], t);
    assert Elements(t.pending) + Elements<Node>([]) == Elements(t.pending);
    assert Covered(t.queried.Keys, Elements(t.pending), seen);
  }

  // The candidates of an answer are covered once it has been merged, and so is everything
  // that was covered before.
  lemma FreshCovers(k: seq<Contact>, pending: seq<Node>, responder: Node,
                    queried: map<nat, (string, int)>, t: State)
    requires t.queried == queried[responder.id := (responder.host, responder.port)]
    requires Elements(t.pending) == Elements(pending) + Fresh(k, t.queried) - {} - QueriedNodes(t.queried)
    ensures Covered(t.queried.Keys, Elements(t.pending), Elements(k))
    ensures forall n :: n in pending || n == responder ==>
              n.id in t.queried.Keys || n in Elements(t.pending)
  {
  }

  lemma TakeKeeps(key: nat, s: seq<Contact>, k: seq<Contact>, r: seq<Contact>)
    requires NoDuplicates(s)
    requires r == Take(K, SortBy(Distance(key), AppendNew(s, k)))
    ensures NoDuplicates(r) && |r| <= K
    ensures Elements(r) <= Elements(s) + Elements(k)
  {
    var m := AppendNew(s, k);
    AppendNewElements(s, k);
    SortBySorted(Distance(key), m);
    SizeOfElements(m);
    assert Elements(SortBy(Distance(key), m)) == Elements(m);
    SizeFromElements(SortBy(Distance(key), m));
    assert Elements(r) <= Elements(SortBy(Distance(key), m));
  }

  lemma AnswerWaiting(me: nat, pending: set<Node>, n: Node, rest: set<Node>, news: set<Node>,
                      named: set<Node>, named': set<Node>, answered: set<Node>)
    requires Waiting(me, named, pending + {n} + rest, answered) && named <= named'
    requires n !in rest
    requires forall m :: m in news ==> m.id !in IdsOf(answered + {n}) + {me} && m in named'
    ensures n in named && n.id != me && n !in answered
    ensures Waiting(me, named', pending + news - {n} + rest, answered + {n})
  {
  }

  lemma TurnWaiting(key: nat, me: nat, s: State, n: Node, rest: seq<Node>, k: seq<Contact>, t: State,
                    named: set<Node>, named': set<Node>, answered: set<Node>)
    requires Absorbed(key, s, n, k, t) && s.outstanding == {} && n !in Elements(rest)
    requires s.queried.Keys == IdsOf(answered) + {me}
    requires Waiting(me, named, Elements(s.pending) + Elements([n] + rest), answered)
    requires named' == named + NodesOf(Elements(k))
    ensures n in named && n.id != me && n !in answered
    ensures t.queried.Keys == IdsOf(answered + {n}) + {me}
    ensures Waiting(me, named', Elements(t.pending) + Elements(rest), answered + {n})
  {
    assert Elements([n] + rest) == {n} + Elements(rest);
    assert IdsOf(answered + {n}) == IdsOf(answered) + {n.id};
    Recorded(s.queried, n);
    AnswerWaiting(me, Elements(s.pending), n, Elements(rest), Fresh(k, t.queried), named, named', answered);
  }

  lemma Recorded(queried: map<nat, (string, int)>, n: Node)
    ensures n in QueriedNodes(queried[n.id := (n.host, n.port)])
  {
    var q := queried[n.id := (n.host, n.port)];
    assert n == Node(q[n.id].0, q[n.id].1, n.id);
  }

  lemma SeenGrows(table: seq<Contact>, net: Answers, answered: set<Node>, n: Node)
    requires n in net
    ensures Seen(table, net, answered + {n}) == Seen(table, net, answered) + Elements(net[n])
    ensures NodesOf(Seen(table, net, answered + {n})) ==
              NodesOf(Seen(table, net, answered)) + NodesOf(Elements(net[n]))
  {
  }

  lemma AnswerTracked(key: nat, local: Local, net: Answers, s: State, n: Node, rest: seq<Node>,
                      answered: set<Node>, failed: set<Node>, t: State)
    requires Tracked(local, net, s, [n] + rest, answered, failed)
    requires n in net && Absorbed(key, s, n, net[n], t)
    ensures n !in answered
    ensures Tracked(local, net, t, rest, answered + {n}, failed)
  {
    var k, me := net[n], local.node.id;
    var seen, seen' := Seen(local.table, net, answered), Seen(local.table, net, answered + {n});
    SeenGrows(local.table, net, answered, n);
    RestNoDuplicates(n, rest);
    TurnWaiting(key, me, s, n, rest, k, t, NodesOf(seen), NodesOf(seen'), answered);
    TakeKeeps(key, s.kclosest, k, t.kclosest);
    AnswerCoversBoth(key, s, n, rest, k, t, failed, Elements(s.kclosest), seen);
  }

  lemma AnswerCoversBoth(key: nat, s: State, n: Node, rest: seq<Node>, k: seq<Contact>, t: State,
                         failed: set<Node>, listed: set<Contact>, seen: set<Contact>)
    requires Absorbed(key, s, n, k, t) && s.outstanding == {}
    requires Covered(s.queried.Keys, Elements(s.pending) + Elements([n] + rest), listed)
    requires Covered(s.queried.Keys, Elements(s.pending) + Elements([n] + rest) + failed, seen)
    ensures Covered(t.queried.Keys, Elements(t.pending) + Elements(rest), listed + Elements(k))
    ensures Covered(t.queried.Keys, Elements(t.pending) + Elements(rest) + failed, seen + Elements(k))
  {
  }

  lemma RestNoDuplicates<T>(x: T, rest: seq<T>)
    requires NoDuplicates([x] + rest)
    ensures NoDuplicates(rest) && x !in Elements(rest)
  {
    var all := [x] + rest;
    assert all[0] == x;
    assert forall i :: 0 <= i < |rest| ==> all[i + 1] == rest[i];
  }

  function Without(s: seq<Contact>, n: Node): seq<Contact>
  {
    if s == [] then [] else (if s[0].node != n then [s[0]] else []) + Without(s[1..], n)
  }

  lemma {:induction false} WithoutKeeps(s: seq<Contact>, n: Node)
    ensures forall c :: c in Without(s, n) <==> c in s && c.node != n
  {
    if s != [] {
      WithoutKeeps(s[1..], n);
      assert s == [s[0]] + s[1..];
    }
  }

  lemma {:induction false} WithoutElements(s: seq<Contact>, n: Node)
    requires NoDuplicates(s)
    ensures NoDuplicates(Without(s, n))
    ensures Elements(Without(s, n)) == set c | c in s && c.node != n
  {
    if s != [] {
      WithoutElements(s[1..], n);
      WithoutKeeps(s[1..], n);
    }
    WithoutKeeps(s, n);
  }

  lemma FailureTracked(local: Local, net: Answers, s: State, n: Node, rest: seq<Node>,
                       answered: set<Node>, failed: set<Node>, t: State)
    requires Tracked(local, net, s, [n] + rest, answered, failed)
    requires t == s.(kclosest := Without(s.kclosest, n))
    ensures Tracked(local, net, t, rest, answered, failed + {n})
  {
    WithoutElements(s.kclosest, n);
    RestNoDuplicates(n, rest);
    assert Elements([n] + rest) == {n} + Elements(rest);
  }

  // ---------- what can be reached ----------

  // Everything named so far can be reached.
  lemma SeenReachable(local: Local, net: Answers, s: State, rest: seq<Node>,
                      answered: set<Node>, failed: set<Node>, n: Node)
    requires Tracked(local, net, s, [n] + rest, answered, failed) && n in net
    requires Seen(local.table, net, answered) <= Reachable(local, net)
    ensures Seen(local.table, net, answered + {n}) <= Reachable(local, net)
  {
    assert ([n] + rest)[0] in Elements([n] + rest);
    var via :| via in Seen(local.table, net, answered) && via.node == n;
    AnswerReachable(local, net, via);
    SeenGrows(local.table, net, answered, n);
  }

  // When nothing is left to ask and nothing failed, everything reachable was named.
  lemma SeenIsReachable(local: Local, net: Answers, s: State, answered: set<Node>)
    requires Tracked(local, net, s, [], answered, {}) && s.pending == []
    requires OneAddress(local, net)
    requires Seen(local.table, net, answered) <= Reachable(local, net)
    ensures Seen(local.table, net, answered) == Reachable(local, net)
  {
    hide Reachable, Waiting, NoDuplicates;
    var seen := Seen(local.table, net, answered);
    forall c | c in seen && c.node.id != local.node.id && c.node in net
      ensures Elements(net[c.node]) <= seen
    {
      var a :| a in answered && a.id == c.node.id;
      var d :| d in seen && d.node == a;
      assert c.node == d.node;
    }
    ReachableLeast(local, net, seen);
  }
}
