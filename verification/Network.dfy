/** The network a lookup runs against, and what can be reached in it through answers. */
module Network {
  import opened Contacts

  // What each live peer answers to a node query.  A node outside the map is dead.
  type Answers = map<Node, seq<Contact>>

  datatype Reply = Failed | Nodes(id: nat, k: seq<Contact>) | Value(data: string)

  // The asking peer: the triple it asks itself under, and what its own table answers.
  datatype Local = Local(node: Node, table: seq<Contact>)

  // What the query sent to `n` in a round brings back.  `fails(round, n)` says it is lost.
  function AskNodes(net: Answers, fails: (nat, Node) -> bool, round: nat, n: Node): Reply
  {
    if n !in net || fails(round, n) then Failed else Nodes(n.id, net[n])
  }

  function AskValue(net: Answers, held: map<Node, string>, fails: (nat, Node) -> bool, round: nat, n: Node): Reply
  {
    if n !in net || fails(round, n) then Failed
    else if n in held then Value(held[n])
    else Nodes(n.id, net[n])
  }

  function NodesOf(s: set<Contact>): set<Node>
  {
    set c | c in s :: c.node
  }

  function IdsOf(s: set<Node>): set<nat>
  {
    set n | n in s :: n.id
  }

  // Every contact named by the local table or by the answer of a node in `answered`.
  function Seen(table: seq<Contact>, net: Answers, answered: set<Node>): set<Contact>
  {
    Elements(table) + set n, c | n in answered && n in net && c in net[n] :: c
  }

  // ---------- reachability ----------

  // A chain of contacts: the first stands in the local table, each later one in the
  // answer of the one before it.  Contacts that carry the local id are not asked.
  ghost predicate IsPath(local: Local, net: Answers, p: seq<Contact>)
  {
    && p != []
    && p[0] in local.table
    && forall i :: 0 <= i < |p| - 1 ==> Names(local, net, p[i], p[i + 1])
  }

  // `a` is asked, and its answer names `b`.
  ghost predicate Names(local: Local, net: Answers, a: Contact, b: Contact)
  {
    a.node.id != local.node.id && a.node in net && b in net[a.node]
  }

  ghost predicate Leads(local: Local, net: Answers, p: seq<Contact>, c: Contact)
  {
    IsPath(local, net, p) && p[|p| - 1] == c
  }

  ghost function Reachable(local: Local, net: Answers): set<Contact>
  {
    set c | c in Seen(local.table, net, net.Keys) && exists p :: Leads(local, net, p, c)
  }

  lemma TableReachable(local: Local, net: Answers)
    ensures Elements(local.table) <= Reachable(local, net)
  {
    forall c | c in local.table
      ensures c in Reachable(local, net)
    {
      assert Leads(local, net, [c], c);
    }
  }

  lemma AnswerReachable(local: Local, net: Answers, via: Contact)
    requires via in Reachable(local, net) && via.node.id != local.node.id && via.node in net
    ensures Elements(net[via.node]) <= Reachable(local, net)
  {
    var p :| Leads(local, net, p, via);
    forall c | c in net[via.node]
      ensures c in Reachable(local, net)
    {
      var q := p + [c];
      assert forall i :: 0 <= i < |p| ==> q[i] == p[i];
      assert Leads(local, net, q, c);
    }
  }

  // A set that holds the local table and, for each member that is asked, its answer.
  ghost predicate Closed(local: Local, net: Answers, s: set<Contact>)
  {
    && Elements(local.table) <= s
    && forall c :: c in s && c.node.id != local.node.id && c.node in net ==> Elements(net[c.node]) <= s
  }

  lemma {:induction false} PathStays(local: Local, net: Answers, s: set<Contact>, p: seq<Contact>)
    requires Closed(local, net, s) && IsPath(local, net, p)
    ensures p[|p| - 1] in s
  {
    if |p| > 1 {
      var q := p[..|p| - 1];
      assert forall i :: 0 <= i < |q| ==> q[i] == p[i];
      assert IsPath(local, net, q);
      PathStays(local, net, s, q);
      var last := |p| - 1;
      assert Names(local, net, p[last - 1], p[last - 1 + 1]);
      assert q[|q| - 1] == p[last - 1];
    } else {
      assert p[0] in Elements(local.table);
    }
  }

  // The reachable contacts are the least set that is closed.
  lemma ReachableLeast(local: Local, net: Answers, s: set<Contact>)
    ensures Closed(local, net, Reachable(local, net))
    ensures Closed(local, net, s) ==> Reachable(local, net) <= s
  {
    TableReachable(local, net);
    forall c | c in Reachable(local, net) && c.node.id != local.node.id && c.node in net
      ensures Elements(net[c.node]) <= Reachable(local, net)
    {
      AnswerReachable(local, net, c);
    }
    if Closed(local, net, s) {
      InEveryClosed(local, net, s);
    }
  }

  lemma InEveryClosed(local: Local, net: Answers, s: set<Contact>)
    requires Closed(local, net, s)
    ensures Reachable(local, net) <= s
  {
    forall c | c in Reachable(local, net)
      ensures c in s
    {
      var p :| Leads(local, net, p, c);
      PathStays(local, net, s, p);
    }
  }

  // An id other than that of the asking peer stands for one address.  The asking peer may be known
  // under several, and a peer under several keys.
  ghost predicate OneAddress(local: Local, net: Answers)
  {
    forall c, d :: c in Reachable(local, net) && d in Reachable(local, net) ==>
      c.node.id == d.node.id && c.node.id != local.node.id ==> c.node == d.node
  }

  // Every reachable peer other than the asking one is live and no query to it is lost.
  ghost predicate AllAnswer(local: Local, net: Answers, fails: (nat, Node) -> bool)
  {
    forall c, round :: c in Reachable(local, net) && c.node.id != local.node.id ==>
      c.node in net && !fails(round, c.node)
  }
}
