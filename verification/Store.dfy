/** `k_store`, and what a later search finds of a stored value. */
module Store {
  import opened Contacts
  import opened Network
  import opened Codec
  import opened CodecLaws
  import opened LookupState
  import opened RunLog
  import opened FindValue
  import opened MetaStore
  import FindNode

  datatype StoreResult = Stored | NoNodes | StoreFailed

  // Whatever is held is this text.
  ghost predicate OnlyValue(held: map<Node, string>, text: Option<string>)
  {
    forall n :: n in held ==> Some(held[n]) == text
  }

  // The text a node keeps of a value: the value travels encoded, and the node encodes again what
  // it has decoded.  None when the value cannot be encoded.
  function Kept(val: Value): Option<string>
  {
    match Encoding(val, false) case None => None case Some(text) => HandleMetaPut(text)
  }

  lemma KeptIsTheEncoding(val: Value)
    requires WellFormed(val)
    ensures Kept(val) == Encoding(val, false)
  {
    if Encoding(val, false).Some? {
      StoredTextUnchanged(val, Encoding(val, false).value);
    }
  }

  // Exactly the `targets` that do not refuse hold `text` now; nobody else has changed.
  ghost predicate Delivered(targets: set<Node>, text: Option<string>, refuses: Node -> bool,
                            held: map<Node, string>, held': map<Node, string>)
  {
    && (forall n :: n in held' <==> n in held || (n in targets && !refuses(n) && text.Some?))
    && (forall n :: n in held' ==>
          held'[n] == if n in targets && !refuses(n) && text.Some? then text.value else held[n])
  }

  lemma DeliverOne(targets: set<Node>, text: Option<string>, refuses: Node -> bool,
                   held: map<Node, string>, held': map<Node, string>, n: Node)
    requires Delivered(targets, text, refuses, held, held')
    ensures Delivered(targets + {n}, text, refuses, held,
                      if refuses(n) || text.None? then held' else held'[n := text.value])
  {
  }

  ghost predicate SomeRefuse(knodes: seq<Contact>, text: Option<string>, refuses: Node -> bool)
  {
    exists c :: c in knodes && (refuses(c.node) || text.None?)
  }

  lemma NextTarget(knodes: seq<Contact>, i: nat, text: Option<string>, refuses: Node -> bool)
    requires i < |knodes|
    ensures NodesOf(Elements(knodes[..i + 1])) == NodesOf(Elements(knodes[..i])) + {knodes[i].node}
    ensures SomeRefuse(knodes[..i + 1], text, refuses) <==>
            SomeRefuse(knodes[..i], text, refuses) || refuses(knodes[i].node) || text.None?
  {
  }

  // What a delivery without refusal means for the contacts, and any delivery for everybody.
  lemma DeliveredTo(knodes: seq<Contact>, text: Option<string>, refuses: Node -> bool,
                    held: map<Node, string>, held': map<Node, string>)
    requires Delivered(NodesOf(Elements(knodes)), text, refuses, held, held') && knodes != []
    ensures !SomeRefuse(knodes, text, refuses) ==>
              text.Some? && forall c :: c in knodes ==> c.node in held' && text == Some(held'[c.node])
    ensures forall n :: n in held' && n !in NodesOf(Elements(knodes)) ==> n in held && held'[n] == held[n]
    ensures forall n :: n in held' ==> (n in held && held'[n] == held[n]) || text == Some(held'[n])
    ensures held.Keys <= held'.Keys
  {
    assert knodes[0] in knodes;
    forall c | c in knodes
      ensures c.node in NodesOf(Elements(knodes))
    {
      assert c in Elements(knodes);
    }
  }

  // Sends the value to every contact the node lookup returned.  `refuses(n)` says that the
  // request to `n` fails; every other node keeps the value.
  method SendStores(knodes: seq<Contact>, val: Value, held: map<Node, string>, refuses: Node -> bool)
    returns (failures: bool, held': map<Node, string>)
    ensures failures <==> SomeRefuse(knodes, Kept(val), refuses)
    ensures Delivered(NodesOf(Elements(knodes)), Kept(val), refuses, held, held')
  {
    assert Delivered({}, Kept(val), refuses, held, held);
    assert NodesOf(Elements(knodes[..0])) == {};
    assert !SomeRefuse(knodes[..0], Kept(val), refuses);
    hide Kept, Delivered, SomeRefuse, NodesOf, Elements;
    failures, held' := false, held;
    var i := 0;
    while i < |knodes|
      invariant 0 <= i <= |knodes|
      invariant failures <==> SomeRefuse(knodes[..i], Kept(val), refuses)
      invariant Delivered(NodesOf(Elements(knodes[..i])), Kept(val), refuses, held, held')
    {
      var n := knodes[i].node;
      NextTarget(knodes, i, Kept(val), refuses);
      DeliverOne(NodesOf(Elements(knodes[..i])), Kept(val), refuses, held, held', n);
      if refuses(n) || Kept(val).None? {
        failures := true;
      } else {
        held' := held'[n := Kept(val).value];
      }
      i := i + 1;
    }
    assert knodes[..i] == knodes;
  }

  // The value is sent to all that the lookup of the key ends with, and reaches every one of them that
  // does not refuse it, or the whole store fails.
  method KStore(key: nat, val: Value, local: Local, net: Answers, fails: (nat, Node) -> bool,
                held: map<Node, string>, refuses: Node -> bool)
    returns (r: StoreResult, knodes: seq<Contact>, held': map<Node, string>,
             ghost found: FindNode.NodeResult, ghost log: Log)
    requires WellFormed(val)
    ensures FindNode.LookedUp(key, local, net, fails, found, log) && knodes == found.k
    ensures AllAnswer(local, net, fails) && OneAddress(local, net) ==>
              Nearest(Distance(key), K, Reachable(local, net), knodes) || FindNode.IsExact(key, knodes)
    ensures Elements(knodes) <= Reachable(local, net)
    ensures r.NoNodes? <==> knodes == []
    ensures r.StoreFailed? <==> knodes != [] && SomeRefuse(knodes, Encoding(val, false), refuses)
    ensures Delivered(NodesOf(Elements(knodes)), Encoding(val, false), refuses, held, held')
    ensures r.Stored? ==> Encoding(val, false).Some?
    ensures r.Stored? ==>
              forall c :: c in knodes ==> c.node in held' && Encoding(val, false) == Some(held'[c.node])
    ensures forall n :: n in held' ==>
      (n in held && held'[n] == held[n]) || Encoding(val, false) == Some(held'[n])
  {
    found, knodes, log := LookUp(key, local, net, fails);
    hide Kept, Encoding, Delivered, SomeRefuse, FindNode.LookedUp, Reachable, FindNode.IsExact, Nearest;
    KeptIsTheEncoding(val);
    if |knodes| < 1 {
      NothingDelivered(knodes, Encoding(val, false), refuses, held);
      r, held' := NoNodes, held;
      return;
    }
    var failures;
    failures, held' := SendStores(knodes, val, held, refuses);
    r := if failures then StoreFailed else Stored;
    DeliveredTo(knodes, Kept(val), refuses, held, held');
  }

  method LookUp(key: nat, local: Local, net: Answers, fails: (nat, Node) -> bool)
    returns (ghost found: FindNode.NodeResult, knodes: seq<Contact>, ghost log: Log)
    ensures FindNode.LookedUp(key, local, net, fails, found, log) && knodes == found.k
    ensures AllAnswer(local, net, fails) && OneAddress(local, net) ==>
              Nearest(Distance(key), K, Reachable(local, net), knodes) || FindNode.IsExact(key, knodes)
    ensures Elements(knodes) <= Reachable(local, net)
  {
    var result;
    result, log := FindNode.KFindNode(key, local, net, fails);
    knodes := result.k;
    found := result;
    FoundReachable(key, local, net, fails, result, log);
    hide Reachable, FindNode.ClosestOf, Nearest;
  }

  lemma NothingDelivered(knodes: seq<Contact>, text: Option<string>, refuses: Node -> bool,
                         held: map<Node, string>)
    requires knodes == []
    ensures Delivered(NodesOf(Elements(knodes)), text, refuses, held, held)
  {
  }

  lemma FoundReachable(key: nat, local: Local, net: Answers, fails: (nat, Node) -> bool,
                       found: FindNode.NodeResult, log: Log)
    requires FindNode.LookedUp(key, local, net, fails, found, log)
    ensures Elements(found.k) <= Reachable(local, net)
  {
    TableReachable(local, net);
    if found.Exact? && found.k != local.table {
      var n := Open(log)[0];
      var c :| c in Reachable(local, net) && c.node == n;
      AnswerReachable(local, net, c);
    }
  }

  // The reader reaches all that the writer reaches, and knows itself under one address.
  ghost predicate ReachesAsMuch(writer: Local, reader: Local, net: Answers)
  {
    && Reachable(writer, net) <= Reachable(reader, net)
    && forall c :: c in Reachable(reader, net) && c.node.id == reader.node.id ==> c.node == reader.node
  }

  // What one peer has stored another one finds.  If nothing but `val` was ever stored under the
  // key, then a search that loses no query, from any peer that can reach one of the storing
  // contacts, returns a text that decodes to `val`.
  method StoreThenFind(key: nat, val: Value, writer: Local, reader: Local, net: Answers,
                       held: map<Node, string>, fails: (nat, Node) -> bool, refuses: Node -> bool,
                       fails': (nat, Node) -> bool)
    returns (stored: StoreResult, knodes: seq<Contact>, found: ValueResult)
    requires WellFormed(val)
    ensures stored.Stored? && AllAnswer(reader, net, fails') && OneAddress(reader, net)
            && ReachesAsMuch(writer, reader, net)
            ==> found.Found?
    ensures && stored.Stored? && AllAnswer(reader, net, fails') && OneAddress(reader, net)
            && (exists c :: c in knodes && c in Reachable(reader, net) && c.node.id != reader.node.id)
            ==> found.Found?
    ensures stored.Stored? && reader.node in NodesOf(Elements(knodes)) ==> found.Found?
    ensures stored.Stored? && OnlyValue(held, Encoding(val, false)) && found.Found? ==>
      Decoding(found.data, false, Levels(1)) == Some(Norm(val))
    ensures stored.Stored? ==> Encoding(val, false).Some?
  {
    hide WellFormed, Encoding, Decoding, Norm, FindNode.LookedUp, FindNode.IsExact, Reachable, Nearest;
    var held';
    ghost var lookup, log, search;
    stored, knodes, held', lookup, log := KStore(key, val, writer, net, fails, held, refuses);
    found, search := KFindValue(key, reader, net, held', fails', false);
    if stored.Stored? {
      DecodesWhatWasEncoded(val, Encoding(val, false).value);
      SearchFinds(key, knodes, reader, net, held', fails', found, search);
      SearchedHeld(key, reader, net, held', fails', found, search);
      if ReachesAsMuch(writer, reader, net) {
        var c := knodes[0];
        assert c in Elements(knodes);
      }
    }
  }

  // A holder that can be reached, or the own value, is enough for a search to find something; ...
  lemma SearchFinds(key: nat, knodes: seq<Contact>, reader: Local, net: Answers,
                    held: map<Node, string>, fails: (nat, Node) -> bool, found: ValueResult, log: Log)
    requires Searched(key, reader, net, held, fails, found, log)
    requires forall c :: c in knodes ==> c.node in held
    ensures AllAnswer(reader, net, fails) && OneAddress(reader, net)
            && (exists c :: c in knodes && c in Reachable(reader, net)
                            && (c.node.id != reader.node.id || c.node == reader.node))
            ==> found.Found?
    ensures reader.node in NodesOf(Elements(knodes)) ==> found.Found?
  {
    hide Reachable, Exhausted, Orderly, Truthful, HeldByNext, AllAnswer, OneAddress;
  }

  // ... and whatever it finds somebody holds.
  lemma SearchedHeld(key: nat, reader: Local, net: Answers, held: map<Node, string>,
                     fails: (nat, Node) -> bool, found: ValueResult, log: Log)
    requires Searched(key, reader, net, held, fails, found, log)
    ensures found.Found? ==> exists n :: n in held && held[n] == found.data
  {
  }
}
