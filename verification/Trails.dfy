/** The record of an attempt's batches: what was chosen, what was asked for and what was left. */
module Trails {
  import opened Contacts
  import opened Shares

  // A batch: the share numbers that were taken, how many keys were wanted, when, and those chosen.
  datatype Batch = Batch(taken: set<int>, most: nat, time: nat, front: seq<Share>)

  // The chosen keys but for those whose block is at hand.
  function NotHeld(front: seq<Share>, held: set<string>): seq<Share>
  {
    if front == [] then []
    else
      var s := front[|front| - 1];
      NotHeld(front[..|front| - 1], held) + if s.block in held then [] else [s]
  }

  // The keys that the batches have left, and the requests they have made.
  function Left(all: set<Share>, turns: seq<Batch>): set<Share>
  {
    if turns == [] then all
    else Left(all, turns[..|turns| - 1]) - Elements(turns[|turns| - 1].front)
  }

  function Requests(w: World, attempt: nat, turns: seq<Batch>): seq<Share>
  {
    if turns == [] then []
    else
      var before := Requests(w, attempt, turns[..|turns| - 1]);
      before + NotHeld(turns[|turns| - 1].front, Fetched(w, attempt, Elements(before)))
  }

  // As many keys as wanted, or one of every number that is not taken, the better ranked ones first:
  // a key is passed over only for as good a key of its number, or when all the chosen ones are as
  // good and no more were wanted.
  ghost predicate BestFirst(d: Share -> nat, keys: set<Share>, taken: set<int>, front: seq<Share>,
                            most: nat)
  {
    && Elements(front) <= keys && OneOfEach(front) && Indices(Elements(front)) !! taken
    && Ascending(d, front)
    && |front| == (if |Indices(keys) - taken| < most then |Indices(keys) - taken| else most)
    && forall y :: y in keys && y.index !in taken && y !in front ==> PassedOver(d, front, most, y)
  }

  // The first batch wants twenty keys, each later one three, and only while fewer than twenty blocks
  // have been brought; a number is taken only for a key that was asked for.
  ghost predicate Follows(w: World, attempt: nat, all: set<Share>, turns: seq<Batch>)
  {
    turns == []
    || (var init, b := turns[..|turns| - 1], turns[|turns| - 1];
        var before := Elements(Requests(w, attempt, init));
        && Follows(w, attempt, all, init)
        && b.front != [] && b.taken <= Indices(before)
        && BestFirst(w.rank(b.time), Left(all, init), b.taken, b.front, b.most)
        && (if init == [] then b.most == CODE_K
            else b.most == MORE && |Fetched(w, attempt, before)| < CODE_K))
  }

  // What is known of the batches of an attempt, finished or not.
  ghost predicate Attempted(w: World, attempt: nat, turns: seq<Batch>)
  {
    && OnceEach(w, attempt, Requests(w, attempt, turns))
    && (turns != [] ==>
          w.found(attempt).Found? && Follows(w, attempt, w.found(attempt).meta.shares, turns))
  }

  // ---------- the choice ----------

  ghost predicate Represented(d: Share -> nat, keys: seq<Share>, taken: set<int>, r: seq<Share>)
  {
    forall y :: y in keys && y.index !in taken ==>
      exists z :: z in r && z.index == y.index && d(z) <= d(y)
  }

  ghost predicate GoodFirsts(d: Share -> nat, keys: seq<Share>, taken: set<int>, r: seq<Share>)
  {
    Ascending(d, r) && (forall z :: z in r ==> z in keys) && Represented(d, keys, taken, r)
  }

  lemma {:induction false} FirstOfEachBest(d: Share -> nat, keys: seq<Share>, taken: set<int>)
    requires Ascending(d, keys)
    ensures GoodFirsts(d, keys, taken, FirstOfEach(keys, taken))
  {
    hide GoodFirsts, Ascending, FirstOfEach;
    if keys == [] {
      NoFirsts(d, taken);
    } else {
      var init, s := keys[..|keys| - 1], keys[|keys| - 1];
      LastFarthest(d, keys);
      FirstOfEachBest(d, init, taken);
      LastFirst(d, init, s, taken);
      assert init + [s] == keys;
    }
  }

  lemma LastFirst(d: Share -> nat, init: seq<Share>, s: Share, taken: set<int>)
    requires GoodFirsts(d, init, taken, FirstOfEach(init, taken))
    requires forall z :: z in init ==> d(z) <= d(s)
    ensures GoodFirsts(d, init + [s], taken, FirstOfEach(init + [s], taken))
  {
    hide GoodFirsts, FirstOfEach, Indices, Elements;
    FirstOfEachNext(init, s, taken);
    GoodStep(d, init, s, taken, FirstOfEach(init, taken));
  }

  lemma FirstOfEachNext(init: seq<Share>, s: Share, taken: set<int>)
    ensures var front := FirstOfEach(init, taken);
            FirstOfEach(init + [s], taken)
            == if s.index in taken || s.index in Indices(Elements(front)) then front else front + [s]
  {
    assert (init + [s])[..|init|] == init;
  }

  lemma NoFirsts(d: Share -> nat, taken: set<int>)
    ensures GoodFirsts(d, [], taken, []) && FirstOfEach([], taken) == []
  {
  }

  lemma GoodStep(d: Share -> nat, init: seq<Share>, s: Share, taken: set<int>, front: seq<Share>)
    requires GoodFirsts(d, init, taken, front) && forall z :: z in init ==> d(z) <= d(s)
    ensures GoodFirsts(d, init + [s], taken,
                       if s.index in taken || s.index in Indices(Elements(front)) then front
                       else front + [s])
  {
    hide Represented, Indices;
    AscendingMore(d, front, s);
    BestStep(d, init, s, taken, front);
  }

  lemma LastFarthest(d: Share -> nat, keys: seq<Share>)
    requires Ascending(d, keys) && keys != []
    ensures Ascending(d, keys[..|keys| - 1])
    ensures forall z :: z in keys[..|keys| - 1] ==> d(z) <= d(keys[|keys| - 1])
  {
  }

  lemma AscendingMore(d: Share -> nat, front: seq<Share>, s: Share)
    requires Ascending(d, front) && forall z :: z in front ==> d(z) <= d(s)
    ensures Ascending(d, front + [s])
  {
  }

  lemma BestStep(d: Share -> nat, init: seq<Share>, s: Share, taken: set<int>, front: seq<Share>)
    requires Represented(d, init, taken, front)
    requires forall z :: z in front ==> d(z) <= d(s)
    ensures Represented(d, init + [s], taken,
                        if s.index in taken || s.index in Indices(Elements(front)) then front
                        else front + [s])
  {
    var r := if s.index in taken || s.index in Indices(Elements(front)) then front else front + [s];
    forall y | y in init + [s] && y.index !in taken
      ensures exists z :: z in r && z.index == y.index && d(z) <= d(y)
    {
      if y in init {
        var z :| z in front && z.index == y.index && d(z) <= d(y);
        assert z in r;
      } else if s.index in Indices(Elements(front)) {
        var z :| z in Elements(front) && z.index == s.index;
        assert z in r;
      } else {
        assert s in r;
      }
    }
  }

  lemma {:induction false} OneIndexEach(s: seq<Share>)
    requires OneOfEach(s)
    ensures |Indices(Elements(s))| == |s|
  {
    if s == [] {
      assert Indices(Elements(s)) == {};
    } else {
      var init, x := s[..|s| - 1], s[|s| - 1];
      OneIndexEach(init);
      assert s == init + [x];
      ElementsMore(init, x);
      IndicesMore(Elements(init), x);
      assert x.index !in Indices(Elements(init));
    }
  }

  // The head of such a choice is a good choice.
  lemma HeadIsBest(d: Share -> nat, keys: seq<Share>, taken: set<int>, most: nat)
    requires Ascending(d, keys)
    ensures var r := FirstOfEach(keys, taken);
            BestFirst(d, Elements(keys), taken, r[..if |r| < most then |r| else most], most)
  {
    hide FirstOfEach, Indices, OneOfEach, Ascending, Represented, PassedOver;
    var r := FirstOfEach(keys, taken);
    var n := if |r| < most then |r| else most;
    FirstOfEachIs(keys, taken);
    FirstOfEachBest(d, keys, taken);
    OneIndexEach(r);
    HeadFacts(d, r, n, Elements(keys), taken);
    AllPassed(d, keys, taken, r, n, most);
  }

  lemma AllPassed(d: Share -> nat, keys: seq<Share>, taken: set<int>, r: seq<Share>, n: nat, most: nat)
    requires Represented(d, keys, taken, r) && Ascending(d, r)
    requires n == if |r| < most then |r| else most
    ensures forall y :: y in Elements(keys) && y.index !in taken && y !in r[..n] ==>
              PassedOver(d, r[..n], most, y)
  {
    hide PassedOver, Represented, Ascending;
    forall y | y in Elements(keys) && y.index !in taken && y !in r[..n]
      ensures PassedOver(d, r[..n], most, y)
    {
      PassedFor(d, keys, taken, r, n, most, y);
    }
  }

  ghost predicate PassedOver(d: Share -> nat, front: seq<Share>, most: nat, y: Share)
  {
    (exists z :: z in front && z.index == y.index && d(z) <= d(y))
    || (|front| == most && forall z :: z in front ==> d(z) <= d(y))
  }

  lemma PassedFor(d: Share -> nat, keys: seq<Share>, taken: set<int>, r: seq<Share>, n: nat, most: nat,
                  y: Share)
    requires Represented(d, keys, taken, r) && Ascending(d, r)
    requires n == if |r| < most then |r| else most
    requires y in keys && y.index !in taken && y !in r[..n]
    ensures PassedOver(d, r[..n], most, y)
  {
    var z :| z in r && z.index == y.index && d(z) <= d(y);
    if z !in r[..n] {
      Behind(d, r, n, z);
    }
  }

  lemma HeadFacts(d: Share -> nat, r: seq<Share>, n: nat, keys: set<Share>, taken: set<int>)
    requires OneOfEach(r) && Ascending(d, r) && n <= |r| && Elements(r) <= keys
    requires Indices(Elements(r)) !! taken
    ensures OneOfEach(r[..n]) && Ascending(d, r[..n]) && Elements(r[..n]) <= keys
    ensures Indices(Elements(r[..n])) !! taken
  {
    assert Elements(r[..n]) <= Elements(r);
  }

  lemma Behind(d: Share -> nat, r: seq<Share>, n: nat, z: Share)
    requires Ascending(d, r) && n <= |r| && z in r && z !in r[..n]
    ensures n < |r| && forall x :: x in r[..n] ==> d(x) <= d(z)
  {
    var i :| 0 <= i < |r| && r[i] == z;
    assert forall j :: 0 <= j < n ==> r[..n][j] == r[j];
    assert r[i] !in r[..n];
  }

  // ---------- one batch more ----------

  lemma {:induction false} NotHeldMore(front: seq<Share>, i: nat, held: set<string>)
    requires i < |front|
    ensures NotHeld(front[..i + 1], held)
         == NotHeld(front[..i], held) + if front[i].block in held then [] else [front[i]]
  {
    assert front[..i + 1][..i] == front[..i];
  }

  lemma NothingAsked(front: seq<Share>, held: set<string>)
    ensures NotHeld(front[..0], held) == []
  {
  }

  lemma TrailMore(w: World, attempt: nat, all: set<Share>, turns: seq<Batch>, b: Batch)
    requires Follows(w, attempt, all, turns) && b.front != []
    requires b.taken <= Indices(Elements(Requests(w, attempt, turns)))
    requires BestFirst(w.rank(b.time), Left(all, turns), b.taken, b.front, b.most)
    requires if turns == [] then b.most == CODE_K
             else b.most == MORE
                  && |Fetched(w, attempt, Elements(Requests(w, attempt, turns)))| < CODE_K
    ensures Follows(w, attempt, all, turns + [b])
    ensures Left(all, turns + [b]) == Left(all, turns) - Elements(b.front)
    ensures var before := Requests(w, attempt, turns);
            Requests(w, attempt, turns + [b])
            == before + NotHeld(b.front, Fetched(w, attempt, Elements(before)))
  {
    hide BestFirst, Indices, Fetched, NotHeld;
    assert (turns + [b])[..|turns|] == turns;
  }
}
