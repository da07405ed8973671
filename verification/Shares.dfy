/** The shares of a file, what asking for them brings, and the books that a retrieval keeps of it. */
module Shares {
  import opened Contacts

  const CODE_K := 20
  const CODE_N := 20
  const MORE := 3
  const MAX_RETRIES := 5

  // A key of the metadata: the number of the share and the name of its block.
  datatype Share = Share(index: int, block: string)

  datatype Metadata = Metadata(k: int, n: int, shares: set<Share>)

  datatype Lookup = Failed | Missing | Found(meta: Metadata)

  // `NoKey`: the holder was looked up, but the answer names nobody or a key that cannot be read.
  datatype Answer =
    | Got(blockFile: string, metaFile: string)
    | NoSuchNode
    | NoKey
    | Refused
    | Incomplete

  // What each attempt meets.  An attempt asks for a share at most once, so that one answer for
  // each suffices; `rank` is smaller for better reputed holders, at the time of a batch.
  datatype World = World(
    found: nat -> Lookup,
    answer: (nat, Share) -> Answer,
    rank: nat -> Share -> nat)

  // `Endless`: the collecting calls itself again and again without changing anything.
  datatype Outcome = Decoding | LookupFailed | NoMetadata | Unsupported | Exhausted | Endless

  // ---------- what an attempt can achieve ----------

  function Indices(shares: set<Share>): set<int>
  {
    set s | s in shares :: s.index
  }

  ghost predicate DistinctIndices(shares: set<Share>)
  {
    forall s, t :: s in shares && t in shares && s.index == t.index ==> s == t
  }

  function Blocks(shares: set<Share>): set<string>
  {
    set s | s in shares :: s.block
  }

  function Available(w: World, attempt: nat, shares: set<Share>): set<Share>
  {
    set s | s in shares && w.answer(attempt, s).Got?
  }

  // The blocks among these shares that somebody hands out.
  function Fetched(w: World, attempt: nat, shares: set<Share>): set<string>
  {
    Blocks(Available(w, attempt, shares))
  }

  // Nothing is gained by this attempt, and another one follows while there are any left.
  predicate ComesToNothing(w: World, attempt: nat)
  {
    match w.found(attempt)
    case Failed => false
    case Missing => false
    case Found(m) =>
      |m.shares| < CODE_K
      || (m.k == CODE_K && m.n == CODE_N && |Fetched(w, attempt, m.shares)| < CODE_K)
  }

  function Verdict(w: World, attempt: nat): Outcome
  {
    match w.found(attempt)
    case Failed => LookupFailed
    case Missing => NoMetadata
    case Found(m) =>
      if |m.shares| < CODE_K then Exhausted
      else if m.k != CODE_K || m.n != CODE_N then Unsupported
      else if |Fetched(w, attempt, m.shares)| >= CODE_K then Decoding
      else Exhausted
  }

  // The first attempt that does not come to nothing decides.
  function Ends(w: World, attempt: nat): (o: Outcome)
    ensures o != Endless
    decreases MAX_RETRIES - attempt
  {
    if ComesToNothing(w, attempt) && attempt < MAX_RETRIES then Ends(w, attempt + 1)
    else Verdict(w, attempt)
  }

  lemma VerdictOfNothing(w: World, attempt: nat)
    requires ComesToNothing(w, attempt)
    ensures Verdict(w, attempt) == Exhausted
  {
  }

  // The file is decoded exactly when one of the six attempts finds twenty blocks to be had, the
  // ones before it having come to nothing.
  lemma {:induction false} DecodingWhen(w: World, attempt: nat)
    requires attempt <= MAX_RETRIES
    ensures Ends(w, attempt) == Decoding
        <==> exists a :: attempt <= a <= MAX_RETRIES && Verdict(w, a) == Decoding
                         && forall b :: attempt <= b < a ==> ComesToNothing(w, b)
    decreases MAX_RETRIES - attempt
  {
    if ComesToNothing(w, attempt) && attempt < MAX_RETRIES {
      DecodingWhen(w, attempt + 1);
      if Ends(w, attempt + 1) == Decoding {
        var a :| attempt < a <= MAX_RETRIES && Verdict(w, a) == Decoding
                 && forall b :: attempt + 1 <= b < a ==> ComesToNothing(w, b);
        assert forall b :: attempt <= b < a && b != attempt ==> attempt + 1 <= b && ComesToNothing(w, b);
      }
      if a :| attempt <= a <= MAX_RETRIES && Verdict(w, a) == Decoding
              && forall b :: attempt <= b < a ==> ComesToNothing(w, b) {
        assert Verdict(w, attempt) == Exhausted;
        assert attempt + 1 <= a;
      }
    } else if Verdict(w, attempt) == Decoding {
      assert Verdict(w, attempt) == Decoding && attempt <= attempt <= MAX_RETRIES;
    }
  }

  lemma {:induction false} FewerBlocks(shares: set<Share>, some: set<Share>)
    requires some <= shares
    ensures |Blocks(some)| <= |some| <= |shares|
  {
    SubsetSize(some, shares);
    if some == {} {
      assert Blocks(some) == {};
    } else {
      var s :| s in some;
      FewerBlocks(shares, some - {s});
      assert Blocks(some) == Blocks(some - {s}) + {s.block};
    }
  }

  // ---------- choosing what to ask for ----------

  // The first key of every share number that is not taken.
  function FirstOfEach(keys: seq<Share>, taken: set<int>): seq<Share>
  {
    if keys == [] then []
    else
      var front, s := FirstOfEach(keys[..|keys| - 1], taken), keys[|keys| - 1];
      if s.index in taken || s.index in Indices(Elements(front)) then front else front + [s]
  }

  ghost predicate OneOfEach(s: seq<Share>)
  {
    forall i, j :: 0 <= i < j < |s| ==> s[i].index != s[j].index
  }

  lemma IndicesMore(shares: set<Share>, s: Share)
    ensures Indices(shares + {s}) == Indices(shares) + {s.index}
  {
  }

  lemma ElementsMore(front: seq<Share>, s: Share)
    ensures Elements(front + [s]) == Elements(front) + {s}
  {
  }

  lemma OneMore(front: seq<Share>, s: Share)
    requires OneOfEach(front) && s.index !in Indices(Elements(front))
    ensures OneOfEach(front + [s])
  {
  }

  lemma TakenStep(numbers: set<int>, n: int, taken: set<int>)
    ensures numbers + {n} - taken
         == if n in taken || n in numbers - taken then numbers - taken else numbers - taken + {n}
  {
  }

  ghost predicate FirstOnes(r: seq<Share>, keys: seq<Share>, taken: set<int>)
  {
    OneOfEach(r) && Elements(r) <= Elements(keys) && |r| <= |keys|
    && Indices(Elements(r)) == Indices(Elements(keys)) - taken
  }

  lemma FirstOnesStep(front: seq<Share>, init: seq<Share>, s: Share, taken: set<int>)
    requires FirstOnes(front, init, taken)
    ensures s.index in taken || s.index in Indices(Elements(front))
            ==> FirstOnes(front, init + [s], taken)
    ensures !(s.index in taken || s.index in Indices(Elements(front)))
            ==> FirstOnes(front + [s], init + [s], taken)
  {
    hide Indices, Elements, OneOfEach;
    ElementsMore(init, s);
    ElementsMore(front, s);
    IndicesMore(Elements(init), s);
    IndicesMore(Elements(front), s);
    TakenStep(Indices(Elements(init)), s.index, taken);
    if s.index !in Indices(Elements(front)) {
      OneMore(front, s);
    }
  }

  lemma {:induction false} FirstOfEachIs(keys: seq<Share>, taken: set<int>)
    ensures FirstOnes(FirstOfEach(keys, taken), keys, taken)
  {
    if keys == [] {
      assert Indices(Elements(keys)) == {};
    } else {
      hide Indices, Elements, FirstOnes;
      var init, s := keys[..|keys| - 1], keys[|keys| - 1];
      FirstOfEachIs(init, taken);
      FirstOnesStep(FirstOfEach(init, taken), init, s, taken);
      assert keys == init + [s];
    }
  }

  // ---------- what the answers leave behind ----------

  // Whatever these shares brought is kept, under the names it was handed out with.
  ghost predicate Kept(w: World, attempt: nat, done: set<Share>,
                       blocks: map<string, string>, fsmetas: map<string, string>)
  {
    blocks.Keys == Fetched(w, attempt, done) && fsmetas.Keys == blocks.Keys
    && forall b :: b in blocks ==> Brought(w, attempt, done, b, Got(blocks[b], fsmetas[b]))
  }

  ghost predicate Brought(w: World, attempt: nat, done: set<Share>, block: string, answer: Answer)
  {
    exists s :: s in done && s.block == block && w.answer(attempt, s) == answer
  }

  lemma KeptWithout(w: World, attempt: nat, done: set<Share>, s: Share,
                    blocks: map<string, string>, fsmetas: map<string, string>)
    requires Kept(w, attempt, done, blocks, fsmetas)
    requires !w.answer(attempt, s).Got? || s.block in blocks
    ensures Kept(w, attempt, done + {s}, blocks, fsmetas)
  {
  }

  lemma KeptWith(w: World, attempt: nat, done: set<Share>, s: Share,
                 blocks: map<string, string>, fsmetas: map<string, string>)
    requires Kept(w, attempt, done, blocks, fsmetas)
    requires w.answer(attempt, s).Got? && s.block !in blocks
    ensures Kept(w, attempt, done + {s}, blocks[s.block := w.answer(attempt, s).blockFile],
                 fsmetas[s.block := w.answer(attempt, s).metaFile])
  {
  }

  // ---------- the books that an attempt keeps ----------

  // The counter agrees with everything it counts.
  ghost predicate Tallied(blocks: map<string, string>, fsmetas: map<string, string>,
                          indices: set<int>, n: nat)
  {
    |blocks| == n && |fsmetas| == n && |indices| == n && fsmetas.Keys == blocks.Keys
  }

  lemma OneMoreTallied(blocks: map<string, string>, fsmetas: map<string, string>,
                       indices: set<int>, n: nat, s: Share, blockFile: string, metaFile: string)
    requires Tallied(blocks, fsmetas, indices, n) && s.block !in blocks && s.index !in indices
    ensures Tallied(blocks[s.block := blockFile], fsmetas[s.block := metaFile],
                    indices + {s.index}, n + 1)
  {
  }

  // No key is asked for twice, none is lost sight of, and a share number is taken only for a key
  // that was asked for.
  ghost predicate Accounted(all: set<Share>, meta: set<Share>, asked: seq<Share>,
                            taken: set<int>, held: set<string>)
  {
    NoDuplicates(asked)
    && Elements(asked) <= all && Elements(asked) !! meta && meta <= all
    && taken <= Indices(Elements(asked))
    && forall s :: s in all ==> s in meta || s in asked || s.block in held
  }

  lemma AccountedStill(all: set<Share>, meta: set<Share>, asked: seq<Share>,
                       taken: set<int>, held: set<string>, s: Share,
                       taken': set<int>, held': set<string>)
    requires Accounted(all, meta, asked, taken, held) && s in Elements(asked)
    requires taken' <= taken + {s.index} && held <= held'
    ensures Accounted(all, meta, asked, taken', held')
  {
  }

  // Requests on their way: one for a share number, and none for a number that has arrived.
  ghost predicate Awaited(pending: set<Share>, asked: seq<Share>, arrived: set<int>)
  {
    pending <= Elements(asked) && DistinctIndices(pending) && Indices(pending) !! arrived
  }

  lemma NoLongerAwaited(s: Share, pending: set<Share>, asked: seq<Share>, arrived: set<int>)
    requires s in pending && Awaited(pending, asked, arrived)
    ensures Elements(asked) - (pending - {s}) == Elements(asked) - pending + {s}
    ensures s in Elements(asked) && s.index !in arrived
    ensures Awaited(pending - {s}, asked, arrived)
    ensures Awaited(pending - {s}, asked, arrived + {s.index})
  {
  }

  lemma AskedOf(all: set<Share>, meta: set<Share>, asked: seq<Share>, taken: set<int>,
                held: set<string>)
    requires Accounted(all, meta, asked, taken, held)
    ensures Elements(asked) <= all && Elements(asked) !! meta
  {
  }

  lemma Asked(all: set<Share>, meta: set<Share>, asked: seq<Share>, taken: set<int>,
              held: set<string>, s: Share)
    requires Accounted(all, meta, asked, taken, held) && s in meta
    ensures s !in asked
    ensures Accounted(all, meta - {s}, asked + [s], taken + {s.index}, held)
  {
  }

  lemma Skipped(all: set<Share>, meta: set<Share>, asked: seq<Share>, taken: set<int>,
                held: set<string>, s: Share)
    requires Accounted(all, meta, asked, taken, held) && s in meta && s.block in held
    ensures Accounted(all, meta - {s}, asked, taken, held)
  {
  }

  lemma MoreAwaited(s: Share, pending: set<Share>, asked: seq<Share>, arrived: set<int>)
    requires Awaited(pending, asked, arrived) && s !in asked
    requires s.index !in Indices(pending) && s.index !in arrived
    ensures Awaited(pending + {s}, asked + [s], arrived)
    ensures Elements(asked + [s]) - (pending + {s}) == Elements(asked) - pending
    ensures Indices(pending + {s}) == Indices(pending) + {s.index}
  {
  }

  lemma NoIndices()
    ensures Indices({}) == {}
  {
  }

  lemma Remaining(front: seq<Share>, i: nat)
    requires OneOfEach(front) && i < |front|
    ensures Elements(front[i..]) == {front[i]} + Elements(front[i + 1..])
    ensures Indices(Elements(front[i..])) == {front[i].index} + Indices(Elements(front[i + 1..]))
    ensures front[i].index !in Indices(Elements(front[i + 1..]))
    ensures front[i] !in Elements(front[i + 1..])
    ensures Elements(front[..i + 1]) == Elements(front[..i]) + {front[i]}
  {
  }

  lemma Front(unique: seq<Share>, n: nat, meta: set<Share>, taken: set<int>)
    requires OneOfEach(unique) && 0 < n <= |unique| && Elements(unique) <= meta
    requires Indices(Elements(unique)) !! taken
    ensures OneOfEach(unique[..n]) && Elements(unique[..n]) <= meta
    ensures Indices(Elements(unique[..n])) !! taken
    ensures |meta - Elements(unique[..n])| < |meta|
  {
    assert Elements(unique[..n]) <= Elements(unique);
    assert unique[0] in Elements(unique[..n]);
    SubsetSize(meta - Elements(unique[..n]), meta);
  }

  lemma NothingElse(unique: seq<Share>, keys: set<Share>, taken: set<int>)
    requires |unique| == 0 && Indices(Elements(unique)) == Indices(keys) - taken
    ensures Indices(keys) <= taken
  {
    assert Elements(unique) == {};
    NoIndices();
    forall n | n in Indices(keys)
      ensures n in taken
    {
      assert n !in Indices(keys) - taken;
    }
  }

  lemma NothingPending(asked: seq<Share>)
    ensures Elements(asked) - {} == Elements(asked)
  {
  }

  // With different share numbers throughout, no number is asked for twice.
  lemma OncePerIndex(all: set<Share>, meta: set<Share>, asked: seq<Share>, taken: set<int>,
                     held: set<string>)
    requires Accounted(all, meta, asked, taken, held) && DistinctIndices(all)
    ensures OneOfEach(asked)
  {
  }

  // Twenty blocks at hand were to be had.
  lemma EnoughFetched(w: World, attempt: nat, all: set<Share>, asked: seq<Share>,
                      blocks: map<string, string>, fsmetas: map<string, string>)
    requires Kept(w, attempt, Elements(asked), blocks, fsmetas) && Elements(asked) <= all
    ensures |blocks| <= |Fetched(w, attempt, all)|
  {
    assert Available(w, attempt, Elements(asked)) <= Available(w, attempt, all);
    SubsetSize(blocks.Keys, Fetched(w, attempt, all));
  }

  // When nothing is left to ask for, all that was to be had is at hand.
  lemma AllFetched(w: World, attempt: nat, all: set<Share>, asked: seq<Share>, taken: set<int>,
                   blocks: map<string, string>, fsmetas: map<string, string>)
    requires Kept(w, attempt, Elements(asked), blocks, fsmetas)
    requires Accounted(all, {}, asked, taken, blocks.Keys)
    ensures blocks.Keys == Fetched(w, attempt, all)
  {
  }

  // Keys whose share numbers are all different leave nothing to get stuck on.
  lemma NotStuck(all: set<Share>, meta: set<Share>, asked: seq<Share>, taken: set<int>,
                 held: set<string>)
    requires Accounted(all, meta, asked, taken, held) && DistinctIndices(all)
    ensures Indices(meta) !! taken
  {
  }

  // ---------- two shares of one number ----------

  // Somebody hands out these two shares of one number, and nobody any other.
  ghost predicate OnlyTwins(w: World, attempt: nat, all: set<Share>, s: Share, t: Share)
  {
    s != t && s.index == t.index && Available(w, attempt, all) == {s, t}
  }

  // One of such two is never asked for: the other is on its way, or its number has arrived.
  ghost predicate Apart(w: World, attempt: nat, all: set<Share>, meta: set<Share>,
                        pending: set<Share>, arrived: set<int>)
  {
    forall s, t :: OnlyTwins(w, attempt, all, s, t) ==>
      (s in meta && t in meta)
      || ((s in meta || t in meta) && (s in pending || t in pending || s.index in arrived))
  }

  // A block at hand came from another share than one that is not yet answered, unless that is of
  // another number.
  lemma ComesFromTwin(w: World, attempt: nat, all: set<Share>, done: set<Share>,
                      blocks: map<string, string>, fsmetas: map<string, string>,
                      s: Share, t: Share)
    requires Kept(w, attempt, done, blocks, fsmetas) && done <= all && s !in done
    requires OnlyTwins(w, attempt, all, s, t)
    ensures s.block !in blocks
  {
    forall u | u in Available(w, attempt, done)
      ensures u.block != s.block
    {
      assert u in Available(w, attempt, all);
    }
  }

  lemma ApartFinished(w: World, attempt: nat, all: set<Share>, meta: set<Share>,
                      asked: seq<Share>, pending: set<Share>, blocks: map<string, string>,
                      fsmetas: map<string, string>, arrived: set<int>, x: Share)
    requires Kept(w, attempt, Elements(asked) - pending, blocks, fsmetas) && Elements(asked) <= all
    requires Apart(w, attempt, all, meta, pending, arrived)
    requires x in pending && pending <= Elements(asked)
    ensures w.answer(attempt, x).Got? && x.block !in blocks ==>
              Apart(w, attempt, all, meta, pending - {x}, arrived + {x.index})
    ensures !(w.answer(attempt, x).Got? && x.block !in blocks) ==>
              Apart(w, attempt, all, meta, pending - {x}, arrived)
  {
    hide Kept;
    forall s, t | OnlyTwins(w, attempt, all, s, t) && (x == s || x == t)
      ensures w.answer(attempt, x).Got? && x.block !in blocks
    {
      assert x in Available(w, attempt, all);
      ComesFromTwin(w, attempt, all, Elements(asked) - pending, blocks, fsmetas,
                    x, if x == s then t else s);
    }
  }

  lemma ApartAsked(w: World, attempt: nat, all: set<Share>, meta: set<Share>,
                   pending: set<Share>, arrived: set<int>, x: Share)
    requires Apart(w, attempt, all, meta, pending, arrived)
    requires x.index !in Indices(pending) && x.index !in arrived
    ensures Apart(w, attempt, all, meta - {x}, pending + {x}, arrived)
  {
    forall s, t | OnlyTwins(w, attempt, all, s, t) && (x == s || x == t)
      ensures s in meta && t in meta
    {
      assert s in pending ==> s.index in Indices(pending);
      assert t in pending ==> t.index in Indices(pending);
    }
  }

  lemma ApartSkipped(w: World, attempt: nat, all: set<Share>, meta: set<Share>,
                     asked: seq<Share>, pending: set<Share>, blocks: map<string, string>,
                     fsmetas: map<string, string>, arrived: set<int>, x: Share)
    requires Kept(w, attempt, Elements(asked) - pending, blocks, fsmetas) && Elements(asked) <= all
    requires Apart(w, attempt, all, meta, pending, arrived)
    requires x in meta && Elements(asked) !! meta && x.block in blocks
    ensures Apart(w, attempt, all, meta - {x}, pending, arrived)
  {
    hide Kept;
    forall s, t | OnlyTwins(w, attempt, all, s, t)
      ensures x != s && x != t
    {
      if x == s || x == t {
        ComesFromTwin(w, attempt, all, Elements(asked) - pending, blocks, fsmetas,
                      x, if x == s then t else s);
      }
    }
  }

  // The attempt has metadata that looks sufficient, and only two shares of one number to be had.
  ghost predicate HasTwins(w: World, attempt: nat)
  {
    match w.found(attempt)
    case Found(m) =>
      |m.shares| >= CODE_K && m.k == CODE_K && m.n == CODE_N
      && exists s, t :: OnlyTwins(w, attempt, m.shares, s, t)
    case _ => false
  }

  lemma TwinsAreFew(w: World, attempt: nat, all: set<Share>, s: Share, t: Share)
    requires OnlyTwins(w, attempt, all, s, t)
    ensures |Fetched(w, attempt, all)| < CODE_K
  {
    FewerBlocks({s, t}, {s, t});
  }

  // For metadata that looks sufficient there are answers of this kind exactly when some share
  // number stands in it twice.
  lemma TwinsIff(m: Metadata)
    requires |m.shares| >= CODE_K && m.k == CODE_K && m.n == CODE_N
    ensures !DistinctIndices(m.shares)
        <==> exists w: World :: w.found(0) == Found(m) && HasTwins(w, 0)
  {
    if s, t :| s in m.shares && t in m.shares && s.index == t.index && s != t {
      TwinsHere(m, s, t);
      assert OnlyAnswers(m, s, t).found(0) == Found(m);
    }
    if w: World :| w.found(0) == Found(m) && HasTwins(w, 0) {
      var s, t :| OnlyTwins(w, 0, m.shares, s, t);
      assert s in Available(w, 0, m.shares) && t in Available(w, 0, m.shares);
    }
  }

  // Every lookup finds this metadata, and just these two shares are handed out.
  function OnlyAnswers(m: Metadata, s: Share, t: Share): World
  {
    World(a => Found(m),
          (a, x) => if x == s || x == t then Got(x.block, x.block) else Refused,
          a => x => 0)
  }

  lemma TwinsHere(m: Metadata, s: Share, t: Share)
    requires |m.shares| >= CODE_K && m.k == CODE_K && m.n == CODE_N
    requires s in m.shares && t in m.shares && s != t && s.index == t.index
    ensures HasTwins(OnlyAnswers(m, s, t), 0)
  {
    assert OnlyTwins(OnlyAnswers(m, s, t), 0, m.shares, s, t);
  }

  // Twenty-one shares with the numbers 0 to 19 and 0 again.
  function TwentyOne(): Metadata
  {
    Metadata(CODE_K, CODE_N, Numbered(CODE_K) + {Share(0, "again")})
  }

  function Numbered(n: nat): set<Share>
  {
    if n == 0 then {} else Numbered(n - 1) + {Share(n - 1, "block")}
  }

  lemma {:induction false} NumberedAre(n: nat)
    ensures |Numbered(n)| == n
    ensures forall s :: s in Numbered(n) <==> 0 <= s.index < n && s.block == "block"
  {
    if n > 0 {
      NumberedAre(n - 1);
    }
  }

  lemma TwentyOneHasTwins()
    ensures |TwentyOne().shares| == 21
    ensures HasTwins(OnlyAnswers(TwentyOne(), Share(0, "block"), Share(0, "again")), 0)
  {
    NumberedAre(CODE_K);
    TwinsHere(TwentyOne(), Share(0, "block"), Share(0, "again"));
  }

  // ---------- the requests of an attempt ----------

  // No key was asked for twice, and no share number if the numbers differ.
  ghost predicate OnceEach(w: World, attempt: nat, asked: seq<Share>)
  {
    NoDuplicates(asked)
    && (asked != [] ==>
          && w.found(attempt).Found?
          && Elements(asked) <= w.found(attempt).meta.shares
          && (DistinctIndices(w.found(attempt).meta.shares) ==> OneOfEach(asked)))
  }
}
