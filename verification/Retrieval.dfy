/** Collecting enough shares of a file to decode it, with retries of the whole attempt. */
module Retrieval {
  import opened Contacts
  import opened Shares
  import opened Trails

  class RetrieveFile {
    const world: World
    var meta: set<Share>
    var blocks: map<string, string>
    var fsmetas: map<string, string>
    var blockIndices: set<int>
    var requestedIndices: set<int>
    var numBlocksRetrieved: nat
    var retryCount: nat
    var batches: nat
    ghost var all: set<Share>      // the metadata of this attempt
    ghost var asked: seq<Share>    // the requests of this attempt
    ghost var turns: seq<Batch>    // ... and its batches
    ghost var past: seq<seq<Batch>>  // the batches of the attempts before

    ghost predicate Counted()
      reads this
    {
      Tallied(blocks, fsmetas, blockIndices, numBlocksRetrieved)
    }

    ghost predicate Logged()
      reads this
    {
      Accounted(all, meta, asked, blockIndices + requestedIndices, blocks.Keys)
    }

    ghost predicate Stocked(pending: set<Share>)
      reads this
    {
      Kept(world, retryCount, Elements(asked) - pending, blocks, fsmetas)
      && Awaited(pending, asked, blockIndices)
      && Apart(world, retryCount, all, meta, pending, blockIndices)
    }

    ghost predicate Settled()
      reads this
    {
      Counted() && Logged() && Stocked({})
    }

    // Every key that is left has a share number that is taken.
    ghost predicate Stuck()
      reads this
    {
      meta != {} && Indices(meta) <= blockIndices + requestedIndices
    }

    constructor (w: World)
      ensures world == w && retryCount == 0 && Blank()
    {
      world := w;
      meta, blocks, fsmetas, blockIndices, requestedIndices := {}, map[], map[], {}, {};
      numBlocksRetrieved, retryCount, batches := 0, 0, 0;
      all, asked, turns, past := {}, [], [], [];
    }

    // The answer to one request comes in.
    method Take(s: Share)
      modifies this`blocks, this`fsmetas, this`blockIndices, this`requestedIndices,
               this`numBlocksRetrieved
      ensures var answer := world.answer(retryCount, s);
              requestedIndices == (if answer.NoKey? then old(requestedIndices)
                                   else old(requestedIndices) - {s.index})
              && if answer.Got? && s.index !in old(blockIndices) && s.block !in old(blocks)
                 then blocks == old(blocks)[s.block := answer.blockFile]
                      && fsmetas == old(fsmetas)[s.block := answer.metaFile]
                      && blockIndices == old(blockIndices) + {s.index}
                      && numBlocksRetrieved == old(numBlocksRetrieved) + 1
                 else blocks == old(blocks) && fsmetas == old(fsmetas)
                      && blockIndices == old(blockIndices)
                      && numBlocksRetrieved == old(numBlocksRetrieved)
    {
      match world.answer(retryCount, s) {
        case NoKey =>
        case Got(blockFile, metaFile) =>
          requestedIndices := requestedIndices - {s.index};
          if s.index !in blockIndices && s.block !in blocks {
            blocks := blocks[s.block := blockFile];
            fsmetas := fsmetas[s.block := metaFile];
            blockIndices := blockIndices + {s.index};
            numBlocksRetrieved := numBlocksRetrieved + 1;
          }
        case _ =>
          requestedIndices := requestedIndices - {s.index};
      }
    }

    method Finish(s: Share, ghost pending: set<Share>)
      requires s in pending && Counted() && Logged() && Stocked(pending)
      modifies this`blocks, this`fsmetas, this`blockIndices, this`requestedIndices,
               this`numBlocksRetrieved
      ensures Counted() && Logged() && Stocked(pending - {s})
    {
      hide Kept, Indices, DistinctIndices, Tallied, Accounted, Awaited, Apart, Elements;
      ghost var taken, held := blockIndices + requestedIndices, blocks.Keys;
      if world.answer(retryCount, s).Got? && s.block !in blocks {
        Arrives(s, pending);
      } else {
        DoesNotArrive(s, pending);
      }
      NoLongerAwaited(s, pending, asked, blockIndices);
      Take(s);
      AccountedStill(all, meta, asked, taken, held, s,
                     blockIndices + requestedIndices, blocks.Keys);
    }

    lemma Arrives(s: Share, pending: set<Share>)
      requires s in pending && Counted() && Logged() && Stocked(pending)
      requires world.answer(retryCount, s).Got? && s.block !in blocks
      ensures var answer := world.answer(retryCount, s);
              && Kept(world, retryCount, Elements(asked) - (pending - {s}),
                      blocks[s.block := answer.blockFile], fsmetas[s.block := answer.metaFile])
              && Tallied(blocks[s.block := answer.blockFile], fsmetas[s.block := answer.metaFile],
                         blockIndices + {s.index}, numBlocksRetrieved + 1)
              && Apart(world, retryCount, all, meta, pending - {s}, blockIndices + {s.index})
    {
      AskedOf(all, meta, asked, blockIndices + requestedIndices, blocks.Keys);
      NoLongerAwaited(s, pending, asked, blockIndices);
      KeptWith(world, retryCount, Elements(asked) - pending, s, blocks, fsmetas);
      OneMoreTallied(blocks, fsmetas, blockIndices, numBlocksRetrieved, s,
                     world.answer(retryCount, s).blockFile, world.answer(retryCount, s).metaFile);
      ApartFinished(world, retryCount, all, meta, asked, pending, blocks, fsmetas, blockIndices, s);
    }

    lemma DoesNotArrive(s: Share, pending: set<Share>)
      requires s in pending && Logged() && Stocked(pending)
      requires !world.answer(retryCount, s).Got? || s.block in blocks
      ensures Kept(world, retryCount, Elements(asked) - (pending - {s}), blocks, fsmetas)
      ensures Apart(world, retryCount, all, meta, pending - {s}, blockIndices)
    {
      AskedOf(all, meta, asked, blockIndices + requestedIndices, blocks.Keys);
      NoLongerAwaited(s, pending, asked, blockIndices);
      KeptWithout(world, retryCount, Elements(asked) - pending, s, blocks, fsmetas);
      ApartFinished(world, retryCount, all, meta, asked, pending, blocks, fsmetas, blockIndices, s);
    }

    method Collect(requests: set<Share>)
      requires Counted() && Logged() && Stocked(requests)
      modifies this`blocks, this`fsmetas, this`blockIndices, this`requestedIndices,
               this`numBlocksRetrieved
      ensures Settled()
    {
      var pending := requests;
      while pending != {}
        invariant Counted() && Logged() && Stocked(pending)
      {
        hide Counted, Logged, Stocked;
        var s :| s in pending;
        Finish(s, pending);
        pending := pending - {s};
      }
    }

    // Asks for these keys, except for those whose block is at hand.
    method Ask(front: seq<Share>) returns (pending: set<Share>)
      requires Settled() && OneOfEach(front) && Elements(front) <= meta
      requires Indices(Elements(front)) !! blockIndices + requestedIndices
      modifies this`meta, this`requestedIndices, this`asked
      ensures Counted() && Logged() && Stocked(pending)
      ensures meta == old(meta) - Elements(front)
      ensures asked == old(asked) + NotHeld(front, blocks.Keys)
    {
      hide Kept, Indices, DistinctIndices, Tallied, Accounted, Awaited, OneOfEach, Apart;
      pending := {};
      NothingAsked(front, blocks.Keys);
      hide NotHeld;
      assert front[0..] == front;
      NoIndices();
      for i := 0 to |front|
        invariant Counted() && Logged() && Stocked(pending)
        invariant meta == old(meta) - Elements(front[..i])
        invariant asked == old(asked) + NotHeld(front[..i], blocks.Keys)
        invariant Elements(front[i..]) <= meta
        invariant Indices(pending) <= requestedIndices
        invariant Indices(Elements(front[i..])) !! blockIndices + requestedIndices
      {
        var choice := front[i];
        Remaining(front, i);
        NotHeldMore(front, i, blocks.Keys);
        ghost var taken := blockIndices + requestedIndices;
        AskedOf(all, meta, asked, taken, blocks.Keys);
        if choice.block in blocks {
          ApartSkipped(world, retryCount, all, meta, asked, pending, blocks, fsmetas, blockIndices,
                       choice);
          Skipped(all, meta, asked, taken, blocks.Keys, choice);
          meta := meta - {choice};
        } else {
          Asked(all, meta, asked, taken, blocks.Keys, choice);
          MoreAwaited(choice, pending, asked, blockIndices);
          ApartAsked(world, retryCount, all, meta, pending, blockIndices, choice);
          requestedIndices := requestedIndices + {choice.index};
          asked := asked + [choice];
          pending := pending + {choice};
          meta := meta - {choice};
          assert blockIndices + requestedIndices == taken + {choice.index};
        }
      }
      assert front[..|front|] == front;
    }

    // The attempt has metadata that twenty blocks could come from.
    ghost predicate Under()
      reads this
    {
      Orderly() && |all| >= CODE_K
      && world.found(retryCount) == Found(Metadata(CODE_K, CODE_N, all))
      && Trail()
    }

    // What was asked for and what is left is what the batches make of the metadata.
    ghost predicate Trail()
      reads this
    {
      && Follows(world, retryCount, all, turns)
      && asked == Requests(world, retryCount, turns) && meta == Left(all, turns)
    }

    // Nothing has been asked for in this attempt.
    ghost predicate Blank()
      reads this
    {
      Orderly()
      && blocks == map[] && fsmetas == map[] && blockIndices == {} && requestedIndices == {}
      && numBlocksRetrieved == 0 && asked == [] && turns == []
    }

    // The attempts before this one have chosen their batches well and asked for nothing twice.
    ghost predicate Orderly()
      reads this
    {
      retryCount <= MAX_RETRIES && |past| == retryCount
      && forall a :: 0 <= a < retryCount ==> Attempted(world, a, past[a])
    }

    // What is known when the retrieval, having been at attempt `from`, ends with `o`.
    ghost predicate Ended(o: Outcome, from: nat)
      reads this
    {
      from <= retryCount && Orderly() && Attempted(world, retryCount, turns)
      && (forall a :: from <= a < retryCount ==> ComesToNothing(world, a) && !HasTwins(world, a))
      && (o != Endless ==> o == Ends(world, from) && !HasTwins(world, retryCount))
      && (o == Decoding ==> Settled() && Under() && numBlocksRetrieved >= CODE_K)
      && (o == Endless ==> Settled() && Under() && Stuck() && numBlocksRetrieved < CODE_K)
    }

    // Every attempt, finished or not, has asked for each key at most once.
    lemma SettledOnce()
      requires Settled() && Under()
      ensures Attempted(world, retryCount, turns)
    {
      hide Follows, Requests, Left, Kept, Awaited, Apart;
      if DistinctIndices(all) {
        OncePerIndex(all, meta, asked, blockIndices + requestedIndices, blocks.Keys);
      }
    }

    method OrderNodes() returns (keys: seq<Share>)
      ensures Elements(keys) == meta && |keys| == |meta|
      ensures Ascending(world.rank(batches), keys)
    {
      keys := [];
      var rest := meta;
      while rest != {}
        invariant Elements(keys) == meta - rest && rest <= meta
        invariant |keys| + |rest| == |meta|
      {
        var s :| s in rest;
        rest := rest - {s};
        ElementsMore(keys, s);
        keys := keys + [s];
      }
      SortBySorted(world.rank(batches), keys);
      keys := SortBy(world.rank(batches), keys);
    }

    // The next keys to ask for; none when every share number that is left is taken.
    method Choose(most: nat) returns (front: seq<Share>)
      requires most > 0
      ensures BestFirst(world.rank(batches), meta, blockIndices + requestedIndices, front, most)
      ensures if front == [] then Indices(meta) <= blockIndices + requestedIndices
              else |meta - Elements(front)| < |meta|
    {
      hide Indices, OneOfEach, BestFirst;
      var reqs := if most > |meta| then |meta| else most;
      var keys := OrderNodes();
      ghost var taken := blockIndices + requestedIndices;
      FirstOfEachIs(keys, blockIndices + requestedIndices);
      HeadIsBest(world.rank(batches), keys, taken, most);
      var unique := FirstOfEach(keys, blockIndices + requestedIndices);
      if |unique| < reqs {
        reqs := |unique|;
      }
      front := unique[..reqs];
      if reqs == 0 {
        NothingElse(unique, meta, taken);
      } else {
        Front(unique, reqs, meta, taken);
      }
    }

    // One batch; none when nothing may be asked for.
    method RequestBatch(most: nat) returns (any: bool)
      requires Settled() && Trail() && meta != {}
      requires if turns == [] then most == CODE_K else most == MORE && numBlocksRetrieved < CODE_K
      modifies this`meta, this`blocks, this`fsmetas, this`blockIndices, this`requestedIndices,
               this`numBlocksRetrieved, this`batches, this`asked, this`turns
      ensures Settled() && Trail() && |meta| <= |old(meta)|
      ensures any ==> |meta| < |old(meta)| && turns != []
      ensures !any ==> Stuck() && numBlocksRetrieved == old(numBlocksRetrieved)
    {
      hide Kept, Indices, DistinctIndices, Tallied, Accounted, Awaited, OneOfEach, Apart, BestFirst;
      hide Follows, Requests, Left;
      var front := Choose(most);
      ghost var b := Batch(blockIndices + requestedIndices, most, batches, front);
      batches := batches + 1;
      any := front != [];
      if any {
        NextBatch(b);
        turns := turns + [b];
        var pending := Ask(front);
        Collect(pending);
      }
    }

    // What a batch that was just chosen will make of the trail.
    lemma NextBatch(b: Batch)
      requires Settled() && Trail() && b.front != []
      requires BestFirst(world.rank(b.time), meta, b.taken, b.front, b.most)
      requires b.taken == blockIndices + requestedIndices
      requires if turns == [] then b.most == CODE_K
               else b.most == MORE && numBlocksRetrieved < CODE_K
      ensures Follows(world, retryCount, all, turns + [b])
      ensures Left(all, turns + [b]) == meta - Elements(b.front)
      ensures Requests(world, retryCount, turns + [b]) == asked + NotHeld(b.front, blocks.Keys)
      ensures OneOfEach(b.front) && Elements(b.front) <= meta
      ensures Indices(Elements(b.front)) !! blockIndices + requestedIndices
    {
      hide Follows, Requests, Left, Apart, Awaited, Brought, Indices, OneOfEach;
      NothingPending(asked);
      TrailMore(world, retryCount, all, turns, b);
    }

    method GetSomeBlocks(most: nat) returns (o: Outcome)
      requires Settled() && Under() && meta != {} && numBlocksRetrieved < CODE_K
      requires most == if turns == [] then CODE_K else MORE
      modifies this
      ensures Ended(o, old(retryCount))
      decreases MAX_RETRIES - retryCount, 1, |meta|, 0
    {
      hide Counted, Logged, Stocked, Ends, Stuck, Attempted, HasTwins, Trail;
      var any := RequestBatch(most);
      if any {
        o := RetrievedAll();
      } else {
        SettledOnce();
        o := Endless;
      }
    }

    method RetrievedAll() returns (o: Outcome)
      requires Settled() && Under() && turns != []
      modifies this
      ensures Ended(o, old(retryCount))
      decreases MAX_RETRIES - retryCount, 1, |meta|, 1
    {
      hide Orderly, Attempted, HasTwins, Tallied, Stuck;
      if numBlocksRetrieved >= CODE_K {
        SettledOnce();
        EnoughHere();
        o := Decoding;
      } else if meta != {} {
        o := GetSomeBlocks(MORE);
      } else {
        SettledOnce();
        NothingHere();
        o := ScheduleRetry();
      }
    }

    lemma EnoughHere()
      requires Settled() && Under() && numBlocksRetrieved >= CODE_K
      ensures Ends(world, retryCount) == Decoding && !HasTwins(world, retryCount)
    {
      hide Follows, Requests, Left, Attempted, Awaited, Apart, Brought, NoDuplicates;
      NothingPending(asked);
      EnoughFetched(world, retryCount, all, asked, blocks, fsmetas);
      if s, t :| OnlyTwins(world, retryCount, all, s, t) {
        TwinsAreFew(world, retryCount, all, s, t);
      }
    }

    lemma NothingHere()
      requires Settled() && Under() && numBlocksRetrieved < CODE_K && meta == {}
      ensures ComesToNothing(world, retryCount) && !HasTwins(world, retryCount)
    {
      hide Follows, Requests, Left, Attempted, Awaited, Brought, Accounted, Kept, OnlyTwins, Fetched;
      NothingPending(asked);
      AllFetched(world, retryCount, all, asked, blockIndices + requestedIndices, blocks, fsmetas);
    }

    method ScheduleRetry() returns (o: Outcome)
      requires Orderly() && Attempted(world, retryCount, turns)
      requires ComesToNothing(world, retryCount) && !HasTwins(world, retryCount)
      modifies this
      ensures Ended(o, old(retryCount))
      decreases MAX_RETRIES - retryCount, 0
    {
      hide Attempted, HasTwins, ComesToNothing, Verdict, Settled, Under;
      if retryCount >= MAX_RETRIES {
        VerdictOfNothing(world, retryCount);
        return Exhausted;
      }
      past := past + [turns];
      retryCount := retryCount + 1;
      blocks, fsmetas, blockIndices, requestedIndices := map[], map[], {}, {};
      numBlocksRetrieved := 0;
      asked, turns := [], [];
      o := RetrieveFileAsync();
    }

    method RetrieveFileAsync() returns (o: Outcome)
      requires Blank()
      modifies this
      ensures Ended(o, old(retryCount))
      decreases MAX_RETRIES - retryCount, 3
    {
      match world.found(retryCount) {
        case Failed => o := LookupFailed;
        case Missing => o := NoMetadata;
        case Found(m) => o := RetrieveFileBlocks(m);
      }
    }

    method RetrieveFileBlocks(m: Metadata) returns (o: Outcome)
      requires Blank() && world.found(retryCount) == Found(m)
      modifies this
      ensures Ended(o, old(retryCount))
      decreases MAX_RETRIES - retryCount, 2
    {
      meta, all := m.shares, m.shares;
      if |meta| < CODE_K {
        o := ScheduleRetry();
      } else if m.k != CODE_K || m.n != CODE_N {
        o := Unsupported;
      } else {
        o := GetSomeBlocks(CODE_K);
      }
    }

    // A retrieval repeats itself only where some share number stands twice in the metadata.
    lemma EndlessNeedsRepetition(o: Outcome, from: nat)
      requires Ended(o, from) && o == Endless
      ensures world.found(retryCount).Found?
              && !DistinctIndices(world.found(retryCount).meta.shares)
    {
      var s :| s in meta;
      assert s.index in Indices(meta);
      if DistinctIndices(all) {
        NotStuck(all, meta, asked, blockIndices + requestedIndices, blocks.Keys);
      }
    }

    // Two shares of one number make it do so when only they are handed out.
    lemma TwinsHang(o: Outcome, from: nat)
      requires Ended(o, from) && HasTwins(world, from)
      ensures o == Endless && retryCount == from
    {
    }

    // Too few share numbers do so as well, even where blocks enough for the file are to be had.
    lemma AlwaysEndless(o: Outcome, from: nat, m: Metadata)
      requires Ended(o, from) && world.found(from) == Found(m)
      requires m.k == CODE_K && m.n == CODE_N
      requires |Fetched(world, from, m.shares)| >= CODE_K > |Indices(m.shares)|
      ensures o == Endless
    {
      FewerBlocks(m.shares, Available(world, from, m.shares));
      assert !ComesToNothing(world, from);
      if o == Decoding {
        assert retryCount == from && all == m.shares;
        SubsetSize(Indices(Elements(asked)), Indices(all));
        SubsetSize(blockIndices, Indices(Elements(asked)));
        assert false;
      }
    }

    // A retrieval from the beginning.  It goes on for ever only where the metadata has some share
    // number twice, and for such metadata there are answers with which it does (`Hang`).
    method Run() returns (o: Outcome)
      requires Blank() && retryCount == 0
      modifies this
      ensures Ended(o, 0)
      ensures o == Endless ==> retryCount <= MAX_RETRIES && world.found(retryCount).Found?
                               && !DistinctIndices(world.found(retryCount).meta.shares)
      ensures HasTwins(world, 0) ==> o == Endless
      ensures o != Endless ==> o == Ends(world, 0)
      ensures Attempted(world, retryCount, turns) && |past| == retryCount
      ensures forall a :: 0 <= a < retryCount ==> Attempted(world, a, past[a])
    {
      o := RetrieveFileAsync();
      if o == Endless {
        EndlessNeedsRepetition(o, 0);
      }
      if HasTwins(world, 0) {
        TwinsHang(o, 0);
      }
    }
  }

  // For any metadata that looks sufficient and has some share number twice there are answers with
  // which the retrieval goes on for ever, in whatever order keys are chosen and answers come in.
  method Hang(m: Metadata) returns (w: World, o: Outcome)
    requires |m.shares| >= CODE_K && m.k == CODE_K && m.n == CODE_N
    requires !DistinctIndices(m.shares)
    ensures w.found(0) == Found(m) && o == Endless
  {
    var s, t :| s in m.shares && t in m.shares && s != t && s.index == t.index;
    w := OnlyAnswers(m, s, t);
    TwinsHere(m, s, t);
    var f := new RetrieveFile(w);
    o := f.Run();
  }
}
