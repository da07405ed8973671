# flud: the distributed hash table, its codecs and its file layouts

A model of the parts of the flud backup node that carry its guarantees, with proofs of what those
parts promise. `dafny verify dfyconfig.toml` checks everything.

**Iterative lookups** (`Contacts`, `Network`, `LookupState`, `RunLog`, `FindNode`, `FindValue`,
`Store`). `k_find_node`, `k_find_value` and `k_store` are the loops of
`flud/protocol/ClientDHTPrimitives.py`, with `pending`, `queried`, `outstanding` and `kclosest` as the
state and one reply after the other absorbed into it. The network is a map from each live node to
its answer; `fails(round, node)` says which queries are lost, without any restriction. A map is
general enough because a node answers at most once in a run (`AnswersOnce`, proved), although a node
that failed may be asked again. A run keeps a log of its batches and replies; the candidate list
(`FindNode.Listing`), the queue (`RunLog.Queue`) and so each batch are functions of that log. The order
in which `list(set)` enumerates and the order in which the queries of a batch start and end are left
open.

**Routing table** (`Buckets`, `TableOps`, `TableRuns`, `Windows`, `NodeCaches`, `Routing`, `Config`,
`TableExamples`).
The classes `KBucket`, `KRouting`, `NodeCache` and `FludConfig` are edited in place as in
`flud/FludkRouting.py` and `flud/FludConfig.py`; they refine an insertion on values, about which the
invariants, the bounds over every run and the recency order are proved.

**Codec** (`Base64`, `Base64Text`, `Codec`, `CodecLaws`, `CodecText`, `Layers`, `CodecLoops`, `Decoded`,
`Utf8`, `MetaStore`). `fencode` and `fdecode` with the decoder's real leniency: Python's base64 decoder skips foreign characters, accepts
the standard alphabet and stops at the padding. Strings are their UTF-8 bytes.

**Block files** (`Accounting`, `BlockFiles`, `BlockLaws`). The class `BlockFile` edits the bytes of one file; every
session refines operations on a pair of data and accounting.

**Retrieval** (`ByteStrings`, `Multipart`, `MultipartLaws`, `Shares`, `Trails`, `Retrieval`). The server's
multipart printer against the client's parser, and the share-collecting loop of `RetrieveFile`.

## What the code does that its documentation does not say

- `kRouting.updateNode` returns nothing (flud/FludkRouting.py:236-241), so the replacement that
  flud/protocol/FludCommUtil.py:113-116 prepares never takes place: `Config.FludConfig.UpdateNode`
  proves that no other contact leaves the table.
- A split is only worth something on a range of at least three ids. At depth 3 and more a full bucket
  always has that (`Buckets.FullBucketIsWide`). On a smaller range it leaves the search where it was,
  however often it is repeated (`TableOps.SplitsForEver`), and at depth 1 and 2 there are tables in
  every id space where that happens (`TableExamples.DepthOneAndTwo`). The default depth is 12.
- The split test of `insertNode` leaves out the end of a range. A full bucket that
  ends with the local id is therefore not split, and the local id, known there and added under a second
  address, ends up in the cache as well (`TableExamples.LocalIdTwice`); this is the only way for an id
  to be in both (`Config.FludConfig.AddNode`).
- `NodeCache` calls itself an LRU cache and evicts first in, first out.
- `findNode` does not return the nearest contacts of the whole table but those of a window of buckets:
  `TableExamples.NearerLeftOut` is a table that leaves out its two nearest, and `Windows.NearestOfAll`
  says for which tables and ids the answer is the nearest of all.
- The doctest at flud/fencode.py:129 gives the length field of 65535 in the standard alphabet; the
  code uses the URL-safe one.
- `k_find_value` counts votes among values, but the first value it meets ends the search, so the
  count at flud/protocol/ClientDHTPrimitives.py:361 is never taken.
- The multipart parser strips a line end after a payload twice unless the part is the last one, so a
  payload before the last that closes with CRLF arrives two bytes short
  (`MultipartLaws.AnswerReadBack` gives the exact condition).
- `RetrieveFile` keeps asking itself for more shares, without changing anything, once every share that
  is left has a number already retrieved or still marked as requested; Python ends it with its
  recursion limit. For metadata with at least twenty shares and the supported coding scheme, there are
  answers with which this happens if and only if some share number stands in the metadata twice
  (`Shares.TwinsIff` with the contracts of `Retrieval.RetrieveFile.Run` and `Retrieval.Hang`), for
  example with 21 shares numbered 0 to 19 and 0 again (`Shares.TwentyOneHasTwins`).
- A `BlockFile` whose accounting changed, but not its checksum, is closed without being written
  (`BlockFiles.SessionFaithful`).

## Model

| member | source | states |
|---|---|---|
| FindNode.KFindNode | flud/protocol/ClientDHTPrimitives.py:179-268 | every run ends; its log tells what was asked in batches of the nearest waiting nodes, and the result is the list that the log leads to: with any failures each contact in it answered or is the asking node, and whoever was named and is left out lost a query or has 12 others as near; a single exact answer is the first one; when all reachable peers answer and each id but the local one stands for one address, it is exactly the 12 XOR-nearest of everything reachable |
| FindNode.Rounds | flud/protocol/ClientDHTPrimitives.py:229-263 | the round loop terminates under every failure pattern by (nodes yet to answer, length of the queue); no node answers twice, each round asks the (at most three) nearest nodes of the queue |
| FindNode.Round | flud/protocol/ClientDHTPrimitives.py:246-263 | one batch: replies handled in batch order keep the lookup invariant; without a new answer the queue does not grow |
| FindNode.Process | flud/protocol/ClientDHTPrimitives.py:250-263 | one reply: a lost query strikes that node and no other contact off the list, an answer is merged, the first exact answer stops the lookup |
| FindNode.UpdateState | flud/protocol/ClientDHTPrimitives.py:188-218 | an answer naming the key alone stops the search and is returned; any other is merged |
| FindNode.FinishedVouched | flud/protocol/ClientDHTPrimitives.py:230-268 | when the queue has run dry every listed contact answered or is local, and all are reachable |
| FindNode.FinishedNearest | flud/protocol/ClientDHTPrimitives.py:188-268 | ... and if every reachable node answers, the list is the nearest part of everything reachable |
| FindNode.ListedFailure | flud/protocol/ClientDHTPrimitives.py:252-259 | a lost query keeps the list the one of the log, and nobody leaves it but contacts at that node |
| FindNode.ListedAnswer | flud/protocol/ClientDHTPrimitives.py:201-210 | an answer keeps the list the one of the log, and whoever it cuts off has enough others as near |
| FindNode.CutLeavesOut | flud/protocol/ClientDHTPrimitives.py:207-210 | merging, sorting and cutting leave out only contacts that have 12 named others as near, or lost a query before |
| FindNode.FewAreAllListed | flud/protocol/ClientDHTPrimitives.py:250-268 | where at most 12 contacts were named, all are returned that never lost a query |
| FindNode.LookupSortsEverything | flud/protocol/ClientDHTPrimitives.py:207-210 | where ids are unique, sorting and cutting after every answer equals sorting the whole reachable set once |
| FindNode.FirstIsNearest | flud/protocol/ClientDHTPrimitives.py:179-268 | whichever way a run without failures ends, its first contact is the nearest reachable one |
| LookupState.Absorb | flud/protocol/ClientDHTPrimitives.py:197-218 | the merge of one answer: who is queried, the queue as a set, duplicate-free and sorted, the candidate list sorted and cut |
| LookupState.AddCandidates | flud/protocol/ClientDHTPrimitives.py:201-208 | the queue gains exactly the candidates that are neither queried nor in flight; the list gains the new ones in order |
| LookupState.DropQueried | flud/protocol/ClientDHTPrimitives.py:213-216 | exactly the queried nodes leave the queue |
| LookupState.AnswerTracked | flud/protocol/ClientDHTPrimitives.py:197-218 | the invariant over a merge: every listed contact is queried, queued or in the unprocessed batch, and the answerer had not answered before |
| LookupState.FailureTracked | flud/protocol/ClientDHTPrimitives.py:252-259 | the invariant over a failed query, which a later answer may queue again |
| RunLog.GoingPop | flud/protocol/ClientDHTPrimitives.py:231-232 | taking a batch off the queue moves its nodes to the batch in flight and keeps the invariant and the order of the log |
| RunLog.BatchChosen | flud/protocol/ClientDHTPrimitives.py:231-232 | a batch is the nearest part of the queue, which holds every named node that neither answered nor lost a query |
| RunLog.GoingAnswer | flud/protocol/ClientDHTPrimitives.py:197-218 | an answer keeps the queue the one that the log leads to, and the log truthful and in order |
| FindNode.StillNearest | flud/protocol/ClientDHTPrimitives.py:207-210 | merge, sort and cut turn the nearest of what was seen into the nearest of what is seen then |
| LookupState.SeenIsReachable | flud/protocol/ClientDHTPrimitives.py:230-263 | a search that runs dry without failure has seen exactly the reachable contacts |
| Network.ReachableLeast | flud/protocol/ClientDHTPrimitives.py:220-263 | the reachable contacts are closed under answers and contain the local table, and every such set contains them |
| Contacts.NearestMerge | flud/protocol/ClientDHTPrimitives.py:207-210 | newcomers merged into the k nearest of a set and cut again give the k nearest of both together |
| Contacts.SortOnceIsNearest | flud/protocol/ClientDHTPrimitives.py:267-268 | sorting a set by distance and cutting gives its k nearest |
| Contacts.NearestUnique | flud/protocol/ClientDHTPrimitives.py:267-268 | where distances differ there is only one list of the k nearest |
| Contacts.XorInjective | flud/FludkRouting.py:70-86 | different ids have different XOR distances to a key |
| RunLog.RunsOut | flud/protocol/ClientDHTPrimitives.py:230-263 | a search ends only after everybody who was named answered, failed or is local |
| RunLog.NoFailures | flud/protocol/ClientDHTPrimitives.py:250-263 | in a network where every reachable node answers no query of a run is lost |
| RunLog.OrderlyIsPaced | flud/protocol/ClientDHTPrimitives.py:230-232 | rounds that follow one another as the loop does never have more than three queries in flight |
| RunLog.Gather | flud/protocol/ClientDHTPrimitives.py:238-249 | the queries of a batch start and end in any order; nothing is outstanding when the replies are used, and each reply is that of its node |
| FindValue.KFindValue | flud/protocol/ClientDHTPrimitives.py:271-361 | the own value is returned at once with nobody asked; else the value of the first holder in the order of the replies, asked among the nearest waiting nodes and with no holder before it; None only after everybody who was named was asked, and without failures exactly if nobody reachable holds a value |
| FindValue.UpdateState | flud/protocol/ClientDHTPrimitives.py:282-314 | a value is counted, empties the queue and ends the search; a list of nodes is merged |
| FindValue.NobodyHolds | flud/protocol/ClientDHTPrimitives.py:323-360 | after a dry run without failures no reachable contact holds a value |
| FindValue.Rounds | flud/protocol/ClientDHTPrimitives.py:322-356 | the value search terminates under every failure pattern, asks the nearest waiting nodes and stops at the first holder |
| Store.KStore | flud/protocol/ClientDHTPrimitives.py:364-378 | the value is sent to all that a lookup of the key ends with, without failures the nearest reachable contacts; success means each of them holds exactly its encoding; failure exactly if some contact refuses; nobody else changes |
| Store.SendStores | flud/protocol/ClientDHTPrimitives.py:369-376 | exactly the contacts that do not refuse hold the text afterwards |
| Store.StoreThenFind | flud/protocol/ClientDHTPrimitives.py:271-378 | a stored value is found from any node that reaches as much as the storing one, or any storing contact, and decodes to what was stored |
| MetaStore.StoredTextUnchanged | flud/protocol/AiohttpServer.py:724-763 | a node stores exactly the text that was sent and answers exactly the text it stored |
| MetaStore.StoredValueUnchanged | flud/protocol/AiohttpServer.py:724-763 | whatever text is accepted, canonical or not, the stored text decodes to the same value and is answered as it is; it is accepted exactly if it decodes to something that can be encoded |
| Buckets.RangeHolds | flud/FludkRouting.py:401-416 | pigeonhole: distinct ids in a bucket are no more than its range holds |
| Buckets.FindCovers | flud/FludkRouting.py:276-286 | exactly one bucket covers an id of the id space, and the search by bucket ends finds it |
| Buckets.FullBucketIsWide | flud/FludkRouting.py:153-164 | a full bucket of depth at least three spans at least three ids |
| Buckets.NarrowSplitIsIdle | flud/FludkRouting.py:288-303 | one split of a range of one or two ids leaves the bucket as it is and the search where it was |
| Buckets.NarrowSplitsForEver | flud/FludkRouting.py:288-303 | ... and so does any number of splits |
| TableOps.SplitsForEver | flud/FludkRouting.py:153-164 | an insertion into such a full local bucket splits again after every number of splits |
| TableExamples.DepthOneAndTwo | flud/FludkRouting.py:126-164 | in every id space there are tables of depth 1 and of depth 2 at which an insertion never ends |
| Buckets.SplitTiles | flud/FludkRouting.py:288-303 | a split keeps the buckets tiling the id space with good contents |
| Buckets.SplitKeepsTable | flud/FludkRouting.py:158-164 | a split of the local bucket keeps the whole table invariant and strictly narrows that bucket |
| TableOps.InsertKeeps | flud/FludkRouting.py:140-175 | insertion keeps tiling, ranges, depth and unique ids, evicts no id, and knows the new contact exactly if it was placed |
| TableOps.OldestUnchanged | flud/FludkRouting.py:165-173 | when a contact is returned nothing changed, and it heads a full bucket that is not the local one |
| TableOps.InsertPlaces | flud/FludkRouting.py:140-175 | afterwards the contact is the last of its bucket or has no place there; where there was room it is the last, no bucket is split, no other one changes and the rest keeps its order |
| TableOps.InsertTwice | flud/FludkRouting.py:140-175 | inserting a contact once more changes nothing |
| TableOps.NamedWhen | flud/FludkRouting.py:153-173 | an insertion returns a contact exactly if the bucket found is full, does not hold the new one and is not split for the local id |
| TableOps.SplitKnown | flud/FludkRouting.py:300-303 | a split moves contacts and loses none |
| TableOps.IdsUnique | flud/FludkRouting.py:401-416 | an id stands for one contact in the whole table |
| TableOps.KnownWhere | flud/FludkRouting.py:276-286 | a known contact is in the bucket that the search finds |
| TableRuns.Run | flud/FludkRouting.py:126-191 | every run of insertions, removals and replacements keeps the table invariant and the recency order of every bucket |
| TableRuns.RunBounded | flud/FludkRouting.py:133-162 | after any run at most bits+1 buckets and depth*(bits+1) contacts |
| TableRuns.NamedIsLeastRecentlySeen | flud/FludkRouting.py:165-173 | after any run the contact that insertion returns is the least recently seen one of its full bucket |
| TableRuns.InsertRecency | flud/FludkRouting.py:401-416 | insertion, with all its splits, keeps buckets ordered by last sighting |
| TableRuns.RemoveKeeps | flud/FludkRouting.py:177-182 | removal keeps the invariant and removes exactly that contact |
| Windows.AnswerSize | flud/FludkRouting.py:193-219 | an answer holds min(depth, all contacts) contacts, all known |
| Windows.NearestOfAll | flud/FludkRouting.py:193-219 | the answer is the nearest part of the whole table exactly if each contact outside the window is farther than `depth` contacts inside |
| Windows.SmallTable | flud/FludkRouting.py:193-219 | a table of at most `depth` contacts answers with all of them |
| TableExamples.NearerLeftOut | flud/FludkRouting.py:193-219 | a table reached by five sightings that answers three contacts and leaves out two nearer ones |
| Windows.AnswerStartsWithExact | flud/FludkRouting.py:193-219 | a known contact with the wanted id comes first |
| Windows.Widen | flud/FludkRouting.py:209-216 | adding a neighbouring bucket widens the window by it without duplicates |
| Routing.KBucket.AddNode | flud/FludkRouting.py:401-416 | the new list: known contacts move to the tail, a full bucket refuses, an old address is replaced |
| Routing.KBucket.UpdateNode | flud/FludkRouting.py:418-423 | as adding |
| Routing.KBucket.DelNode | flud/FludkRouting.py:425-430 | removes that contact if present |
| Routing.KBucket.FindNode | flud/FludkRouting.py:432-436 | a contact with the id, None only if there is none |
| Routing.KRouting.constructor | flud/FludkRouting.py:126-138 | one bucket over the id space that holds the local node, an empty cache |
| Routing.KRouting.BisectLeft | flud/FludkRouting.py:282-286 | the binary search through the bucket comparators finds the first bucket not ending before the id |
| Routing.KRouting.FindBucket | flud/FludkRouting.py:276-286 | the bucket of an id; none exactly beyond the id space |
| Routing.KRouting.IndexOfId | flud/FludkRouting.py:297-297 | `list.index` with the overloaded equality finds the covering bucket |
| Routing.KRouting.IndexOfBucket | flud/FludkRouting.py:260-274 | `list.index` with a bucket, compared by overlap, finds that bucket itself |
| Routing.KRouting.Halve | flud/FludkRouting.py:294-303 | the upper half of range and contents moves to a new bucket right behind, order kept, no other bucket touched |
| Routing.MoveUpperHalf | flud/FludkRouting.py:300-303 | the loop over a copy moves exactly the contacts above the new end, in order |
| Routing.KRouting.SplitBucket | flud/FludkRouting.py:288-303 | refines the split on values for every bucket; the table stays one if the bucket is the local one and spans more than two ids |
| Routing.KRouting.InsertNode | flud/FludkRouting.py:140-175 | terminates, refines the insertion on values; a placed contact leaves the cache and its order list, nothing else changes there; an id beyond the space changes nothing |
| Routing.KRouting.RemoveNode | flud/FludkRouting.py:177-182 | refines the removal on values |
| Routing.KRouting.ReplaceNode | flud/FludkRouting.py:184-191 | refines removal followed by insertion, whose result is dropped |
| Routing.KRouting.UpdateNode | flud/FludkRouting.py:236-241 | refines the insertion and gives nothing back |
| Routing.KRouting.NextBucket | flud/FludkRouting.py:260-266 | the following bucket or none |
| Routing.KRouting.PrevBucket | flud/FludkRouting.py:268-274 | the preceding bucket or none |
| Routing.KRouting.FindNode | flud/FludkRouting.py:193-219 | exactly the nearest contacts of a window of buckets that was widened only as long as it held too few |
| Routing.KRouting.GetNode | flud/FludkRouting.py:221-233 | a contact of that id from its bucket or the cache; None only if neither has one |
| Routing.InsertCases | flud/FludkRouting.py:153-175 | the three ways of an insertion and why each keeps going towards an end |
| NodeCaches.NodeCache.InsertNode | flud/FludkRouting.py:35-46 | first in, first out: a new id goes to the tail and pushes the head out of a full cache, a known one changes nothing; the order list stays a duplicate-free permutation of the keys of at most `size` entries |
| NodeCaches.NodeCache.RemoveNode | flud/FludkRouting.py:56-65 | key and order entry leave together |
| NodeCaches.NodeCache.GetNode | flud/FludkRouting.py:48-54 | the one cached contact of the id; None exactly if the id is not in the order list |
| Config.FludConfig.AddNode | flud/FludConfig.py:494-521 | a new id changes the table as an insertion does: where there was room it is the last of its bucket, and without a place it is queued first in, first out; no id is in a bucket and in the cache, which is lost exactly if the local id comes new with another address, and its bucket ends with it, is full and knows it |
| Config.FludConfig.UpdateNode | flud/protocol/FludCommUtil.py:94-116 | for every id the table becomes what one insertion makes of it, and so does the cache; nobody else is dropped |
| TableExamples.LocalIdTwice | flud/FludConfig.py:504-519 | the case in which an id gets into a bucket and into the cache, at a table reached by three sightings |
| Base64.DecodeEncode | flud/fencode.py:148-148 | decoding what base64 encoded gives the bytes back |
| Base64.EncodeShape | flud/fencode.py:148-148 | four characters for every three bytes, all ASCII |
| Base64Text.EncodedAt | flud/fencode.py:148-148 | section 4 of RFC 4648: six bits of every three bytes for each symbol, padding where there is no byte |
| Base64Text.SymbolsInOrder | flud/fencode.py:148-148 | the alphabet of section 5 of RFC 4648 |
| Base64Text.TestVectors | flud/fencode.py:148-148 | the test vectors of section 10 of RFC 4648 |
| Base64Text.DecodeSkips | flud/fencode.py:275-275 | the decoder skips a foreign character wherever it stands |
| Base64Text.OtherTexts | flud/fencode.py:275-275 | the standard symbols are read as well; text beyond ASCII and a group of one symbol are errors |
| Codec.LenRoundTrip | flud/fencode.py:123-135 | length fields have three characters and are read back, for every length up to 65535 |
| CodecLaws.RoundTrip | flud/fencode.py:26-330 | decoding an encoded value, with or without length prefix, gives it back, nested encodings peeled as far as asked |
| CodecLaws.DecodesWhatWasEncoded | flud/fencode.py:26-330 | fdecode(fencode(v)) is v with booleans as integers, for every value that can be encoded |
| CodecLaws.EncodingInjective | flud/fencode.py:137-221 | different values have different encodings |
| CodecLaws.FrameScanned | flud/fencode.py:239-254 | a length-prefixed value at the head of any text is read back to its end and not beyond |
| CodecLaws.ElemsRoundTrip | flud/fencode.py:301-318 | concatenated frames split back into exactly the sequence they were made from |
| CodecLaws.ItemsRoundTrip | flud/fencode.py:290-300 | ... and concatenated pairs into the dict, in order |
| CodecLaws.IntRoundTrip | flud/fencode.py:140-157 | integers of any size and sign come back |
| CodecText.EvenCount | flud/fencode.py:141-147 | a number takes an even count of bytes, at least two, and no more than it needs |
| CodecText.KnownLengths | flud/fencode.py:123-135 | the length fields of 1, 4, 255 and 65535 |
| CodecText.KnownNumbers | flud/fencode.py:137-157 | the texts of small numbers of either sign and of True, and of a number inside another value |
| CodecText.LargestSmallNumber | flud/fencode.py:149-149 | the largest number of the small letter |
| CodecText.SmallestLargeNumber | flud/fencode.py:149-151 | the smallest numbers of the large letter |
| CodecText.KnownTexts | flud/fencode.py:158-176 | the texts of a string and of bytes |
| CodecText.KnownNone | flud/fencode.py:207-219 | the texts of None and of an encoding inside an encoding |
| CodecText.KnownList | flud/fencode.py:187-196 | the parts of a list one behind the other with their lengths |
| CodecText.TupleLikeList | flud/fencode.py:187-206 | a tuple is written like a list but for its letter |
| CodecText.KnownDict | flud/fencode.py:177-186 | each key before its value |
| CodecText.EitherLetter | flud/fencode.py:274-285 | a number is read alike after either letter of its sign |
| CodecText.NoEncoding | flud/fencode.py:265-330 | empty text and foreign letters are errors |
| CodecText.LengthIgnored | flud/fencode.py:266-268 | the length in front of a value is not compared with what follows |
| CodecText.OverlongLength | flud/fencode.py:239-254 | a length beyond the end of the text takes what there is |
| CodecText.LastValueCounts | flud/fencode.py:290-300 | of a key that stands twice the last value counts |
| CodecLaws.UnwrapPlain | flud/fencode.py:319-324 | without leave to peel, nested encodings stay as they are |
| Decoded.DecodingPlain | flud/fencode.py:223-330 | whatever text is decoded, the value has well-formed text, hashable and different keys and no booleans |
| Utf8.TextRoundTrip | flud/fencode.py:259-260 | text written as UTF-8 bytes is read back |
| Utf8.BytesRoundTrip | flud/fencode.py:259-260 | bytes are read as text exactly if they are well-formed UTF-8, and are the bytes of that text |
| Layers.DecodingPeels | flud/fencode.py:319-324 | decoding a layered value peels exactly the layers that the recursion level reaches, on every path |
| Layers.PeelTower | flud/fencode.py:319-324 | n levels of recursion peel min(n-1, depth) layers of a tower |
| Layers.PeelAll | flud/fencode.py:319-324 | `recurse=True` leaves no layer on any path |
| CodecLoops.Fencode | flud/fencode.py:137-221 | the recursion over strings under construction computes the encoding, or fails exactly where a length does not fit |
| CodecLoops.FencodeElems | flud/fencode.py:187-206 | the loop over a list or tuple concatenates the frames of its elements in order |
| CodecLoops.FencodeItems | flud/fencode.py:177-186 | the loop over a dict concatenates the frames of keys and values in order |
| CodecLoops.Fdecode | flud/fencode.py:223-330 | the decoder with its loops agrees with the decoding on every text, errors included |
| CodecLoops.FdecodeElems | flud/fencode.py:301-318 | the list loop |
| CodecLoops.FdecodeItems | flud/fencode.py:290-300 | the dict loop, a repeated key keeping its place |
| CodecLoops.ScanValue | flud/fencode.py:239-254 | one value and where it ends |
| BlockFiles.ParseLayout | flud/protocol/BlockFile.py:156-161 | opening reads back the data and the accounting that were laid out |
| BlockFiles.ParsedPlain | flud/protocol/BlockFile.py:161-161 | the accounting of any file that can be opened is read back unchanged when it is laid out again |
| BlockFiles.UnpackPack | flud/protocol/BlockFile.py:43-43 | the eight-byte size is read back |
| BlockFiles.HeaderBytes | flud/protocol/BlockFile.py:43-43 | the eight bytes of a size, the least significant first |
| BlockFiles.Convert | flud/protocol/BlockFile.py:28-63 | an ordinary file becomes a block file which, opened, has its bytes as data and at most the given entry; it fails exactly if the metadata is no dict, the id cannot be hashed or a length does not fit |
| BlockFiles.BlockFile.constructor | flud/protocol/BlockFile.py:152-167 | opening shows the data from its start, with the stored accounting |
| BlockFiles.BlockFile.Read | flud/protocol/BlockFile.py:172-180 | reads on the data alone, never the accounting behind it |
| BlockFiles.BlockFile.Seek | flud/protocol/BlockFile.py:182-187 | positions within the data |
| BlockFiles.BlockFile.Write | flud/protocol/BlockFile.py:197-206 | overwrites and grows the data and its header, also over the stored accounting |
| BlockFiles.BlockFile.AddNode | flud/protocol/BlockFile.py:221-233 | adds or merges metadata as on the abstract accounting |
| BlockFiles.BlockFile.DelNode | flud/protocol/BlockFile.py:245-257 | removes as on the abstract accounting, True meaning the key 1; raises for what cannot be hashed |
| BlockFiles.BlockFile.Close | flud/protocol/BlockFile.py:208-219 | the accounting is written behind the data, and the file cut, exactly when something changed |
| BlockFiles.OverwriteView | flud/protocol/BlockFile.py:197-206 | overwriting bytes of the file is overwriting the data, whatever lay behind it |
| BlockLaws.OverwriteAt | flud/protocol/BlockFile.py:197-206 | byte by byte, what was written where it was written and what was there elsewhere |
| BlockLaws.WriteThenRead | flud/protocol/BlockFile.py:172-206 | what was written is read back, with the position behind it |
| BlockLaws.ReadTakes | flud/protocol/BlockFile.py:172-180 | a read takes the next bytes, as many as asked for and as there are, and leaves the others |
| BlockLaws.Sought | flud/protocol/BlockFile.py:182-187 | seeking goes where it is told within the data |
| BlockLaws.ReadOnly | flud/protocol/BlockFile.py:221-247 | a file opened for reading never changes, and every attempt to change it raises |
| BlockFiles.Session | flud/protocol/BlockFile.py:152-257 | any file that opens, any operations, close: the file read again holds what the operations make of the pair of data and accounting, every answer is the same, and the file opens again |
| BlockFiles.SessionFaithful | flud/protocol/BlockFile.py:208-219 | the new accounting is in the file exactly if something was written, the checksums differ, or it is unchanged |
| BlockFiles.AddedMeaning | flud/protocol/BlockFile.py:221-233 | adding overrides the named entries, keeps the node's others and touches no other node |
| BlockFiles.AddedWhen | flud/protocol/BlockFile.py:221-233 | exactly when adding raises |
| BlockFiles.AddedNil | flud/protocol/BlockFile.py:224-226 | without metadata a node is put on record, and one on record loses its own |
| BlockFiles.RemovedOthers | flud/protocol/BlockFile.py:245-257 | removal raises exactly if the id cannot be hashed, or an entry is named of a node on record that has no dict or whose key cannot be hashed; otherwise it touches no other node, and a node that stays has metadata left |
| BlockFiles.RemovedEntry | flud/protocol/BlockFile.py:252-257 | removing one entry succeeds but for those cases and keeps the other entries, and the node with them |
| BlockFiles.DelUndoesAdd | flud/protocol/BlockFile.py:221-257 | deleting a node just added for the first time gives the old accounting back |
| Multipart.BuildMultipart | flud/protocol/AiohttpServer.py:168-179 | the chunks joined are the delimiters, header lines and payloads in order, with the closing delimiter |
| Multipart.SaveRetrieveResponse | flud/protocol/ClientPrimitives.py:415-471 | the files written and named are those of the parts read, in order; without any part the whole body under the file key |
| Multipart.SavePiece | flud/protocol/ClientPrimitives.py:435-463 | what one piece between delimiters gives, or why it gives nothing |
| Multipart.ReadFields | flud/protocol/ClientPrimitives.py:452-456 | the header loop: names in lower case, the last line of a name wins |
| MultipartLaws.AnswerReadBack | flud/protocol/ClientPrimitives.py:432-467 | parsing what was printed gives the parts back, and unchanged exactly if no payload before the last closes with CRLF; an answer without parts is kept whole |
| MultipartLaws.SplitBody | flud/protocol/ClientPrimitives.py:433-434 | the separator occurs in the printed answer only where the printer put it |
| MultipartLaws.TextRead | flud/protocol/ClientPrimitives.py:439-463 | one printed part is read back: id, and payload up to the second stripped line end |
| MultipartLaws.HeadersSplit | flud/protocol/ClientPrimitives.py:449-456 | the printed header lines come apart again |
| MultipartLaws.ContentIdRead | flud/protocol/ClientPrimitives.py:451-459 | the id is found among the header lines |
| MultipartLaws.DecimalIs | flud/protocol/AiohttpServer.py:174-174 | the length is written in decimal digits without leading zeros |
| MultipartLaws.LengthRead | flud/protocol/AiohttpServer.py:174-174 | the length found among the header lines is that of the payload |
| MultipartLaws.PrintedAnswer | flud/protocol/AiohttpServer.py:168-179 | the printed answer of one small part, line by line |
| MultipartLaws.HeadersOfTheAnswer | flud/protocol/AiohttpServer.py:509-509 | the client takes the boundary from the header that the server sends it in |
| MultipartLaws.WrittenHolds | flud/protocol/ClientPrimitives.py:464-467 | files of different names are all there with their payloads, other files are untouched |
| MultipartLaws.Transfer | flud/protocol/ClientPrimitives.py:415-467 | from the server's parts to the client's files: every file arrives as it was sent |
| ByteStrings.SplitJoin | flud/protocol/ClientPrimitives.py:434-434 | splitting undoes joining when no piece lets the separator occur early |
| Retrieval.RetrieveFile.Run | flud/FludFileOperations.py:748-757 | the retrieval ends within six attempts with the verdict of the first that does not come to nothing, unless it repeats itself for ever; it does so only if some share number stands in the metadata twice, and always if only two shares of one number are handed out; every attempt first wants twenty keys, then three at a time while fewer than twenty blocks were brought, best ranked ones first, and asks for no key twice, nor for a number if they differ |
| Shares.DecodingWhen | flud/FludFileOperations.py:999-1017 | decoding exactly if some attempt finds twenty blocks and those before came to nothing |
| Retrieval.RetrieveFile.RetrieveFileBlocks | flud/FludFileOperations.py:765-822 | too few shares retry before the coding scheme is looked at; another scheme is refused |
| Retrieval.RetrieveFile.GetSomeBlocks | flud/FludFileOperations.py:856-924 | termination by (retries left, shares left), or nothing more can be asked |
| Retrieval.RetrieveFile.RequestBatch | flud/FludFileOperations.py:856-923 | a batch of the best keys leaves the metadata and is recorded with the requests it makes, or every share number left is taken and nothing changes |
| Retrieval.RetrieveFile.Choose | flud/FludFileOperations.py:857-881 | as many keys as wanted or one of each number that is neither retrieved nor requested; a key is passed over only for as good a key of its number, or when all chosen ones are as good |
| Trails.HeadIsBest | flud/FludFileOperations.py:866-885 | the head of the selection is such a choice |
| Trails.TrailMore | flud/FludFileOperations.py:883-916 | what one more batch makes of requests and metadata |
| Retrieval.RetrieveFile.Ask | flud/FludFileOperations.py:883-916 | chosen keys leave the metadata; exactly those whose block is not at hand are requested, none a second time |
| Retrieval.RetrieveFile.Take | flud/FludFileOperations.py:969-997 | what each answer changes |
| Retrieval.RetrieveFile.Finish | flud/FludFileOperations.py:926-997 | any answer keeps the count equal to the blocks, metadata files and share numbers at hand, and keeps exactly what was handed out |
| Retrieval.RetrieveFile.Collect | flud/FludFileOperations.py:917-923 | ... whatever the order in which the requests of a batch finish |
| Retrieval.RetrieveFile.RetrievedAll | flud/FludFileOperations.py:999-1017 | decoding starts only with at least twenty blocks of different share numbers; a retry only when fewer were to be had |
| Retrieval.RetrieveFile.ScheduleRetry | flud/FludFileOperations.py:1133-1150 | everything is forgotten but the number of retries, of which there are five |
| Retrieval.RetrieveFile.EndlessNeedsRepetition | flud/FludFileOperations.py:868-880 | the collecting repeats itself only if some share number stands in the metadata twice |
| Retrieval.RetrieveFile.TwinsHang | flud/FludFileOperations.py:868-880 | it does so in the first attempt if just two shares of one number are handed out |
| Retrieval.Hang | flud/FludFileOperations.py:748-1017 | for all metadata with a repeated number, answers with which the retrieval never ends, whatever the order of requests and answers |
| Shares.TwinsIff | flud/FludFileOperations.py:868-880 | for metadata that looks sufficient such answers exist if and only if some number stands in it twice |
| Shares.TwentyOneHasTwins | flud/FludFileOperations.py:868-880 | the numbers 0 to 19 and 0 again are such metadata |
| Retrieval.RetrieveFile.AlwaysEndless | flud/FludFileOperations.py:868-880 | with fewer than twenty share numbers but twenty blocks to be had it always repeats itself |
| Shares.OncePerIndex | flud/FludFileOperations.py:868-880 | with different share numbers no number is requested twice in an attempt |
| Shares.FirstOfEachIs | flud/FludFileOperations.py:866-875 | the selection has one key for exactly the share numbers that are not taken |
| Shares.AllFetched | flud/FludFileOperations.py:1012-1017 | when nothing is left to ask for, every block that was to be had is at hand |

## Left out

- HTTP, sockets, timeouts, threads and the async runtime: a query brings an answer or is lost.
- The `eval` of answers and the check of peers' keys: an answer is a list of contacts, and a responder
  has the id it is listed under.
- The closest live contacts under failures: cutting the candidate list early may lose a live contact
  for one that fails later, so only membership and answers are claimed then.
- AiohttpServer, `_handle_meta_get`: projecting a stored dict to the asking node (flud/protocol/AiohttpServer.py:758-759);
  values are returned whole. Empty value files are left out as well.
- `kRouting.knownNodes` and `knownExternalNodes`: plain enumerations.
- Routing.KRouting.constructor: takes depths of at least 3; at depth 1 and 2 an insertion may split for ever, as is shown above.
- Config.FludConfig.AddNode: reputations and the stored key material of `nodes` are not modelled.
- `updateNode` without a public key: the query for the peer's id and the record of pending queries.
- `fdecode` of a `Fencoded` object or of bytes, which is `fdecode` of the text inside.
- BlockFiles.BlockFile.AddNode: stores a value, so that a caller who changes the dict afterwards does not change the accounting; ids and metadata added in a session hold integers rather than booleans.
- BlockFiles.BlockFile.constructor: opens only files whose accounting is a dict, as every file written by this code is.
- BlockFiles.Session: append mode, sizes beyond 2^64 and big-endian machines are not modelled; the checksum is a parameter.
- BlockFiles.BlockFile.DelNode: metadata of a node that is neither a dict nor None, as only a foreign file could have it, makes it raise.
- Multipart.SavePiece: a content id outside ASCII is not decoded, and the path is the id itself.
- Retrieval.RetrieveFile.RetrieveFileBlocks: the pruning of `bad_nodes` is not modelled, since the set is emptied before every lookup; nor are block locations that are lists.
- Retrieval.RetrieveFile.Choose: reputation is a rank of keys, and keys of equal rank come in any order.
- Decoding, decryption and the files they write: flud/FludFileOperations.py:1019-1118.
- `StoreFile`, `AggregateStore`, tarballs, challenges, RSA, AES, zfec, the scheduler and the user interfaces.
