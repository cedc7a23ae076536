# Proofs about the contrib modules

A model, in Dafny, of the parts of the contrib modules that hold the hardest guarantees, and
proofs of those guarantees for all inputs, all runs and all reachable states. `dafny verify
dfyconfig.toml` checks everything.

The files follow the modules they model.

- **Audit log queue** (`Alog*`). Byte rings with one producer and one consumer each, a consumer
  that moves framed messages into a cache, and a writer that drains the cache into a file.
  `AlogQueue` is the queue as a class over a byte array; `AlogPipeline` is the whole pipeline as
  a system of atomic steps with private snapshots of heads and tails, `AlogDrain`
  shows that every run can go on until the file holds what was accepted, and `AlogFair` that it
  comes to this whenever consumer and writer are always given another turn; `AlogOffers` ties it
  to what the producers offer. Steps are sequentially consistent.
- **Variable-length keys of btree_gist** (`Bytea`, `BtreeGist*`). Keys whose bounds are cut two
  bytes past their common prefix, the prefix match that repairs this in searches, and trees of
  any depth built by runs of inserts and splits. The instance is `bytea`.
- **Range keys of intarray** (`IntRanges*`). Greedy compression of integer arrays to 100 ranges,
  and decompression in 32-bit arithmetic.
- **Query language of intarray** (`BoolQuery`, `Query*`). From the characters of a query to its
  stored items and back: scanner, the texts it accepts, parser with an operator stack, links,
  evaluation, printer, and the analysis behind GIN scans.
- **Signature keys of intarray and hstore** (`Signature*`, `IntSignatures`, `HstoreSignatures`).
  Hashed bit strings, unions and page splits for any number of bits, runs of inserts and
  splits, and searches that find every row that the operators accept. The checksum of hstore
  is a parameter.
- **hstore** (the other `Hstore*`). The packed form, its builder over bytes of memory, the in-place
  thinning of pairs, search with a carried lower bound, merges, text input and output with
  the texts that are accepted, and the upgrade of old values.
- **amcheck** (`Amcheck*`). The verifier of B-tree indexes in the mode that locks the index: what
  passes is in order as far as it looks, and what is in order passes.

Where a promised property is false of the code, the code is kept, an input shows that it fails,
and a lemma states exactly when it holds.

- A split of an inner page in `gbt_var_picksplit` can make a stored value unfindable, because
  both sides are cut after the longer of the two common prefixes (`SplitLosesValue`;
  `SplitCoversIff` and `SplitFindsIff` give the exact conditions for one split, which leaf pages
  always meet, and `RunReachedIff` that for an entry of any tree).
- Range compression is optimal if and only if no gap between neighbours exceeds INT_MAX, since
  gaps are compared as wrapped 32-bit differences (`WideGapExample`, `ShrinkOptimalIff`).
- A compressed key can be decompressed if and only if its integers fit in one allocation and the
  last is not INT_MAX, which the loop variable cannot pass (`LargestIntExample`, `ReturnsIff`).
- The 16-bit links of a query reach if and only if right operands have at most 32767 items
  (`LinkPastTheEnd`, `LinksReachIff`).
- A stored query is printed if and only if no buffer has to hold 2^29 bytes (`ReadNotPrinted`,
  `OutThenIn` of `QueryOutput`).
- An hstore with more than 2^24 pairs can be printed and not read back (`PrintedNotRead`,
  `OutThenIn` of `HstoreIO`).
- The short cut of `hstoreUpgrade` takes some old values with a null in front for new ones
  (`ShortCutExample`, `ShortCutMistakes`). The comment that values which pass the tests of both
  formats have bytes to spare is true of one entry and false of two (`SingleHasPadding`,
  `ExactlyBoth`, `AmbiguousIff`).
- A check of an index can pass over keys out of order behind an empty page (`EmptyPageHides`,
  `LevelInOrderIff`), never reach the leaves if a leftmost downlink is block 0
  (`DescentCutShort`, `ReachesLeavesIff`), and walk in circles over deleted pages
  (`CircleNeverEnds`; `CheckLevel` and `CheckEveryLevel` state exactly when).

Conventions. Lists of any length are sequences, buffers of fixed size are arrays, and C strings
are sequences without their terminator. Errors are results. Integers are unbounded except where
the width matters, and there wrapping is written out. An allocation fails above 0x3fffffff bytes.
Library sorts are replaced by an insertion sort that promises a sorted permutation and nothing
about ties. `isspace` is that of the C locale, and `strtol` returns 0 for a lone sign. A user
who cancels a check of an index does so after a number of interrupt checks that is a parameter.
The keys of an index are their ranks in the order of the operator class. Recursive functions of
the query language have all the stack they need: the errors of `check_stack_depth` are not
modelled. Arrays that are handed in fit in one allocation.

## Model

| member | source | states |
|---|---|---|
| `AlogRing.Used` | contrib/audit_test/audit_test_AlogQueue.c:116-124 | the modulus arithmetic is the distance from head to tail around the ring |
| `AlogRing.Remain` | contrib/audit_test/audit_test_AlogQueue.c:130-140 | all but one of the bytes that are not used; one byte always stays free |
| `AlogRing.FullHasNoRoom` | contrib/audit_test/audit_test_AlogQueue.c:82-95 | a ring counts as full if and only if no room remains |
| `AlogRing.ViewAppend` | contrib/audit_test/audit_test_AlogQueue.c:185-271 | two stretches of a ring, each possibly wrapped, make one stretch |
| `AlogRing.LenRoundTrip` | contrib/audit_test/audit_test_AlogQueue.c:282-325 | a length written as four bytes is read back |
| `AlogRing.FramesInjective` | contrib/audit_test/audit_test_AlogQueue.c:376-578 | a byte stream of frames determines its messages, so none can be torn or merged |
| `AlogChannel.FillByte` | contrib/audit_test/audit_test_AlogQueue.c:224-263 | copying one byte behind the tail disturbs neither earlier bytes nor a pending message |
| `AlogChannel.PublishFrame` | contrib/audit_test/audit_test_AlogQueue.c:265-265 | storing the tail adds exactly the copied message, whole |
| `AlogChannel.ReadFront` | contrib/audit_test/audit_test_AlogQueue.c:426-469 | what lies at the consumer's private head is the frame of the oldest pending message, for every wrap position |
| `AlogChannel.TakeFront` | contrib/audit_test/audit_test_AlogQueue.c:471-485 | moving the private head past a frame takes exactly one message |
| `AlogPipelineProof.StepKeeps` | contrib/audit_test/audit_test_AlogQueue.c:185-578 | each of the fourteen atomic steps of producers, consumer and writer keeps the invariant of the pipeline |
| `AlogPipelineProof.PublishMoveKeeps` | contrib/audit_test/audit_test_AlogQueue.c:376-490 | the step that publishes to the cache before the ring's head moves neither loses nor repeats the message |
| `AlogPipelineProof.NextMessageKeeps` | contrib/audit_test/audit_test_AlogQueue.c:495-578 | writing a message out moves it from the cached to the written ones |
| `AlogPipelineProof.RunKeeps` | contrib/audit_test/audit_test_AlogQueue.c:679-746 | the invariant holds after every run, and the accepted messages are those published along it |
| `AlogPipelineProof.EveryRunConserves` | contrib/audit_test/audit_test_AlogQueue.c:185-578 | in every interleaving, each producer's accepted messages are, in order, those in the file, those in the cache and those in its ring past the consumer's private head; file and cache hold messages of these producers only |
| `AlogPipelineProof.AllCounted` | contrib/audit_test/audit_test_AlogQueue.c:376-578 | a list that holds messages of these producers only is no longer than what each of them has in it, so nothing in it is repeated or made up |
| `AlogPipelineProof.DrainedRun` | contrib/audit_test/audit_test_AlogQueue.c:679-746 | once all rings are drained and all threads rest, the file holds exactly the accepted messages of every producer, and nothing else |
| `AlogDrain.StepFits` | contrib/audit_test/audit_test_AlogQueue.c:376-490 | only messages whose frame fits in the empty cache ever leave their ring |
| `AlogDrain.LookCopies` | contrib/audit_test/audit_test_AlogQueue.c:376-490 | whenever the cache has room for the first message of the ring that the consumer looks at, the look leads to a copy of that message |
| `AlogDrain.LooksOn` | contrib/audit_test/audit_test_AlogQueue.c:708-726 | an idle consumer, which visits the rings in turn, finds a message to move at the next ring or gets one ring nearer to such a ring |
| `AlogDrain.ConsumerGoesOn` | contrib/audit_test/audit_test_AlogQueue.c:376-490 | whenever nothing is left to write and some ring has such a message in front, the consumer's next step brings a move nearer |
| `AlogDrain.WriterGoesOn` | contrib/audit_test/audit_test_AlogQueue.c:495-578 | whenever something is left to write, so has the writer |
| `AlogDrain.Drain` | contrib/audit_test/audit_test_AlogQueue.c:679-746 | from every state that satisfies the invariant, consumer and writer can go on until nothing that is left can move |
| `AlogDrain.EveryRunStops` | contrib/audit_test/audit_test_AlogQueue.c:376-578 | in no run does the file hold a message that does not fit in the empty cache, or that was accepted behind one from the same producer, or one of no producer |
| `AlogDrain.EveryRunDrains` | contrib/audit_test/audit_test_AlogQueue.c:376-578 | every run can go on, without a step of a producer, until the file holds all other accepted messages of every producer, and nothing else |
| `AlogDrain.AllAcceptedPass` | contrib/audit_test/audit_test_AlogQueue.c:789-793 | if no ring is larger than the cache, every accepted message fits in the empty cache |
| `AlogDrain.EveryRunDrainsAll` | contrib/audit_test/audit_test_AlogQueue.c:679-746 | so every run can go on until the file holds all that every producer had accepted, and nothing else |
| `AlogFair.FairlyEnds` | contrib/audit_test/audit_test_AlogQueue.c:679-746 | two threads of which the awaited one always gets nearer to the end, and the other takes nothing back, end under every schedule that always gives each another turn |
| `AlogFair.EveryStepIsATurn` | contrib/audit_test/audit_test_AlogQueue.c:679-746 | turns of consumer and writer leave out no step but those of producers |
| `AlogFair.ConsumerBetween` | contrib/audit_test/audit_test_AlogQueue.c:376-490 | while something is left to write, a turn of the consumer takes nothing back from the writer |
| `AlogFair.PipelineProgresses` | contrib/audit_test/audit_test_AlogQueue.c:679-746 | in every reachable state that is not drained, the pipeline meets this |
| `AlogFair.DrainedStays` | contrib/audit_test/audit_test_AlogQueue.c:376-578 | once nothing that is left can move, no turn of a thread changes the file |
| `AlogFair.FairRunDrains` | contrib/audit_test/audit_test_AlogQueue.c:679-746 | after any run, under every fair schedule of consumer and writer, there is a turn from which on the file holds exactly what can pass of every producer's accepted messages |
| `AlogFair.FairRunDrainsAll` | contrib/audit_test/audit_test_AlogQueue.c:679-746 | if no ring is larger than the cache, that is all they had accepted |
| `AlogOffers.RefusedChangesNothing` | contrib/audit_test/audit_test_AlogQueue.c:214-222 | an offer for which the ring has no room changes nothing |
| `AlogOffers.OfferedIsAccepted` | contrib/audit_test/audit_test_AlogQueue.c:185-271 | in every run, the messages offered to a ring with room are, in order and byte for byte, those it accepted and the one being copied |
| `AlogOffers.EveryOfferAccounted` | contrib/audit_test/audit_test_AlogQueue.c:185-578 | so at every moment they are those in the file, those in the cache, those in the ring and the one being copied |
| `AlogOffers.EveryOfferArrives` | contrib/audit_test/audit_test_AlogQueue.c:679-746 | with rings no larger than the cache, every fair schedule brings the file to hold exactly what was offered to rings with room |
| `AlogOffers.OfferSucceeds` | contrib/audit_test/audit_test_AlogQueue.c:185-271 | an idle producer can have any message accepted that its ring has room for, by steps of its own |
| `AlogQueue.Queue.constructor` | contrib/audit_test/audit_test_AlogQueue.c:597-620 | a new queue is empty |
| `AlogQueue.Queue.CopyIn` | contrib/audit_test/audit_test_AlogQueue.c:226-260 | one buffer is copied behind the tail, around the end if need be, and nothing else changes |
| `AlogQueue.Queue.PushN` | contrib/audit_test/audit_test_AlogQueue.c:185-271 | all or nothing: on success the contents grow by the joined buffers, on failure nothing changes, and live bytes are never overwritten |
| `AlogQueue.Queue.GetStrLen` | contrib/audit_test/audit_test_AlogQueue.c:282-325 | the length header is read even if it is split across the end of the area |
| `AlogQueue.Queue.WritePayload` | contrib/audit_test/audit_test_AlogQueue.c:530-564 | the payload is written under all three wrap layouts |
| `AlogQueue.Queue.PopToFile` | contrib/audit_test/audit_test_AlogQueue.c:495-578 | exactly the payloads of all framed messages are appended to the file and the head ends at the tail |
| `AlogQueue.PopToQueue` | contrib/audit_test/audit_test_AlogQueue.c:376-490 | a prefix of the messages moves, whole and in order; it stops only at a message that does not fit |
| `AlogQueue.PushFront` | contrib/audit_test/audit_test_AlogQueue.c:428-469 | a message is copied to the other queue in one or two pieces if it fits there |
| `BtreeGistVar.NodeCpLen` | contrib/btree_gist/btree_utils_var.c:122-163 | the loop computes the length of the common prefix of the two bounds |
| `BtreeGistVar.BinUnion` | contrib/btree_gist/btree_utils_var.c:235-279 | the smaller lower and the larger upper bound |
| `BtreeGistVar.Union` | contrib/btree_gist/btree_utils_var.c:324-359 | the hull of all entries; of each bound at most two bytes more are kept than the common prefix has |
| `BtreeGistVar.SortEntries` | contrib/btree_gist/btree_utils_var.c:444-457 | stand-in for the library sort: a sorted permutation |
| `BtreeGistVar.DealHalves` | contrib/btree_gist/btree_utils_var.c:515-529 | the first half of the sorted entries goes left, and each side has the hull of its entries |
| `BtreeGistVar.PickSplit` | contrib/btree_gist/btree_utils_var.c:460-549 | a sorted permutation dealt in halves, lower bounds in order across them; of both hulls at most two bytes more are kept than the longer common prefix has, and on the side with that prefix no search for a covered value is turned away |
| `BtreeGistVar.TruncateSides` | contrib/btree_gist/btree_utils_var.c:532-546 | the bounds of both hulls are cut to their first bytes, two more than the longer of the two common prefixes |
| `BtreeGistVar.LongerSideKeeps` | contrib/btree_gist/btree_utils_var.c:532-546 | the side whose common prefix is at least as long as the other's keeps all that its entries cover |
| `BtreeGistVar.HullBounds` | contrib/btree_gist/btree_utils_var.c:324-359 | the hull encloses every entry |
| `BtreeGistVar.HullAttained` | contrib/btree_gist/btree_utils_var.c:324-359 | both bounds of the hull are bounds of entries |
| `BtreeGistVar.UnionCovers` | contrib/btree_gist/btree_utils_var.c:324-359 | a union of possibly cut keys covers whatever its entries cover |
| `BtreeGistVar.SplitCoversIff` | contrib/btree_gist/btree_utils_var.c:460-549 | a side key of a split covers all that an entry covers if and only if the entry's upper bound was not cut below it |
| `BtreeGistVar.SplitFindsIff` | contrib/btree_gist/btree_utils_var.c:460-614 | a side key lets through all searches for an entry's values if and only if the entry is safe in it or its upper bound starts with the side's lower bound |
| `BtreeGistVar.UnsafeLoses` | contrib/btree_gist/btree_utils_var.c:460-549 | an unsafe entry covers a value that the side key loses |
| `BtreeGistVar.NeverRejectsIff` | contrib/btree_gist/btree_utils_var.c:556-614 | all satisfiable queries get through a key if and only if the value is within reach of its bounds |
| `BtreeGistVar.CoversNeverRejects` | contrib/btree_gist/btree_utils_var.c:556-614 | a key that covers a value never rejects a query that the value satisfies, for all six strategies |
| `BtreeGistTree.SearchExact` | contrib/btree_gist/btree_utils_var.c:556-614 | in a well-keyed tree of any depth, search finds exactly the stored values that satisfy the operator |
| `BtreeGistTree.SplitPage` | contrib/btree_gist/btree_utils_var.c:460-549 | the entries of a page, sorted and half to each side, with the keys of the two sides |
| `BtreeGistTree.WidenedCovers` | src/backend/access/gist/gist.c:715-748 | a key widened by an insert covers the value and all that it covered before |
| `BtreeGistTree.FoldedCovers` | src/backend/access/gist/gist.c:1057-1083 | the keys of a page taken in one after the other, and cut each time, cover what each key covers |
| `BtreeGistTree.RefitWellKeyed` | src/backend/access/gist/gist.c:1057-1083 | so a page whose entry gets its key in this way is well-keyed |
| `BtreeGistTree.SideWellKeyed` | contrib/btree_gist/btree_utils_var.c:460-549 | so is a side of a split that keeps its entries safe |
| `BtreeGistTree.ChangeKeeps` | src/backend/access/gist/gist.c:633-748 | every edit at any depth - an insert that widens all keys on its way, a widened key, an entry replaced by two, a refitted key - keeps the tree well-keyed and adds just the value it inserts |
| `BtreeGistTree.RunWellKeyed` | contrib/btree_gist/btree_utils_var.c:324-549 | after every run of such edits and root splits in which splits were safe, the tree is well-keyed and holds exactly the values inserted |
| `BtreeGistTree.RunSearchExact` | contrib/btree_gist/btree_utils_var.c:324-614 | after every such run, for all six operators, search finds exactly the inserted values that satisfy the operator |
| `BtreeGistTree.LeafSplitsSafe` | contrib/btree_gist/btree_utils_var.c:460-549 | splits of leaf pages are always safe |
| `BtreeGistReach.SearchIsReached` | contrib/btree_gist/btree_utils_var.c:556-614 | search finds the value of every leaf entry that all keys on the way let it reach |
| `BtreeGistReach.FoundIsReached` | contrib/btree_gist/btree_utils_var.c:556-614 | and nothing else |
| `BtreeGistReach.RunValid` | contrib/btree_gist/btree_utils_var.c:324-549 | every run leaves valid keys, whether its splits were safe or not |
| `BtreeGistReach.RunReachedIff` | contrib/btree_gist/btree_utils_var.c:556-614 | after any run at all, every search that a leaf entry satisfies reaches it if and only if its value is within reach of every key above it |
| `BtreeGistReach.SplitLosesValue` | contrib/btree_gist/btree_utils_var.c:532-546 | a run of twelve inserts and splits, all sorted and in halves as the code deals them, after which an equality search for a stored value finds nothing |
| `IntRanges.Expand` | contrib/intarray/_int_gist.c:187-190 | every integer becomes a range of its own, in place, from the last to the first |
| `IntRanges.ClosePass` | contrib/intarray/_int_gist.c:196-204 | one pass closes the narrowest gap, measured as the code measures it in 32 bits |
| `IntRanges.Memmove` | contrib/intarray/_int_gist.c:203-203 | the elements behind the gap move down by two |
| `IntRanges.CandidateNarrowest` | contrib/intarray/_int_gist.c:193-202 | the scan finds a narrowest gap whatever candidate an earlier pass left behind |
| `IntRanges.Compress` | contrib/intarray/_int_gist.c:172-213 | an inner key of 200 or more integers becomes 100 ranges, or an error if twice the array cannot be allocated; smaller arrays stay |
| `IntRangesOptimal.ShrinkThreshold` | contrib/intarray/_int_gist.c:192-204 | all closed gaps lie below a threshold that all remaining gaps reach |
| `IntRangesOptimal.ShrinkConserves` | contrib/intarray/_int_gist.c:192-204 | integers in ranges plus integers in gaps stay the same |
| `IntRangesOptimal.CoverBound` | contrib/intarray/_int_gist.c:192-204 | every cover by that many intervals holds at least as many integers as the bound says |
| `IntRangesOptimal.ShrinkOptimal` | contrib/intarray/_int_gist.c:181-211 | without a gap above INT_MAX, no cover by as many intervals holds fewer integers |
| `IntRangesOptimal.WideGapLoses` | contrib/intarray/_int_gist.c:196-202 | with such a gap, two intervals hold fewer integers than the compressed key |
| `IntRangesOptimal.WideGapExample` | contrib/intarray/_int_gist.c:196-202 | an array of 200 ints for which that happens |
| `IntRangesOptimal.ShrinkOptimalIff` | contrib/intarray/_int_gist.c:181-211 | the greedy result is optimal if and only if no gap between neighbours exceeds INT_MAX |
| `IntRangesFetch.InternalSize` | contrib/intarray/_int_tool.c:278-290 | the number of integers in the ranges, wrapped to 32 bits |
| `IntRangesFetch.WriteRange` | contrib/intarray/_int_gist.c:267-270 | one range is written behind the ones before it if and only if there is room and it does not end at INT_MAX; otherwise the loop runs past the end of the array |
| `IntRangesFetch.Decompress` | contrib/intarray/_int_gist.c:217-279 | the integers of the ranges come back, in order, if and only if they fit in one allocation and the last is not INT_MAX; there is an error exactly if the wrapped size cannot be allocated, and a write behind the end in all other cases |
| `IntRangesFetch.ShrinkSuperset` | contrib/intarray/_int_gist.c:181-211 | every integer of the array lies in a range of its key |
| `IntRangesFetch.ReturnsIff` | contrib/intarray/_int_gist.c:172-279 | the key of an array comes back if and only if no gap exceeds INT_MAX, the array does not end with INT_MAX, and some cover by 100 intervals fits in one allocation |
| `IntRangesFetch.LargestIntExample` | contrib/intarray/_int_gist.c:267-270 | the 200 largest ints do not come back, though one interval of 200 integers covers them |
| `IntRangesFetch.StoreAndFetch` | contrib/intarray/_int_gist.c:172-279 | exactly under that condition compress then decompress gives an array: a strictly sorted superset, no larger than any cover by 100 intervals |
| `BoolQuery.PolSentence` | contrib/intarray/_int_bool.c:154-224 | every sentence of the grammar is compiled to the postfix form of its query, or is too deep for the operator stack |
| `BoolQuery.DisciplinedIsSentence` | contrib/intarray/_int_bool.c:49-131 | a token stream that the scanner lets through is a sentence of the grammar |
| `BoolQuery.DisjDisciplined` | contrib/intarray/_int_bool.c:49-131 | and every sentence passes the scanner |
| `QueryText.NextToken` | contrib/intarray/_int_bool.c:49-131 | every token but error and end uses up text, and the end comes only with balanced parentheses behind a value |
| `QueryText.StreamShape` | contrib/intarray/_int_bool.c:49-131 | the tokens of any text are a complete stream or break off at an error |
| `QueryText.CompiledIff` | contrib/intarray/_int_bool.c:49-224 | a text compiles if and only if its tokens are a sentence that fits the operator stack, and then to that sentence's postfix form |
| `QuerySpelling.NumberIsRead` | contrib/intarray/_int_bool.c:62-105 | a number in front of anything but a digit is read as its value and the rest is left, unless the text ends inside parentheses |
| `QuerySpelling.DecimalSpells` | contrib/intarray/_int_bool.c:86-105 | decimal notation spells every 32-bit integer |
| `QuerySpelling.OctalSpells` | contrib/intarray/_int_bool.c:86-105 | a leading zero makes a number octal |
| `QuerySpelling.SpellingIff` | contrib/intarray/_int_bool.c:49-131 | the scanner reads a list of tokens to the end if and only if the text spells them, with any number of blanks or none around each, and operands and operators alternate in balanced parentheses |
| `QuerySpelling.DenotesIff` | contrib/intarray/_int_bool.c:49-224 | a text denotes a query if and only if it spells a sentence for it that fits the operator stack |
| `QuerySpelling.SentenceDenoted` | contrib/intarray/_int_bool.c:49-224 | every sentence that fits the operator stack is denoted by its tokens, however they are spaced |
| `QueryParser.WorkState.GetToken` | contrib/intarray/_int_bool.c:49-131 | the scanner loop over characters yields the next token and moves behind it |
| `QueryParser.WorkState.PopTight` | contrib/intarray/_int_bool.c:170-175 | the pop loops write out what binds tighter |
| `QueryParser.WorkState.Polish` | contrib/intarray/_int_bool.c:154-224 | the recursive parser with its operator stack computes the specified output and errors |
| `QueryItems.FindOprnd` | contrib/intarray/_int_bool.c:441-471 | the links of a postfix array are filled in and nothing else changes |
| `QueryItems.LinksReachIff` | contrib/intarray/_int_bool.c:441-471 | the 16-bit links reach the left operands if and only if every right operand has at most 32767 items |
| `QueryItems.ExecuteIsMeaning` | contrib/intarray/_int_bool.c:267-295 | following the links computes the meaning of the query |
| `QueryItems.ExecuteNeverRejects` | contrib/intarray/_int_bool.c:267-306 | with negations taken as true and checks that err on the side of true, no satisfied query is rejected |
| `QueryItems.ExecuteIsLenient` | contrib/intarray/_int_bool.c:267-306 | evaluation without negations computes exactly what is asked if every negation is taken as true |
| `QueryItems.LenientIs` | contrib/intarray/_int_bool.c:267-306 | which is the meaning of a query without negations, and is met by every superset of a set that satisfies the query |
| `QueryItems.RequiredIff` | contrib/intarray/_int_bool.c:365-405 | a query has a required value if and only if the empty set does not meet it with negations taken as true |
| `QueryItems.RequiredIsRequired` | contrib/intarray/_int_bool.c:365-405 | a query with a required value is satisfied only by sets that contain one of its values |
| `QueryPrint.ScanDecimal` | contrib/intarray/_int_bool.c:565-585 | a printed number is scanned as one token with its value |
| `QueryPrint.PeakBounds` | contrib/intarray/_int_bool.c:557-562 | the most that printing asks of a buffer is the length of the text and a terminator, and at most eleven bytes more |
| `QueryPrint.Infix.Resize` | contrib/intarray/_int_bool.c:557-562 | the buffer is doubled until there is room, and this fails if and only if 2^29 bytes would not be enough |
| `QueryPrint.Infix.Write` | contrib/intarray/_int_bool.c:565-638 | the printer writes the infix form and moves in front of the query if and only if no buffer has to hold 2^29 bytes |
| `QueryPrint.PrintedMeaning` | contrib/intarray/_int_bool.c:565-638 | the printed sentence means the same, though conjunctions may be reassociated |
| `QueryPrint.PrintedFits` | contrib/intarray/_int_bool.c:565-638 | a printed query never exceeds the operator stack |
| `QueryPrint.PrintedSentence` | contrib/intarray/_int_bool.c:565-638 | the printed text is scanned as a sentence |
| `QueryPrint.PrintThenCompile` | contrib/intarray/_int_bool.c:154-224 | a printed text always compiles, to a query of the same meaning on every set |
| `QueryIO.BqarrIn` | contrib/intarray/_int_bool.c:478-543 | the text is accepted if and only if it denotes a query of admissible size; the stored items spell that query, and they hold it, with links that reach, if and only if every right operand has at most 32767 items |
| `QueryIO.MatchText` | contrib/intarray/_int_bool.c:310-320 | the answer for such a text and any sorted array is the meaning of the query |
| `QueryIO.LinkPastTheEnd` | contrib/intarray/_int_bool.c:441-471 | a text that is accepted although its right operand is too long; the link of its last item leads past the end of the array |
| `QueryIO.UniqueQuery` | contrib/intarray/_int_bool.c:478-543 | a text denotes at most one query |
| `QueryOutput.BqarrOut` | contrib/intarray/_int_bool.c:642-660 | the infix text, or an error if and only if a buffer would have to hold 2^29 bytes |
| `QueryOutput.DemandOfText` | contrib/intarray/_int_bool.c:557-562 | every text of up to 2^29 - 13 bytes is printed and none of 2^29 - 1 or more |
| `QueryOutput.PrintedSize` | contrib/intarray/_int_bool.c:565-638 | what is read back has as many items as what was printed |
| `QueryOutput.OutThenIn` | contrib/intarray/_int_bool.c:642-660 | a stored query comes back from its text with as many items and the same meaning if and only if the buffers suffice |
| `QuerySentences.ReadNotPrinted` | contrib/intarray/_int_bool.c:557-562 | a text that is read and stored as a query with links that reach, and that is not printed |
| `QueryIO.CheckConditionArr` | contrib/intarray/_int_bool.c:236-255 | binary search finds a value if and only if it is in the sorted array |
| `QueryIO.ExecConsistent` | contrib/intarray/_int_bool.c:310-320 | a leaf computes the meaning of the query; an inner node computes it with negations taken as true and never rejects a subset that satisfies it |
| `QueryIO.GinQueryExtract` | contrib/intarray/_int_gin.c:23-57 | without a full scan, every satisfying set contains an extracted value; a full scan is asked for if and only if the empty set meets the query with negations taken as true |
| `QueryIO.GinBoolConsistent` | contrib/intarray/_int_bool.c:337-362 | with a truthful check vector the result is the meaning of the query |
| `Signatures.Sign` | contrib/intarray/_intbig_gist.c:142-146 | a signature has exactly the hashed bits |
| `Signatures.CompressLeaf` | contrib/intarray/_intbig_gist.c:121-157 | the key of a row has exactly the bits of its values |
| `Signatures.CompressInner` | contrib/intarray/_intbig_gist.c:158-184 | the flag replaces a signature if and only if all bits are set; no bit changes |
| `Signatures.OrInto` | contrib/intarray/_intbig_gist.c:239-240 | the bits of one key are or-ed into another in place |
| `Signatures.Union` | contrib/intarray/_intbig_gist.c:245-274 | a union has exactly the bits of all keys together, keys with the flag included |
| `Signatures.HemDistIsDistance` | contrib/intarray/_intbig_gist.c:194-223 | the four cases of the distance count the bits in which two keys differ |
| `SignatureSplit.ChooseSeeds` | contrib/intarray/_intbig_gist.c:335-359 | two different entries, farthest apart among all but the last |
| `SignatureSplit.SortedCosts` | contrib/intarray/_intbig_gist.c:391-400 | the sorted cost vector has every place once, with its cost |
| `SignatureSplit.Side.Absorb` | contrib/intarray/_intbig_gist.c:426-436 | a side takes in exactly the bits of an entry, the flag included |
| `SignatureSplit.PickSplit` | contrib/intarray/_intbig_gist.c:304-465 | whatever the bias of the cost comparison, each entry goes to exactly one side, neither is empty, and each key has exactly the bits of its entries |
| `SignatureTree.UnionIsWellKeyed` | contrib/intarray/_intbig_gist.c:245-274 | a page whose key is the union of its keys is well-keyed: the key covers every row below |
| `SignatureTree.Search` | contrib/intarray/_intbig_gist.c:468-537 | if the test of an entry never rejects a key that covers a wanted row, search finds every wanted row of a well-keyed tree of any depth |
| `SignatureTree.PageKey` | contrib/intarray/_intbig_gist.c:245-274 | the key for a page has the bits of its keys and no bit too many |
| `SignatureTree.Widen` | src/backend/access/gist/gist.c:715-748 | a key that takes in another has the bits of both and no bit too many |
| `SignatureTree.SplitPage` | contrib/intarray/_intbig_gist.c:304-465 | two pages that are not empty, with all entries of the page between them as a multiset, each with exactly the bits of its entries |
| `SignatureRuns.InsertAt` | src/backend/access/gist/gist.c:633-748 | an insert below any entries widens every key on its way by exactly the bits of the row |
| `SignatureRuns.SplitAt` | src/backend/access/gist/gist.c:1262-1334 | an entry at any depth is replaced by the two halves of its page, and nothing else changes |
| `SignatureRuns.StepKeeps` | contrib/intarray/_intbig_gist.c:117-465 | every insert, widened key, split, refitted key and root split keeps every key covering the rows below it and adds just the row it inserts |
| `SignatureRuns.RunWellKeyed` | contrib/intarray/_intbig_gist.c:117-465 | after any number of such steps the tree is well-keyed and its rows are those inserted |
| `SignatureRuns.SearchAfterRun` | contrib/intarray/_intbig_gist.c:468-537 | after every run, search finds every wanted row that was inserted and no row that was not |
| `IntSignatures.SignOverlap` | contrib/intarray/_intbig_gist.c:49-64 | true if and only if some value has its bit |
| `IntSignatures.SignContains` | contrib/intarray/_intbig_gist.c:67-82 | true if and only if every value has its bit |
| `IntSignatures.SignSame` | contrib/intarray/_intbig_gist.c:500-530 | true if and only if the leaf's signature is that of the query |
| `IntSignatures.SignConsistent` | contrib/intarray/_int_bool.c:301-306 | evaluation over bits, with negations taken as true |
| `IntSignatures.Consistent` | contrib/intarray/_intbig_gist.c:468-537 | an entry passes exactly if its bits pass the test of its strategy |
| `IntSignatures.MatchPasses` | contrib/intarray/_intbig_gist.c:468-537 | an entry whose key covers a matching row passes, for overlap, contains, same and boolean queries |
| `IntSignatures.PassesIff` | contrib/intarray/_intbig_gist.c:468-537 | an entry that is not full passes if and only if some row that it could stand for would match, with negations taken as true |
| `IntSignatures.BitOf` | contrib/intarray/_int.h:66-66 | a negative number has the bit of its two's complement |
| `IntSignatures.RowEntry` | contrib/intarray/_intbig_gist.c:121-157 | the entry of a new row is well-keyed |
| `IntSignatures.SearchIndex` | contrib/intarray/_intbig_gist.c:468-537 | after every run of an index of arrays, search finds every inserted row that matches |
| `HstoreSignatures.Compress` | contrib/hstore/hstore_gist.c:117-151 | the key of a row has exactly the bits of its keys and of its values that are not null, for any checksum |
| `HstoreSignatures.ContainsMarked` | contrib/hstore/hstore_gist.c:518-545 | true if and only if every pair has the bit of its key and, unless null, of its value |
| `HstoreSignatures.AllMarked` | contrib/hstore/hstore_gist.c:553-575 | true if and only if every key that is not null has its bit |
| `HstoreSignatures.AnyMarked` | contrib/hstore/hstore_gist.c:576-600 | true if and only if some key that is not null has its bit |
| `HstoreSignatures.Consistent` | contrib/hstore/hstore_gist.c:500-605 | an entry passes exactly if its bits pass the test of its strategy |
| `HstoreSignatures.MatchPasses` | contrib/hstore/hstore_gist.c:500-605 | an entry whose key covers a row passes for every query that the operators answer with true on that row |
| `HstoreSignatures.PassesIff` | contrib/hstore/hstore_gist.c:500-605 | an entry that is not full passes if and only if some row that its key covers would match |
| `HstoreSignatures.RowEntry` | contrib/hstore/hstore_gist.c:112-151 | the entry of a new row is well-keyed |
| `HstoreSignatures.SearchIndex` | contrib/hstore/hstore_gist.c:500-605 | after every run of an index of hstores, search finds every inserted row that matches |
| `HstorePairs.KeyOrder` | contrib/hstore/hstore_io.c:282-303 | keys compare by length and then by bytes: a total order |
| `HstorePairs.LookupDetermines` | contrib/hstore/hstore_op.c:36-71 | sorted lists with the same lookups are equal |
| `HstorePairs.MergeIsOverride` | contrib/hstore/hstore_op.c:474-567 | merging two sorted lists is map override by the second, and sorted |
| `HstorePairs.RemoveIsMinus` | contrib/hstore/hstore_op.c:295-369 | removing keys is map difference |
| `HstorePairs.RemoveIsUnmatched` | contrib/hstore/hstore_op.c:374-469 | removing pairs takes away only what is equal in key and value |
| `HstorePacked.PackThenRead` | contrib/hstore/hstore.h:99-140 | a packed list reads back as that list; if it is sorted and fits, the value is canonical |
| `HstorePacked.ReadThenPack` | contrib/hstore/hstore.h:28-34 | a canonical value is the packing of its pairs, entry by entry and byte by byte |
| `HstorePacked.PairsDetermine` | contrib/hstore/hstore.h:79-83 | equal pairs, equal canonical values |
| `HstoreEntries.EncodeDecode` | contrib/hstore/hstore.h:23-30 | a 32-bit entry is its position and two flags |
| `HstoreEntries.LoadImage` | contrib/hstore/hstore.h:28-34 | entries read back from the bytes of memory are the entries stored there |
| `HstoreBuild.UniquePairs` | contrib/hstore/hstore_io.c:312-351 | sorts and thins out in place: sorted, one of the given pairs for each key, and the exact number of bytes needed |
| `HstoreBuild.KeptDistilled` | contrib/hstore/hstore_io.c:325-348 | of each run of equal keys one pair is kept, whatever the order within runs |
| `HstoreBuild.DistilledSorted` | contrib/hstore/hstore_io.c:312-351 | a list that is already sorted is left as it is |
| `HstoreBuild.Builder.CopyItem` | contrib/hstore/hstore.h:99-106 | the next pair is a pair of another value, copied as one run of bytes |
| `HstoreBuild.Builder.AddItem` | contrib/hstore/hstore.h:112-126 | the next pair is the one given |
| `HstoreBuild.Builder.MoveDown` | contrib/hstore/hstore.h:134-138 | the string buffer is moved down, byte by byte and over itself, to the end of the entries used |
| `HstoreBuild.Builder.Finalize` | contrib/hstore/hstore.h:129-140 | the memory, with the first entry flagged and the gap closed, is the packing of the pairs written |
| `HstoreBuild.FromPairs` | contrib/hstore/hstore_io.c:375-401 | the packing of the pairs, or an error if it cannot be allocated |
| `HstoreOps.FindKey` | contrib/hstore/hstore_op.c:37-71 | with only smaller keys below the carried bound, the index is that of a search of the whole value; the new bound is right for any larger key |
| `HstoreOps.UpToBelow` | contrib/hstore/hstore_op.c:165-194 | the bound left by one key is right for the next larger key |
| `HstoreOps.ArrayToPairs` | contrib/hstore/hstore_op.c:74-126 | the keys of an array that are not null, sorted and once each |
| `HstoreOps.ExistsAny` | contrib/hstore/hstore_op.c:165-194 | true if and only if some key of the array is in the map |
| `HstoreOps.ExistsAll` | contrib/hstore/hstore_op.c:199-228 | true if and only if all keys of the array are in the map |
| `HstoreOps.Contains` | contrib/hstore/hstore_op.c:968-1011 | true if and only if the template is a submap of the value |
| `HstoreOps.ChosenIsRestriction` | contrib/hstore/hstore_op.c:635-692 | the pairs found for a list of keys are the map restricted to those keys |
| `HstoreOps.SliceToHstore` | contrib/hstore/hstore_op.c:635-692 | a canonical value with the map restricted to the keys, and it always fits |
| `HstoreMerge.MergeStep` | contrib/hstore/hstore_op.c:525-562 | one round of the merge loop takes one pair off the specified merge |
| `HstoreMerge.Concat` | contrib/hstore/hstore_op.c:474-567 | a canonical value whose map is the first overridden by the second, unless both together are too large to allocate |
| `HstoreMerge.DeleteArray` | contrib/hstore/hstore_op.c:295-369 | a canonical value whose map lacks exactly the keys given |
| `HstoreMerge.DeleteHstore` | contrib/hstore/hstore_op.c:374-469 | a canonical value whose map lacks exactly the pairs that are equal in both |
| `HstoreSpelling.ReadWord` | contrib/hstore/hstore_io.c:61-173 | a word is read from every way to write it, quoted or bare and with any bytes escaped, up to a byte that ends it |
| `HstoreSpelling.BareWordRead` | contrib/hstore/hstore_io.c:97-127 | a word of ordinary bytes is read as itself in front of a blank, its delimiter or the end |
| `HstoreSpelling.ParsedIff` | contrib/hstore/hstore_io.c:61-279 | a text without zero bytes is parsed to a list of pairs if and only if it is a way to write them: keys, arrows, values and commas with any blanks around them, and a bare null in any case for no value |
| `HstoreSpelling.PrintThenParse` | contrib/hstore/hstore_io.c:183-279 | the text of a list of pairs is parsed to the same pairs in the same order |
| `HstoreSpelling.PrintedForm` | contrib/hstore/hstore_io.c:1159-1226 | what the text of two pairs looks like, byte for byte |
| `HstoreSpelling.ReprintKeepsMeaning` | contrib/hstore/hstore_io.c:183-279 | the pairs of any accepted text print to a text with the same pairs |
| `HstoreParser.HSParser.GetVal` | contrib/hstore/hstore_io.c:61-173 | the word machine yields the next word, nothing, or an error, and the place where it stops; words of 2^29 bytes or more are errors, as the doubled buffer cannot be allocated |
| `HstoreParser.HSParser.ParseHstore` | contrib/hstore/hstore_io.c:183-279 | the pair machine yields the pairs of the text, and fails if and only if the specified parser does, a word is too long, or there are more than 2^24 pairs |
| `HstoreIO.In` | contrib/hstore/hstore_io.c:406-421 | the packing of the parsed pairs, thinned out, or an error for every text that is not accepted |
| `HstoreIO.NeedsFitInt` | contrib/hstore/hstore_io.c:1174-1194 | the length estimate never exceeds a 32-bit int |
| `HstoreIO.Writer.Cpw` | contrib/hstore/hstore_io.c:1145-1156 | copies with escapes into the buffer, using at most twice the length |
| `HstoreIO.Out` | contrib/hstore/hstore_io.c:1160-1226 | writes the text of the pairs; text and terminator fit in the estimated buffer |
| `HstoreIO.OutThenIn` | contrib/hstore/hstore_io.c:1160-1226 | output then input reproduces a canonical value without zero bytes if and only if the estimate can be allocated and there are at most 2^24 pairs; otherwise one of them fails |
| `HstoreIO.PrintedNotRead` | contrib/hstore/hstore_io.c:200-204 | a canonical value that is printed and not read back |
| `HstoreCompat.WrappedIsRejected` | contrib/hstore/hstore_compat.c:212-226 | a sum of lengths that wraps in a 32-bit int is still rejected by the size test |
| `HstoreCompat.ValidOldFormat` | contrib/hstore/hstore_compat.c:171-229 | accepts a value if and only if it is in the old format; the result tells whether bytes are left over |
| `HstoreCompat.ConvertEntries` | contrib/hstore/hstore_compat.c:334-347 | every entry is rewritten in place, each before the next is read |
| `HstoreCompat.UpgradeOld` | contrib/hstore/hstore_compat.c:325-355 | new entries, version flag and exact size |
| `HstoreCompat.UpgradeWellFormed` | contrib/hstore/hstore_compat.c:325-353 | whatever the test accepts converts to a well-formed value: first flag on entry 0 only, ends nondecreasing and inside the buffer |
| `HstoreCompat.UpgradeKeepsPair` | contrib/hstore/hstore_compat.c:325-353 | each pair reads the same before and after, though positions are now implied by the entry before |
| `HstoreCompat.ShortCutMistakes` | contrib/hstore/hstore_compat.c:243-247 | an old value is returned unconverted if and only if it is short, its first value is null, and the unused length of that value is 32768 or more |
| `HstoreCompat.ShortCutExample` | contrib/hstore/hstore_compat.c:243-247 | values for which that happens |
| `HstoreAmbiguous.ValidNewFormat` | contrib/hstore/hstore_compat.c:119-162 | accepts a value if and only if its entries are in the new format; the result tells whether bytes are left over |
| `HstoreAmbiguous.Upgrade` | contrib/hstore/hstore_compat.c:236-356 | the whole choice: returned at once, converted if it passes the test of the old format, else flagged if it passes that of the new one, else an error |
| `HstoreUpgrade.FlaggedKeepsPairs` | contrib/hstore/hstore_compat.c:252-269 | a value that only gets the version flag is well-formed and has the pairs that its words say |
| `HstoreUpgrade.KeyLengthsRise` | contrib/hstore/hstore_compat.c:148-156 | in a canonical value keys do not get shorter |
| `HstoreUpgrade.PackedPasses` | contrib/hstore/hstore_compat.c:118-162 | every packed value passes the test of the new format with its exact size |
| `HstoreUpgrade.FlaggedIsPacked` | contrib/hstore/hstore_compat.c:252-269 | and is read, once it has the flag, as it was packed |
| `HstoreUpgrade.OldPackPasses` | contrib/hstore/hstore_compat.c:170-229 | every value packed in the old format passes its test with its exact size, whatever the unused lengths of nulls are |
| `HstoreUpgrade.OldPackUpgrades` | contrib/hstore/hstore_compat.c:325-353 | and is converted to the packed value of its pairs |
| `HstoreAmbiguous.AmbiguousFirst` | contrib/hstore/hstore_compat.c:60-66 | the first entry of a value that passes both tests has three free bits |
| `HstoreAmbiguous.AmbiguousIff` | contrib/hstore/hstore_compat.c:60-80 | a value of any number of entries passes both tests if and only if its first entry is such, every second word is twice a running total plus the null bit, every first word lies between its neighbours with key lengths that do not fall in either reading, and both readings fit |
| `HstoreAmbiguous.SingleAmbiguousIff` | contrib/hstore/hstore_compat.c:60-72 | a value of one entry passes both tests if and only if its first entry is such and its bytes are enough |
| `HstoreAmbiguous.SingleHasPadding` | contrib/hstore/hstore_compat.c:68-72 | behind the short cut it has at least 32751 bytes to spare as a new value |
| `HstoreAmbiguous.ExactlyBoth` | contrib/hstore/hstore_compat.c:74-80 | values of two entries that are exactly valid in both formats, without a byte to spare |
| `AmcheckPages.NextLiveStable` | contrib/amcheck/verify_nbtree.c:811-830 | the search for the page to the right has one answer, however long it may take |
| `AmcheckPages.TooLongForever` | contrib/amcheck/verify_nbtree.c:811-830 | a search over more pages than there are is in a circle and never ends |
| `AmcheckPages.CheckState.RightPageBound` | contrib/amcheck/verify_nbtree.c:771-964 | the first real item of the next page that is not ignorable, no bound if there is none, or an error if and only if a page on the way cannot be read; it is cancelled exactly if the search outlasts the user's patience |
| `AmcheckPages.CheckState.DownlinkCheck` | contrib/amcheck/verify_nbtree.c:976-1061 | true if and only if the downlink's key is a lower bound for all real items of the child |
| `AmcheckPages.CheckState.ItemCheck` | contrib/amcheck/verify_nbtree.c:569-751 | high key, neighbour, right page and child are checked, in this order |
| `AmcheckPages.CheckState.TargetPageCheck` | contrib/amcheck/verify_nbtree.c:552-752 | a normal return means that the page is in order, an error that it is not; it is cancelled exactly if the items it comes to, or the search to the right behind them, outlast the patience |
| `AmcheckLevels.VisitPage` | contrib/amcheck/verify_nbtree.c:396-511 | the checks of one page of the walk, both ways |
| `AmcheckLevels.NoBlockTwice` | contrib/amcheck/verify_nbtree.c:484-514 | without ignorable pages a walk visits no block twice |
| `AmcheckLevels.WalkIsShort` | contrib/amcheck/verify_nbtree.c:393-519 | so it is no longer than the index |
| `AmcheckLevels.FailureIsReal` | contrib/amcheck/verify_nbtree.c:396-511 | an error means that the level is not in order, whatever the walk |
| `AmcheckLevels.AnyLength` | contrib/amcheck/verify_nbtree.c:393-519 | a walk longer than the index is in a circle: there are walks of any length |
| `AmcheckLevels.LevelEnds` | contrib/amcheck/verify_nbtree.c:393-519 | a level in order has an end |
| `AmcheckLevels.FailureEnds` | contrib/amcheck/verify_nbtree.c:393-519 | so has a level with a block that fails |
| `AmcheckLevels.LiveChainEnds` | contrib/amcheck/verify_nbtree.c:393-519 | so has every level without ignorable pages |
| `AmcheckLevels.CheckLevel` | contrib/amcheck/verify_nbtree.c:372-525 | a normal return means that the level is in order, its items at most the high keys and its downlinks lower bounds of their children; an error means that it is not; the check is cancelled whatever the patience if the level has a walk longer than the index or a page whose search to the right never ends, and with a given patience only then |
| `AmcheckLevels.CircleNeverEnds` | contrib/amcheck/verify_nbtree.c:506-519 | deleted pages that link in a circle make such a level |
| `AmcheckOrder.CheckEveryLevel` | contrib/amcheck/verify_nbtree.c:276-351 | success means that the levels are in order from the root down; the check is cancelled whatever the patience if it gets to a level without an end, and with a given patience only then |
| `AmcheckOrder.NoneIgnorableEnds` | contrib/amcheck/verify_nbtree.c:276-351 | an index without ignorable pages has no such level |
| `AmcheckOrder.ReachesLeavesIff` | contrib/amcheck/verify_nbtree.c:328-347 | a successful check has gone through all levels down to 0 if and only if no leftmost downlink leads to block 0 |
| `AmcheckOrder.DescentCutShort` | contrib/amcheck/verify_nbtree.c:328-347 | a root whose first downlink is block 0 passes though nothing below it is looked at |
| `AmcheckOrder.AcrossPages` | contrib/amcheck/verify_nbtree.c:695-735 | the last key of a page is at most the first key of the next page in use, over any number of ignorable pages |
| `AmcheckOrder.LevelInOrderIff` | contrib/amcheck/verify_nbtree.c:395-751 | the real keys of a level that passes are nondecreasing in right-link order if and only if they are so across pages in use without a real item |
| `AmcheckOrder.EmptyPageHides` | contrib/amcheck/verify_nbtree.c:943-956 | with an empty page between them, two leaves pass in any order |
| `AmcheckSound.PassesIff` | contrib/amcheck/verify_nbtree.c:395-751 | a walk along a level passes if and only if its links are right, its pages are in order and within their bounds, and the last key of each page is at most the first key of the next page in use |
| `AmcheckSound.OrderedPasses` | contrib/amcheck/verify_nbtree.c:395-751 | so a level with the right links, bounds that hold and nondecreasing keys passes, duplicates included |
| `AmcheckSound.SoundTreePasses` | contrib/amcheck/verify_nbtree.c:276-351 | and an index that is sound from the root to the leaves is never reported as corrupt |

## Left out

- Weak memory in the audit log queue: steps are sequentially consistent.
- File rotation, thread creation and random test messages of the audit log queue.
- btree_gist for other types than `bytea`, multibyte truncation, and penalty functions; which entries an insert goes below is left open.
- BtreeGistReach.SplitLosesValue: pages have no capacity; the run splits pages of two to four short entries, which no full page would hold alone.
- Deletion from GiST indexes, which removes leaf entries and leaves all keys alone, and concurrent inserts.
- Leaf keys of intarray with 200 or more elements, which decompression would read as ranges.
- `g_int_consistent`, `g_int_union` and `g_int_picksplit` on plain integer arrays: easier than the signature keys that are modelled.
- "Contained by" on inner intarray keys: its test skips empty arrays.
- SignatureSplit.PickSplit: the bias of the cost comparison is an arbitrary function, so which side an entry goes to is not specified beyond the guarantees that hold for every bias.
- Signatures are sequences of bits; the grouping of bits in bytes is not modelled.
- HstoreBuild.UniquePairs: which of several pairs with the same key survives is left open, as the library sort leaves it open; freeing of memory is not modelled.
- HstoreMerge.DeleteHstore: the pairs of the second value are read up front rather than one by one.
- `hstore_delete` of a single key, comparison, hashing, conversion to arrays, records and JSON, and binary input and output of hstore: these would add easier members.
- HstoreAmbiguous.ValidNewFormat: counts above 0xfffffff without the version flag, which the source masks, are not covered.
- HstoreAmbiguous.Upgrade: such counts are not covered here either.
- QueryParser.WorkState.Polish: the error of `check_stack_depth` is not modelled; nesting is unlimited.
- QueryIO.BqarrIn: likewise for the recursion that fills the links.
- QueryPrint.Infix.Write: likewise for the recursion that prints.
- QueryOutput.BqarrOut: likewise.
- QueryOutput.OutThenIn: holds as far as neither side runs out of stack.
- QueryIO.ExecConsistent: checks of values are made up front rather than on demand; they have no effects.
- Checks of the metapage, page magic and garbage flags of an index, and the mode without a lock, whose argument rests on code elsewhere.
- cube, earthdistance, isn, ltree, dblink, file_fdw and the other contrib modules.
