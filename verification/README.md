# A verified model of senko's core

senko is a Redis-compatible store. This project models the data structures and
protocols at its core in Dafny and proves, for every input and every run, that
each of them is what its simple description says it is.

- **Pub/sub.** The lock-free ring of a subscriber is a state machine over the
  single atomic steps of its producer, its consumer and an observer
  (`Slot.dfy`). The glob matcher that restarts at its last star (`Glob.dfy`),
  the pruned fast matcher (`GlobFast.dfy`), the patterns for which it is right
  (`GlobExact.dfy`) and the literal index over patterns (`PatternIndex.dfy`) are
  proved against one declarative glob relation, whose meaning `GlobLaws.dfy`
  gives byte by byte.
- **RESP.** Decimal numbers (`Decimal.dfy`), the incremental parser
  (`Resp.dfy`), its independence of how the bytes arrive (`RespChunks.dfy`), the
  inputs that never come to an end (`RespStalls.dfy`), the serializer and the
  round trip (`RespCodec.dfy`), the loops of the parser and the re-parsing
  iterator (`RespTree.dfy`), and the wire format in its own bytes
  (`RespLaws.dfy`, `RespDoubles.dfy`).
- **Packed containers.** The listpack bytes (`Listpack.dfy`), the linked nodes
  of the quick list (`NodeChain.dfy`, `QuickList.dfy`), the set with three
  encodings (`SetObject.dfy`) and the hash with a packed mirror
  (`HashObject.dfy`) refine a flat sequence, a set and a map.
- **Streams.** Macro nodes with tombstones refine one ascending log
  (`StreamLog.dfy`, `StreamNodes.dfy`, `StreamInsert.dfy`, `StreamTrim.dfy`,
  `Stream.dfy`).
- **Probabilistic filters.** The two buckets of a fingerprint
  (`CuckooBuckets.dfy`), the cuckoo kick chain (`Cuckoo.dfy`) and the
  conservative-update count-min sketch (`CountMin.dfy`), over any hash.
- **Coordination.** The registry of blocked clients (`WaitQueues.dfy`,
  `StreamOffers.dfy`, `StreamRounds.dfy`, `MoveCascade.dfy`, `Deadlines.dfy`,
  `Blocked.dfy`) and the scatter/gather of multi-key commands over shards (`Shards.dfy`).

Check everything with `dafny verify dfyconfig.toml`.

## How the results are stated

A structure that the source changes in place is a class. Its `Valid()` is the
invariant, an abstract view (`Contents()`, `View()`, `members`, `stored`, `Flat`)
gives its meaning, and every method says what the new view is. Since each method
requires and restores `Valid()`, these contracts hold over every run. What the
views mean is proved separately, as lemmas over plain values. The laws of a
format or an order are stated on bytes, positions and numbers, and do not name
the functions that the code shares with its specification.

Where the code does not have an expected property, the code is kept as it is, a
lemma gives a concrete input, and another lemma gives the exact condition:

- `Slot.LenUnderRace`: when `len` of a third thread is a real occupancy;
  `Slot.LenCanWrap` reaches 2^64 - 1.
- `GlobExact.FastIsExactIff`: the fast matcher agrees with the glob relation on
  all texts exactly when two things hold of the pattern. Pruning keeps all
  matches: `PruneKeeps` decides from the tokens alone whether some match can do
  without the scanned literals, and `GlobExact.PruneKeepsIff` says it decides
  right. And a pattern that is compared raw up to its only, final star has no
  backslash before it. `GlobExact.PruningCanLoseMatches` and
  `GlobExact.EscapedPrefixFails` are inputs that fail in the one and the other
  way. Where every bracket and question mark accepts a byte that no scanned
  literal has, the first condition is that these literals lie in order inside
  the matcher's (`GlobExact.FillableKeepsIff`). `PatternIndex.ReachIsExactIff`
  is the same for a publish through the index.
- `RespStalls.StallsIff`: an input stays incomplete whatever follows exactly when
  its line, or that of its first open element, has a carriage return that is not
  followed by a line feed; `RespStalls.BareCrInputs` gives three such inputs.
- `RespCodec.RoundTripIff` and `InlineSurvivesIff`: an inline command is
  re-serialized into itself exactly when its trimmed line still starts like one;
  `RespCodec.InlineCanChangeMeaning` is one that does not.
- `RespTree.IterateParsed`: iterating a map yields half of its frames, and so
  consumes its data only if the map is empty; `RespTree.MapIsHalfRead`.
- `Listpack.EntryBoundIff`: the capped back length loses entries exactly when
  elements may exceed 249 bytes; `Listpack.OverlongLoses`.
- `StreamLog.LastIdBoundsLog`: after a trim the last id falls below a trailing
  tombstone, so ids come in that are not above everything stored. Then
  `Stream.StreamTree.Insert` keeps the stream in order exactly for the ids that
  fit. Out of order too, lookups and ranges show what the log holds, as long as
  the bounds of the nodes are right, which insertion and deletion of any id keep.
  But the new entry can be deleted exactly when
  `StreamInsert.ReinsertedDeletableIff` says. `StreamInsert.TombstoneComesBack`
  and `OtherNodeInTheWay` give entries that are found and cannot be deleted,
  `StreamInsert.ReplacedNodeIsLost` one whose insertion loses two entries and
  leaves `total_len` two too high.
- `StreamNodes.LimitKeptIff`: a range returns at most its count exactly when that
  is positive or the one node looked at shows nothing;
  `StreamNodes.ZeroLimitGivesOne`.
- `CuckooBuckets.ComesBackIff`: the alternate bucket is an involution for all
  16-bit fingerprints exactly when the bucket count is a power of two or a
  multiple of 2^47; `CuckooBuckets.ThreeBucketsStray` shows three buckets failing.
  What is lost then: `Cuckoo.KickedIsSeenIff` says when a lookup still sees an
  item that was kicked out of its second bucket, and `Cuckoo.KickLosesItem` is a
  run of successful inserts into three buckets after which one is not found.
- `CountMin.NeverBelowIff`: the sketch never under-counts exactly when
  increments are at most one, or it has one row or one column;
  `CountMin.QueryFallsShort`.
- `WaitQueues.RegisterFairIff`: leftover queue and heap entries of an earlier
  registration keep the order of service exactly when harmless;
  `WaitQueues.LeftoverJumpsQueue`.
- `MoveCascade.NothingLeftIff`: the cascade after a move answers everybody who
  waits for the destination, so that not everybody who is answered gets
  something. Of those who pop there, one is answered with nothing exactly when at
  least as many wait before it as there are elements;
  `MoveCascade.SecondGetsNothing` has two waiters and one element.
- `Deadlines.AllAnsweredIff`: a pass over the deadlines answers everybody it
  removes exactly when for each the earliest entry is the client's own deadline;
  `Deadlines.LeftoverDropsClient` is dropped without an answer.
- `SetObject.SpellingIff`, `EffectiveIff`: an integer-looking member keeps its
  spelling exactly when it is canonical; `SetObject.LeadingZeroCollapses`.
- `Shards.RefusedUnchangedIff`: a list of odd length is refused only after the
  shards before the home of its last key were written, and changes nothing
  exactly when it assigns there what is held already; `Shards.RefusedButWritten`.

## Model

| member | source | states |
|---|---|---|
| `Slot.EveryRunIsFifo` | senko-pubsub/src/slot.rs:74-111 | over every interleaving of atomic steps: received messages are a prefix of the accepted ones in order, at most 256 are pending, the null-pointer branch of `recv` is never taken, every lag report counts 0, the lag flag is up exactly after a refusal |
| `Slot.StoreHitsEmptySlot` | senko-pubsub/src/slot.rs:74-89 | in every run the slot `publish` is about to store into is empty, so no pending message is overwritten |
| `Slot.RefusalMeansFull` | senko-pubsub/src/slot.rs:74-89 | `publish` refuses exactly when the accepted messages are 256 ahead of the tail it read |
| `Slot.NoneMeansEmpty` | senko-pubsub/src/slot.rs:92-111 | `recv` gives up exactly when the head it read equals the number of messages received |
| `Slot.LenUnderRace` | senko-pubsub/src/slot.rs:124-129 | in every run, when the `len` of a third thread is at most 256, however far the consumer ran between its two loads; without a whole turn of the counters, its exact value, and that it is an occupancy exactly when the tail has not passed the head read earlier |
| `Slot.LenCanWrap` | senko-pubsub/src/slot.rs:124-129 | some run makes `len` return 2^64 - 1 |
| `Slot.NothingLeaks` | senko-pubsub/src/slot.rs:137-153 | when both ends are idle, every accepted message was either received or is released by `Drop`, once |
| `Slot.RunKeeps` | senko-pubsub/src/slot.rs:74-129 | the ring invariant holds after any sequence of steps |
| `Slot.NextKeeps` | senko-pubsub/src/slot.rs:74-129 | every single atomic step of any thread keeps the ring invariant |
| `Slot.PublishAlone` | senko-pubsub/src/slot.rs:74-89 | a `publish` that runs undisturbed appends one message or raises the lag flag, and its wrapping distance is the real occupancy |
| `Slot.RecvAlone` | senko-pubsub/src/slot.rs:92-111 | a `recv` that runs undisturbed takes the oldest pending message or changes nothing |
| `Slot.FrontOfRing` | senko-pubsub/src/slot.rs:92-111 | the slot at the tail holds the oldest message that was accepted and not received |
| `Slot.WrappedDistance` | senko-pubsub/src/slot.rs:74-89 | the wrapping difference of the two 64-bit counters is their real distance |
| `Slot.BroadcastSlot.constructor` | senko-pubsub/src/slot.rs:52-61 | a new slot is empty and not lagged |
| `Slot.BroadcastSlot.Publish` | senko-pubsub/src/slot.rs:74-89 | refines the step machine; appends to the pending queue below 256, otherwise reports lag 0 and leaves it |
| `Slot.BroadcastSlot.Recv` | senko-pubsub/src/slot.rs:92-111 | refines the step machine; removes and returns the head of the pending queue, or none |
| `Slot.BroadcastSlot.Store` | senko-pubsub/src/slot.rs:74-89 | the store of `publish` on the slot and the tail is the atomic step of the machine |
| `Slot.BroadcastSlot.Swap` | senko-pubsub/src/slot.rs:92-111 | the swap of `recv` on the slot and the head is the atomic step of the machine |
| `Glob.MatchCharClass` | senko-pubsub/src/pattern.rs:490-526 | the class loop accepts a byte and reports a length exactly as the declarative class token does, with ranges, negation, escapes and a missing bracket |
| `Glob.MatchSingleToken` | senko-pubsub/src/pattern.rs:475-488 | one non-star token accepts a byte exactly as the declarative token does |
| `Glob.LastStarSuffices` | senko-pubsub/src/pattern.rs:278-336 | once a segment has matched, restarting only at the last star loses no match |
| `Glob.SegmentSplits` | senko-pubsub/src/pattern.rs:278-336 | a star-free segment followed by anything matches exactly by matching its bytes and then the rest |
| `Glob.StarMatches` | senko-pubsub/src/pattern.rs:278-336 | a star matches any run, so its match is a match of the rest at some later position |
| `Glob.SkipStars` | senko-pubsub/src/pattern.rs:278-336 | a run of stars means the same as one star |
| `Glob.GlobMatchScalar` | senko-pubsub/src/pattern.rs:278-336 | the restarting loop terminates and returns true exactly when the declarative glob relation holds, for every pattern and text |
| `GlobLaws.EmptyPattern` | senko-pubsub/src/pattern.rs:278-336 | the empty pattern matches the empty text only |
| `GlobLaws.Star` | senko-pubsub/src/pattern.rs:278-336 | a star takes some run of bytes, and what follows it the rest |
| `GlobLaws.QuestionMark` | senko-pubsub/src/pattern.rs:475-488 | a question mark takes one byte, any |
| `GlobLaws.EscapedByte` | senko-pubsub/src/pattern.rs:475-488 | a backslash and a byte take that byte; a backslash at the end takes a backslash |
| `GlobLaws.PlainByte` | senko-pubsub/src/pattern.rs:475-488 | any other byte takes itself |
| `GlobLaws.BracketTakesOne` | senko-pubsub/src/pattern.rs:490-526 | a bracket expression takes one byte and leaves the rest to what follows it; with either mark in front of its members, exactly the other bytes |
| `GlobLaws.MarkNegates` | senko-pubsub/src/pattern.rs:490-526 | for plain members: a mark, either kind, takes exactly the bytes that the bracket expression without it does not |
| `GlobLaws.PlainBody` | senko-pubsub/src/pattern.rs:490-526 | bytes without closing bracket and backslash are members |
| `GlobLaws.LongerBodies` | senko-pubsub/src/pattern.rs:490-526 | a byte, an escaped byte or a range in front of members are members |
| `GlobLaws.NoMember` | senko-pubsub/src/pattern.rs:490-526 | an empty bracket expression takes nothing |
| `GlobLaws.ByteMember` | senko-pubsub/src/pattern.rs:490-526 | a byte in front of the members adds exactly itself |
| `GlobLaws.RangeMember` | senko-pubsub/src/pattern.rs:490-526 | a range in front of the members adds exactly the bytes between its ends |
| `GlobLaws.EscapedMember` | senko-pubsub/src/pattern.rs:490-526 | an escaped byte in front of the members adds exactly that byte |
| `GlobLaws.SmallBrackets` | senko-pubsub/src/pattern.rs:490-526 | `[!a]` and `[^a]` take every byte but `a`, `[a]` takes `a`, `[a-z]` exactly the bytes from `a` to `z`; a dash before the bracket and a mark behind a byte stand for themselves |
| `GlobLaws.TwoBytes` | senko-pubsub/src/pattern.rs:490-526 | two members take exactly these two bytes |
| `GlobLaws.UnclosedBracket` | senko-pubsub/src/pattern.rs:490-526 | without a closing bracket nothing matches |
| `Common.FindFrom` | senko-pubsub/src/pattern.rs:463-473 | the substring search returns the first occurrence, or there is none |
| `GlobFast.LeftmostSuffices` | senko-pubsub/src/pattern.rs:463-473 | taking the leftmost occurrence of each segment finds an ordered placement whenever one exists |
| `GlobFast.SegmentsMatchInOrder` | senko-pubsub/src/pattern.rs:463-473 | the greedy loop decides whether the unescaped segments occur in order without overlap |
| `GlobFast.CharClassTokenLen` | senko-pubsub/src/pattern.rs:528-538 | the length scan ends where the scanner's class token ends |
| `GlobFast.ScanPattern` | senko-pubsub/src/pattern.rs:344-390 | the scan reports exactly whether the scanned tokens hold a wildcard and whether they are literals and one final star |
| `GlobFast.ScanOne` | senko-pubsub/src/pattern.rs:344-390 | one scan step reports where the next token starts and whether this one is a wildcard |
| `GlobFast.PastWildcard` | senko-pubsub/src/pattern.rs:344-390 | behind a wildcard the scan goes on where its token ends |
| `GlobFast.UnescapeSegment` | senko-pubsub/src/pattern.rs:597-610 | the loop drops exactly the escaping backslashes |
| `GlobFast.PatternEqLiteral` | senko-pubsub/src/pattern.rs:392-409 | true exactly when the unescaped pattern is the text |
| `GlobFast.LiteralSegmentsForPrune` | senko-pubsub/src/pattern.rs:411-461 | the segments, unescaped, are the maximal literal runs of the scanned tokens |
| `GlobFast.GlobMatchSimd` | senko-pubsub/src/pattern.rs:255-276 | the fast matcher returns its specification: literal test, raw prefix test, or pruning followed by the exact relation |
| `GlobFast.MatchContainsRuns` | senko-pubsub/src/pattern.rs:411-473 | every matching text holds the literal runs of the tokens in order |
| `GlobExact.PruneIsSound` | senko-pubsub/src/pattern.rs:255-276 | where `PruneKeeps` holds of the pattern, pruning rejects no matching text |
| `GlobExact.CanAvoidIff` | senko-pubsub/src/pattern.rs:411-473 | the finite test on tokens and literals says yes if and only if some text of these tokens does not hold the literals in order |
| `GlobExact.PruneKeepsIff` | senko-pubsub/src/pattern.rs:411-473 | `PruneKeeps` holds of a pattern if and only if every matching text holds its scanned literals in order |
| `GlobExact.EmbeddedIsKept` | senko-pubsub/src/pattern.rs:411-538 | scanned literals that lie in order inside those of the matcher lose no match |
| `GlobExact.FillableKeepsIff` | senko-pubsub/src/pattern.rs:411-538 | where every bracket and question mark accepts a byte that no scanned literal has, pruning keeps all matches if and only if these literals lie in order inside those of the matcher |
| `GlobFast.PlainPatternsAgree` | senko-pubsub/src/pattern.rs:490-538 | without a backslash both scanners cut a pattern into the same tokens |
| `GlobExact.AgreeingScannersFit` | senko-pubsub/src/pattern.rs:411-538 | where both scanners cut a pattern alike, the scanned literals lie inside those of the matcher |
| `GlobExact.DifferentCutsCanFit` | senko-pubsub/src/pattern.rs:411-538 | a concrete pattern that is cut differently and still loses nothing |
| `GlobExact.FastIsExact` | senko-pubsub/src/pattern.rs:255-276 | the fast matcher equals the glob relation on every text for every pattern that fits: pruning keeps its matches and no backslash stands before a lone final star |
| `GlobExact.FastIsExactIff` | senko-pubsub/src/pattern.rs:255-276 | for every pattern: fast and exact agree on all texts if and only if pruning keeps its matches and no backslash stands before a lone final star |
| `GlobExact.MatchIsMissed` | senko-pubsub/src/pattern.rs:255-276 | for every pattern that does not fit there is a text that matches and that the fast matcher rejects |
| `GlobExact.PlainFits` | senko-pubsub/src/pattern.rs:255-276 | every backslash-free pattern fits |
| `GlobExact.EscapedPrefixFails` | senko-pubsub/src/pattern.rs:265-267 | a concrete pattern and text that match and that the prefix test rejects |
| `GlobExact.FastIsExactPlain` | senko-pubsub/src/pattern.rs:255-276 | for every backslash-free pattern and every text, fast and exact agree |
| `GlobExact.PruningCanLoseMatches` | senko-pubsub/src/pattern.rs:411-538 | a concrete pattern and text that match but are pruned away, though each bracket accepts a byte that no scanned literal has |
| `PatternIndex.LiteralPrefix` | senko-pubsub/src/pattern.rs:540-559 | the prefix is the literal bytes before the first wildcard token |
| `PatternIndex.LiteralSegments` | senko-pubsub/src/pattern.rs:561-595 | the segments are the maximal literal runs of the tokens |
| `PatternIndex.CandidatesComplete` | senko-pubsub/src/pattern.rs:182-210 | a pattern that matches the channel passes the prefix and the literal test, if pruning keeps its matches |
| `PatternIndex.Rebuild` | senko-pubsub/src/pattern.rs:212-247 | up to 32 patterns need no tables; above, the tables hold every pattern's prefix and literals or list it as literal-free |
| `PatternIndex.SortDedup` | senko-pubsub/src/pattern.rs:182-210 | the same indexes, strictly increasing |
| `PatternIndex.Candidates` | senko-pubsub/src/pattern.rs:182-210 | the candidates are, without duplicate and in order, exactly the patterns that pass the index test (all of them up to 32) |
| `PatternIndex.ReachIsExact` | senko-pubsub/src/pattern.rs:138-180 | with or without the index a pattern that fits is reached exactly when it matches |
| `PatternIndex.ReachIsExactIff` | senko-pubsub/src/pattern.rs:138-180 | with or without the index a pattern is reached on exactly the channels it matches if and only if it fits |
| `PatternIndex.DeliverAll` | senko-pubsub/src/pattern.rs:138-180 | delivery appends the message marked with the pattern to every queue that is not full, counts those and lists the connections of the full ones |
| `PatternIndex.DeliveredEveryone` | senko-pubsub/src/pattern.rs:138-180 | after delivery the subscribers are the old ones with the message added where reached |
| `PatternIndex.PublishOutcome` | senko-pubsub/src/pattern.rs:138-180 | delivery and the removal of those that lag leave the subscribers with the message added where reached and without the lagging ones; counts and tables stay right |
| `PatternIndex.PublishIsFullScan` | senko-pubsub/src/pattern.rs:138-180 | for patterns that fit the effect of publishing equals that of matching every pattern in turn |
| `PatternIndex.ReachedCountIsTakers` | senko-pubsub/src/pattern.rs:138-180 | the count returned is the number of subscribers of reached patterns that have room |
| `PatternIndex.PublishCountIsFullScan` | senko-pubsub/src/pattern.rs:138-180 | for patterns that fit it is the number of subscribers with room whose pattern matches the channel |
| `PatternIndex.PatternIndex.constructor` | senko-pubsub/src/pattern.rs:61-69 | an empty index is valid and has no subscriber |
| `PatternIndex.PatternIndex.Subscribe` | senko-pubsub/src/pattern.rs:73-95 | adds the subscription once, returns the existing slot if there is one, keeps counts and tables right |
| `PatternIndex.PatternIndex.SubscribeTo` | senko-pubsub/src/pattern.rs:33-42 | a known pattern gains the subscriber once, or returns the slot it has |
| `PatternIndex.PatternIndex.Refresh` | senko-pubsub/src/pattern.rs:212-247 | restores the total count and the literal tables for the current subscriptions |
| `PatternIndex.PatternIndex.Unsubscribe` | senko-pubsub/src/pattern.rs:97-115 | removes exactly that pattern's subscription of that connection, drops an emptied pattern, keeps the index valid |
| `PatternIndex.PatternIndex.UnsubscribeAll` | senko-pubsub/src/pattern.rs:138-180 | removes exactly the listed subscriptions |
| `PatternIndex.PatternIndex.DeliverToCandidates` | senko-pubsub/src/pattern.rs:138-180 | every reached pattern gets the message once; the count and the lagged list are exact |
| `PatternIndex.PatternIndex.PublishToPatterns` | senko-pubsub/src/pattern.rs:138-180 | returns the number of queues that took the message; lagging subscribers are gone, reached ones have it appended with their pattern, all others are unchanged |
| `Decimal.ValueOfDigits` | senko-proto/src/serializer.rs:201-208 | the printed digits of a number denote it |
| `Decimal.ParsePrinted` | senko-proto/src/parser.rs:271-277 | parsing a printed signed number returns it, for every value in range |
| `Decimal.ParsePrintedUnsigned` | senko-proto/src/parser.rs:279-281 | parsing a printed unsigned number returns it |
| `Decimal.PrintInjective` | senko-proto/src/serializer.rs:191-199 | different numbers print differently |
| `Decimal.DecimalLen` | senko-proto/src/serializer.rs:201-208 | the dividing loop returns the number of digits printed |
| `Decimal.PrintedByDigits` | senko-proto/src/serializer.rs:191-208 | printing a number of at least ten prints its tenth and then its last digit; a negative one has a minus in front |
| `Decimal.ValueByDigits` | senko-proto/src/parser.rs:271-281 | a digit more makes the value ten times the old one plus the digit |
| `Decimal.NumberRead` | senko-proto/src/parser.rs:271-281 | digits, with or without a sign, are read as their value if it is in range |
| `Decimal.OnlyNumbersRead` | senko-proto/src/parser.rs:271-281 | nothing else is read |
| `Resp.NoCrBefore` | senko-proto/src/parser.rs:232-239 | the carriage return found is the first one |
| `Resp.FindCrlf` | senko-proto/src/parser.rs:232-239 | the line found is the input from the start to its CR LF |
| `Resp.LineHasNoCr` | senko-proto/src/parser.rs:232-239 | a parsed line holds no carriage return |
| `Resp.ParseScalar` | senko-proto/src/parser.rs:24-164 | every scalar frame consumes between one and all bytes; an incomplete one asks for more than is present |
| `Resp.ByHeader` | senko-proto/src/parser.rs:166-211 | the same bounds for what a header line and the bytes behind it make |
| `Resp.ParseAggregate` | senko-proto/src/parser.rs:166-211 | the same bounds for aggregates over any element parser |
| `Resp.ParseFrame` | senko-proto/src/parser.rs:24-48 | the recursive parser terminates; Complete consumes between 1 and all bytes, Incomplete asks for more than is present |
| `Resp.FrameOfAggregate` | senko-proto/src/parser.rs:166-211 | the parser on an aggregate equals the aggregate parser whose elements are parsed by the full recursive element parser |
| `RespLaws.Simple` | senko-proto/src/parser.rs:50-58 | every line behind `+`, `-` and `(` is a simple string, an error and a big number of those bytes |
| `RespLaws.Integers` | senko-proto/src/parser.rs:60-66 | a line behind `:` is the integer it spells, or an error |
| `RespLaws.Doubles` | senko-proto/src/parser.rs:90-96 | a line behind `,` is a double if it spells one, or an error |
| `RespLaws.Fixed` | senko-proto/src/parser.rs:68-88 | the bytes of a null and of the two booleans, and that no others are |
| `RespLaws.Bulk` | senko-proto/src/parser.rs:98-116 | for every length line: a negative length is a null, an unreadable one an error; otherwise that many bytes and a line break, with what is missing asked for |
| `RespLaws.Blob` | senko-proto/src/parser.rs:118-132 | the same for blob errors, whose length has no sign |
| `RespLaws.Verbatim` | senko-proto/src/parser.rs:134-164 | the same for verbatim strings, with three bytes of format and a colon |
| `RespLaws.Aggregates` | senko-proto/src/parser.rs:166-211 | for every length line of an array, map, set or push: a negative length is a null, an unreadable one an error; otherwise so many frames, for maps twice as many, whose bytes the aggregate holds |
| `RespLaws.FramesInARow` | senko-proto/src/parser.rs:166-211 | a run of elements is one frame that is no inline command and then the others; the first that is short or bad decides |
| `RespLaws.NullByLength` | senko-proto/src/parser.rs:98-104 | a bulk string, array, map, set or push with any negative length is a null that takes exactly its line |
| `RespLaws.Others` | senko-proto/src/parser.rs:24-48 | an empty input asks for a byte; a line break in front is an error; a byte that starts no frame is an error inside an aggregate and starts an inline command outside |
| `RespLaws.Inline` | senko-proto/src/parser.rs:213-230 | a line that starts no frame is an inline command of its trimmed bytes and as many words, or an error if it is blank |
| `RespLaws.OpenLines` | senko-proto/src/parser.rs:50-58 | without a carriage return a line asks for two bytes more than there are; a null and a boolean for their size |
| `RespLaws.Trimmed` | senko-proto/src/parser.rs:241-255 | trimming removes exactly the spaces and tabs at both ends |
| `RespLaws.WordByWord` | senko-proto/src/parser.rs:257-269 | words are counted by what stands between spaces and tabs |
| `RespLaws.NextWord` | senko-proto/src/frame.rs:133-148 | iterating an inline command gives the bytes up to the next blank and goes on behind the blanks |
| `RespLaws.Written` | senko-proto/src/serializer.rs:17-130 | every scalar frame in the bytes it is written as |
| `RespLaws.WrittenAggregate` | senko-proto/src/serializer.rs:132-153 | every aggregate in the bytes it is written as |
| `RespLaws.EncodedChildren` | senko-proto/src/serializer.rs:132-153 | nested values are written one after the other |
| `RespLaws.EncodedNode` | senko-proto/src/serializer.rs:132-153 | a nested value is its parent's header and then its children |
| `RespLaws.PipelinedFrames` | senko-net/src/connection.rs:334-401 | well-formed frames written one after the other are handed out in that order with nothing left, however the bytes are split into reads |
| `RespDoubles.ExponentIff` | senko-proto/src/parser.rs:90-96 | what counts as an exponent: `e` or `E`, an optional sign, digits |
| `RespDoubles.NamedIff` | senko-proto/src/parser.rs:90-96 | the named doubles, in any mix of cases |
| `RespDoubles.PlainIff` | senko-proto/src/parser.rs:90-96 | digits with or without a point, at least one of them, and an optional exponent |
| `RespDoubles.DoubleIff` | senko-proto/src/parser.rs:90-96 | a line is a double if and only if it is, behind an optional sign, a name or a number in decimal notation |
| `RespChunks.ManyExtends` | senko-proto/src/parser.rs:166-211 | a decided run of elements is decided alike on every extension |
| `RespChunks.ManyTruncates` | senko-proto/src/parser.rs:166-211 | a parsed run of elements needs only the bytes it consumed |
| `RespChunks.ByHeaderExtends` | senko-proto/src/parser.rs:166-211 | an aggregate decided behind its header is decided alike on every extension |
| `RespChunks.ByHeaderTruncates` | senko-proto/src/parser.rs:166-211 | a complete aggregate needs only its header and the bytes of its elements |
| `RespChunks.FrameExtends` | senko-proto/src/parser.rs:24-239 | a Complete or error result on a prefix is the same on every extension |
| `RespChunks.FrameTruncates` | senko-proto/src/parser.rs:24-239 | a Complete result depends only on the bytes it consumed |
| `RespChunks.ElementsAreSound` | senko-proto/src/parser.rs:166-211 | the element parser is stable under extension and closed under truncation at every length |
| `RespChunks.RespIsStable` | senko-proto/src/parser.rs:20-48 | the top-level parser is stable |
| `RespStalls.DeadRunIff` | senko-proto/src/parser.rs:166-211 | for any sound parser: a run of frames stays short whatever follows if and only if its first open frame stalls |
| `RespStalls.AggregateStallsIff` | senko-proto/src/parser.rs:166-211 | an aggregate stays incomplete whatever follows if and only if its header or its elements stall |
| `RespStalls.ScalarStallsIff` | senko-proto/src/parser.rs:24-164 | a frame without elements, or an inline command, stays incomplete whatever follows if and only if its line has a bare carriage return |
| `RespStalls.StallsIff` | senko-proto/src/parser.rs:24-239 | the same for every input and every nesting; everything else that is incomplete can be finished |
| `RespStalls.BareCrInputs` | senko-proto/src/parser.rs:232-239 | a simple string, an inline command and an array that are incomplete on every extension |
| `RespChunks.DrainConcat` | senko-net/src/connection.rs:334-401 | parsing a buffer and then more bytes gives the frames and rest of parsing it all at once |
| `RespChunks.ChunkingDoesNotMatter` | senko-net/src/connection.rs:334-401 | reading any list of chunks yields the frames, rest and error of the joined bytes |
| `RespChunks.AnyTwoSplitsAgree` | senko-net/src/connection.rs:334-401 | two ways of splitting the same bytes give the same frames, rest and error |
| `RespChunks.Connection.constructor` | senko-net/src/connection.rs:334-401 | a new connection has no frames and an empty buffer |
| `RespChunks.Connection.Read` | senko-net/src/connection.rs:334-401 | the new state is one step of the chunk specification: the buffer with the new bytes is cut, from its start, into frames that each parse there, up to the first place where none is complete; an error closes the connection, and a closed one takes nothing |
| `RespChunks.DrainedByCuts` | senko-net/src/connection.rs:334-401 | for every buffer the places where the frames handed out begin and end |
| `RespChunks.ReceivedByCuts` | senko-net/src/connection.rs:334-401 | the same for a read: earlier frames stay, the new ones are those |
| `RespChunks.Connection.HandOut` | senko-net/src/connection.rs:334-401 | the offset loop hands out the frames of the buffer and leaves what is incomplete |
| `RespCodec.Output.WriteLine` | senko-proto/src/serializer.rs:85-130 | appends prefix, line and CR LF to the buffer |
| `RespCodec.Output.WriteBlock` | senko-proto/src/serializer.rs:85-130 | appends prefix, decimal length, CR LF, payload, CR LF |
| `RespCodec.Output.WriteAggregate` | senko-proto/src/serializer.rs:132-153 | appends the aggregate's serialization, inline or RESP |
| `RespCodec.Output.WriteFrame` | senko-proto/src/serializer.rs:79-130 | appends exactly the frame's serialization to what was written before |
| `RespCodec.IntegerWireLen` | senko-proto/src/serializer.rs:191-199 | the length of the integer's serialization, for negative numbers too |
| `RespCodec.AggregateWireLen` | senko-proto/src/serializer.rs:184-189 | the length of the aggregate's serialization |
| `RespCodec.EncodedLen` | senko-proto/src/serializer.rs:160-182 | the predicted length is the length of the serialization, for every frame but doubles |
| `RespCodec.BulkRoundTrip` | senko-proto/src/parser.rs:98-116 | a serialized bulk string followed by anything parses back |
| `RespCodec.BlobErrorRoundTrip` | senko-proto/src/parser.rs:118-132 | a serialized blob error followed by anything parses back |
| `RespCodec.VerbatimRoundTrip` | senko-proto/src/parser.rs:134-164 | a serialized verbatim string followed by anything parses back to format and payload |
| `RespCodec.AggregateRoundTrip` | senko-proto/src/parser.rs:166-211 | a serialized aggregate whose data holds its elements parses back |
| `RespCodec.InlineRoundTrip` | senko-proto/src/parser.rs:213-230 | a trimmed inline line whose word count is its length parses back |
| `RespCodec.RoundTrip` | senko-proto/src/serializer.rs:79-153 | parsing the serialization of a well-formed frame followed by any bytes returns that frame and its length |
| `RespCodec.ParsedIsWellFormed` | senko-proto/src/parser.rs:24-230 | every frame the parser produces, inline commands and doubles aside, is well formed |
| `RespCodec.RoundTripIff` | senko-proto/src/serializer.rs:79-153 | a frame survives serializing and parsing before any bytes if and only if it is well formed |
| `RespCodec.InlineReadsBack` | senko-proto/src/parser.rs:213-230 | an inline frame that reads back is well formed |
| `RespCodec.InlineSurvivesIff` | senko-proto/src/parser.rs:213-255 | a parsed inline command survives re-serialization before any bytes if and only if its trimmed line does not start like another frame |
| `RespCodec.InlineCanChangeMeaning` | senko-proto/src/parser.rs:213-255 | a parsed inline command whose serialization parses as a simple string |
| `RespTree.ParseElements` | senko-proto/src/parser.rs:166-211 | the offset loop over elements is the recursive run of elements |
| `RespTree.ParseAggregateLoop` | senko-proto/src/parser.rs:166-211 | the imperative aggregate parser equals the specification, null and error cases included |
| `RespTree.TrimAsciiWhitespace` | senko-proto/src/parser.rs:241-255 | the two loops strip exactly the blanks at both ends |
| `RespTree.CountInlineArgs` | senko-proto/src/parser.rs:257-269 | the count is the number of blank-separated words |
| `RespTree.FrameIter.constructor` | senko-proto/src/frame.rs:102-108 | the iterator starts before the first frame |
| `RespTree.FrameIter.Next` | senko-proto/src/frame.rs:113-150 | one call on stored frames gives the next frame and moves behind it, an error without moving, or none after the last; it refines the step function and stays in bounds |
| `RespTree.Iterate` | senko-proto/src/frame.rs:113-150 | iterating yields `len` frames, the first of those stored, and consumes all data exactly when `len` is their number |
| `RespTree.IterateParsed` | senko-proto/src/frame.rs:113-150 | any parsed array, set or push yields exactly its frames and consumes its data; a map does so only if empty |
| `RespTree.MapIsHalfRead` | senko-proto/src/frame.rs:113-150 | a concrete parsed map of which the iterator yields the key and not the value |
| `RespTree.IterateInline` | senko-proto/src/frame.rs:133-148 | an inline command yields exactly its words and consumes its line |
| `RespTree.ChildrenParse` | senko-proto/src/parser.rs:166-211 | the encodings of nested values parse back to exactly their frames |
| `RespTree.TreeRoundTrip` | senko-proto/src/serializer.rs:79-153 | every nested value encodes to bytes that parse, before any others, to its frame |
| `RespTree.IterateTree` | senko-proto/src/frame.rs:113-150 | iterating an encoded array, set or push returns its children's frames in order |
| `Listpack.WriteVarint` | senko-core/src/list.rs:774-786 | the shifting loop writes the base-128 digits of the number |
| `Listpack.ReadVarintLoop` | senko-core/src/list.rs:788-803 | the loop equals the recursive reader, with its cut-off at 64 bits |
| `Listpack.VarintRoundTrip` | senko-core/src/list.rs:774-803 | every 64-bit number written anywhere in a buffer is read back with its end |
| `Listpack.HeaderReads` | senko-core/src/list.rs:805-836 | every string length below 2^32 is read back with the header's size, in all three forms |
| `Listpack.LittleRoundTrip` | senko-core/src/list.rs:805-836 | a number read from its little-endian bytes is the number, if it fits them |
| `Listpack.EntryDecodes` | senko-core/src/list.rs:750-772 | an encoded entry decodes to its bytes, and the decoder moves on by its back length capped at 255 |
| `Listpack.EntriesDecode` | senko-core/src/list.rs:735-772 | a run of entries that fit the cap decodes to itself anywhere in a buffer |
| `Listpack.NodeRoundTrip` | senko-core/src/list.rs:735-748 | any list of entries of at most 249 bytes decodes to itself |
| `Listpack.OverlongLoses` | senko-core/src/list.rs:750-772 | a concrete list with 250-byte entries that decodes differently |
| `Listpack.EntryBoundIff` | senko-core/src/list.rs:735-772 | all lists within a size bound round-trip if and only if the bound is at most 249 |
| `Listpack.VarintLayout` | senko-core/src/list.rs:774-786 | numbers of one, two and three groups of seven bits in their bytes |
| `Listpack.HeaderLayout` | senko-core/src/list.rs:805-815 | the one, three and five bytes of a string header, by length |
| `Listpack.EntryLayout` | senko-core/src/list.rs:750-758 | an entry is the previous length, the header, the payload and one byte with its whole length or 255 |
| `Listpack.HeaderBytes` | senko-core/src/list.rs:817-836 | what every first byte of a header is read as, and which are refused |
| `NodeChain.EncodeNodeEntries` | senko-core/src/list.rs:735-744 | the loop writes the concatenated entries, each with its predecessor's length |
| `NodeChain.Walk` | senko-core/src/list.rs:647-659 | walking to an index with any decoder returns that entry or none |
| `NodeChain.LpGet` | senko-core/src/list.rs:647-659 | the entry at an index equals that of the whole decoded node |
| `NodeChain.DecodesPart` | senko-core/src/list.rs:746-748 | a node that describes a list decodes to it |
| `NodeChain.Normalize` | senko-core/src/list.rs:478-485 | an index names position n exactly when it is n, or n counted from the end |
| `NodeChain.RangeMeaning` | senko-core/src/list.rs:487-504 | the clamped range holds exactly the positions between the resolved ends |
| `NodeChain.NormalizeRange` | senko-core/src/list.rs:487-504 | a range that is not empty is ordered and inside the list |
| `NodeChain.HalvesFlatten` | senko-core/src/list.rs:506-533 | cutting a node in two keeps the contents and the node sizes legal |
| `NodeChain.MergedFlatten` | senko-core/src/list.rs:555-573 | joining two neighbours keeps the contents and the node sizes legal |
| `NodeChain.EmptyFlatten` | senko-core/src/list.rs:535-553 | dropping an emptied node keeps the contents |
| `NodeChain.LinkBehindChains` | senko-core/src/list.rs:506-533 | linking a fresh node keeps both pointer directions a chain, extended at that place |
| `NodeChain.UnlinkChains` | senko-core/src/list.rs:575-596 | unlinking a node keeps both pointer directions a chain without it |
| `NodeChain.LinkBehindShape` | senko-core/src/list.rs:506-533 | after linking, head, tail, chain and node data still describe the list with the new part |
| `NodeChain.UnlinkShape` | senko-core/src/list.rs:575-596 | after unlinking, head, tail, chain and node data still describe the list without that part |
| `NodeChain.AllReleased` | senko-core/src/list.rs:463-476 | the clearing walk frees every node and nothing else remains allocated |
| `QuickList.QuickList.constructor` | senko-core/src/list.rs:149-157 | an empty list whose fill is at least one |
| `QuickList.QuickList.Decode` | senko-core/src/list.rs:746-748 | decoding a node returns its part of the contents |
| `QuickList.QuickList.Encode` | senko-core/src/list.rs:735-744 | rewriting a node replaces that part and no other |
| `QuickList.QuickList.AddBehind` | senko-core/src/list.rs:506-533 | a new node is linked behind the given one with its part inserted there |
| `QuickList.QuickList.UnlinkNode` | senko-core/src/list.rs:575-596 | exactly that node and its part leave the list, at either end or inside |
| `QuickList.QuickList.SplitIfNeeded` | senko-core/src/list.rs:506-533 | a node above the fill is cut into its two halves at the midpoint, any other stays; contents kept, every node non-empty and within the fill again |
| `QuickList.QuickList.TryMergeWithNext` | senko-core/src/list.rs:555-573 | exactly when both together have at most half the fill the next node's entries go behind this one's and the next node goes; contents and sizes kept |
| `QuickList.QuickList.Absorb` | senko-core/src/list.rs:567-572 | the next node's entries go behind this one's, and that node is freed |
| `QuickList.QuickList.CleanupAfterMutation` | senko-core/src/list.rs:535-553 | an empty node goes, any other is merged with its neighbours; contents kept, no node empty or too large |
| `QuickList.QuickList.MergeAround` | senko-core/src/list.rs:535-553 | first the node takes in the next one, then the one before takes in the node, each only if small enough; contents kept |
| `QuickList.QuickList.Start` | senko-core/src/list.rs:159-185 | an empty list gets its first node without changing the contents |
| `QuickList.QuickList.PushFront` | senko-core/src/list.rs:159-171 | contents become the element followed by the old contents; which node takes it, and that it splits; chain, sizes, `node_count` and `len` stay right |
| `QuickList.QuickList.AddToFirst` | senko-core/src/list.rs:159-171 | the first node takes the element and splits if it outgrows the fill |
| `QuickList.QuickList.PushBack` | senko-core/src/list.rs:173-185 | contents become the old contents followed by the element; which node takes it, and that it splits; chain, sizes, `node_count` and `len` stay right |
| `QuickList.QuickList.AddToLast` | senko-core/src/list.rs:173-185 | the last node takes the element and splits if it outgrows the fill |
| `QuickList.QuickList.PopFront` | senko-core/src/list.rs:187-198 | returns and removes the first element of the flat sequence, or none when empty; the node is cleaned up |
| `QuickList.QuickList.PopBack` | senko-core/src/list.rs:200-211 | returns and removes the last element of the flat sequence, or none when empty; the node is cleaned up |
| `QuickList.QuickList.Get` | senko-core/src/list.rs:647-659 | reads one entry of a node, or none past its end |
| `QuickList.QuickList.WalkForward` | senko-core/src/list.rs:221-247 | walking from the head reaches the flat element |
| `QuickList.QuickList.WalkBackward` | senko-core/src/list.rs:221-247 | walking from the tail reaches the same flat element |
| `QuickList.QuickList.Index` | senko-core/src/list.rs:221-247 | for every signed index: the element at it, or counted from the end when negative, or none outside |
| `QuickList.QuickList.SetIn` | senko-core/src/list.rs:722-729 | rewriting one entry of a node updates that flat position only |
| `QuickList.QuickList.SetAt` | senko-core/src/list.rs:249-270 | the walk updates exactly the flat position, or reports failure and changes nothing |
| `QuickList.QuickList.Locate` | senko-core/src/list.rs:249-270 | the walk finds the node that holds the flat position and how many elements lie before it, or none past the end |
| `QuickList.QuickList.SetIndex` | senko-core/src/list.rs:249-270 | for every signed index: exactly that position changes, counted from the end when negative; outside false and no change |
| `QuickList.QuickList.Clear` | senko-core/src/list.rs:463-476 | the list is empty and every node freed |
| `QuickList.QuickList.Collect` | senko-core/src/list.rs:368-385 | the walk collects exactly the flat slice |
| `QuickList.QuickList.Trim` | senko-core/src/list.rs:368-385 | what is left are exactly the elements at positions between the two ends, each counted from the end when negative |
| `StreamLog.AutoGenerateIsNew` | senko-core/src/stream.rs:31-40 | a generated id by its numbers: the clock and sequence zero if the clock is ahead, otherwise the last time and the next sequence number, which stays at its maximum; so never below the last id, and newer except there |
| `StreamLog.VisibleMeaning` | senko-core/src/stream.rs:663-699 | an item is visible exactly when a live entry in range carries it |
| `StreamLog.VisibleByNumbers` | senko-core/src/stream.rs:663-699 | an entry adds itself to what is visible exactly when it is live and its time and sequence numbers lie in the range, ends included |
| `StreamLog.LiveCountMeaning` | senko-core/src/stream.rs:899-901 | the live count is the number of positions with an entry that is not deleted |
| `StreamLog.VisibleAscends` | senko-core/src/stream.rs:663-699 | what is visible comes in ascending id order |
| `StreamLog.LookupMeaning` | senko-core/src/stream.rs:627-635 | a lookup returns fields exactly when a live entry holds them under that id |
| `StreamLog.FirstIsOnly` | senko-core/src/stream.rs:251-269 | in an ascending log the first entry with an id decides whether it is live |
| `StreamLog.TombstoneHides` | senko-core/src/stream.rs:251-269 | deleting hides that id and no other |
| `StreamLog.TombstoneCounts` | senko-core/src/stream.rs:251-269 | deleting lowers the live count by one exactly when the id was live |
| `StreamLog.LastLiveIsLast` | senko-core/src/stream.rs:903-912 | the refreshed last id bounds every live entry and is not above the stored ones |
| `StreamLog.LastIdBoundsLog` | senko-core/src/stream.rs:903-912 | the refreshed last id bounds every stored entry if and only if the log does not end in a tombstone |
| `StreamLog.EdgesAreVisible` | senko-core/src/stream.rs:834-849 | the first and last live entries are the ends of what a query over everything shows |
| `StreamLog.NodesAreDisjoint` | senko-core/src/stream.rs:563-596 | macro nodes hold disjoint ascending id ranges |
| `StreamNodes.AppendOk` | senko-core/src/stream.rs:214-245 | appending a higher id keeps a node's bounds and counts right |
| `StreamNodes.NodeGet` | senko-core/src/stream.rs:271-283 | the node's lookup is that of its log |
| `StreamNodes.SoftDelete` | senko-core/src/stream.rs:251-269 | succeeds exactly when the first entry of that id is live; then that entry is marked and nothing else; in an ascending node this is a tombstone and the count drops by one |
| `StreamNodes.HardTrimOldest` | senko-core/src/stream.rs:333-350 | drops exactly the oldest entries asked for, tombstones included, and keeps the node's bounds and counts right |
| `StreamNodes.HardTrimBelow` | senko-core/src/stream.rs:352-374 | drops only entries below the threshold, never more than the limit, and stops only at the threshold, the limit or the end |
| `StreamNodes.LimitKeptIff` | senko-core/src/stream.rs:663-739 | in both directions a range returns at most its count if and only if that is positive or the one node looked at shows nothing; a positive count is used up as far as there are items |
| `StreamNodes.AnswerMeaning` | senko-core/src/stream.rs:663-739 | without a count everything is returned; with a positive one that many from the start, or all |
| `StreamNodes.ZeroLimitGivesOne` | senko-core/src/stream.rs:663-739 | a concrete tree where count zero lets an entry through, and one where tombstones in front hide it |
| `StreamNodes.VisibleReversed` | senko-core/src/stream.rs:701-739 | reading backwards shows the reverse of what reading forwards shows |
| `StreamNodes.SkippedNode` | senko-core/src/stream.rs:663-739 | a node whose ids lie between its bounds and whose bounds lie outside the range has nothing visible |
| `StreamNodes.EnteredShowsAll` | senko-core/src/stream.rs:663-739 | with right bounds the nodes that a range enters show all the range has in the log, in whatever order the ids are |
| `StreamNodes.OrderedIsBounded` | senko-core/src/stream.rs:214-245 | in a stream in order the bounds of all nodes are right |
| `StreamNodes.Collect` | senko-core/src/stream.rs:663-739 | one node adds its visible entries up to the count |
| `StreamNodes.AppendAscends` | senko-core/src/stream.rs:563-596 | a log stays ascending under an append exactly when the id is above all stored ones |
| `StreamNodes.AppendToLast` | senko-core/src/stream.rs:563-596 | appending to the last node appends to the log and keeps the nodes ordered |
| `StreamNodes.AppendNode` | senko-core/src/stream.rs:563-596 | opening a node for a higher id appends to the log and keeps the nodes ordered |
| `StreamNodes.DeleteInNode` | senko-core/src/stream.rs:602-625 | a tombstone in the node that covers the id is a tombstone in the whole log |
| `StreamInsert.FoundInLog` | senko-core/src/stream.rs:627-635 | with right bounds, searching node by node finds what the flat log holds |
| `StreamInsert.InsertedBounded` | senko-core/src/stream.rs:563-596 | inserting any id keeps the bounds right |
| `StreamInsert.DeleteOutcome` | senko-core/src/stream.rs:602-625 | in order, an entry can be deleted if and only if it is live; then the log gets a tombstone, order and total stay and the live count drops by one |
| `StreamInsert.DeletableInLog` | senko-core/src/stream.rs:602-625 | in order, the entries that can be deleted are the live ones |
| `StreamInsert.InsertedIsFound` | senko-core/src/stream.rs:563-596 | after any successful insertion a lookup returns the entry, in whatever order the tree is |
| `StreamInsert.ReinsertedDeletableIff` | senko-core/src/stream.rs:563-625 | after any successful insertion the entry can be deleted if and only if no other node holds the id between its bounds and the node that takes it has no tombstone of the id |
| `StreamInsert.InsertedCount` | senko-core/src/stream.rs:563-596 | an insertion stores one entry more, less all entries of a node of the same key that it replaces |
| `StreamInsert.InsertTracksIff` | senko-core/src/stream.rs:563-596 | order and counters stay right if and only if the id is above everything stored, or, for a new node, no node reaches across it |
| `StreamInsert.InsertOutcome` | senko-core/src/stream.rs:563-596 | the same with the last id, and what the flat log becomes |
| `StreamInsert.TombstoneComesBack` | senko-core/src/stream.rs:251-269 | a concrete tree whose tombstoned id is inserted again, found, and not deletable |
| `StreamInsert.OtherNodeInTheWay` | senko-core/src/stream.rs:602-625 | a concrete tree where an entry without any tombstone of its id is found and not deletable |
| `StreamInsert.ReplacedNodeIsLost` | senko-core/src/stream.rs:563-596 | a concrete tree where an insertion replaces a node, loses its two entries and leaves the total two too high |
| `StreamTrim.EvictsMeaning` | senko-core/src/stream.rs:741-793 | a trim never goes below the bound nor over a limit; exact without limit evicts the whole excess; it stops short only before a node too large for what may go, and an exact one only before a node that lies wholly in the excess |
| `StreamTrim.TrimmedToMeaning` | senko-core/src/stream.rs:741-793 | by lengths: what is left after a trim to a length, for exact and approximate trims and with a limit, and where it stops |
| `StreamTrim.TrimmedBelowMeaning` | senko-core/src/stream.rs:795-832 | by numbers: what is left after a trim by id |
| `Stream.EdgeOf` | senko-core/src/stream.rs:834-849 | the first or last live entry of a node, if it has one |
| `Stream.StreamTree.constructor` | senko-core/src/stream.rs:555-557 | an empty log |
| `Stream.StreamTree.Get` | senko-core/src/stream.rs:627-635 | searches every node whose bounds hold the id; with right bounds, exactly the live fields the flat log holds under it |
| `Stream.StreamTree.Range` | senko-core/src/stream.rs:663-699 | with right bounds and no count all live entries of the log in the range, with a positive count the first of them, that many or all; on any tree those of the nodes not skipped; for count zero exactly what is returned instead |
| `Stream.StreamTree.ReadForwards` | senko-core/src/stream.rs:663-699 | the loop over the nodes |
| `Stream.StreamTree.RangeRev` | senko-core/src/stream.rs:701-739 | the same entries from the last one: all without a count, with a positive count that many or all; for count zero exactly what is returned instead |
| `Stream.StreamTree.ReadBackwards` | senko-core/src/stream.rs:701-739 | the loop over the nodes from the last one |
| `Stream.StreamTree.Place` | senko-core/src/stream.rs:563-596 | the last node takes the entry, or a new node goes to its place in the ordered map, replacing one of the same key |
| `Stream.StreamTree.Insert` | senko-core/src/stream.rs:563-596 | on any tree the whole new state; refused exactly when a lookup finds the id; with right bounds these stay right and the entry can be looked up; a stream in order stays so with right counters if and only if the id fits; a higher id is appended to the flat log |
| `Stream.StreamTree.InsertNew` | senko-core/src/stream.rs:563-596 | the same for an id that no lookup finds |
| `Stream.StreamTree.NoteEdges` | senko-core/src/stream.rs:563-596 | the edge ids after an insertion |
| `Stream.StreamTree.FindNode` | senko-core/src/stream.rs:602-625 | the first node whose bounds hold the id |
| `Stream.StreamTree.Delete` | senko-core/src/stream.rs:602-625 | on any tree the whole new state, done exactly when the first covering node holds the id live first; on a stream in order exactly when the id is live, and then the flat log gets a tombstone there |
| `Stream.StreamTree.MarkFirst` | senko-core/src/stream.rs:602-625 | on any tree the first entry of the id in the first covering node is marked, if live; right bounds stay right |
| `Stream.StreamTree.RemoveFirstNode` | senko-core/src/stream.rs:851-859 | a whole node's entries leave the front of the log and both lengths follow |
| `Stream.StreamTree.RecomputeLen` | senko-core/src/stream.rs:899-901 | the sum of node counts is the live count of the flat log |
| `Stream.StreamTree.ReplaceFirstNode` | senko-core/src/stream.rs:861-897 | shortening the first node shortens the front of the log; an emptied node goes |
| `Stream.StreamTree.RefreshEdgeIds` | senko-core/src/stream.rs:903-912 | the edge ids are the first and last live ids of the log, zero when none |
| `Stream.StreamTree.FirstEntry` | senko-core/src/stream.rs:834-836 | the first live entry across nodes, or none |
| `Stream.StreamTree.LastEntry` | senko-core/src/stream.rs:838-849 | the last live entry across nodes, reading backwards, or none |
| `Stream.StreamTree.TrimByMaxlen` | senko-core/src/stream.rs:741-793 | by lengths and numbers: a suffix of the log is left; an exact trim without limit leaves just the length; none leaves less, or evicts more than its limit; where the others stop; edge ids are those of the live entries |
| `Stream.StreamTree.EndTrim` | senko-core/src/stream.rs:903-912 | a trim that took something refreshes the edge ids |
| `Stream.StreamTree.EvictToMaxlen` | senko-core/src/stream.rs:741-793 | the trimming loop terminates with that result |
| `Stream.StreamTree.EvictRound` | senko-core/src/stream.rs:741-793 | one turn of the loop keeps the account of what has gone, or nothing more can go |
| `Stream.StreamTree.EvictSome` | senko-core/src/stream.rs:741-793 | one round removes the first node, or part of one larger than the excess, or nothing where the source stops |
| `Stream.StreamTree.TrimOldestOfFirst` | senko-core/src/stream.rs:861-874 | exactly that many entries leave the front of the log |
| `Stream.StreamTree.TrimByMinid` | senko-core/src/stream.rs:795-832 | by numbers: only entries below the bound go, from the front and within the limit; exact stops at the bound or at the limit, approximate before a node that reaches the bound or exceeds the limit |
| `Stream.StreamTree.EvictBelow` | senko-core/src/stream.rs:795-832 | the two loops leave that |
| `Stream.StreamTree.EvictNodesBelow` | senko-core/src/stream.rs:795-832 | whole nodes below the bound go while the limit allows |
| `Stream.StreamTree.EvictEntriesBelow` | senko-core/src/stream.rs:876-897 | the first node loses its entries below the bound, within the limit |
| `CuckooBuckets.XorUndoes` | senko-core/src/prob.rs:366-368 | exclusive or with the same number twice is the identity |
| `CuckooBuckets.XorLowBits` | senko-core/src/prob.rs:366-368 | exclusive or commutes with cutting to low bits |
| `CuckooBuckets.FlipUndoes` | senko-core/src/prob.rs:366-368 | for a power-of-two bucket count the alternate of the alternate is the bucket |
| `CuckooBuckets.Collide` | senko-core/src/prob.rs:366-368 | two buckets with the same alternate, whenever a spread's top bit, seen through the low bits, lies in a block that the bucket count cuts short |
| `CuckooBuckets.StrayingFingerprint` | senko-core/src/prob.rs:366-368 | for every size up to 2^47 a 16-bit fingerprint whose product with the multiplier has such a top bit |
| `CuckooBuckets.ComesBackIff` | senko-core/src/prob.rs:366-368 | the alternate bucket is an involution for every bucket and 16-bit fingerprint if and only if the bucket count is a power of two or a multiple of 2^47 |
| `CuckooBuckets.BucketCountIsPower` | senko-core/src/prob.rs:331-345 | a power-of-two bucket size makes the constructed bucket count a power of two |
| `CuckooBuckets.FewestBuckets` | senko-core/src/prob.rs:331-345 | the buckets constructed hold the rounded capacity, and one bucket less would not |
| `CuckooBuckets.ThreeBucketsStray` | senko-core/src/prob.rs:366-368 | with three buckets a family of fingerprints does not come back |
| `CuckooBuckets.FirstOfThreeStays` | senko-core/src/prob.rs:366-368 | with three buckets every third fingerprint has bucket 0 alone |
| `CuckooBuckets.EightByThree` | senko-core/src/prob.rs:331-345 | capacity eight with bucket size three constructs three buckets |
| `Cuckoo.SwapConserves` | senko-core/src/prob.rs:377-394 | overwriting a slot trades one stored copy for another, for every fingerprint and bucket pair |
| `Cuckoo.HomeOfPair` | senko-core/src/prob.rs:359-368 | two buckets are the same home of a fingerprint exactly when equal or alternates |
| `Cuckoo.TakeUp` | senko-core/src/prob.rs:377-394 | taking the new item in hand adds it to what is accounted for |
| `Cuckoo.Exchange` | senko-core/src/prob.rs:377-394 | swapping the hand with a slot conserves what is accounted for |
| `Cuckoo.Carry` | senko-core/src/prob.rs:377-394 | carrying the victim to its alternate bucket conserves its home |
| `Cuckoo.Discard` | senko-core/src/prob.rs:377-394 | giving up loses exactly the fingerprint in hand |
| `Cuckoo.FindSlot` | senko-core/src/prob.rs:294-314 | the first slot with that value, or there is none |
| `Cuckoo.CountIn` | senko-core/src/prob.rs:316-320 | the number of copies in a bucket |
| `Cuckoo.FoundInPair` | senko-core/src/prob.rs:370-375 | a fingerprint is in one of its two buckets exactly when a stored item has that home; the copies are as many |
| `Cuckoo.KickedIsSeenIff` | senko-core/src/prob.rs:370-394 | for any bucket count: an item kicked out of its second bucket is still seen by its lookup if and only if the kick takes it to its first bucket or back |
| `Cuckoo.MovesOfThree` | senko-core/src/prob.rs:366-368 | where the fingerprints of the next row go with three buckets |
| `Cuckoo.KickLosesItem` | senko-core/src/prob.rs:370-394 | a run of successful inserts into an empty layer of three buckets, the last with a kick, after which an inserted item is stored and its lookup does not see it |
| `Cuckoo.PutRewrites` | senko-core/src/prob.rs:298-314 | writing the first slot with a value changes that slot and no other |
| `Cuckoo.ChainGrows` | senko-core/src/prob.rs:383-394 | one more round extends a chain of kicks |
| `Cuckoo.CuckooLayer.constructor` | senko-core/src/prob.rs:331-345 | an empty layer of as few buckets as hold the capacity rounded up to a power of two, at least two; the other bucket is the exclusive or with the product of fingerprint and 0x5bd1e995, cut to the bucket count; valid whenever that is a power of two |
| `Cuckoo.CuckooLayer.Contains` | senko-core/src/prob.rs:370-375 | found exactly when some stored item shares fingerprint and bucket pair, which is when one of the two buckets holds the fingerprint |
| `Cuckoo.CuckooLayer.Count` | senko-core/src/prob.rs:402-407 | the number of stored copies, doubled when both buckets coincide |
| `Cuckoo.CuckooLayer.TryPlace` | senko-core/src/prob.rs:298-305 | the hand goes into the first free slot of the bucket and nothing else changes, or the bucket is full and unchanged |
| `Cuckoo.CuckooLayer.Insert` | senko-core/src/prob.rs:377-394 | with room in the first bucket, or else in the second, the fingerprint goes into the first free slot there; otherwise a chain of kicks of at most the set number of rounds, which fails exactly when all are used up; success adds exactly the new item to the stored multiset, failure loses exactly the one then in hand |
| `Cuckoo.CuckooLayer.KickAround` | senko-core/src/prob.rs:383-394 | the chain: every round swaps the hand with a slot and carries what was there to its other bucket, until one finds room or the rounds are used up |
| `Cuckoo.CuckooLayer.Kick` | senko-core/src/prob.rs:377-394 | one kick puts the hand in the place of a resident, which goes into a free slot of its other bucket, or conserves everything with that resident in hand |
| `Cuckoo.CuckooLayer.Delete` | senko-core/src/prob.rs:396-400 | the first copy in the first bucket goes, or else in the second; exactly one copy, done exactly when one was stored |
| `CountMin.IndexBelow` | senko-core/src/prob.rs:92-95 | the multiply-and-shift index is the product divided by 2^64, rounded down, and below the width |
| `CountMin.AtApart` | senko-core/src/prob.rs:520-546 | different cells have different places in the flat table |
| `CountMin.RaisedCell` | senko-core/src/prob.rs:520-536 | the update loop changes exactly the item's cells that hold the minimum |
| `CountMin.LeastIsLeast` | senko-core/src/prob.rs:538-546 | the minimum loop returns a lower bound that is attained |
| `CountMin.LeastOfRows` | senko-core/src/prob.rs:538-546 | the same by places of the flat table: at most every counter of the item, and one of them unless all are at the largest value |
| `CountMin.RaisedPlaces` | senko-core/src/prob.rs:520-536 | the same as below by places: of the item's counters those at the minimum get the new value, no other place changes |
| `CountMin.OneMore` | senko-core/src/prob.rs:520-536 | what one more increment adds to the true count, a plain cell and the total |
| `CountMin.IncrementedCell` | senko-core/src/prob.rs:520-536 | every cell after an increment, in terms of the item's minimum |
| `CountMin.NeverAbovePlain` | senko-core/src/prob.rs:520-536 | after any run every cell is at most the plain count-min cell |
| `CountMin.NeverBelowUnit` | senko-core/src/prob.rs:520-536 | after any run of unit increments every cell of an item is at least its true count |
| `CountMin.QueryAtMostPlain` | senko-core/src/prob.rs:538-546 | a query is at most every plain cell of the item and at most the total |
| `CountMin.QueryFrom` | senko-core/src/prob.rs:538-546 | a lower bound on all cells of an item bounds its query |
| `CountMin.OneRowIsPlain` | senko-core/src/prob.rs:520-536 | with one row the sketch is the plain sketch |
| `CountMin.OneColumnIsTotal` | senko-core/src/prob.rs:520-536 | with one column every cell is the total |
| `CountMin.NeverBelowIff` | senko-core/src/prob.rs:520-546 | no run with increments up to a bound under-counts, over all hashes, if and only if the bound is at most one or there is one row or one column |
| `CountMin.QueryFallsShort` | senko-core/src/prob.rs:520-546 | for every larger table a hash and a run of two increments whose query is below the true count |
| `CountMin.CountMinSketch.constructor` | senko-core/src/prob.rs:503-510 | a zero table with at least one row and column |
| `CountMin.CountMinSketch.LeastCounter` | senko-core/src/prob.rs:520-546 | the loop returns the item's least counter over all rows |
| `CountMin.CountMinSketch.Incrby` | senko-core/src/prob.rs:520-536 | returns the least counter plus the increment, cut at 2^64 - 1; exactly the counters that hold the least get it, no other place changes; the total grows by the increment, cut likewise |
| `CountMin.CountMinSketch.RaiseCounters` | senko-core/src/prob.rs:520-536 | the update loop gives exactly the counters not above the minimum the new value |
| `CountMin.CountMinSketch.QueryCount` | senko-core/src/prob.rs:538-546 | the item's least counter, or zero if that is saturated; never above the total or any plain cell; never below the true count under the exact condition |
| `WaitQueues.ServedTwice` | senko-net/src/blocked.rs:143-312 | answering each client at most once composes over steps |
| `WaitQueues.FairWithin` | senko-net/src/blocked.rs:266-312 | clients may leave at any time without breaking the order of service |
| `WaitQueues.FairPop` | senko-net/src/blocked.rs:143-162 | dropping a departed head keeps the order of service |
| `WaitQueues.FirstLiveIsFirst` | senko-net/src/blocked.rs:143-162 | the client served is the first in the queue that still waits |
| `WaitQueues.ServedInOrder` | senko-net/src/blocked.rs:143-162 | whoever is served next for a key registered no later than any client waiting for it |
| `WaitQueues.EnqueuedQueue` | senko-net/src/blocked.rs:124-135 | registering extends exactly the queues of the client's keys |
| `WaitQueues.EnqueuedExactly` | senko-net/src/blocked.rs:124-135 | the queue of a key gains the client as often as the key is named, at the end |
| `WaitQueues.Registered` | senko-net/src/blocked.rs:124-135 | the same for all queues |
| `WaitQueues.NoLeftovers` | senko-net/src/blocked.rs:124-135 | a client without leftover queue or heap entry registers harmlessly |
| `WaitQueues.RegisterFair` | senko-net/src/blocked.rs:124-135 | a harmless registration keeps every waiting client queued in order under each of its keys |
| `WaitQueues.UnfairIfHarmful` | senko-net/src/blocked.rs:124-135 | order is kept only by a harmless registration |
| `WaitQueues.RegisterFairIff` | senko-net/src/blocked.rs:124-135 | registering keeps the order of service if and only if the leftovers are harmless |
| `WaitQueues.ReregisterFairIff` | senko-net/src/blocked.rs:124-135 | the same for a connection that waits already, whose earlier registration is overwritten |
| `WaitQueues.LeftoverJumpsQueue` | senko-net/src/blocked.rs:124-162 | a concrete leftover lets a client be served before one that waits longer |
| `WaitQueues.SlotsPop` | senko-net/src/blocked.rs:143-162 | popping a queue lowers the total queue length, so the move cascade terminates |
| `WaitQueues.FairWithout` | senko-net/src/blocked.rs:222-240 | removing a key whose waiters all left keeps the order and leaves nobody waiting for it |
| `WaitQueues.FairRequeue` | senko-net/src/blocked.rs:164-220 | putting unserved stream waiters back in order keeps the order of service |
| `StreamOffers.DrainedRequeue` | senko-net/src/blocked.rs:164-220 | draining a queue and requeueing those set aside keeps the order of service |
| `StreamOffers.OfferedServed` | senko-net/src/blocked.rs:164-220 | after a stream round each client is either answered once or waits as before |
| `StreamOffers.ExecutedOnce` | senko-net/src/blocked.rs:164-220 | in a round no consumer of a group is executed twice |
| `StreamOffers.RoundExecutes` | senko-net/src/blocked.rs:164-220 | the store after a round is that of executing those clients in queue order and no others |
| `StreamRounds.LiveQueueMeaning` | senko-net/src/blocked.rs:164-220 | offered are those who stand in the queue and wait, each once, in the order in which they first stand there |
| `StreamRounds.NobodyStandsTwice` | senko-net/src/blocked.rs:164-220 | nobody is offered twice in a round |
| `StreamRounds.ExecutedIff` | senko-net/src/blocked.rs:164-220 | executed are exactly those who do not read for a group, or are the first in the queue with that group and consumer, in queue order |
| `StreamRounds.RoundTurns` | senko-net/src/blocked.rs:164-220 | each is executed on the store the one before has left; the others get null and touch nothing; answered are exactly those whose response is not null |
| `StreamRounds.WholeRound` | senko-net/src/blocked.rs:164-220 | the same for a round that starts with nobody seen |
| `StreamRounds.RoundResult` | senko-net/src/blocked.rs:164-220 | whoever got something is answered with it, nobody else is, and the others are set aside in order |
| `StreamRounds.TwoConsumers` | senko-net/src/blocked.rs:164-220 | two consumers of one group are both executed; one consumer that waits twice only the first time |
| `StreamOffers.FirstIsEarliest` | senko-net/src/blocked.rs:143-220 | the first live client of a fair queue waits for that key and registered first |
| `Deadlines.PassedOn` | senko-net/src/blocked.rs:242-264 | one more entry, not sooner than those before, extends what a pass has done |
| `Deadlines.PassByHeap` | senko-net/src/blocked.rs:242-264 | who leaves and who is answered in a pass, by the due entries of the heap and the deadlines alone |
| `Deadlines.PassOutcome` | senko-net/src/blocked.rs:242-264 | the same for the listed connections |
| `Deadlines.AllAnsweredIff` | senko-net/src/blocked.rs:242-264 | a pass answers everybody it removes if and only if for each of them the earliest due entry is its own deadline |
| `Deadlines.TimelyPass` | senko-net/src/blocked.rs:242-264 | with a faithful heap exactly those past their deadline leave, all answered, and no passed deadline stays |
| `Deadlines.LeftoverDropsClient` | senko-net/src/blocked.rs:242-264 | a concrete leftover entry makes a client vanish without an answer |
| `Deadlines.ExpireOwn` | senko-net/src/blocked.rs:242-264 | with a faithful heap every expiry answers |
| `Blocked.Registry.constructor` | senko-net/src/blocked.rs:124-135 | an empty registry is fair |
| `Blocked.Registry.Register` | senko-net/src/blocked.rs:124-135 | the whole new state for any connection: at the end of the queue of each of its keys, once per naming, and with its deadline in the heap if it has one; nobody is both waiting and answered exactly when no answer was left for it; fairness kept exactly for harmless registrations |
| `Blocked.Registry.Enroll` | senko-net/src/blocked.rs:124-135 | the record, the queues and the heap entry of a registration |
| `Blocked.Registry.EnqueueAll` | senko-net/src/blocked.rs:124-135 | the loop appends the connection to each key's queue |
| `Blocked.Registry.PopLive` | senko-net/src/blocked.rs:143-162 | skips departed clients and takes the first live one; other queues stay, total queue length falls |
| `Blocked.Registry.PopFront` | senko-net/src/blocked.rs:143-162 | the front of one queue goes and nothing else changes |
| `Blocked.Registry.Notify` | senko-net/src/blocked.rs:143-162 | serves the first live waiter with the operation's response; after a move everybody who waits for its destination is served in turn, each from what those before it left (`ServeAll`), unless one of them moves on; terminates, answers nobody twice, keeps the order of service |
| `Blocked.Registry.Cascade` | senko-net/src/blocked.rs:157-159 | the loop after a move drains the destination's queue and serves all of it |
| `Blocked.Registry.CascadeOne` | senko-net/src/blocked.rs:157-159 | one turn of it serves the next in the queue, or the queue is empty |
| `MoveCascade.NothingLeftIff` | senko-net/src/blocked.rs:143-162 | of those who pop from a destination one is answered with nothing if and only if at least as many wait before it as there are elements |
| `MoveCascade.InTurn` | senko-net/src/blocked.rs:143-162 | everybody in the queue gets an answer, in that order, from the store the one before has left |
| `MoveCascade.SecondGetsNothing` | senko-net/src/blocked.rs:143-162 | two waiters and one element: the second is answered with nothing |
| `Blocked.Registry.Answer` | senko-net/src/blocked.rs:143-162 | moves one client from waiting to ready |
| `Blocked.Registry.TakeReady` | senko-net/src/blocked.rs:266-268 | hands the response out once |
| `Blocked.Registry.ForceUnblock` | senko-net/src/blocked.rs:270-286 | answers exactly that client, with an error or its timeout response |
| `Blocked.Registry.RemoveClient` | senko-net/src/blocked.rs:309-312 | forgets the connection and keeps the others' order |
| `Blocked.Registry.CancelWaiters` | senko-net/src/blocked.rs:222-240 | answers exactly the waiting clients of that key with their timeout response and leaves nobody waiting for it |
| `Blocked.Registry.CancelConn` | senko-net/src/blocked.rs:222-240 | a client that waits is answered with its timeout response; one that does not is left alone |
| `Blocked.Registry.CheckTimeouts` | senko-net/src/blocked.rs:242-264 | every due entry and no other leaves the heap; on any registry a client leaves if and only if the heap has a due entry for it, and is answered if and only if the earliest one is its own deadline; with a faithful heap exactly those past their deadline leave, each answered |
| `Blocked.Registry.ExpireDue` | senko-net/src/blocked.rs:242-264 | the loop takes every due entry and no other off the heap, earliest first |
| `Blocked.Registry.ExpireSoonest` | senko-net/src/blocked.rs:242-264 | one round takes the soonest entry if it is due |
| `Blocked.Registry.ExpireEntry` | senko-net/src/blocked.rs:242-264 | one heap entry is consumed; answered exactly when it is the client's current deadline |
| `Blocked.Registry.NotifyStream` | senko-net/src/blocked.rs:164-220 | who is executed in the round (`StreamRounds.Turns`), in queue order, each on the store the one before has left; a client is answered exactly when its response is not null, with that response, and otherwise waits on in order; the store is the last one |
| `Blocked.Registry.OfferRound` | senko-net/src/blocked.rs:164-220 | answers, store and remaining queue are those of one round over the live clients of the queue |
| `Blocked.Registry.OfferToQueue` | senko-net/src/blocked.rs:164-220 | the whole queue is drained, each client answered or set aside in order |
| `Blocked.Registry.NextWaiter` | senko-net/src/blocked.rs:164-220 | takes the earliest registered waiter of the key |
| `Blocked.Registry.OfferNext` | senko-net/src/blocked.rs:164-220 | one round answers or sets aside one client and shortens the queue |
| `Blocked.Registry.OfferTo` | senko-net/src/blocked.rs:164-220 | one client is offered the stream and settled |
| `Blocked.Registry.Offer` | senko-net/src/blocked.rs:164-220 | a group and consumer already seen in this round gets null without touching the store; any other executes and is seen from then on |
| `Blocked.Registry.Settle` | senko-net/src/blocked.rs:164-220 | a null response sets the client aside, any other answers it |
| `Blocked.Registry.Requeue` | senko-net/src/blocked.rs:164-220 | those set aside wait again, behind the queue in their old order |
| `Blocked.Registry.ClearAll` | senko-net/src/blocked.rs:288-307 | every waiting client is answered with its timeout response and listed; no client, queue or heap entry is left |
| `Blocked.Registry.CancelOne` | senko-net/src/blocked.rs:288-307 | one waiting client is answered with its timeout response and listed |
| `SetObject.BinarySearch` | senko-core/src/set.rs:41-60 | finds the value or its insertion point in a sorted vector |
| `SetObject.LinearSearch` | senko-core/src/set.rs:432-449 | true exactly for a contained value |
| `SetObject.IntsetContains` | senko-core/src/set.rs:62-67 | membership, by either search |
| `SetObject.IntsetInsert` | senko-core/src/set.rs:41-50 | stays strictly sorted, adds exactly that value, reports whether it was new |
| `SetObject.IntsetRemove` | senko-core/src/set.rs:52-60 | stays strictly sorted, removes exactly that value, reports whether it was there |
| `SetObject.EncodedWalks` | senko-core/src/set.rs:379-395 | walking encoded entries by their back lengths visits each entry and ends at the end of the data |
| `SetObject.EncodedStep` | senko-core/src/set.rs:379-395 | one entry of encoded entries decodes to itself, and the next one begins where its back length says |
| `SetObject.SearchEntries` | senko-core/src/set.rs:379-395 | the walk finds a member exactly when it is an entry |
| `SetObject.SpellingIff` | senko-core/src/set.rs:417-420 | a parsed member prints back to itself if and only if it is a canonical decimal |
| `SetObject.LeadingZeroCollapses` | senko-core/src/set.rs:417-420 | a concrete member that is stored under another spelling |
| `SetObject.PrintShort` | senko-core/src/set.rs:343-353 | a printed 64-bit integer has at most 20 bytes, within the packed size bound |
| `SetObject.CanonicalIsItself` | senko-core/src/set.rs:174-215 | in every encoding a canonical or non-integer member is handled as itself |
| `SetObject.EffectiveIff` | senko-core/src/set.rs:174-188 | a member added to an integer set with room is kept as spelled if and only if canonical |
| `SetObject.PrintedTable` | senko-core/src/set.rs:355-365 | the upgrade to a table holds exactly the printed integers |
| `SetObject.PackedFits` | senko-core/src/set.rs:343-353 | a small integer set fits the packed bounds and keeps its members |
| `SetObject.PackIntegers` | senko-core/src/set.rs:343-353 | the upgraded node describes the printed integers in order |
| `SetObject.PushBack` | senko-core/src/set.rs:397-403 | pushing an entry appends it to what the node describes |
| `SetObject.DecodeNode` | senko-core/src/set.rs:367-377 | decoding returns what the node describes |
| `SetObject.EncodeNode` | senko-core/src/set.rs:405-411 | re-encoding describes the given entries |
| `SetObject.Position` | senko-core/src/set.rs:405-411 | the first position of a member, or there is none |
| `SetObject.SetObject.constructor` | senko-core/src/set.rs:154-160 | the empty set |
| `SetObject.SetObject.Contains` | senko-core/src/set.rs:205-215 | membership in the plain set, in all three encodings |
| `SetObject.SetObject.PackedContains` | senko-core/src/set.rs:379-395 | membership in the packed entries |
| `SetObject.SetObject.EnsureEncoding` | senko-core/src/set.rs:312-341 | which encoding is left, by 512 integers, 128 entries and 64 bytes; the upgrade loses no member, and afterwards the encoding has room for the new one |
| `SetObject.SetObject.TableOf` | senko-core/src/set.rs:367-377 | the table holds exactly the packed entries |
| `SetObject.SetObject.Add` | senko-core/src/set.rs:174-188 | the plain set gains exactly the member's effective form, reported as new exactly when it was; for canonical members that is the member; the encoding is kept, or upgraded, exactly by the bounds of 512, 128 and 64 |
| `SetObject.SetObject.AddSpelled` | senko-core/src/set.rs:174-188 | the same, without regard to spelling |
| `SetObject.SetObject.AddHere` | senko-core/src/set.rs:174-188 | adding within the chosen encoding |
| `SetObject.SetObject.AddInteger` | senko-core/src/set.rs:174-188 | adding an integer within the integer set adds its printed form |
| `SetObject.SetObject.AddPacked` | senko-core/src/set.rs:397-403 | adding within the packed encoding, once |
| `SetObject.SetObject.Remove` | senko-core/src/set.rs:190-203 | the plain set loses exactly the member's stored form, with no downgrade |
| `SetObject.SetObject.RemoveHere` | senko-core/src/set.rs:190-203 | removing within the current encoding |
| `SetObject.SetObject.RemoveInteger` | senko-core/src/set.rs:190-203 | removing an integer removes its printed form |
| `SetObject.SetObject.RemoveSpelled` | senko-core/src/set.rs:190-203 | removing from an integer set what the member spells, if it is an integer |
| `SetObject.SetObject.RemovePacked` | senko-core/src/set.rs:405-411 | removing within the packed encoding |
| `HashObject.DecodeListpack` | senko-core/src/hash.rs:300-327 | the decode loop equals the recursive decoding |
| `HashObject.DecodeEncoded` | senko-core/src/hash.rs:300-345 | bytes that end in encoded pairs decode to exactly those pairs |
| `HashObject.EncodeListpack` | senko-core/src/hash.rs:329-345 | encodes exactly when no name or value is longer than 255 bytes; then four bytes with the length of all, low byte first, and the pairs |
| `HashObject.PairLayout` | senko-core/src/hash.rs:329-345 | a pair is the length of the field, the field, the length of the value, the value, one pair behind the other |
| `HashObject.EntryStartsAt` | senko-core/src/hash.rs:347-363 | accepts a byte position exactly when an encoded pair begins there |
| `HashObject.WalkTo` | senko-core/src/hash.rs:347-363 | the walk over length bytes stops at a position exactly when it is one of the starts |
| `HashObject.ValueBehind` | senko-core/src/hash.rs:95-130 | where the field stands, the value of a pair with this field, or no such pair begins there |
| `HashObject.SearchListpack` | senko-core/src/hash.rs:95-130 | the substring search returns a value only of a pair with that field, and misses no field but the empty one |
| `HashObject.ListPairs` | senko-core/src/hash.rs:282-298 | lists every field of the table once, with its value |
| `HashObject.FoundInTable` | senko-core/src/hash.rs:95-130 | a search over a mirror answers as the table does |
| `HashObject.HashObject.constructor` | senko-core/src/hash.rs:75-85 | an empty hash whose mirror is the four header bytes |
| `HashObject.HashObject.RefreshEncoding` | senko-core/src/hash.rs:271-298 | a mirror exists exactly when the expiry flag is off, at most 128 fields are there and no name or value is longer than 64 bytes; then it mirrors the table. The flag is on whenever some field expires, and can stay on after that field was overwritten |
| `HashObject.HashObject.Set` | senko-core/src/hash.rs:172-199 | the table gains exactly that field; count, expiry flag and mirror follow |
| `HashObject.HashObject.Delete` | senko-core/src/hash.rs:201-219 | the table loses exactly that field; count, expiry flag and mirror follow |
| `HashObject.HashObject.DrainExpired` | senko-core/src/hash.rs:246-265 | exactly the fields whose deadline is not after the clock go, the others stay as they are, and the count returned is their number |
| `HashObject.HashObject.DeleteOne` | senko-core/src/hash.rs:246-265 | one expired field leaves, the others stay |
| `HashObject.HashObject.DeleteAll` | senko-core/src/hash.rs:246-265 | the loop removes exactly the collected fields |
| `HashObject.HashObject.ListpackGet` | senko-core/src/hash.rs:95-130 | with a mirror, every non-empty field reads as in the table; the empty field and a missing mirror read as none |
| `HashObject.HashObject.DecodeMirror` | senko-core/src/hash.rs:300-327 | the mirror decodes to exactly the table's fields and values, each once |
| `HashObject.HashObject.Len` | senko-core/src/hash.rs:225-230 | the number of fields without deadline or with one after the clock |
| `Shards.StoreMget` | senko-store/src/commands/multi.rs:29-47 | one shard's answers in argument order, refused exactly for no key or a value of another type |
| `Shards.StoreMset` | senko-store/src/commands/multi.rs:50-74 | one shard's assignment, refused exactly for an empty or odd list |
| `Shards.AssignedValue` | senko-store/src/commands/multi.rs:50-74 | after an assignment a key holds the last value given for it, or what it held |
| `Shards.LastByPositions` | senko-store/src/commands/multi.rs:50-74 | by positions: the value of the last pair that names the key, if there is one |
| `Shards.LastAssigned` | senko-store/src/commands/multi.rs:50-74 | after an assignment every key holds the value of the last pair that names it; a key without a pair is as before |
| `Shards.RemovedCounts` | senko-store/src/commands/generic/keys.rs:35-44 | deleting key by key counts the distinct stored keys |
| `Shards.DistinctStored` | senko-store/src/commands/generic/keys.rs:35-44 | the count is the number of different keys named and stored |
| `Shards.PresentPositions` | senko-store/src/commands/generic/keys.rs:58-71 | the count is the number of positions whose key is stored |
| `Shards.StoreDel` | senko-store/src/commands/generic/keys.rs:35-44 | exactly the named keys go, counted one by one |
| `Shards.StoreExists` | senko-store/src/commands/generic/keys.rs:58-71 | counts each argument that is stored, repetitions included |
| `Shards.FlatAnswer` | senko-net/src/connection.rs:3690-3692 | the flat map answers a key as its home shard does, and holds exactly the keys that some shard holds |
| `Shards.GroupMeaning` | senko-net/src/connection.rs:2953-2968 | a shard's group holds exactly the arguments at home there, with their positions |
| `Shards.GroupKeyArgs` | senko-net/src/connection.rs:2953-2968 | the grouping loop builds exactly those groups |
| `Shards.GroupedLast` | senko-net/src/connection.rs:2984-3008 | grouping keeps the last value of every key on its home shard |
| `Shards.GroupedOdd` | senko-net/src/connection.rs:2984-3008 | a group is odd exactly when the list is odd and its last key lives there |
| `Shards.GroupMsetPairs` | senko-net/src/connection.rs:2984-3008 | the pair-grouping loop builds exactly the groups, none of them empty |
| `Shards.Fill` | senko-net/src/connection.rs:1551-1601 | answers go to their argument positions and nothing else changes |
| `Shards.ShardRefuses` | senko-net/src/connection.rs:1551-1601 | a refusal by one shard means the flat map would refuse |
| `Shards.MergedAll` | senko-net/src/connection.rs:1551-1601 | after all shards every position holds the flat map's answer |
| `Shards.PartlyAssigned` | senko-net/src/connection.rs:1603-1641 | after the shards below some number, exactly their keys are assigned |
| `Shards.FullyAssigned` | senko-net/src/connection.rs:1603-1641 | after all shards the flat map is the assigned one |
| `Shards.RefusedUnchangedIff` | senko-net/src/connection.rs:1603-1641 | a refused assignment changes nothing if and only if its pairs on the shards before assign what is held already |
| `Shards.RefusedButWritten` | senko-net/src/connection.rs:1603-1641 | a refused list of a key, a value and a key on a higher shard has written the first key |
| `Shards.AllDeleted` | senko-net/src/connection.rs:1643-1684 | deleting on every shard deletes the keys from the flat map and keeps keys at home |
| `Shards.AllRemoved` | senko-net/src/connection.rs:1643-1684 | the summed deletion counts equal the flat count |
| `Shards.AllPresent` | senko-net/src/connection.rs:1643-1684 | the summed existence counts equal the flat count |
| `Shards.Cluster.constructor` | senko-net/src/connection.rs:3690-3692 | empty shards under any placement function |
| `Shards.Cluster.Mget` | senko-net/src/connection.rs:1551-1601 | for each argument the value the flat map holds under it, or none, in argument order; refused exactly when one of them is not a string |
| `Shards.Cluster.Mset` | senko-net/src/connection.rs:1603-1641 | for an even list every key holds the value of the last pair that names it, the others are as before; for an odd one an error and exactly which shards were written; keys stay at home |
| `Shards.Cluster.MsetEach` | senko-net/src/connection.rs:1603-1641 | shard after shard assigns its group; the first odd group, that of the last key, stops it |
| `Shards.Cluster.Del` | senko-net/src/connection.rs:1643-1684 | exactly the named keys leave the flat map, and the sum is the number of distinct keys that were stored |
| `Shards.Cluster.DelEach` | senko-net/src/connection.rs:1643-1684 | the shard loop deletes every group and sums the counts |
| `Shards.Cluster.DelOn` | senko-net/src/connection.rs:1643-1684 | one shard deletes its group |
| `Shards.Cluster.Exists` | senko-net/src/connection.rs:1643-1684 | the number of arguments whose key the flat map holds, repetitions included |

## Left out

- Slot.EveryRunIsFifo: steps are sequentially consistent; memory orderings weaker than that are not modelled.
- Patterns are byte strings; the lossy UTF-8 conversion of a pattern that is not valid UTF-8 is not modelled.
- Subscribers inside the pattern index are queues bounded by 256, which is what `Slot` proves the ring to be; sharing of a slot with its receiver is not modelled.
- Aho-Corasick, byte and substring search, vector instructions and hash functions are taken by their plain specification: all occurrences, the first position, any function.
- RespCodec.Output.WriteFrame: doubles are parsed as bytes and never serialized, because floating-point printing is outside the model; hence the `!f.Double?` of the serializer members.
- RespChunks.Connection.Read: command dispatch, replies and closing are not modelled.
- Resp.ParseScalar: a declared length whose frame would end past 2^64 is an error of the model; the source adds in machine words (senko-proto/src/parser.rs:98-130), so that a blob length of 2^64 - 2 panics on overflow, or wraps and then slices backwards.
- QuickList.QuickList.PushBack: elements are at most 249 bytes and the fill is below 65535, outside which the packed node loses entries (`Listpack.EntryBoundIff`).
- Nodes of the quick list live in an explicit map from addresses to nodes, so the raw pointers of the source are values here; order, aliasing and release are captured, allocation failure is not.
- `QuickList::remove` with its compressing walk, the pivot inserts and `lp_find`, ranges and position iterators: they rest on substring search over raw node bytes or would only add easy members.
- Stream.StreamTree.Insert: `first_entry_id` is stated as the source computes it; after deleting the first entry it is stale until the next trim.
- Stream.StreamTree.TrimByMaxlen: on trees that an insertion left out of order, trims are not specified; lookup, ranges, insertion and deletion are.
- Stream.StreamTree.TrimByMinid: the same.
- Reference modes, shared field names, the packed bytes of stream nodes and consumer groups are not modelled; whether a node is full is an arbitrary flag of the call.
- CuckooBuckets.ComesBackIff: for the full 16 bits of a fingerprint; with fewer configured bits a power of two is sufficient and not always necessary.
- Cuckoo.CuckooLayer.Insert: the random slot of a kick is any slot; fingerprint and first bucket are arguments; the multi-layer filter around a layer is not modelled.
- Bloom filter, top-k, t-digest, `CountMinSketch::merge_from` and chunked dump and load: floating point or easy members.
- Blocked.Registry.Notify: the returned bulk bytes are not modelled; the store operation is an arbitrary function of store, key and client; for a destination whose waiters move on, only who is answered is stated, not with what.
- SetObject.SetObject.Add: members are valid UTF-8, which the parameter `lossy` leaves unchanged; the width tag of integer sets and random sampling are not modelled.
- HashObject.HashObject.Set: `listpack_set` and `get_mut`, which can leave the mirror stale, are not part of the runs; the hashing of field names is a map.
- Shards.Cluster.Mget: commands run one at a time; other clients between two shards, expiry inside a shard, and keys that are not UTF-8 are not modelled.
- MSETNX, MSETEX, moves and set algebra across shards, blocking polls and merged stream reads.
- Machine-width saturation of lengths and counters, except where a wrap or saturation is named above.
- Sockets, the async runtime, wakers, access control, Lua, configuration, JSON and module commands, and cluster slots.
