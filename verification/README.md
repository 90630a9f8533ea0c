# Verification of the Loom core

A Dafny model of the parts of Loom that carry state or arithmetic, with proofs about all
inputs and all runs. One module per component:

- **The governed memory store** (`MemoryTypes`, `MemoryStore`, `MemoryService`, `ServiceRuns`). A
  bounded, keyed, upserting list of entries per agent, with eviction, search, removal, pruning and
  compaction, and an append-only receipt log. Over every run each call refines a step of one finite
  map per agent. `Compaction` treats the deduplication pass, `Pruning` and `ParallelPrune` show that
  the parallel workers agree with the sequential loop under every interleaving.
- **The lineage graph** (`Summaries`, `Lineage`, `LineageWalk`, `Lanes`, `Replay`). Receipts are
  parsed back into nodes, linked to their parents, indexed, walked in both directions and used to
  choose the entries to replay. With distinct receipt hashes the nodes of one (category, key), here
  called a slot, form a lane; ancestors and descendants are the two sides of it.
- **Merkle provenance** (`Merkle`). The level-by-level loop against the recursive tree of
  section 2.1 of RFC 6962, without that RFC's prefix bytes. The hash is a parameter. A hash to 32
  bytes cannot be injective, so no lemma assumes it: binding asks only that the hash separates the byte
  strings hashed for the lists at hand.
- **Event sourcing** (`Events`, `EventStore`, `TreasuryReplay`, `Counters`, `Gossip`). The append-only
  store that resumes its numbering, the saturating replay and its closed form, and the grow-only
  counter under gossip with loss, delay and duplication.
- **The marketplace ledger** (`Marketplace`). Bid, assign, settle, with conservation for any group of
  agents and the exact condition under which the committed counter is right.
- **Log rotation** (`LogRotation`). The descending rename loop over numbered files.
- **Text and hash kernels** (`BraceMatcher`, `Fnv`, `ConfigFile`, `Quoting`). The string-aware brace
  matcher, 64-bit FNV-1a, and the config printer and reader.

`Options`, `Words` (u64 arithmetic and sums), `Sorting` (the stable sort, filters and lookups),
`Text`, `Decimal` and `Hex` serve the others.

Objects whose methods update fields are classes here (`MemoryService`, `GCounter`, `EventFile` and
`Store`, `Marketplace`, `LogDir`), and loops are loops. Each such method is proved equal to a
function of the old state; the lemmas are about that function and its runs. The file system appears
as maps and sequences, clocks and receipt hashes as parameters of the calls.

Constants, defaults and texts are also stated outright, apart from the definitions that use them:
the receipts that each call logs (`MemoryService.WriteExactly`, `SearchExactly`, `RemoveExactly`,
`PruneExactly`, `CompactExactly`), their summaries (`Summaries.SummaryTexts`), a replay without a focus
and an empty graph (`Replay.UnfocusedReplayIsAll`, `Replay.InspectEmpty`), the defaults and errors of the
config reader (`ConfigFile.DefaultsExactly`, `ServiceDefaultsExactly`, `FailsExactly`), the lines and keys
of the printer (`ConfigFile.ConfigLinesExactly`, `PrintedEntries`, `Quoting.QuoteExactly`), and the
whitespace characters (`Text.WhitespaceListed`).

`dafny verify dfyconfig.toml` checks everything.

## Where the code does less than one might expect

Each point has the exact condition and an input.

- A write evicts at the cap even when it goes on to overwrite an entry. It then loses another slot
  unless the first of the least recently updated entries is the overwritten one, which gets a new id
  and creation time (`MemoryStore.OverwriteKeepsSlotsExactly`, `ServiceRuns.OverwriteLosesOtherSlot`).
- A lineage graph has distinct node ids exactly when the receipts behind it have distinct hashes; two
  writes of one slot and source in one millisecond, with contents of one size, make a node its own
  parent (`Lineage.GraphWellFormed`, `Lineage.SelfParentExactly`, `ServiceRuns.SameSizeWritesMakeCycle`).
- The nodes stand in the order of the calls exactly when the calls' stamps do; within a millisecond the
  hash decides (`ServiceRuns.NodesFollowCallsExactly`, `ServiceRuns.ReversedHashesReverseNodes`).
- With a cap of zero every write that is not too large panics (`ServiceRuns.AcceptsExactly`).
- Category and key of a receipt summary survive exactly when they contain no whitespace and, for a
  write, no token in the source changes them (`Summaries.WriteSlotSurvivesExactly`,
  `Summaries.RemoveRoundTripExactly`, `Summaries.BlankCutsKey`, `Summaries.SourceReplacesKey`).
- As long as the hash separates the bytes at hand, the Merkle root fixes the tree, and the tree fixes
  separator-free entries, and with them their number, unless an entry's hashed bytes are as long as
  two digests; such an entry can stand for two others (`Merkle.RootsAgreeExactly`,
  `Merkle.RootBindsAnyLength`, `Merkle.PairSizedEntryReplacesTwo`, `Merkle.PairSizedEntryExactly`).
- A `|` in an id can move the border between id and content (`Merkle.JoinedExactly`,
  `Merkle.InclusionByBytes`, `Merkle.InclusionShiftsSeparator`).
- The id that a submission or an assignment returns can be that of an earlier record once records have
  been removed; it finds its own record exactly when no earlier one has it
  (`Marketplace.NewBidIsFoundExactly`, `Marketplace.NewAssignmentIsFoundExactly`,
  `Marketplace.RemovalRepeatsId`).
- The committed counter of the marketplace is exact until an accepted assignment overflows, which the
  treasury gate lets happen when the funds above the floor equal the u64 maximum
  (`Marketplace.CommittedExactness`, `Marketplace.OverflowIsReachable`).
- A rename that fails breaks a rotation off and can leave a gap in the numbers; nothing more is
  lost than in a complete one (`LogRotation.RotationReads`, `LogRotation.FailedRenameGapExactly`).
- A rotation spares every file but the oldest exactly when its limit is not below the number of
  rotated files; otherwise it drops one from the middle of the log or, for a limit of one, the newest
  (`LogRotation.RotationDropsOldestExactly`, `LogRotation.ShrinkingLimitBreaksSuffix`,
  `LogRotation.LimitOfOneDropsNewest`).
- The config file gives back exactly the configs whose strings the printer does not escape
  (`ConfigFile.RoundTripExactly`, `ConfigFile.QuotedPathIsLost`).
- Several event stores on one file number it correctly, and give out distinct ids, exactly when every
  append is made by a store whose number is the length of the file (`EventStore.WellNumberedExactly`,
  `EventStore.IdsDistinctExactly`, `EventStore.TwoWritersCollide`).

## Model

| member | source | states |
|---|---|---|
| `MemoryService.MemoryService.constructor` | crates/loom-core/src/memory_service.rs:384-390 | a service of any policy on an empty directory stands at the start of every run: no entries, no receipts |
| `MemoryService.MemoryService.WriteEntry` | crates/loom-core/src/memory_service.rs:397-463 | an entry over the byte limit is rejected with the message and changes nothing, an eviction from an empty list panics; otherwise evict at the cap, upsert, log one receipt; the stored entry is returned |
| `MemoryService.MemoryService.SearchEntries` | crates/loom-core/src/memory_service.rs:466-501 | returns exactly the stored entries of the category and key prefix asked for, in list order, changes no entry and logs one read receipt |
| `MemoryService.MemoryService.RemoveEntry` | crates/loom-core/src/memory_service.rs:504-528 | drops the slot, returns true exactly when some entry was in it, logs a receipt either way |
| `MemoryService.MemoryService.ListAgents` | crates/loom-core/src/memory_service.rs:285-300 | every agent with a store, each once, in name order |
| `Sorting.StringLeExactly` | crates/loom-core/src/memory_service.rs:298-298 | names are ordered by their first difference, a prefix before its extensions |
| `MemoryService.MemoryService.PruneExpired` | crates/loom-core/src/memory_service.rs:531-556 | the loop over the agents leaves exactly the unexpired entries of all agents and returns by how many entries all stores shrank |
| `MemoryService.MemoryService.CompactAgent` | crates/loom-core/src/memory_service.rs:610-638 | returns the number of entries minus the number of distinct slots; without duplicates nothing changes and nothing is logged |
| `MemoryService.MemoryService.ListReceipts` | crates/loom-core/src/memory_service.rs:661-692 | one agent's receipts, newest first, receipts of one millisecond in log order, which fixes the list, and a prefix of that for a nonzero limit |
| `MemoryService.MemoryService.SelectReplayEntries` | crates/loom-core/src/memory_service.rs:773-846 | logs one read receipt and returns the whole selection, or the error text, made from the entries and the log |
| `MemoryStore.SortedHeadIsFirstOldest` | crates/loom-core/src/memory_service.rs:431-431 | the head after sorting is the first of the entries with the least `updated_at` |
| `MemoryStore.EvictDropsFirstOldest` | crates/loom-core/src/memory_service.rs:429-433 | at the cap exactly the first of the entries with the least `updated_at` goes; all others stay |
| `MemoryStore.EvictView` | crates/loom-core/src/memory_service.rs:429-433 | as a map, eviction takes out the slot of that entry and no other |
| `MemoryStore.PersistedCarries` | crates/loom-core/src/memory_service.rs:436-448 | an upsert takes content, time and source from the call and keeps id and creation time of the entry already there |
| `MemoryStore.UpsertView` | crates/loom-core/src/memory_service.rs:436-448 | an upsert sets its slot of the finite map and no other |
| `MemoryStore.PutRefinesMap` | crates/loom-core/src/memory_service.rs:429-448 | a write sets one slot of the map, after dropping the first entry with the least `updated_at` at the cap |
| `MemoryStore.OverwriteBelowCap` | crates/loom-core/src/memory_service.rs:429-448 | below the cap overwriting a filled slot loses no slot |
| `MemoryStore.OverwriteKeepsSlotsExactly` | crates/loom-core/src/memory_service.rs:429-448 | at the cap it loses no slot exactly when the first entry with the least `updated_at` is the overwritten one, which then starts anew; otherwise it loses just that entry's slot |
| `MemoryStore.PutKeepsPolicy` | crates/loom-core/src/memory_service.rs:419-448 | a write keeps slots unique, the count within the cap and every entry within the byte limit |
| `MemoryStore.PutIsFound` | crates/loom-core/src/memory_service.rs:429-493 | a lookup of the written slot returns the stored entry and nothing else |
| `MemoryStore.FoundIsExact` | crates/loom-core/src/memory_service.rs:473-488 | a lookup returns exactly the entries of the map that have the category asked for, if any, and whose key starts with the prefix, if any, each once |
| `MemoryStore.FoundInOrder` | crates/loom-core/src/memory_service.rs:473-488 | for any list, what a lookup returns is the sublist of those entries, in the order of the list |
| `MemoryStore.EvictKeepsOrder` | crates/loom-core/src/memory_service.rs:430-433 | what an eviction leaves, with the evicted entry in front, is the list by update time, entries of one time in their old order |
| `MemoryStore.UpsertInPlace` | crates/loom-core/src/memory_service.rs:436-448 | an upsert replaces the first entry of the slot where it stands, or appends |
| `MemoryStore.RemovedInOrder` | crates/loom-core/src/memory_service.rs:506-507 | a removal leaves exactly the other slots' entries, in their order |
| `MemoryStore.RetainedInOrder` | crates/loom-core/src/memory_service.rs:538-540 | pruning leaves exactly the entries updated at or after the cutoff, in their order |
| `MemoryTypes.Utf8LengthCounts` | crates/loom-core/src/memory_service.rs:76-78 | the length of a text is the number of bytes of its UTF-8 encoding (section 3 of RFC 3629) |
| `MemoryTypes.ByteSizeCounts` | crates/loom-core/src/memory_service.rs:76-78 | the bytes of content, key and category count against the limit, and nothing else |
| `MemoryService.WrittenExactly` | crates/loom-core/src/memory_service.rs:397-448 | a write of too many bytes fails with its message; otherwise it panics or returns the entry of its slot, as eviction has left it, with the new content, time and source, or a new one |
| `MemoryStore.RemoveRefinesMap` | crates/loom-core/src/memory_service.rs:504-508 | removal takes one slot out of the map and nothing else |
| `MemoryStore.RemoveReportsPresence` | crates/loom-core/src/memory_service.rs:506-508 | the list gets shorter exactly when the slot was filled, and is unchanged otherwise |
| `MemoryStore.RetainedRefinesMap` | crates/loom-core/src/memory_service.rs:538-540 | pruning keeps exactly the map's entries updated at or after the cutoff |
| `MemoryStore.CutoffExactly` | crates/loom-core/src/memory_service.rs:532-533 | the cutoff lies the whole retention period back exactly when that period fits in a u64 of seconds |
| `ServiceRuns.RunWithinPolicy` | crates/loom-core/src/memory_service.rs:397-638 | over every run of write, search, remove, prune and compact: unique slots, count within the cap, entries within the byte limit, for every agent |
| `ServiceRuns.AcceptsExactly` | crates/loom-core/src/memory_service.rs:419-433 | over every run a write succeeds exactly when the bytes of content, key and category do not exceed the limit and the cap is not zero; with a cap of zero every other write panics |
| `ServiceRuns.RunRefinesMap` | crates/loom-core/src/memory_service.rs:397-638 | over every run each call is a step of one finite map per agent; a write at the cap drops one least recently updated entry, no call touches anything else |
| `ServiceRuns.WriteIsFound` | crates/loom-core/src/memory_service.rs:397-501 | after any run, a successful write is what the next lookup of its slot returns, with the new content, time and source |
| `ServiceRuns.RunNeedsNoCompaction` | crates/loom-core/src/memory_service.rs:610-627 | after any run compaction finds no duplicate and changes nothing |
| `ServiceRuns.AgentsAreIsolated` | crates/loom-core/src/memory_service.rs:397-638 | a call for one agent leaves every other agent's entries alone |
| `ServiceRuns.OverwriteLosesOtherSlot` | crates/loom-core/src/memory_service.rs:429-448 | in a store for two entries, writing two slots and the second one again within one second loses the first slot |
| `Pruning.DroppedIsShrinkage` | crates/loom-core/src/memory_service.rs:534-545 | the drops added up agent by agent equal the shrinkage of all stores together |
| `ParallelPrune.AdvanceConsistent` | crates/loom-core/src/memory_service.rs:569-586 | one read, count or write turn of a worker, failing or not, keeps its store, its phase and its contribution in step |
| `ParallelPrune.RunIsConsistent` | crates/loom-core/src/memory_service.rs:562-586 | at every moment of every interleaving the counter is the sum of what the counting workers drop |
| `ParallelPrune.ParallelEqualsSequential` | crates/loom-core/src/memory_service.rs:566-594 | once all workers have finished, under every interleaving, stores and count are those of the sequential prune |
| `ParallelPrune.UnexpiredAlwaysPresent` | crates/loom-core/src/memory_service.rs:569-586 | no unexpired entry is missing at any moment of any interleaving |
| `ParallelPrune.FailuresTouchOneStore` | crates/loom-core/src/memory_service.rs:569-592 | once all workers are done, each agent's store is pruned or, if its worker failed to read or write, as it was |
| `ParallelPrune.RetryCompletes` | crates/loom-core/src/memory_service.rs:569-592 | wherever a parallel prune was left, failed or unfinished, pruning again at the same time ends in the same stores |
| `ParallelPrune.ThreeTurnsFinish` | crates/loom-core/src/memory_service.rs:569-586 | every schedule that gives each worker three turns brings it to its end |
| `ServiceRuns.ParallelPruneIsPrune` | crates/loom-core/src/memory_service.rs:562-604 | a finished parallel prune leaves the stores, graphs and log of the sequential one, but for the input summary of the last receipt |
| `Compaction.BestIsFirstGreatest` | crates/loom-core/src/memory_service.rs:615-622 | the entry kept for a slot is the first one with the greatest `updated_at` |
| `Compaction.IntoValues` | crates/loom-core/src/memory_service.rs:627-627 | the hash map gives its values, each once, in an order of its own choice |
| `Compaction.ListingOrderIsIrrelevant` | crates/loom-core/src/memory_service.rs:627-628 | the sorted result is the same whatever that order was |
| `Compaction.SlotsCount` | crates/loom-core/src/memory_service.rs:623-626 | nothing is removed exactly when no slot occurs twice |
| `Compaction.CompactEntries` | crates/loom-core/src/memory_service.rs:610-630 | the loop returns the number of duplicates, leaves a duplicate-free list untouched, and otherwise returns the winners ordered by category and then by key |
| `Compaction.CompactedIsFixed` | crates/loom-core/src/memory_service.rs:610-630 | a compacted list has the same slots, each once, so that compacting again removes nothing |
| `Compaction.CompactTwice` | crates/loom-core/src/memory_service.rs:610-630 | compacting twice is compacting once, and the map it leaves is that of the winners |
| `Compaction.CompactedKeepsLimits` | crates/loom-core/src/memory_service.rs:610-630 | compaction invents no entry and keeps the count and byte limits |
| `Compaction.CompactedView` | crates/loom-core/src/memory_service.rs:615-630 | as a map, a compacted list holds the winners, and for a duplicate-free list these are its entries |
| `Summaries.ParseSummaryTokens` | crates/loom-core/src/memory_service.rs:1174-1185 | the loop computes the parse of the summary |
| `Summaries.ParseExactly` | crates/loom-core/src/memory_service.rs:1174-1185 | a summary is parsed into exactly the values of the last `name=value` word of each nonempty name, split at the first equals sign |
| `Text.TrimDrops` | crates/loom-core/src/memory_service.rs:1178-1181 | trimming takes off all whitespace at the two ends and nothing else |
| `Text.SplitFirstWord` | crates/loom-core/src/memory_service.rs:1176-1176 | the words of a text that starts with one are that word and those of the rest |
| `Text.SplitSkipsBlanks` | crates/loom-core/src/memory_service.rs:1176-1176 | whitespace in front of a text does not change its words |
| `Summaries.WriteRoundTrip` | crates/loom-core/src/memory_service.rs:450-453 | a write summary of whitespace-free fields parses to exactly these three fields, even with `=` in them |
| `Summaries.WriteRoundTripExactly` | crates/loom-core/src/memory_service.rs:1174-1185 | the three fields survive exactly when none of them contains whitespace |
| `Summaries.RemoveRoundTrip` | crates/loom-core/src/memory_service.rs:510-520 | a remove summary of whitespace-free fields parses to exactly these two fields |
| `Summaries.WriteSlotSurvivesExactly` | crates/loom-core/src/memory_service.rs:1174-1185 | category and key of a write survive exactly when they contain no whitespace and no token in the source changes them |
| `Summaries.FreeSourceKeepsSlot` | crates/loom-core/src/memory_service.rs:453-453 | a source without whitespace changes neither category nor key |
| `Summaries.RemoveRoundTripExactly` | crates/loom-core/src/memory_service.rs:1174-1185 | category and key of a remove survive exactly when they contain no whitespace |
| `Summaries.BlankCutsKey` | crates/loom-core/src/memory_service.rs:513-513 | a key with a blank comes back cut off at the blank |
| `Summaries.SourceReplacesKey` | crates/loom-core/src/memory_service.rs:453-453 | a source that spells out a key of its own replaces the written key |
| `Lineage.BuildGraphNodesFromReceipts` | crates/loom-core/src/memory_service.rs:1055-1096 | the loop with its last-node map links each node to the last earlier node of its slot |
| `Lineage.GraphReceipts` | crates/loom-core/src/memory_service.rs:1058-1063 | the receipts behind a graph are the write and remove receipts, each as often as in the log, by millisecond and then by hash |
| `Lineage.NodesExactly` | crates/loom-core/src/memory_service.rs:1068-1094 | the nodes are made, in order and field by field, of exactly those receipts whose summary has a nonempty category and key |
| `Lineage.GraphIgnoresRecordOrder` | crates/loom-core/src/memory_service.rs:1058-1063 | with distinct hashes the same receipts in any order give the same graph |
| `Lineage.NodesLinked` | crates/loom-core/src/memory_service.rs:1077-1093 | every parent link is the nearest earlier node of the same slot |
| `Lineage.NodesDistinctExactly` | crates/loom-core/src/memory_service.rs:1065-1094 | the node ids are distinct exactly when the hashes of the receipts that give nodes are |
| `Lineage.GraphWellFormed` | crates/loom-core/src/memory_service.rs:1055-1096 | the graph of any log is well linked, and its node ids are distinct exactly when the hashes of its named write and remove receipts are |
| `Lineage.SelfParentExactly` | crates/loom-core/src/memory_service.rs:1079-1093 | in any graph a node is its own parent exactly when the last earlier node of its slot has its id |
| `Lineage.NearestIsLast` | crates/loom-core/src/memory_service.rs:1079-1081 | the nearest node is the last one of that slot, and there is none exactly when no node has the slot |
| `Lineage.ParentIsNearest` | crates/loom-core/src/memory_service.rs:1079-1093 | i is the parent of k exactly when i is the last node of k's slot before k; k has no parent exactly when it is the first |
| `LineageWalk.BuildGraphIndex` | crates/loom-core/src/memory_service.rs:1098-1121 | the index built by the loops is the node map, the parent map and the sorted duplicate-free children lists |
| `LineageWalk.IndexIsUnique` | crates/loom-core/src/memory_service.rs:1098-1121 | that description fixes the index |
| `LineageWalk.NodeMapHolds` | crates/loom-core/src/memory_service.rs:1098-1106 | in any graph the index holds, for each id, the last node with it and its parent |
| `LineageWalk.AncestorsFollowParents` | crates/loom-core/src/memory_service.rs:1123-1138 | in any graph each ancestor is the parent of the one before, and the walk ends only at the limit or where there is no parent |
| `LineageWalk.DescendantsBreadthFirst` | crates/loom-core/src/memory_service.rs:1140-1172 | in any graph the descendants are the nodes reachable over child links, each once, in breadth-first order, all of them below the limit |
| `LineageWalk.CollectAncestorIds` | crates/loom-core/src/memory_service.rs:1123-1138 | the cursor loop computes the parent chain, cut off at the limit |
| `LineageWalk.CollectDescendantIds` | crates/loom-core/src/memory_service.rs:1140-1172 | the queue loop with its visited set computes the breadth-first walk, cut off after reaching the limit |
| `Lanes.AncestorsAreLaneBefore` | crates/loom-core/src/memory_service.rs:1123-1138 | the ancestors are the earlier nodes of the same slot, latest first, up to the limit |
| `Lanes.AtMostOneChild` | crates/loom-core/src/memory_service.rs:1106-1115 | each node has at most one child: the next node of its slot |
| `Lanes.DescendantsAreLaneAfter` | crates/loom-core/src/memory_service.rs:1140-1172 | the descendants are the later nodes of the same slot, earliest first, up to the limit |
| `Lanes.LaneInOrder` | crates/loom-core/src/memory_service.rs:1055-1096 | a lane lists the ids of exactly the slot's nodes in the order of the graph |
| `Lanes.TakeBackExactly` | crates/loom-core/src/memory_service.rs:1129-1137 | up to the limit, the k-th ancestor is the k-th id from the end of the lane before the node |
| `Lanes.TakeFrontExactly` | crates/loom-core/src/memory_service.rs:1153-1170 | up to the limit, but at least one, the k-th descendant is the k-th id of the lane after the node |
| `Lanes.AncestorsExactly` | crates/loom-core/src/memory_service.rs:1123-1138 | an ancestor is an earlier node of the slot, and with a large enough limit every such node is one |
| `Lanes.DescendantsExactly` | crates/loom-core/src/memory_service.rs:1140-1172 | a descendant is a later node of the slot, and with a large enough limit every such node is one |
| `Lanes.AncestorIffDescendant` | crates/loom-core/src/memory_service.rs:1123-1172 | with a large enough limit, a is an ancestor of b exactly when b is a descendant of a; no node is its own ancestor or descendant |
| `Lanes.RepeatedHashMakesCycle` | crates/loom-core/src/memory_service.rs:1079-1093 | a receipt listed twice makes a node its own parent, and the ancestor walk repeats it up to the limit |
| `ServiceRuns.SameSizeWritesMakeCycle` | crates/loom-core/src/memory_service.rs:397-463 | two writes of one slot and source in one millisecond, with contents of one size, get one receipt under any hash, and the second node of the graph is its own parent |
| `ServiceRuns.LogRecordsRun` | crates/loom-core/src/memory_service.rs:853-898 | over every run, an agent's write and remove receipts are one per successful write or remove, in the order of the calls |
| `ServiceRuns.IrrelevantReceiptKeepsGraph` | crates/loom-core/src/memory_service.rs:1058-1062 | reads, prunes, compactions and other agents' receipts leave an agent's graph unchanged |
| `ServiceRuns.OneNodePerStep` | crates/loom-core/src/memory_service.rs:1068-1094 | over every run with distinct hashes and clean fields the graph has exactly one node per successful write or remove, carrying its slot and operation, and is well linked |
| `ServiceRuns.AgentGraphWellFormed` | crates/loom-core/src/memory_service.rs:848-851 | after any calls an agent's graph has distinct node ids exactly when the hashes of its named write and remove receipts are distinct |
| `ServiceRuns.NodesFollowCallsExactly` | crates/loom-core/src/memory_service.rs:1063-1094 | over every run with distinct hashes and clean fields the nodes stand in the order of the calls exactly when the calls' (millisecond, hash) pairs do |
| `ServiceRuns.ParentIsLatestEarlierCall` | crates/loom-core/src/memory_service.rs:1063-1094 | then a node's parent is the node of the latest earlier call on its slot, and it has none exactly when there is no such call |
| `ServiceRuns.ReversedHashesReverseNodes` | crates/loom-core/src/memory_service.rs:1063-1063 | two writes of one slot in one millisecond with hashes in reverse order: the earlier call's node gets the later one as its parent |
| `Replay.GraphInspect` | crates/loom-core/src/memory_service.rs:694-771 | the view of the graph around the focus, or the error text, computed with the loops above |
| `Replay.FallbackIsNewest` | crates/loom-core/src/memory_service.rs:717-725 | the focus is the id asked for if it has anything but whitespace in it, else the newest node: the last of the sorted list |
| `Replay.InspectShowsLanes` | crates/loom-core/src/memory_service.rs:694-771 | with distinct hashes, inspecting a node shows as ancestors the earlier nodes of its slot, unless only descendants are asked for, and as descendants the later ones, unless only ancestors are, up to the limit or one |
| `Replay.ReplaySelectsLanes` | crates/loom-core/src/memory_service.rs:799-845 | then a focused replay selects the ids of the focus and of the nodes on the side asked for, sorted, each once |
| `Replay.OnlyOneSlotSelected` | crates/loom-core/src/memory_service.rs:814-833 | whatever direction and limit, all nodes around the focus share its slot |
| `Replay.FocusedReplayIsOneSlot` | crates/loom-core/src/memory_service.rs:796-845 | with distinct hashes focused replay selects exactly the stored entries in the focus node's slot |
| `Replay.ReplayFailsWithoutFocus` | crates/loom-core/src/memory_service.rs:726-731 | focused replay fails exactly when no node has the focus id, with one message for an empty graph and one that names the id |
| `ServiceRuns.ReplayReadKeepsGraph` | crates/loom-core/src/memory_service.rs:780-780 | the read receipt that replay appends leaves every graph unchanged |
| `ServiceRuns.ReplayYieldsFocusSlot` | crates/loom-core/src/memory_service.rs:773-846 | over every run with distinct hashes a focused replay yields the one stored entry in the slot of the node asked for, the newest one for a blank id, or none |
| `Merkle.SplitIsLargest` | crates/loom-core/src/memory_hybrid.rs:167-187 | the split of the recursive definition (section 2.1 of RFC 6962) is the largest power of two below the length |
| `Merkle.RootOfParts` | crates/loom-core/src/memory_hybrid.rs:167-187 | the root of two or more leaves is the hash of the roots of the first k and of the rest, for the one power of two k with k < n <= 2k |
| `Merkle.SmallRoots` | crates/loom-core/src/memory_hybrid.rs:117-187 | the roots of one, two and three entries, down to the hashed bytes |
| `Merkle.HashLevel` | crates/loom-core/src/memory_hybrid.rs:177-184 | one pass over the chunks of two hashes pairs and promotes the odd node |
| `Merkle.LevelKeepsRoot` | crates/loom-core/src/memory_hybrid.rs:175-185 | hashing one level never changes the root of the recursive definition |
| `Merkle.MerkleRootFromLeaves` | crates/loom-core/src/memory_hybrid.rs:167-187 | the level-by-level loop returns the recursive root for every nonempty list and zeros for the empty one |
| `Merkle.ComputeProvenanceRoot` | crates/loom-core/src/memory_hybrid.rs:136-155 | root, count and leaves of the entry list |
| `Merkle.RootBindsLeaves` | crates/loom-core/src/memory_hybrid.rs:167-187 | as long as the hash separates the bytes hashed for two leaf lists of one length, their roots are equal exactly when the lists are |
| `Merkle.LengthsShareRoot` | crates/loom-core/src/memory_hybrid.rs:167-187 | bare leaf lists of any two lengths can share a root |
| `Merkle.JoinedInjective` | crates/loom-core/src/memory_hybrid.rs:117-123 | without the separator in the ids, the hashed bytes determine the entry |
| `Merkle.JoinedExactly` | crates/loom-core/src/memory_hybrid.rs:117-123 | two entries are hashed from the same bytes exactly when they are equal or the separator has moved from one's content to the other's id |
| `Merkle.RootsAgreeExactly` | crates/loom-core/src/memory_hybrid.rs:136-155 | as long as the hash separates the bytes hashed for two nonempty entry lists of any lengths, their roots are equal exactly when their trees hash the same bytes down to the first lone entry |
| `Merkle.SameTreeOfOneLength` | crates/loom-core/src/memory_hybrid.rs:136-155 | for one length that is the case exactly when the entries are hashed from the same bytes one by one |
| `Merkle.SameTreeOfAnyLength` | crates/loom-core/src/memory_hybrid.rs:136-155 | so it is for any lengths when no entry's hashed bytes are as long as two digests |
| `Merkle.RootBindsEntries` | crates/loom-core/src/memory_hybrid.rs:136-155 | separator-free entry lists of one length have equal roots exactly when they are equal, under the same condition on the hash |
| `Merkle.RootBindsAnyLength` | crates/loom-core/src/memory_hybrid.rs:136-155 | so do separator-free entry lists of any lengths when no entry's hashed bytes are as long as two digests |
| `Merkle.EmptyRootIsAlone` | crates/loom-core/src/memory_hybrid.rs:137-143 | a list has the all-zero root of the empty list exactly when its top bytes hash to it |
| `Merkle.PairSizedEntryReplacesTwo` | crates/loom-core/src/memory_hybrid.rs:136-155 | that condition is needed: an entry whose hashed bytes are the hashes of two entries gives a shorter list the same root |
| `Merkle.PairSizedEntryExactly` | crates/loom-core/src/memory_hybrid.rs:117-131 | there is such an entry with a separator-free id exactly when one of the two hashes contains the separator's byte |
| `Merkle.InclusionIsExact` | crates/loom-core/src/memory_hybrid.rs:158-165 | for separator-free ids exactly the listed entries are accepted, as long as the hash separates the bytes of the listed entries and the queried one |
| `Merkle.InclusionByBytes` | crates/loom-core/src/memory_hybrid.rs:158-165 | for any ids, under the same condition, exactly the entries hashed from the bytes of a listed one are accepted |
| `Merkle.InclusionShiftsSeparator` | crates/loom-core/src/memory_hybrid.rs:117-123 | with the separator in the queried id an unlisted entry is accepted, whatever the hash |
| `Counters.GCounter.constructor` | crates/loom-core/src/event_sourcing.rs:184-186 | a new counter has no entries |
| `Counters.GCounter.Increment` | crates/loom-core/src/event_sourcing.rs:188-191 | adds to one entry, saturating, and to no other |
| `Counters.GCounter.Value` | crates/loom-core/src/event_sourcing.rs:193-195 | the sum of all entries, wrapped around at the end of the u64 range |
| `Counters.GCounter.Merge` | crates/loom-core/src/event_sourcing.rs:197-204 | the loop over the other map computes the entrywise maximum in a new object |
| `Counters.JoinIsLeastUpperBound` | crates/loom-core/src/event_sourcing.rs:197-204 | merge is the least upper bound of the growth order |
| `Counters.JoinCommutative` | crates/loom-core/src/event_sourcing.rs:197-204 | merge is commutative |
| `Counters.JoinIdempotent` | crates/loom-core/src/event_sourcing.rs:197-204 | merge is idempotent |
| `Counters.JoinAssociative` | crates/loom-core/src/event_sourcing.rs:197-204 | merge is associative |
| `Counters.BumpGrows` | crates/loom-core/src/event_sourcing.rs:188-191 | an increment moves up in the growth order |
| `Gossip.RunConsistent` | crates/loom-core/src/event_sourcing.rs:174-208 | in every gossip run every counter shows, node by node, the capped sum of exactly the increments that reached it |
| `Gossip.OwnerCountsAllIncrements` | crates/loom-core/src/event_sourcing.rs:188-191 | in every run a node's own entry is the sum of all increments made there, cut off at the u64 maximum, and no replica knows of others |
| `Gossip.DeliveryInforms` | crates/loom-core/src/event_sourcing.rs:197-204 | however late, receiving a message adds exactly what its sender had absorbed when it sent it, and touches no other replica |
| `Gossip.ExchangeConverges` | crates/loom-core/src/event_sourcing.rs:197-204 | one exchange of messages makes two replicas equal: both hold the merge |
| `Gossip.OwnerIsAhead` | crates/loom-core/src/event_sourcing.rs:174-208 | no replica's view of a node exceeds the node's own |
| `Gossip.SameKnowledgeSameCounter` | crates/loom-core/src/event_sourcing.rs:197-204 | replicas that absorbed the same increments are equal, under any order, loss, delay and duplication |
| `Gossip.ValueCountsEachIncrementOnce` | crates/loom-core/src/event_sourcing.rs:193-195 | the value counts every increment that reached the replica exactly once exactly when their sum fits in a u64 |
| `TreasuryReplay.ReplayTreasury` | crates/loom-core/src/event_sourcing.rs:140-168 | the loop computes the fold of the saturating steps |
| `TreasuryReplay.OneMoreEvent` | crates/loom-core/src/event_sourcing.rs:148-166 | one more deposit or spend counts the amount in its payload, 0 if there is none, in the exact sums and, cut off at 0 and at the u64 maximum, in the replayed ones; other events count nothing |
| `TreasuryReplay.TotalsAreCappedSums` | crates/loom-core/src/event_sourcing.rs:152-165 | both totals are the exact sums cut off at the u64 maximum, and every event is counted |
| `TreasuryReplay.LowestIsMinimum` | crates/loom-core/src/event_sourcing.rs:140-168 | the lowest point is the least net total over all prefixes, the empty one included |
| `TreasuryReplay.BalanceClosedForm` | crates/loom-core/src/event_sourcing.rs:140-168 | the balance is the net total minus the lowest net total ever reached, while no running total rises more than a u64 above its lowest point |
| `TreasuryReplay.ClosedFormExactly` | crates/loom-core/src/event_sourcing.rs:140-168 | the closed form holds throughout a replay exactly when no running net total rises more than a u64 above its lowest point |
| `TreasuryReplay.DepositsThatFit` | crates/loom-core/src/event_sourcing.rs:151-153 | deposits that fit in a u64 altogether are never cut off |
| `TreasuryReplay.OverdraftLowers` | crates/loom-core/src/event_sourcing.rs:159-159 | the net total stays at or above 0 exactly when no spend exceeds the balance |
| `TreasuryReplay.BooksBalance` | crates/loom-core/src/event_sourcing.rs:140-168 | balance plus spent equals deposited exactly when no spend ever exceeded the balance; otherwise it is larger by the depth of the overdraft |
| `EventStore.Store.Open` | crates/loom-core/src/event_sourcing.rs:65-72 | an opened store continues one above the last sequence number read, wrapped around at the end of the u64 range |
| `EventStore.Store.Append` | crates/loom-core/src/event_sourcing.rs:74-96 | one numbered event is put at the end of the file and the number goes up by one |
| `EventStore.Store.ReadAll` | crates/loom-core/src/event_sourcing.rs:98-119 | the events of the file ordered by sequence number, events of one number in file order, which fixes the list |
| `EventStore.ResumeIsAboveAll` | crates/loom-core/src/event_sourcing.rs:65-72 | for any file, opening resumes above every number in it |
| `EventStore.OpensAboveAllExactly` | crates/loom-core/src/event_sourcing.rs:65-72 | an opened store continues above every number in the file exactly when the greatest u64 is not among them |
| `EventStore.WellNumberedExactly` | crates/loom-core/src/event_sourcing.rs:64-124 | over every run of any number of stores on one file, the numbers are 0 to n-1 in file order exactly when every append is made by a store whose number is the length of the file |
| `EventStore.IdsDistinctExactly` | crates/loom-core/src/event_sourcing.rs:74-82 | under just that condition the event ids are pairwise distinct |
| `EventStore.SingleWriterIsUpToDate` | crates/loom-core/src/event_sourcing.rs:64-124 | in every run of a single store, reopened at will, every append meets the condition |
| `EventStore.SingleWriterRun` | crates/loom-core/src/event_sourcing.rs:64-124 | over every run of a single store: numbers 0 to n-1 in file order, distinct ids, read back in append order, reopened at n |
| `EventStore.ReadsInAppendOrder` | crates/loom-core/src/event_sourcing.rs:117-118 | reading back gives the events in append order in spite of the sort |
| `EventStore.ResumesAtEnd` | crates/loom-core/src/event_sourcing.rs:66-67 | reopening a well numbered file resumes at its length |
| `EventStore.RunKeepsEveryAppend` | crates/loom-core/src/event_sourcing.rs:74-119 | over every run of any number of stores the file holds exactly the events appended, in order, with their own fields |
| `EventStore.TwoWritersCollide` | crates/loom-core/src/event_sourcing.rs:64-96 | two stores opened on an empty file that each append once give out one id twice |
| `Marketplace.Marketplace.constructor` | crates/loom-core/src/agent_marketplace.rs:69-77 | a new marketplace has empty lists and zero counters |
| `Marketplace.Marketplace.SubmitBid` | crates/loom-core/src/agent_marketplace.rs:80-101 | result and new state of a submission, the zero price rejected |
| `Marketplace.Marketplace.AssignBid` | crates/loom-core/src/agent_marketplace.rs:104-133 | result and new state of an assignment, with the lookup and the treasury gate |
| `Marketplace.Marketplace.SettleAssignment` | crates/loom-core/src/agent_marketplace.rs:136-164 | result and new state of a settlement, with the lookup and the proof check |
| `Sorting.Position` | crates/loom-core/src/agent_marketplace.rs:111-112 | the first record with the id, or the length of the list when there is none |
| `Marketplace.AcceptedExactly` | crates/loom-core/src/agent_marketplace.rs:80-164 | a step is accepted exactly when its guards hold, and fails with the error of the first that does not |
| `Marketplace.StepMovesOneRecord` | crates/loom-core/src/agent_marketplace.rs:80-164 | a rejected step changes nothing; an accepted one adds the bid it returns or moves the first record with the id, into a record with all fields of the call and an id that prints the length of the next list |
| `Hex.DigitsExactly` | crates/loom-core/src/agent_marketplace.rs:92-92 | an id ends in lower-case hexadecimal digits, as many as the width, that stand for the number |
| `Marketplace.IdsFindRecords` | crates/loom-core/src/agent_marketplace.rs:80-164 | over every run the ids of settlements are distinct, those of open bids while none is removed, those of assignments while none is settled, and each finds its record |
| `Marketplace.AssignmentTakesSubmittedBid` | crates/loom-core/src/agent_marketplace.rs:80-133 | while no bid is removed, assigning by the id that a submission returned takes exactly its bid, however much later |
| `Marketplace.SettlementTakesOwnAssignment` | crates/loom-core/src/agent_marketplace.rs:104-164 | while no assignment is settled, settling by the id that an assignment returned settles exactly that one |
| `Marketplace.NewBidIsFoundExactly` | crates/loom-core/src/agent_marketplace.rs:91-112 | in any state the id that a submission returns finds the new bid exactly when no open bid has the id that prints their number |
| `Marketplace.NewAssignmentIsFoundExactly` | crates/loom-core/src/agent_marketplace.rs:122-141 | in any state the id that an assignment returns finds it exactly when no other assignment has the id that prints their number |
| `Marketplace.RemovalRepeatsId` | crates/loom-core/src/agent_marketplace.rs:91-128 | after the first removal the next submission returns the id of the bid that was the last one, and finds its own bid exactly when that one was removed |
| `Marketplace.RunConserves` | crates/loom-core/src/agent_marketplace.rs:80-164 | over every run and for every group of agents: prices submitted = open + committed + settled |
| `Marketplace.RunSettles` | crates/loom-core/src/agent_marketplace.rs:157-160 | the settled counter is the sum of the settlements, cut off at the u64 maximum |
| `Marketplace.NextCommitted` | crates/loom-core/src/agent_marketplace.rs:117-130 | a step keeps the committed counter exact unless its addition leaves the u64 range, and then it is exact no more |
| `Marketplace.CommittedExactness` | crates/loom-core/src/agent_marketplace.rs:104-164 | the committed counter equals the live commitments throughout a run exactly when no accepted assignment overflows |
| `Marketplace.FundsBelowMaximumSuffice` | crates/loom-core/src/agent_marketplace.rs:115-117 | runs whose funds above the floor stay below the u64 maximum never overflow |
| `Marketplace.AssignStaysWithinFunds` | crates/loom-core/src/agent_marketplace.rs:115-130 | with such funds an accepted assignment does not saturate and all live commitments together fit in the funds |
| `Marketplace.OverflowIsReachable` | crates/loom-core/src/agent_marketplace.rs:115-117 | with funds of exactly the u64 maximum a second bid passes the gate although the sum overflows |
| `LogRotation.LogDir.RotateIfNeeded` | crates/loom-cli/src/main.rs:238-275 | the whole call, and what it leaves when a rename, the truncation or the setting of permissions fails |
| `LogRotation.IdleExactly` | crates/loom-cli/src/main.rs:239-245 | a call changes nothing exactly when a limit is zero or there is no base file as large as the byte limit |
| `LogRotation.RotationExactly` | crates/loom-cli/src/main.rs:253-273 | any other call empties the base file, for a limit of one, or moves it to .1 and each file below the limit one number up, as far as the renames succeed; when it fails |
| `LogRotation.LogDir.Shift` | crates/loom-cli/src/main.rs:255-270 | the descending rename loop and the rename of the base file, broken off at the first failing rename |
| `LogRotation.MovedAt` | crates/loom-cli/src/main.rs:255-264 | where every file is found after the renames down to any index: below the limit one number up, at or above it unchanged unless replaced |
| `LogRotation.FirstIsFree` | crates/loom-cli/src/main.rs:266-269 | the loop leaves `.1` free, so the removal of `.1` after it never has anything to remove |
| `LogRotation.RotationKeepsGapFree` | crates/loom-cli/src/main.rs:254-270 | a rotation without a failing rename keeps the suffixes .1 to .j without a gap |
| `LogRotation.FailedRenameGapExactly` | crates/loom-cli/src/main.rs:255-264 | a rename that fails leaves a gap exactly when a file with a higher number is left |
| `LogRotation.RotationReads` | crates/loom-cli/src/main.rs:254-270 | from any directory, a rotation, complete or broken off at any rename, reads as the log before in the same order, without the file at the limit if the one below it moves there |
| `LogRotation.RotationDropsOldestExactly` | crates/loom-cli/src/main.rs:238-275 | a rotation spares every file but the oldest exactly when its limit is not below the number of rotated files, and it never drops two |
| `LogRotation.RotationReadsSuffix` | crates/loom-cli/src/main.rs:238-275 | if the limit fits, a call, complete or broken off, leaves a log that reads as a suffix of the log before |
| `LogRotation.RunIsGapFree` | crates/loom-cli/src/main.rs:238-275 | in every run of appends and rotations without failing renames from an empty directory the rotated files are exactly .1 to .j |
| `LogRotation.RunReadsSuffix` | crates/loom-cli/src/main.rs:238-275 | in every run whose limits fit, whatever renames fail, reading oldest to newest and then the base file gives a suffix of everything appended |
| `LogRotation.SteadyLimitsFit` | crates/loom-cli/src/main.rs:238-275 | limits of at least two that never shrink always fit |
| `LogRotation.ShrinkingLimitDropsMiddle` | crates/loom-cli/src/main.rs:238-275 | three rotations that keep three files and one that keeps two lose a file from the middle of the log |
| `LogRotation.ShrinkingLimitBreaksSuffix` | crates/loom-cli/src/main.rs:238-275 | with four one-byte appends that run does not read back a suffix of what was appended |
| `LogRotation.LimitOfOneDropsNewest` | crates/loom-cli/src/main.rs:271-273 | a limit of one after a rotation drops the newest file and keeps the older one |
| `BraceMatcher.FindMatchingBrace` | crates/loom-core/src/lib.rs:2971-3003 | the loop returns the first stopping position at or after the start, or none |
| `BraceMatcher.MatchUnique` | crates/loom-core/src/lib.rs:2971-3003 | there is only one such position |
| `BraceMatcher.ObjectIsMatched` | crates/loom-core/src/lib.rs:2971-3003 | started at the opening brace of any object printed from a tree (sections 4 and 7 of RFC 8259), anywhere in any text, the result is that object's closing brace |
| `BraceMatcher.ValueNeutral` | crates/loom-core/src/lib.rs:2976-3000 | inside an object every printed value leaves depth and string state as they were |
| `BraceMatcher.MatchBalances` | crates/loom-core/src/lib.rs:2989-2998 | in any text the match is the first point where the braces outside strings balance |
| `BraceMatcher.MatchIsFirstBalance` | crates/loom-core/src/lib.rs:2971-3003 | from an opening brace the result is the first position after which the braces outside strings balance, and there is none exactly when they never balance |
| `BraceMatcher.MatchExactly` | crates/loom-core/src/lib.rs:2971-3003 | from any position of any text, the result is the first closing brace outside strings at which no brace opened since is left open, told by quotes, backslashes and braces alone, and there is none exactly when there is no such brace |
| `Fnv.Fnv1a64` | crates/loom-core/src/lib.rs:3081-3088 | the loop folds the rounds over the bytes |
| `Fnv.KnownDigests` | crates/loom-core/src/lib.rs:3081-3088 | the digests of the empty string and of every string of one byte |
| `Fnv.XorBits` | crates/loom-core/src/lib.rs:3084-3084 | exclusive or, binary digit by binary digit |
| `Fnv.XorTwice` | crates/loom-core/src/lib.rs:3084-3084 | exclusive or with the same byte twice gives the state back |
| `Fnv.PrimeInvertible` | crates/loom-core/src/lib.rs:3085-3085 | wrapping multiplication by the prime is undone by its inverse, in either order |
| `Fnv.StepBijective` | crates/loom-core/src/lib.rs:3083-3086 | every round is a bijection of the 64-bit state |
| `Fnv.StepSeparatesBytes` | crates/loom-core/src/lib.rs:3083-3086 | from one state, different bytes lead to different states |
| `Fnv.RoundsBijective` | crates/loom-core/src/lib.rs:3081-3088 | hashing a fixed string is a bijection of the starting state |
| `Fnv.CommonTailCancels` | crates/loom-core/src/lib.rs:3081-3088 | a common tail neither creates nor removes a collision |
| `Fnv.OneByteNeverCollides` | crates/loom-core/src/lib.rs:3081-3088 | inputs of one length that differ in exactly one byte never have the same hash |
| `ConfigFile.ReadConfig` | crates/loom-core/src/lib.rs:383-507 | the loop collects the last value of every key, and the config is built from them with the defaults |
| `ConfigFile.LinesExactly` | crates/loom-core/src/lib.rs:387-387 | text is read in lines that end at line feeds, a carriage return before one taken off, the last line with or without one |
| `ConfigFile.AddLineExactly` | crates/loom-core/src/lib.rs:388-400 | blank lines, comments, titles and lines without an equals sign are skipped; any other line sets the trimmed text before its first equals sign to the trimmed and unquoted text after it |
| `ConfigFile.AddPairLine` | crates/loom-core/src/lib.rs:387-400 | a printed line is read as its key and its value without the quotes |
| `ConfigFile.LinesOfTerminated` | crates/loom-core/src/lib.rs:387-387 | splitting terminated lines gives the lines back |
| `ConfigFile.ReadsBack` | crates/loom-core/src/lib.rs:383-507 | reading any rendered config gives every number as it was and every string as unquoting leaves it, or an error exactly for an invalid mode |
| `ConfigFile.RoundTripExactly` | crates/loom-core/src/lib.rs:2867-2893 | a rendered config is read back as itself exactly when its mode is valid and the printer escapes nothing in its strings |
| `ConfigFile.QuotedPathIsLost` | crates/loom-core/src/lib.rs:2867-2893 | a config whose kernel path contains a quote is not read back as itself |
| `Quoting.UnquoteExactly` | crates/loom-core/src/lib.rs:3066-3068 | taking the quotes off a printed string gives it back exactly when the printer escaped nothing |
| `Quoting.EscapesExactly` | crates/loom-core/src/lib.rs:3066-3068 | how each character is printed: one of six short escapes, itself, or its number in hexadecimal |
| `Quoting.EscapeAppend` | crates/loom-core/src/lib.rs:3066-3068 | a text is printed character by character |
| `Quoting.TrimQuotesExactly` | crates/loom-core/src/lib.rs:397-397 | unquoting takes off all quotes at the two ends and nothing else |
| `Decimal.PrintParse` | crates/loom-core/src/lib.rs:465-480 | parsing a printed u64 gives it back |
| `Decimal.ParseExactly` | crates/loom-core/src/lib.rs:465-480 | a number is read from an optional plus sign and digits of u64 size, and from nothing else |

## Left out

- Unsigned arithmetic that is not saturating wraps around as in a release build (`EventStore.Store.Open`, `EventStore.Store.Append`, `Counters.GCounter.Value`, `MemoryStore.Cutoff`); a debug build panics there.
- A panic of a write is an error value here (`MemoryService.MemoryService.WriteEntry`).
- MemoryService.MemoryService.SelectReplayEntries: the focused selection lists its slots in the order of a hash set, which the model leaves open.
- LogRotation.LogDir.RotateIfNeeded: errors before the first change (metadata, file names) are not modelled; a removal that fails is ignored by the program, and the rename after it replaces the target.
- `GCounter::node_value` and `EventStore::sequence`: accessors.
- Merkle.PairSizedEntryExactly: entries are byte strings; the program's are UTF-8 text, so that the two digests would also have to be valid UTF-8.
- BraceMatcher.ObjectIsMatched: the grammar of numbers and literals is not modelled; any text without quotes and braces may stand for them and for whitespace, which includes the real ones.
- The file system, JSON parsing and printing, and every error they can raise; agent names as path components.
- Clocks and the receipt hash, which come in as parameters; SHA-256 and the proof interceptor, of which nothing is assumed beyond the length of a digest.
- The table of printable characters beyond ASCII that the debug format consults, which is a parameter of the config printer.
- The width of `usize`, taken to be 64 bits.
- Vector search and cosine similarity (floating point), the temporal queries, `overview`, `build_index` and all human and JSON renderings: easier members or no arithmetic worth a proof.
- `GovernanceActor`, `Marketplace::summary` and `find_named_object`: thin wrappers around modelled parts.
- The JSON string extractors of lib.rs: textual lookups without a general claim.
- Onboarding, health checks, command dispatch, the runtime, channels, pipelines, capabilities and bindings.
