// What holds over every run of the memory service from an empty directory.

module ServiceRuns {
  import opened Options
  import opened Words
  import opened Sorting
  import opened MemoryTypes
  import opened MemoryStore
  import opened Compaction
  import opened Pruning
  import opened Lineage
  import opened Replay
  import opened MemoryService
  import Decimal
  import Lanes
  import LineageWalk
  import ParallelPrune
  import Summaries
  import Text

  // ----- the policy and the finite map -----

  ghost predicate AllWithinPolicy(policy: Policy, stores: Stores) {
    forall a | a in stores :: WithinPolicy(stores[a], policy)
  }

  lemma EntriesWithinPolicy(policy: Policy, stores: Stores, agentId: string)
    requires AllWithinPolicy(policy, stores)
    ensures WithinPolicy(EntriesOf(stores, agentId), policy)
  {
  }

  /** The writes that a service of that policy accepts: the entry is not too large, and the cap
      is not zero. */
  predicate Accepts(policy: Policy, s: Step)
    requires s.Write?
  {
    !TooLarge(policy, s) && policy.maxEntriesPerAgent >= 1
  }

  lemma NextWithinPolicy(policy: Policy, repo: Repo, s: Step)
    requires AllWithinPolicy(policy, repo.stores)
    ensures AllWithinPolicy(policy, Next(policy, repo, s).stores)
  {
    match s
    case Write(agentId, category, key, content, source, stamp) =>
      EntriesWithinPolicy(policy, repo.stores, agentId);
      WrittenWithinPolicy(policy, repo.stores, s);
      if Accepts(policy, s) {
        PutKeepsPolicy(EntriesOf(repo.stores, agentId), policy, EntryOf(s));
      }
    case Search(_, _, _, _) =>
    case Remove(agentId, category, key, _) =>
      EntriesWithinPolicy(policy, repo.stores, agentId);
      FilterKeepsPolicy(EntriesOf(repo.stores, agentId), policy, (e: Entry) => SlotOf(e) != (category, key));
    case Prune(stamp) =>
      var cutoff := Cutoff(stamp.now, policy.retentionDays);
      forall a | a in repo.stores ensures WithinPolicy(Retained(repo.stores[a], cutoff), policy) {
        FilterKeepsPolicy(repo.stores[a], policy, (e: Entry) => e.updatedAt >= cutoff);
      }
    case Compact(agentId, _) =>
      EntriesWithinPolicy(policy, repo.stores, agentId);
      SlotsCount(EntriesOf(repo.stores, agentId));
  }

  /** Over every run: slots stay unique, and no store exceeds the cap or holds an entry over
      the byte limit. */
  lemma {:induction false} RunWithinPolicy(policy: Policy, steps: seq<Step>)
    ensures AllWithinPolicy(policy, Run(policy, steps).stores)
  {
    if steps == [] {
    } else {
      RunWithinPolicy(policy, steps[..|steps| - 1]);
      NextWithinPolicy(policy, Run(policy, steps[..|steps| - 1]), steps[|steps| - 1]);
    }
  }

  lemma WrittenWithinPolicy(policy: Policy, stores: Stores, s: Step)
    requires s.Write? && AllWithinPolicy(policy, stores)
    ensures Written(policy, EntriesOf(stores, s.agentId), s).Ok? <==> Accepts(policy, s)
  {
    EntriesWithinPolicy(policy, stores, s.agentId);
  }

  /** Over every run, a write succeeds exactly when its entry is not too large and the cap is
      not zero; with a cap of zero every other write panics. */
  lemma AcceptsExactly(policy: Policy, steps: seq<Step>, s: Step)
    requires s.Write?
    ensures var r := Written(policy, EntriesOf(Run(policy, steps).stores, s.agentId), s);
            && (r.Ok? <==> Accepts(policy, s))
            && (Accepts(policy, s) <==> BytesAsked(s) <= policy.maxEntryBytes && policy.maxEntriesPerAgent >= 1)
            && (r == Err(Panic) <==> BytesAsked(s) <= policy.maxEntryBytes && policy.maxEntriesPerAgent == 0)
  {
    ByteSizeCounts(EntryOf(s));
    RunWithinPolicy(policy, steps);
    WrittenWithinPolicy(policy, Run(policy, steps).stores, s);
  }

  /** After any run, compaction finds nothing to do. */
  lemma RunNeedsNoCompaction(policy: Policy, steps: seq<Step>, agentId: string, stamp: Stamp)
    ensures Next(policy, Run(policy, steps), Compact(agentId, stamp)) == Run(policy, steps)
  {
    RunWithinPolicy(policy, steps);
    EntriesWithinPolicy(policy, Run(policy, steps).stores, agentId);
    SlotsCount(EntriesOf(Run(policy, steps).stores, agentId));
  }

  lemma RunPush(policy: Policy, steps: seq<Step>, s: Step)
    ensures Run(policy, steps + [s]) == Next(policy, Run(policy, steps), s)
  {
    assert (steps + [s])[..|steps|] == steps;
  }

  /** A successful write is what a later lookup of its slot returns, as its only entry there. */
  lemma WriteIsFound(policy: Policy, steps: seq<Step>, s: Step, e: Entry)
    requires s.Write? && Accepts(policy, s)
    ensures var stored := Stored(policy, EntriesOf(Run(policy, steps).stores, s.agentId), s);
            var after := EntriesOf(Run(policy, steps + [s]).stores, s.agentId);
            && stored.content == s.content && stored.updatedAt == s.stamp.now && stored.source == s.source
            && (e in Found(after, Some(s.category), Some(s.key)) && e.key == s.key <==> e == stored)
  {
    var entries := EntriesOf(Run(policy, steps).stores, s.agentId);
    var entry := NewEntry(s.agentId, s.category, s.key, s.content, s.source, s.stamp.now);
    RunPush(policy, steps, s);
    RunWithinPolicy(policy, steps);
    EntriesWithinPolicy(policy, Run(policy, steps).stores, s.agentId);
    PutIsFound(entries, policy.maxEntriesPerAgent, entry, e);
  }

  // ----- the parallel prune -----

  /** The receipt of the parallel prune: that of the sequential one with a longer summary. */
  function ParallelPruneReceipt(stamp: Stamp, retentionDays: nat, cutoff: nat, agents: nat, count: nat): Receipt {
    var q := PruneReceipt(Prune(stamp), retentionDays, cutoff, count);
    q.(inputSummary := q.inputSummary + " mode=parallel agents=" + Decimal.Print(agents))
  }

  /** What a parallel prune leaves once all workers are done: it logs nothing if one failed. */
  ghost function AfterParallelPrune(policy: Policy, repo: Repo, stamp: Stamp, schedule: seq<ParallelPrune.Turn>): Repo {
    var cutoff := Cutoff(stamp.now, policy.retentionDays);
    var end := ParallelPrune.Run(repo.stores, cutoff, schedule);
    if ParallelPrune.SomeFailed(end) then Repo(end.stores, repo.receipts)
    else
      Repo(end.stores,
           repo.receipts + [ParallelPruneReceipt(stamp, policy.retentionDays, cutoff, |repo.stores|, end.total)])
  }

  lemma OneReceiptApart(receipts: seq<Receipt>, p: Receipt, q: Receipt, agentId: string)
    requires !Relevant(p) && !Relevant(q)
    ensures AgentGraph(receipts + [p], agentId) == AgentGraph(receipts + [q], agentId)
  {
    IrrelevantReceiptKeepsGraph(receipts, p, agentId);
    IrrelevantReceiptKeepsGraph(receipts, q, agentId);
  }

  lemma AfterPrune(policy: Policy, repo: Repo, stamp: Stamp) returns (count: nat)
    ensures var cutoff := Cutoff(stamp.now, policy.retentionDays);
            && count == Size(repo.stores) - Size(PruneAll(repo.stores, cutoff))
            && Next(policy, repo, Prune(stamp))
               == Repo(PruneAll(repo.stores, cutoff),
                   repo.receipts + [PruneReceipt(Prune(stamp), policy.retentionDays, cutoff, count)])
  {
    var cutoff := Cutoff(stamp.now, policy.retentionDays);
    DroppedIsShrinkage(repo.stores, cutoff);
    count := Size(repo.stores) - Size(PruneAll(repo.stores, cutoff));
  }

  /** Under every interleaving the parallel prune leaves what the sequential one leaves: the
      same stores and graphs, and the same log but for the input summary of the last receipt. */
  lemma ParallelPruneIsPrune(policy: Policy, repo: Repo, stamp: Stamp, schedule: seq<ParallelPrune.Turn>,
          agentId: string)
      returns (p: Receipt, q: Receipt)
    requires ParallelPrune.AllFinished(ParallelPrune.Run(repo.stores, Cutoff(stamp.now, policy.retentionDays),
             schedule))
    ensures var parallel, sequential := AfterParallelPrune(policy, repo, stamp, schedule),
            Next(policy, repo, Prune(stamp));
            && parallel.stores == sequential.stores
            && AgentGraph(parallel.receipts, agentId) == AgentGraph(sequential.receipts, agentId)
            && parallel.receipts == repo.receipts + [p] && sequential.receipts == repo.receipts + [q]
    ensures p == q.(inputSummary := q.inputSummary + " mode=parallel agents=" + Decimal.Print(|repo.stores|))
  {
    var cutoff := Cutoff(stamp.now, policy.retentionDays);
    ParallelPrune.ParallelEqualsSequential(repo.stores, cutoff, schedule);
    var count := AfterPrune(policy, repo, stamp);
    p := ParallelPruneReceipt(stamp, policy.retentionDays, cutoff, |repo.stores|, count);
    q := PruneReceipt(Prune(stamp), policy.retentionDays, cutoff, count);
    OneReceiptApart(repo.receipts, p, q, agentId);
  }

  // ----- the service as a finite map per agent -----

  /** What is left to write into: all of m below the cap, else all but one least recently
      updated entry. */
  ghost predicate RoomMade(policy: Policy, m: map<Slot, Entry>, kept: map<Slot, Entry>) {
    if |m| < policy.maxEntriesPerAgent then kept == m
    else
      exists victim :: victim in m && kept == m - {victim}
                       && forall slot | slot in m :: m[victim].updatedAt <= m[slot].updatedAt
  }

  ghost function Overwritten(kept: map<Slot, Entry>, e: Entry): map<Slot, Entry> {
    if SlotOf(e) in kept
    then kept[SlotOf(e) := kept[SlotOf(e)].(content := e.content, updatedAt := e.updatedAt, source := e.source)]
    else kept[SlotOf(e) := e]
  }

  /** What a call may make of one agent's map. */
  ghost predicate MapStep(policy: Policy, agentId: string, m: map<Slot, Entry>, s: Step, m': map<Slot, Entry>) {
    match s
    case Write(agent, category, key, content, source, stamp) =>
      if agent != agentId || !Accepts(policy, s) then m' == m
      else exists kept :: RoomMade(policy, m, kept)
                          && m' == Overwritten(kept, NewEntry(agent, category, key, content, source, stamp.now))
    case Remove(agent, category, key, _) => m' == if agent == agentId then m - {(category, key)} else m
    case Prune(stamp) =>
      m' == map slot | slot in m && m[slot].updatedAt >= Cutoff(stamp.now, policy.retentionDays) :: m[slot]
    case _ => m' == m
  }

  lemma ViewSize(entries: seq<Entry>)
    requires DistinctBy(entries, SlotOf)
    ensures |View(entries)| == |entries|
  {
    SlotsCount(entries);
    assert View(entries).Keys == Slots(entries);
    assert |View(entries)| == |View(entries).Keys|;
  }

  lemma EvictMakesRoom(policy: Policy, entries: seq<Entry>)
    requires policy.maxEntriesPerAgent >= 1 && DistinctBy(entries, SlotOf)
    ensures RoomMade(policy, View(entries), View(Evict(entries, policy.maxEntriesPerAgent)))
  {
    ViewSize(entries);
    if |entries| >= policy.maxEntriesPerAgent {
      var i := SortedHeadIsFirstOldest(entries);
      EvictView(entries, policy.maxEntriesPerAgent, i);
      var victim := entries[i];
      ViewHolds(entries, victim);
      forall slot | slot in View(entries) ensures victim.updatedAt <= View(entries)[slot].updatedAt {
        ViewOnlyHolds(entries, slot);
      }
    }
  }

  lemma PersistedOverwrites(kept: seq<Entry>, e: Entry)
    requires DistinctBy(kept, SlotOf)
    ensures View(Upsert(kept, e)) == Overwritten(View(kept), e)
  {
    UpsertView(kept, e);
    var i := Position(kept, SlotOf, SlotOf(e));
    if i < |kept| {
      ViewHolds(kept, kept[i]);
    } else if SlotOf(e) in View(kept) {
      ViewOnlyHolds(kept, SlotOf(e));
    }
  }

  lemma WriteRefinesMap(policy: Policy, entries: seq<Entry>, e: Entry)
    requires policy.maxEntriesPerAgent >= 1 && DistinctBy(entries, SlotOf)
    ensures exists kept :: RoomMade(policy, View(entries), kept)
                           && View(Put(entries, policy.maxEntriesPerAgent, e)) == Overwritten(kept, e)
  {
    EvictMakesRoom(policy, entries);
    EvictDistinct(entries, policy.maxEntriesPerAgent);
    PersistedOverwrites(Evict(entries, policy.maxEntriesPerAgent), e);
  }

  /** One agent's store as a map from slots to entries. */
  ghost function AgentView(repo: Repo, agentId: string): map<Slot, Entry> {
    View(EntriesOf(repo.stores, agentId))
  }

  lemma RemoveRefines(policy: Policy, repo: Repo, s: Step, agentId: string)
    requires s.Remove? && DistinctBy(EntriesOf(repo.stores, agentId), SlotOf)
    ensures MapStep(policy, agentId, AgentView(repo, agentId), s, AgentView(Next(policy, repo, s), agentId))
  {
    var entries, slot := EntriesOf(repo.stores, agentId), (s.category, s.key);
    if s.agentId == agentId {
      RemoveRefinesMap(entries, slot);
      RemoveReportsPresence(entries, slot);
      FilterKeepsFewer(entries, (e: Entry) => SlotOf(e) != slot);
      assert EntriesOf(Next(policy, repo, s).stores, agentId) == RemoveSlot(entries, slot);
    } else {
      AgentsAreIsolated(policy, repo, s, agentId);
    }
  }

  lemma PruneRefines(policy: Policy, repo: Repo, s: Step, agentId: string)
    requires s.Prune? && DistinctBy(EntriesOf(repo.stores, agentId), SlotOf)
    ensures MapStep(policy, agentId, AgentView(repo, agentId), s, AgentView(Next(policy, repo, s), agentId))
  {
    var entries, cutoff := EntriesOf(repo.stores, agentId), Cutoff(s.stamp.now, policy.retentionDays);
    RetainedRefinesMap(entries, cutoff);
    assert EntriesOf(Next(policy, repo, s).stores, agentId) == Retained(entries, cutoff);
  }

  lemma NextWrites(policy: Policy, repo: Repo, s: Step)
    requires s.Write? && AllWithinPolicy(policy, repo.stores)
    ensures Next(policy, repo, s)
            == if Accepts(policy, s) then
                 var entries := EntriesOf(repo.stores, s.agentId);
                 Repo(repo.stores[s.agentId := Put(entries, policy.maxEntriesPerAgent, EntryOf(s))],
                      repo.receipts + [WriteReceipt(s, Stored(policy, entries, s))])
               else repo
  {
    WrittenWithinPolicy(policy, repo.stores, s);
  }

  lemma WriteRefines(policy: Policy, repo: Repo, s: Step, agentId: string)
    requires s.Write? && AllWithinPolicy(policy, repo.stores)
    ensures MapStep(policy, agentId, AgentView(repo, agentId), s, AgentView(Next(policy, repo, s), agentId))
  {
    NextWrites(policy, repo, s);
    EntriesWithinPolicy(policy, repo.stores, agentId);
    if s.agentId == agentId && Accepts(policy, s) {
      WriteRefinesMap(policy, EntriesOf(repo.stores, agentId), EntryOf(s));
    }
  }

  /** Over every run, each call refines a step of a finite map for every agent: the lists,
      their order and their positions are invisible. */
  lemma RunRefinesMap(policy: Policy, steps: seq<Step>, s: Step, agentId: string)
    ensures MapStep(policy, agentId, AgentView(Run(policy, steps), agentId), s,
            AgentView(Run(policy, steps + [s]), agentId))
    ensures AgentView(Run(policy, []), agentId) == map[]
  {
    var repo := Run(policy, steps);
    RunPush(policy, steps, s);
    RunWithinPolicy(policy, steps);
    EntriesWithinPolicy(policy, repo.stores, agentId);
    match s
    case Write(_, _, _, _, _, _) => WriteRefines(policy, repo, s, agentId);
    case Search(_, _, _, _) =>
    case Remove(_, _, _, _) => RemoveRefines(policy, repo, s, agentId);
    case Prune(_) => PruneRefines(policy, repo, s, agentId);
    case Compact(agent, stamp) => RunNeedsNoCompaction(policy, steps, agent, stamp);
  }

  lemma WriteTwo(e: Entry, f: Entry)
    requires SlotOf(e) != SlotOf(f)
    ensures Put(Put([], 2, e), 2, f) == [e, f]
  {
    assert Put([], 2, e) == [e];
    assert Evict([e], 2) == [e] && Upsert([e], f) == [e] + [f];
  }

  lemma TwoSlots(e: Entry, f: Entry)
    requires SlotOf(e) != SlotOf(f)
    ensures DistinctBy([e, f], SlotOf) && View([e, f]).Keys == {SlotOf(e), SlotOf(f)}
  {
    ViewHolds([e, f], e);
    ViewHolds([e, f], f);
    forall slot | slot in View([e, f]) ensures slot == SlotOf(e) || slot == SlotOf(f) { ViewOnlyHolds([e, f], slot); }
  }

  lemma WriteThird(e: Entry, f: Entry)
    requires SlotOf(e) != SlotOf(f) && e.updatedAt <= f.updatedAt
    ensures View(Put([e, f], 2, f)).Keys == {SlotOf(f)}
  {
    TwoSlots(e, f);
    EvictView([e, f], 2, 0);
    EvictDistinct([e, f], 2);
    UpsertView(Evict([e, f], 2), f);
  }

  lemma WritePuts(policy: Policy, steps: seq<Step>, s: Step)
    requires s.Write? && Accepts(policy, s)
    ensures EntriesOf(Run(policy, steps + [s]).stores, s.agentId)
            == Put(EntriesOf(Run(policy, steps).stores, s.agentId), policy.maxEntriesPerAgent, EntryOf(s))
    ensures Run(policy, steps + [s]).receipts
            == Run(policy, steps).receipts
                + [WriteReceipt(s, Stored(policy, EntriesOf(Run(policy, steps).stores, s.agentId), s))]
  {
    RunPush(policy, steps, s);
    RunWithinPolicy(policy, steps);
    NextWrites(policy, Run(policy, steps), s);
  }

  const TWO_ENTRIES: Policy := Policy(2, 16384, 365, true)

  /** The overwrite at the cap on a run: in a store for two entries, write two slots and the
      second one again, all within one second; the first slot is gone. */
  lemma OverwriteLosesOtherSlot(a: Step, b: Step)
    requires a.Write? && b.Write? && a.agentId == b.agentId && SlotOfStep(a) != SlotOfStep(b)
    requires a.stamp.now == b.stamp.now
    requires Accepts(TWO_ENTRIES, a) && Accepts(TWO_ENTRIES, b)
    ensures AgentView(Run(TWO_ENTRIES, [] + [a] + [b]), a.agentId).Keys == {SlotOfStep(a), SlotOfStep(b)}
    ensures AgentView(Run(TWO_ENTRIES, [] + [a] + [b] + [b]), a.agentId).Keys == {SlotOfStep(b)}
  {
    WritePuts(TWO_ENTRIES, [], a);
    WritePuts(TWO_ENTRIES, [] + [a], b);
    WritePuts(TWO_ENTRIES, [] + [a] + [b], b);
    WriteTwo(EntryOf(a), EntryOf(b));
    TwoSlots(EntryOf(a), EntryOf(b));
    WriteThird(EntryOf(a), EntryOf(b));
  }

  /** Calls for one agent leave every other agent's store alone. */
  lemma AgentsAreIsolated(policy: Policy, repo: Repo, s: Step, other: string)
    requires !s.Prune? && s.agentId != other
    ensures EntriesOf(Next(policy, repo, s).stores, other) == EntriesOf(repo.stores, other)
  {
  }

  // ----- the receipt log and the graph -----

  /** One agent's write and remove receipts, in the order of the log. */
  function LineageReceipts(receipts: seq<Receipt>, agentId: string): seq<Receipt> {
    Filter(ReceiptsOf(receipts, Some(agentId)), Relevant)
  }

  function AgentGraph(receipts: seq<Receipt>, agentId: string): seq<Node> {
    GraphNodes(ListedReceipts(receipts, 0, Some(agentId)))
  }

  lemma ListedLineage(receipts: seq<Receipt>, agentId: string)
    ensures Filter(ListedReceipts(receipts, 0, Some(agentId)), Relevant)
            == Sort(LineageReceipts(receipts, agentId), NewestFirst)
    ensures AgentGraph(receipts, agentId)
            == Nodes(Sort(Sort(LineageReceipts(receipts, agentId), NewestFirst), ReceiptLe))
  {
    FilterSort(ReceiptsOf(receipts, Some(agentId)), NewestFirst, Relevant);
  }

  /** Only write and remove receipts of an agent shape its graph: reads, prunes, compactions
      and other agents' receipts leave it unchanged. */
  lemma IrrelevantReceiptKeepsGraph(receipts: seq<Receipt>, r: Receipt, agentId: string)
    requires r.agentId != agentId || (r.operation != "write" && r.operation != "remove")
    ensures AgentGraph(receipts + [r], agentId) == AgentGraph(receipts, agentId)
  {
    LineagePush(receipts, r, agentId);
    SameLineageSameGraph(receipts + [r], receipts, agentId);
  }

  lemma SameLineageSameGraph(a: seq<Receipt>, b: seq<Receipt>, agentId: string)
    requires LineageReceipts(a, agentId) == LineageReceipts(b, agentId)
    ensures AgentGraph(a, agentId) == AgentGraph(b, agentId)
  {
    ListedLineage(a, agentId);
    ListedLineage(b, agentId);
  }

  lemma LineagePush(receipts: seq<Receipt>, r: Receipt, agentId: string)
    ensures LineageReceipts(receipts + [r], agentId)
            == LineageReceipts(receipts, agentId) + (if r.agentId == agentId && Relevant(r) then [r] else [])
  {
    var mine := (x: Receipt) => Some(agentId).Some? ==> x.agentId == Some(agentId).value;
    assert (receipts + [r])[..|receipts|] == receipts;
    var before := ReceiptsOf(receipts, Some(agentId));
    var after := ReceiptsOf(receipts + [r], Some(agentId));
    assert after == before + (if r.agentId == agentId then [r] else []);
    if r.agentId == agentId {
      assert after[..|before|] == before;
    } else {
      assert after == before;
    }
  }

  /** The read receipt that a replay appends does not change the graph it reads. */
  lemma ReplayReadKeepsGraph(policy: Policy, repo: Repo, sourceRef: string, stamp: Stamp, agentId: string)
    ensures AgentGraph(Next(policy, repo, Search(sourceRef, None, None, stamp)).receipts, agentId)
            == AgentGraph(repo.receipts, agentId)
  {
    var s := Search(sourceRef, None, None, stamp);
    IrrelevantReceiptKeepsGraph(repo.receipts,
        SearchReceipt(s, |Found(EntriesOf(repo.stores, sourceRef), None, None)|), agentId);
  }

  // ----- one node per write or remove -----

  predicate IsLineageStep(policy: Policy, s: Step, agentId: string) {
    (s.Write? && s.agentId == agentId && Accepts(policy, s)) || (s.Remove? && s.agentId == agentId)
  }

  /** The successful writes and the removes made for one agent. */
  function LineageSteps(policy: Policy, steps: seq<Step>, agentId: string): seq<Step> {
    Filter(steps, (s: Step) => IsLineageStep(policy, s, agentId))
  }

  function HashOfStep(s: Step): string {
    s.stamp.hash
  }

  function SlotOfStep(s: Step): Slot {
    if s.Write? || s.Remove? then (s.category, s.key) else ("", "")
  }

  function OperationOf(s: Step): string {
    if s.Write? then "write" else "remove"
  }

  /** Fields that the summary keeps apart and that name a node. */
  predicate CleanFields(s: Step) {
    (s.Write? || s.Remove?) ==>
      && s.category != "" && Text.WhitespaceFree(s.category)
      && s.key != "" && Text.WhitespaceFree(s.key)
      && (s.Write? ==> Summaries.SourceKeepsSlot(s.source, s.category, s.key))
  }

  ghost predicate RecordsStep(r: Receipt, s: Step) {
    && (s.Write? || s.Remove?)
    && r.receiptHash == s.stamp.hash && r.timestampMs == s.stamp.nowMs && r.operation == OperationOf(s)
    && (CleanFields(s) <==> Named(r) && ReceiptSlot(r) == SlotOfStep(s))
  }

  lemma WriteReceiptRecords(s: Step, persisted: Entry)
    requires s.Write?
    ensures RecordsStep(WriteReceipt(s, persisted), s) && Relevant(WriteReceipt(s, persisted))
  {
    Summaries.WriteSlotSurvivesExactly(s.category, s.key, s.source);
  }

  lemma RemoveReceiptRecords(s: Step, removed: bool)
    requires s.Remove?
    ensures RecordsStep(RemoveReceipt(s, removed), s) && Relevant(RemoveReceipt(s, removed))
  {
    Summaries.RemoveRoundTripExactly(s.category, s.key);
  }

  /** What a call may add to one agent's part of the log. */
  ghost predicate LogsStep(policy: Policy, before: seq<Receipt>, after: seq<Receipt>, s: Step, agentId: string) {
    if IsLineageStep(policy, s, agentId) then
      exists r :: RecordsStep(r, s) && LineageReceipts(after, agentId) == LineageReceipts(before, agentId) + [r]
    else LineageReceipts(after, agentId) == LineageReceipts(before, agentId)
  }

  lemma WriteLogs(policy: Policy, repo: Repo, s: Step, agentId: string)
    requires s.Write? && AllWithinPolicy(policy, repo.stores)
    ensures LogsStep(policy, repo.receipts, Next(policy, repo, s).receipts, s, agentId)
  {
    NextWrites(policy, repo, s);
    if Accepts(policy, s) {
      var persisted := Stored(policy, EntriesOf(repo.stores, s.agentId), s);
      WriteReceiptRecords(s, persisted);
      LineagePush(repo.receipts, WriteReceipt(s, persisted), agentId);
    }
  }

  lemma RemoveLogs(policy: Policy, repo: Repo, s: Step, agentId: string)
    requires s.Remove?
    ensures LogsStep(policy, repo.receipts, Next(policy, repo, s).receipts, s, agentId)
  {
    var entries := EntriesOf(repo.stores, s.agentId);
    var removed := |RemoveSlot(entries, (s.category, s.key))| < |entries|;
    RemoveReceiptRecords(s, removed);
    LineagePush(repo.receipts, RemoveReceipt(s, removed), agentId);
  }

  lemma OthersLogNothing(policy: Policy, repo: Repo, s: Step, agentId: string)
    requires !s.Write? && !s.Remove?
    ensures LogsStep(policy, repo.receipts, Next(policy, repo, s).receipts, s, agentId)
  {
    if Next(policy, repo, s).receipts != repo.receipts {
      var r := OtherReceipt(policy, repo, s);
      LineagePush(repo.receipts, r, agentId);
    }
  }

  /** The receipt of a search, a prune or a compaction. */
  lemma OtherReceipt(policy: Policy, repo: Repo, s: Step) returns (r: Receipt)
    requires !s.Write? && !s.Remove? && Next(policy, repo, s).receipts != repo.receipts
    ensures Next(policy, repo, s).receipts == repo.receipts + [r] && !Relevant(r)
  {
    var after := Next(policy, repo, s).receipts;
    r := after[|after| - 1];
    if s.Search? {
      SearchExactly(policy, repo, s);
    } else if s.Prune? {
      PruneExactly(policy, repo, s);
    } else {
      CompactExactly(policy, repo, s);
    }
  }

  lemma NextLogs(policy: Policy, repo: Repo, s: Step, agentId: string)
    requires AllWithinPolicy(policy, repo.stores)
    ensures LogsStep(policy, repo.receipts, Next(policy, repo, s).receipts, s, agentId)
  {
    if s.Write? {
      WriteLogs(policy, repo, s, agentId);
    } else if s.Remove? {
      RemoveLogs(policy, repo, s, agentId);
    } else {
      OthersLogNothing(policy, repo, s, agentId);
    }
  }

  /** The log holds one receipt per successful write or remove, in the order of the calls. */
  lemma {:induction false} LogRecordsRun(policy: Policy, steps: seq<Step>, agentId: string)
    ensures var log, made := LineageReceipts(Run(policy, steps).receipts, agentId),
            LineageSteps(policy, steps, agentId);
            |log| == |made| && forall i | 0 <= i < |made| :: RecordsStep(log[i], made[i])
  {
    if steps == [] {
    } else {
      var front, last := steps[..|steps| - 1], steps[|steps| - 1];
      LogRecordsRun(policy, front, agentId);
      RunWithinPolicy(policy, front);
      NextLogs(policy, Run(policy, front), last, agentId);
    }
  }

  ghost predicate AllClean(steps: seq<Step>) {
    forall i | 0 <= i < |steps| :: CleanFields(steps[i])
  }

  lemma LogIsNamed(policy: Policy, steps: seq<Step>, agentId: string)
    requires AllClean(LineageSteps(policy, steps, agentId))
             && DistinctBy(LineageSteps(policy, steps, agentId), HashOfStep)
    ensures var log := LineageReceipts(Run(policy, steps).receipts, agentId);
            (forall r | r in log :: Named(r)) && DistinctBy(log, HashOf)
  {
    LogRecordsRun(policy, steps, agentId);
    var log, made := LineageReceipts(Run(policy, steps).receipts, agentId), LineageSteps(policy, steps, agentId);
    forall r | r in log ensures Named(r) {
      var i :| 0 <= i < |log| && log[i] == r;
      assert RecordsStep(log[i], made[i]) && CleanFields(made[i]);
    }
    forall i, j | 0 <= i < j < |log| ensures HashOf(log[i]) != HashOf(log[j]) {
      assert RecordsStep(log[i], made[i]) && RecordsStep(log[j], made[j]);
      assert HashOfStep(made[i]) != HashOfStep(made[j]);
    }
  }

  /** n is the node of the call s. */
  ghost predicate IsNodeOf(n: Node, s: Step) {
    n.nodeId == s.stamp.hash && NodeSlot(n) == SlotOfStep(s) && n.operation == OperationOf(s)
  }

  lemma NodeOfRecord(receipts: seq<Receipt>, r: Receipt, s: Step)
    requires forall x | x in receipts :: Named(x)
    requires r in receipts && RecordsStep(r, s) && CleanFields(s)
    ensures exists n :: n in Nodes(receipts) && IsNodeOf(n, s)
  {
    NodesOfNamed(receipts);
    var k :| 0 <= k < |receipts| && receipts[k] == r;
    assert Nodes(receipts)[k] in Nodes(receipts) && IsNodeOf(Nodes(receipts)[k], s);
  }

  /** The hashes of one agent's receipts that give nodes are distinct. */
  ghost predicate UniqueLineage(receipts: seq<Receipt>, agentId: string) {
    DistinctBy(Filter(LineageReceipts(receipts, agentId), Named), HashOf)
  }

  lemma AgentGraphWellFormed(receipts: seq<Receipt>, agentId: string)
    ensures UniqueHashes(ListedReceipts(receipts, 0, Some(agentId))) <==> UniqueLineage(receipts, agentId)
    ensures Lanes.GoodGraph(AgentGraph(receipts, agentId)) <==> UniqueLineage(receipts, agentId)
  {
    var log := LineageReceipts(receipts, agentId);
    ListedLineage(receipts, agentId);
    FilterSort(log, NewestFirst, Named);
    SortDistinctExactly(Filter(log, Named), NewestFirst, HashOf);
    GraphWellFormed(ListedReceipts(receipts, 0, Some(agentId)));
  }

  /** Over every run with distinct hashes and clean fields, the graph of an agent is well
      linked and has exactly one node for each successful write or remove made for it, with
      the call's own slot and operation. */
  lemma OneNodePerStep(policy: Policy, steps: seq<Step>, agentId: string)
    requires AllClean(LineageSteps(policy, steps, agentId))
             && DistinctBy(LineageSteps(policy, steps, agentId), HashOfStep)
    ensures var nodes, made := AgentGraph(Run(policy, steps).receipts, agentId), LineageSteps(policy, steps, agentId);
            && |nodes| == |made| && Lanes.GoodGraph(nodes)
            && forall i | 0 <= i < |made| :: exists n :: n in nodes && IsNodeOf(n, made[i])
  {
    var receipts := Run(policy, steps).receipts;
    var log, made := LineageReceipts(receipts, agentId), LineageSteps(policy, steps, agentId);
    LogRecordsRun(policy, steps, agentId);
    LogIsNamed(policy, steps, agentId);
    FilterDistinct(log, Named, HashOf);
    AgentGraphWellFormed(receipts, agentId);
    var sorted := LineageInOrder(receipts, agentId);
    forall i | 0 <= i < |made| ensures exists n :: n in Nodes(sorted) && IsNodeOf(n, made[i]) {
      assert log[i] in log;
      NodeOfRecord(sorted, log[i], made[i]);
    }
    NodesOfNamed(sorted);
  }

  /** The receipts behind the graph: a rearrangement of the log's. */
  lemma LineageInOrder(receipts: seq<Receipt>, agentId: string) returns (sorted: seq<Receipt>)
    ensures AgentGraph(receipts, agentId) == Nodes(sorted)
    ensures multiset(sorted) == multiset(LineageReceipts(receipts, agentId)) && SortedBy(sorted, ReceiptLe)
    ensures |sorted| == |LineageReceipts(receipts, agentId)|
    ensures forall r :: r in sorted <==> r in LineageReceipts(receipts, agentId)
  {
    var log := LineageReceipts(receipts, agentId);
    ListedLineage(receipts, agentId);
    var newest := Sort(log, NewestFirst);
    sorted := Sort(newest, ReceiptLe);
    ReceiptLePreorder();
    SortSorted(newest, ReceiptLe);
    SortMultiset(log, NewestFirst);
    SortMultiset(newest, ReceiptLe);
    SortMembers(log, NewestFirst);
    SortMembers(newest, ReceiptLe);
  }

  /** The order of the calls' time stamps, ties broken by their receipt hashes. */
  predicate StampLe(a: Step, b: Step) {
    a.stamp.nowMs < b.stamp.nowMs || (a.stamp.nowMs == b.stamp.nowMs && StringLe(a.stamp.hash, b.stamp.hash))
  }

  ghost predicate InCallOrder(nodes: seq<Node>, made: seq<Step>) {
    |nodes| == |made| && forall i | 0 <= i < |made| :: IsNodeOf(nodes[i], made[i])
  }

  ghost predicate Recorded(log: seq<Receipt>, made: seq<Step>) {
    && |log| == |made| && AllClean(made) && DistinctBy(log, HashOf)
    && forall i | 0 <= i < |made| :: RecordsStep(log[i], made[i])
  }

  lemma RecordedNamed(log: seq<Receipt>, made: seq<Step>)
    requires Recorded(log, made)
    ensures forall r | r in log :: Named(r)
    ensures SortedBy(log, ReceiptLe) <==> SortedBy(made, StampLe)
  {
    forall r | r in log ensures Named(r) {
      var i :| 0 <= i < |log| && log[i] == r;
      assert RecordsStep(log[i], made[i]) && CleanFields(made[i]);
    }
    forall i, j | 0 <= i < j < |made| ensures ReceiptLe(log[i], log[j]) <==> StampLe(made[i], made[j]) {
      assert RecordsStep(log[i], made[i]) && RecordsStep(log[j], made[j]);
    }
  }

  lemma RecordedNodes(log: seq<Receipt>, made: seq<Step>)
    requires Recorded(log, made)
    ensures InCallOrder(Nodes(log), made)
  {
    RecordedNamed(log, made);
    NodesOfNamed(log);
    forall i | 0 <= i < |made| ensures IsNodeOf(Nodes(log)[i], made[i]) {
      assert RecordsStep(log[i], made[i]) && CleanFields(made[i]);
    }
  }

  lemma SameHashSameReceipt(log: seq<Receipt>, r: Receipt, i: nat)
    requires DistinctBy(log, HashOf) && i < |log| && r in log && r.receiptHash == log[i].receiptHash
    ensures r == log[i]
  {
    var k :| 0 <= k < |log| && log[k] == r;
    DistinctAt(log, HashOf, i, k);
  }

  lemma NodeNamesReceipt(sorted: seq<Receipt>, made: seq<Step>, i: nat)
    requires (forall r | r in sorted :: Named(r)) && InCallOrder(Nodes(sorted), made) && i < |made| == |sorted|
    ensures sorted[i].receiptHash == made[i].stamp.hash
  {
    NodesOfNamed(sorted);
    assert IsNodeOf(Nodes(sorted)[i], made[i]);
  }

  /** A rearrangement of the log gives nodes in call order only if it is the log itself. */
  lemma CallOrderIsLogOrder(log: seq<Receipt>, made: seq<Step>, sorted: seq<Receipt>)
    requires Recorded(log, made) && |sorted| == |log| && forall r :: r in sorted <==> r in log
    requires InCallOrder(Nodes(sorted), made)
    ensures sorted == log
  {
    RecordedNamed(log, made);
    forall i | 0 <= i < |log| ensures sorted[i] == log[i] {
      NodeNamesReceipt(sorted, made, i);
      assert RecordsStep(log[i], made[i]);
      assert sorted[i] in log;
      SameHashSameReceipt(log, sorted[i], i);
    }
  }

  /** Over every run with distinct hashes and clean fields, the nodes stand in the order of the
      calls exactly when the calls' stamps do. */
  lemma NodesFollowCallsExactly(policy: Policy, steps: seq<Step>, agentId: string)
    requires AllClean(LineageSteps(policy, steps, agentId))
             && DistinctBy(LineageSteps(policy, steps, agentId), HashOfStep)
    ensures var nodes, made := AgentGraph(Run(policy, steps).receipts, agentId), LineageSteps(policy, steps, agentId);
            InCallOrder(nodes, made) <==> SortedBy(made, StampLe)
  {
    var receipts := Run(policy, steps).receipts;
    var log, made := LineageReceipts(receipts, agentId), LineageSteps(policy, steps, agentId);
    LogRecordsRun(policy, steps, agentId);
    LogIsNamed(policy, steps, agentId);
    var sorted := LineageInOrder(receipts, agentId);
    RecordedNamed(log, made);
    if SortedBy(made, StampLe) {
      DistinctHashesTie(log);
      SortedUnique(log, sorted, ReceiptLe);
      RecordedNodes(log, made);
    }
    if InCallOrder(Nodes(sorted), made) {
      CallOrderIsLogOrder(log, made, sorted);
    }
  }

  /** i is the latest call before k on k's slot. */
  ghost predicate LatestBefore(made: seq<Step>, i: nat, k: nat)
    requires i < |made| && k < |made|
  {
    i < k && SlotOfStep(made[i]) == SlotOfStep(made[k])
    && forall l | i < l < k :: SlotOfStep(made[l]) != SlotOfStep(made[k])
  }

  lemma SlotsInCallOrder(nodes: seq<Node>, made: seq<Step>)
    requires InCallOrder(nodes, made)
    ensures forall l | 0 <= l < |made| :: NodeSlot(nodes[l]) == SlotOfStep(made[l])
  {
    forall l | 0 <= l < |made| ensures NodeSlot(nodes[l]) == SlotOfStep(made[l]) { assert IsNodeOf(nodes[l], made[l]); }
  }

  lemma ParentInCallOrder(nodes: seq<Node>, made: seq<Step>, i: nat, k: nat)
    requires Lanes.GoodGraph(nodes) && InCallOrder(nodes, made) && i < |made| && k < |made|
    ensures nodes[k].parent == Some(made[i].stamp.hash) <==> LatestBefore(made, i, k)
    ensures nodes[k].parent == None <==> forall l | 0 <= l < k :: SlotOfStep(made[l]) != SlotOfStep(made[k])
  {
    SlotsInCallOrder(nodes, made);
    assert IsNodeOf(nodes[i], made[i]);
    ParentIsNearest(nodes, i, k);
  }

  /** Then a node's parent is the node of the latest earlier call on its slot. */
  lemma ParentIsLatestEarlierCall(policy: Policy, steps: seq<Step>, agentId: string, i: nat, k: nat)
    requires AllClean(LineageSteps(policy, steps, agentId))
             && DistinctBy(LineageSteps(policy, steps, agentId), HashOfStep)
    requires SortedBy(LineageSteps(policy, steps, agentId), StampLe)
    requires i < |LineageSteps(policy, steps, agentId)| && k < |LineageSteps(policy, steps, agentId)|
    ensures var nodes, made := AgentGraph(Run(policy, steps).receipts, agentId), LineageSteps(policy, steps, agentId);
            && |nodes| == |made|
            && (nodes[k].parent == Some(made[i].stamp.hash) <==> LatestBefore(made, i, k))
            && (nodes[k].parent == None <==> forall l | 0 <= l < k :: SlotOfStep(made[l]) != SlotOfStep(made[k]))
  {
    var nodes, made := AgentGraph(Run(policy, steps).receipts, agentId), LineageSteps(policy, steps, agentId);
    NodesFollowCallsExactly(policy, steps, agentId);
    assert Lanes.GoodGraph(nodes) by { OneNodePerStep(policy, steps, agentId); }
    ParentInCallOrder(nodes, made, i, k);
  }

  lemma TwoSteps(policy: Policy, s: Step, t: Step, agentId: string)
    requires IsLineageStep(policy, s, agentId) && IsLineageStep(policy, t, agentId)
    ensures LineageSteps(policy, [] + [s] + [t], agentId) == [s, t]
  {
    var p := (x: Step) => IsLineageStep(policy, x, agentId);
    var steps := [] + [s] + [t];
    assert steps[..1] == [s] && [s][..0] == [];
    assert Filter([s], p) == [s];
    assert LineageSteps(policy, steps, agentId) == Filter(steps, p);
  }

  lemma SwappedNodes(r: Receipt, q: Receipt)
    requires Named(r) && Named(q) && ReceiptSlot(r) == ReceiptSlot(q)
    ensures Nodes([q, r]) == [MakeNode(q, None), MakeNode(r, Some(q.receiptHash))]
  {
    assert [q, r][..1] == [q] && [q][..0] == [];
    var first := MakeNode(q, None);
    assert Nodes([q]) == [first];
    assert Nearest([first], ReceiptSlot(r)) == Some(q.receiptHash);
  }

  lemma SwappedPair(r: Receipt, q: Receipt, sorted: seq<Receipt>)
    requires r.timestampMs == q.timestampMs && r.receiptHash != q.receiptHash && StringLe(q.receiptHash, r.receiptHash)
    requires SortedBy(sorted, ReceiptLe) && multiset(sorted) == multiset([r, q])
    ensures sorted == [q, r]
  {
    DistinctHashesTie([q, r]);
    assert multiset([q, r]) == multiset([r, q]);
    SortedUnique([q, r], sorted, ReceiptLe);
  }

  lemma TwoOfTwo(log: seq<Receipt>, made: seq<Step>, s: Step, t: Step)
    requires made == [s, t] && |log| == |made| && forall i | 0 <= i < |made| :: RecordsStep(log[i], made[i])
    ensures log == [log[0], log[1]] && RecordsStep(log[0], s) && RecordsStep(log[1], t)
  {
    assert RecordsStep(log[0], made[0]) && RecordsStep(log[1], made[1]);
  }

  /** The log of a run of two calls. */
  lemma TwoRecords(policy: Policy, s: Step, t: Step, agentId: string) returns (r: Receipt, q: Receipt)
    requires IsLineageStep(policy, s, agentId) && IsLineageStep(policy, t, agentId)
    ensures LineageReceipts(Run(policy, [] + [s] + [t]).receipts, agentId) == [r, q]
    ensures RecordsStep(r, s) && RecordsStep(q, t)
  {
    var steps := [] + [s] + [t];
    var log := LineageReceipts(Run(policy, steps).receipts, agentId);
    TwoSteps(policy, s, t, agentId);
    LogRecordsRun(policy, steps, agentId);
    TwoOfTwo(log, LineageSteps(policy, steps, agentId), s, t);
    r, q := log[0], log[1];
  }

  /** Two calls on one slot in one millisecond whose hashes are in reverse order: the earlier
      call's node gets the later one as its parent. */
  lemma ReversedHashesReverseNodes(policy: Policy, s: Step, t: Step)
    requires s.Write? && t.Write? && s.agentId == t.agentId && SlotOfStep(s) == SlotOfStep(t)
    requires Accepts(policy, s) && Accepts(policy, t) && CleanFields(s) && CleanFields(t)
    requires s.stamp.nowMs == t.stamp.nowMs && s.stamp.hash != t.stamp.hash && StringLe(t.stamp.hash, s.stamp.hash)
    ensures var nodes := AgentGraph(Run(policy, [] + [s] + [t]).receipts, s.agentId);
            && |nodes| == 2 && IsNodeOf(nodes[0], t) && IsNodeOf(nodes[1], s)
            && nodes[0].parent == None && nodes[1].parent == Some(t.stamp.hash)
  {
    var r, q := TwoRecords(policy, s, t, s.agentId);
    var sorted := LineageInOrder(Run(policy, [] + [s] + [t]).receipts, s.agentId);
    SwappedPair(r, q, sorted);
    SwappedNodes(r, q);
  }

  /** The call t writes s's slot again, at the same time, with a content of the same size. */
  predicate SameSizeWrite(s: Step, t: Step) {
    && s.Write? && t.Write? && s.agentId == t.agentId && s.category == t.category && s.key == t.key
    && s.source == t.source && Utf8Length(s.content) == Utf8Length(t.content)
    && s.stamp.now == t.stamp.now && s.stamp.nowMs == t.stamp.nowMs
  }

  lemma RewriteStores(policy: Policy, s: Step, t: Step)
    requires SameSizeWrite(s, t) && policy.maxEntriesPerAgent >= 1
    ensures Put([], policy.maxEntriesPerAgent, EntryOf(s)) == [EntryOf(s)]
    ensures Stored(policy, [], s) == EntryOf(s) && Stored(policy, [EntryOf(s)], t) == EntryOf(t)
  {
    var e, f, cap := EntryOf(s), EntryOf(t), policy.maxEntriesPerAgent;
    SortOfSorted([e], ByUpdated);
    assert Evict([e], cap) == if cap == 1 then [] else [e];
    assert Position([e], SlotOf, SlotOf(f)) == 0;
    assert e.(content := f.content, updatedAt := f.updatedAt, source := f.source) == f;
  }

  lemma RewriteLogs(policy: Policy, s: Step, t: Step)
    requires SameSizeWrite(s, t) && Accepts(policy, s)
    ensures Run(policy, [] + [s] + [t]).receipts == [WriteReceipt(s, EntryOf(s)), WriteReceipt(t, EntryOf(t))]
  {
    RewriteStores(policy, s, t);
    WritePuts(policy, [], s);
    WritePuts(policy, [] + [s], t);
    assert Run(policy, []).receipts == [] && EntriesOf(Run(policy, []).stores, s.agentId) == [];
    assert EntriesOf(Run(policy, [] + [s]).stores, s.agentId) == [EntryOf(s)];
    assert Run(policy, [] + [s]).receipts == [] + [WriteReceipt(s, EntryOf(s))];
    assert Run(policy, [] + [s] + [t]).receipts == [] + [WriteReceipt(s, EntryOf(s))] + [WriteReceipt(t, EntryOf(t))];
  }

  lemma PairIsSorted(r: Receipt)
    ensures Sort([r, r], NewestFirst) == [r, r] && Sort([r, r], ReceiptLe) == [r, r]
  {
    StringLeTotal(r.receiptHash, r.receiptHash);
    SortOfSorted([r, r], NewestFirst);
    SortOfSorted([r, r], ReceiptLe);
  }

  lemma LineageOfPair(r: Receipt)
    requires Relevant(r)
    ensures LineageReceipts([r, r], r.agentId) == [r, r]
  {
    assert [] + [r] == [r] && [r] + [r] == [r, r];
    LineagePush([], r, r.agentId);
    LineagePush([r], r, r.agentId);
  }

  lemma GraphOfPair(r: Receipt)
    requires Relevant(r)
    ensures AgentGraph([r, r], r.agentId) == Nodes([r, r])
  {
    LineageOfPair(r);
    PairIsSorted(r);
    ListedLineage([r, r], r.agentId);
  }

  /** The fields of a receipt that its hash is made of; the content of an entry is not among
      them. */
  function HashInput(r: Receipt): (string, U64, string, string, string) {
    (r.kind, r.timestampMs, r.agentId, r.inputSummary, r.outputSummary)
  }

  type Interceptor = ((string, U64, string, string, string)) -> string

  /** The write's receipt hash is the one that f makes of its receipt. */
  predicate HashedBy(s: Step, f: Interceptor)
    requires s.Write?
  {
    s.stamp.hash == f(HashInput(WriteReceipt(s, EntryOf(s))))
  }

  lemma SameSizeSameHash(s: Step, t: Step, f: Interceptor)
    requires SameSizeWrite(s, t)
    requires HashedBy(s, f) && HashedBy(t, f)
    ensures WriteReceipt(s, EntryOf(s)) == WriteReceipt(t, EntryOf(t))
  {
    assert ByteSize(EntryOf(s)) == ByteSize(EntryOf(t));
    assert HashInput(WriteReceipt(s, EntryOf(s))) == HashInput(WriteReceipt(t, EntryOf(t)));
  }

  /** Two writes of one slot and source in one millisecond, with contents of one size, get
      the same receipt under any hash, and the second node is its own parent. */
  lemma SameSizeWritesMakeCycle(policy: Policy, s: Step, t: Step, f: Interceptor, limit: nat)
    requires SameSizeWrite(s, t) && Accepts(policy, s) && CleanFields(s)
    requires HashedBy(s, f) && HashedBy(t, f)
    ensures var nodes := AgentGraph(Run(policy, [] + [s] + [t]).receipts, s.agentId);
            && |nodes| == 2 && nodes[1].parent == Some(nodes[1].nodeId)
            && LineageWalk.Ancestors(LineageWalk.ParentMap(nodes), s.stamp.hash, limit) == seq(limit, _ => s.stamp.hash)
  {
    var r := WriteReceipt(s, EntryOf(s));
    RewriteLogs(policy, s, t);
    SameSizeSameHash(s, t, f);
    WriteReceiptRecords(s, EntryOf(s));
    GraphOfPair(r);
    Lanes.RepeatedHashMakesCycle(r, limit);
  }

  // ----- replay over runs -----

  /** Over every run with distinct hashes, a focused replay that succeeds yields at most one
      entry, the one stored in the focus node's slot. */
  lemma ReplayYieldsFocusSlot(policy: Policy, steps: seq<Step>, sourceRef: string, asked: string, direction: Direction,
          limit: nat)
    requires UniqueLineage(Run(policy, steps).receipts, sourceRef)
    requires var repo := Run(policy, steps);
             Select(sourceRef, EntriesOf(repo.stores, sourceRef), ListedReceipts(repo.receipts, 0, Some(sourceRef)),
                    Some(asked), direction, limit).Ok?
    ensures var repo := Run(policy, steps);
            var entries := EntriesOf(repo.stores, sourceRef);
            var records := ListedReceipts(repo.receipts, 0, Some(sourceRef));
            var chosen := Select(sourceRef, entries, records, Some(asked), direction, limit).value;
            exists focus :: focus in AgentGraph(repo.receipts, sourceRef) && chosen.focusNodeId == Some(focus.nodeId)
              && focus.nodeId == FocusId(AgentGraph(repo.receipts, sourceRef), Some(asked))
              && chosen.selectedEntries
                 == if NodeSlot(focus) in View(entries) then [View(entries)[NodeSlot(focus)]] else []
  {
    var repo := Run(policy, steps);
    var entries := EntriesOf(repo.stores, sourceRef);
    var records := ListedReceipts(repo.receipts, 0, Some(sourceRef));
    AgentGraphWellFormed(repo.receipts, sourceRef);
    FocusedReplayIsOneSlot(sourceRef, entries, records, asked, direction, limit);
    var chosen := Select(sourceRef, entries, records, Some(asked), direction, limit).value;
    var focus :| focus in GraphNodes(records) && chosen.focusNodeId == Some(focus.nodeId)
      && focus.nodeId == FocusId(GraphNodes(records), Some(asked))
      && chosen.selectedEntries == Filter(entries, (e: Entry) => SlotOf(e) == NodeSlot(focus));
    RunWithinPolicy(policy, steps);
    EntriesWithinPolicy(policy, repo.stores, sourceRef);
    OneInSlot(entries, NodeSlot(focus));
  }

  lemma {:induction false} OneInSlot(entries: seq<Entry>, slot: Slot)
    requires DistinctBy(entries, SlotOf)
    ensures Filter(entries, (e: Entry) => SlotOf(e) == slot)
            == if slot in View(entries) then [View(entries)[slot]] else []
  {
    var p := (e: Entry) => SlotOf(e) == slot;
    var found := Filter(entries, p);
    FilterMembers(entries, p);
    FilterDistinct(entries, p, SlotOf);
    FirstTwoDiffer(found, SlotOf);
    forall i | 0 <= i < |found| ensures SlotOf(found[i]) == slot { assert found[i] in found; }
    if slot in View(entries) {
      ViewOnlyHolds(entries, slot);
      assert View(entries)[slot] in found;
    } else {
      forall e | e in entries ensures !p(e) { ViewHolds(entries, e); }
      FilterNone(entries, p);
    }
  }
}
