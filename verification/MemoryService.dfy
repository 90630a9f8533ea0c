// The governed memory service (crates/loom-core/src/memory_service.rs, MemoryService).
//
// The repository directory maps agents to their entries and the receipts file is a list.
// Clocks and the receipt hash come in as a Stamp.  File errors are not modelled.

module MemoryService {
  import opened Options
  import opened Words
  import opened Sorting
  import opened MemoryTypes
  import opened MemoryStore
  import opened Compaction
  import opened Pruning
  import opened Lineage
  import opened Replay
  import Decimal
  import Summaries

  /** The seconds clock, the milliseconds clock and the hash the interceptor returns. */
  datatype Stamp = Stamp(now: U64, nowMs: U64, hash: string)

  datatype Repo = Repo(stores: Stores, receipts: seq<Receipt>)

  datatype Step =
    | Write(agentId: string, category: string, key: string, content: string, source: string, stamp: Stamp)
    | Search(agentId: string, categoryFilter: Option<string>, keyPrefix: Option<string>, stamp: Stamp)
    | Remove(agentId: string, category: string, key: string, stamp: Stamp)
    | Prune(stamp: Stamp)
    | Compact(agentId: string, stamp: Stamp)

  // ----- entries and receipts -----

  function EntriesOf(stores: Stores, agentId: string): seq<Entry> {
    if agentId in stores then stores[agentId] else []
  }

  function NewEntry(agentId: string, category: string, key: string, content: string, source: string, now: U64): Entry {
    Entry("mem_" + agentId + "_" + Decimal.Print(now), agentId, category, key, content, now, now, source, true)
  }

  function MakeReceipt(operation: string, agentId: string, input: string, output: string, stamp: Stamp): Receipt {
    var kind := if operation == "write" || operation == "remove" || operation == "prune" then "KvPut" else "KvGet";
    Receipt(stamp.nowMs, operation, agentId, kind, stamp.hash, input, output, false)
  }

  function ShowBool(b: bool): string {
    if b then "true" else "false"
  }

  function ShowFilter(f: Option<string>): string {
    match f case Some(s) => s case None => "*"
  }

  function WriteReceipt(s: Step, persisted: Entry): Receipt
    requires s.Write?
  {
    MakeReceipt("write", s.agentId, Summaries.WriteSummary(s.category, s.key, s.source),
                "entry_id=" + persisted.entryId + " bytes=" + Decimal.Print(ByteSize(persisted))
                + " governed=" + ShowBool(persisted.governed), s.stamp)
  }

  function SearchReceipt(s: Step, count: nat): Receipt
    requires s.Search?
  {
    MakeReceipt("read", s.agentId,
        "category=" + ShowFilter(s.categoryFilter) + " key_prefix=" + ShowFilter(s.keyPrefix),
                "result_count=" + Decimal.Print(count), s.stamp)
  }

  function RemoveReceipt(s: Step, removed: bool): Receipt
    requires s.Remove?
  {
    MakeReceipt("remove", s.agentId, Summaries.RemoveSummary(s.category, s.key), "removed=" + ShowBool(removed),
        s.stamp)
  }

  function PruneReceipt(s: Step, retentionDays: nat, cutoff: nat, count: nat): Receipt
    requires s.Prune?
  {
    MakeReceipt("prune", "memory-service",
                "retention_days=" + Decimal.Print(retentionDays) + " cutoff=" + Decimal.Print(cutoff),
                "pruned_entries=" + Decimal.Print(count), s.stamp)
  }

  function CompactReceipt(s: Step, before: nat, after: nat): Receipt
    requires s.Compact? && after <= before
  {
    MakeReceipt("compact", s.agentId, "before=" + Decimal.Print(before) + " after=" + Decimal.Print(after),
                "removed_duplicates=" + Decimal.Print(before - after), s.stamp)
  }

  // ----- one call on values -----

  function EntryOf(s: Step): Entry
    requires s.Write?
  {
    NewEntry(s.agentId, s.category, s.key, s.content, s.source, s.stamp.now)
  }

  predicate TooLarge(policy: Policy, s: Step)
    requires s.Write?
  {
    ByteSize(EntryOf(s)) > policy.maxEntryBytes
  }

  function Stored(policy: Policy, entries: seq<Entry>, s: Step): Entry
    requires s.Write?
  {
    Persisted(Evict(entries, policy.maxEntriesPerAgent), EntryOf(s))
  }

  /** A write fails with a message, or panics when it has to evict from an empty list. */
  datatype WriteError = SizeLimit(message: string) | Panic

  function Written(policy: Policy, entries: seq<Entry>, s: Step): Result<Entry, WriteError>
    requires s.Write?
  {
    if TooLarge(policy, s) then
      Err(SizeLimit("memory entry exceeds size limit: " + Decimal.Print(ByteSize(EntryOf(s))) + " > "
                    + Decimal.Print(policy.maxEntryBytes)))
    else if policy.maxEntriesPerAgent == 0 && entries == [] then Err(Panic)
    else Ok(Stored(policy, entries, s))
  }

  /** Compaction of an agent changes something. */
  ghost predicate HasDuplicates(entries: seq<Entry>) {
    |Slots(entries)| != |entries|
  }

  ghost function Next(policy: Policy, repo: Repo, s: Step): Repo {
    match s
    case Write(agentId, _, _, _, _, _) =>
      var entries := EntriesOf(repo.stores, agentId);
      if Written(policy, entries, s).Err? then repo
      else
        Repo(repo.stores[agentId := Put(entries, policy.maxEntriesPerAgent, EntryOf(s))],
             repo.receipts + [WriteReceipt(s, Stored(policy, entries, s))])
    case Search(agentId, categoryFilter, keyPrefix, _) =>
      repo.(receipts := repo.receipts
          + [SearchReceipt(s, |Found(EntriesOf(repo.stores, agentId), categoryFilter, keyPrefix)|)])
    case Remove(agentId, category, key, _) =>
      var entries := EntriesOf(repo.stores, agentId);
      var kept := RemoveSlot(entries, (category, key));
      if |kept| < |entries| then
        Repo(repo.stores[agentId := kept], repo.receipts + [RemoveReceipt(s, true)])
      else repo.(receipts := repo.receipts + [RemoveReceipt(s, false)])
    case Prune(stamp) =>
      var cutoff := Cutoff(stamp.now, policy.retentionDays);
      var after := PruneAll(repo.stores, cutoff);
      DroppedIsShrinkage(repo.stores, cutoff);
      Repo(after, repo.receipts + [PruneReceipt(s, policy.retentionDays, cutoff, Size(repo.stores) - Size(after))])
    case Compact(agentId, _) =>
      var entries := EntriesOf(repo.stores, agentId);
      SlotsCount(entries);
      if !HasDuplicates(entries) then repo
      else
        CompactedIsFixed(entries, Compacted(entries));
        Repo(repo.stores[agentId := Compacted(entries)],
             repo.receipts + [CompactReceipt(s, |entries|, |Compacted(entries)|)])
  }

  ghost function Run(policy: Policy, steps: seq<Step>): Repo {
    if steps == [] then Repo(map[], [])
    else Next(policy, Run(policy, steps[..|steps| - 1]), steps[|steps| - 1])
  }

  // ----- results and receipts in terms of the call -----

  /** The bytes that count against the limit. */
  ghost function BytesAsked(s: Step): nat
    requires s.Write?
  {
    |EncodedText(s.content)| + |EncodedText(s.key)| + |EncodedText(s.category)|
  }

  /** A write fails with its message, panics on an empty list at a cap of zero, or stores the
      entry in its slot, an entry that eviction has left there keeping its id and time of
      creation. */
  lemma WrittenExactly(policy: Policy, entries: seq<Entry>, s: Step)
    requires s.Write?
    ensures Written(policy, entries, s)
            == if BytesAsked(s) > policy.maxEntryBytes then
                 Err(SizeLimit("memory entry exceeds size limit: " + Decimal.Print(BytesAsked(s)) + " > "
                               + Decimal.Print(policy.maxEntryBytes)))
               else if policy.maxEntriesPerAgent == 0 && entries == [] then Err(Panic)
               else
                 var kept := View(Evict(entries, policy.maxEntriesPerAgent));
                 var slot, now := (s.category, s.key), s.stamp.now;
                 Ok(if slot in kept
                    then kept[slot].(content := s.content, updatedAt := now, source := s.source)
                    else Entry("mem_" + s.agentId + "_" + Decimal.Print(now), s.agentId, s.category, s.key, s.content,
                               now, now, s.source, true))
  {
    ByteSizeCounts(EntryOf(s));
    var kept := Evict(entries, policy.maxEntriesPerAgent);
    PersistedIsInView(kept, EntryOf(s));
  }

  lemma PersistedIsInView(kept: seq<Entry>, e: Entry)
    ensures Persisted(kept, e)
            == if SlotOf(e) in View(kept)
               then View(kept)[SlotOf(e)].(content := e.content, updatedAt := e.updatedAt, source := e.source)
               else e
  {
    var i := Position(kept, SlotOf, SlotOf(e));
    if i < |kept| {
      assert kept[i] in kept;
    } else if SlotOf(e) in View(kept) {
      ViewOnlyHolds(kept, SlotOf(e));
    }
  }

  // What each call makes of the stores and appends to the log: one receipt, or none for a write
  // that fails and for a compaction that finds nothing.

  lemma WriteExactly(policy: Policy, repo: Repo, s: Step)
    requires s.Write?
    ensures match Written(policy, EntriesOf(repo.stores, s.agentId), s)
            case Err(_) => Next(policy, repo, s) == repo
            case Ok(e) =>
              var after := Put(EntriesOf(repo.stores, s.agentId), policy.maxEntriesPerAgent, EntryOf(s));
              Next(policy, repo, s)
              == Repo(repo.stores[s.agentId := after],
                 repo.receipts
                 + [Receipt(s.stamp.nowMs, "write", s.agentId, "KvPut", s.stamp.hash,
                            "category=" + s.category + " key=" + s.key + " source=" + s.source,
                            "entry_id=" + e.entryId + " bytes=" + Decimal.Print(ByteSize(e)) + " governed="
                            + (if e.governed then "true" else "false"), false)])
  {
    Summaries.SummaryTexts(s.category, s.key, s.source);
  }

  lemma SearchExactly(policy: Policy, repo: Repo, s: Step)
    requires s.Search?
    ensures Next(policy, repo, s)
            == repo.(receipts := repo.receipts
                 + [Receipt(s.stamp.nowMs, "read", s.agentId, "KvGet", s.stamp.hash,
                            "category=" + (if s.categoryFilter.Some? then s.categoryFilter.value else "*")
                            + " key_prefix=" + (if s.keyPrefix.Some? then s.keyPrefix.value else "*"),
                            "result_count="
                            + Decimal.Print(|Found(EntriesOf(repo.stores, s.agentId), s.categoryFilter, s.keyPrefix)|),
                            false)])
  {
  }

  lemma RemoveExactly(policy: Policy, repo: Repo, s: Step)
    requires s.Remove?
    ensures var present := exists e :: e in EntriesOf(repo.stores, s.agentId) && SlotOf(e) == (s.category, s.key);
            && EntriesOf(Next(policy, repo, s).stores, s.agentId)
               == RemoveSlot(EntriesOf(repo.stores, s.agentId), (s.category, s.key))
            && Next(policy, repo, s).receipts
               == repo.receipts
                  + [Receipt(s.stamp.nowMs, "remove", s.agentId, "KvPut", s.stamp.hash,
                             "category=" + s.category + " key=" + s.key,
                             if present then "removed=true" else "removed=false", false)]
  {
    Summaries.SummaryTexts(s.category, s.key, "");
    RemoveReportsPresence(EntriesOf(repo.stores, s.agentId), (s.category, s.key));
    assert "removed=" + "true" == "removed=true" && "removed=" + "false" == "removed=false";
  }

  lemma PruneExactly(policy: Policy, repo: Repo, s: Step)
    requires s.Prune?
    ensures var cutoff, after := Cutoff(s.stamp.now, policy.retentionDays), Next(policy, repo, s);
            && after.stores == PruneAll(repo.stores, cutoff) && Size(repo.stores) >= Size(after.stores)
            && after.receipts
               == repo.receipts
                  + [Receipt(s.stamp.nowMs, "prune", "memory-service", "KvPut", s.stamp.hash,
                             "retention_days=" + Decimal.Print(policy.retentionDays)
                             + " cutoff=" + Decimal.Print(cutoff),
                             "pruned_entries=" + Decimal.Print(Size(repo.stores) - Size(after.stores)), false)]
  {
    DroppedIsShrinkage(repo.stores, Cutoff(s.stamp.now, policy.retentionDays));
  }

  lemma CompactExactly(policy: Policy, repo: Repo, s: Step)
    requires s.Compact?
    ensures var entries := EntriesOf(repo.stores, s.agentId);
            var before, after := |entries|, |Slots(entries)|;
            && after <= before
            && if after == before then Next(policy, repo, s) == repo
               else
                 && IsCompacted(entries, Compacted(entries)) && InSlotOrder(Compacted(entries))
                 && Next(policy, repo, s)
                    == Repo(repo.stores[s.agentId := Compacted(entries)],
                         repo.receipts
                         + [Receipt(s.stamp.nowMs, "compact", s.agentId, "KvGet", s.stamp.hash,
                                    "before=" + Decimal.Print(before) + " after=" + Decimal.Print(after),
                                    "removed_duplicates=" + Decimal.Print(before - after), false)])
  {
    var entries := EntriesOf(repo.stores, s.agentId);
    SlotsCount(entries);
    if HasDuplicates(entries) {
      CompactedShape(entries);
    }
  }

  lemma CompactedShape(entries: seq<Entry>)
    requires HasDuplicates(entries)
    ensures IsCompacted(entries, Compacted(entries)) && InSlotOrder(Compacted(entries))
    ensures |Compacted(entries)| == |Slots(entries)|
  {
    CompactedIsFixed(entries, Compacted(entries));
    SortedInSlotOrder(Compacted(entries));
  }

  // ----- receipts of one agent -----

  predicate NewestFirst(a: Receipt, b: Receipt) {
    a.timestampMs >= b.timestampMs
  }

  function ReceiptsOf(receipts: seq<Receipt>, agentId: Option<string>): seq<Receipt> {
    Filter(receipts, (r: Receipt) => agentId.Some? ==> r.agentId == agentId.value)
  }

  function AtTime(ms: nat): Receipt -> bool {
    (r: Receipt) => r.timestampMs == ms
  }

  function AtTimeOf(ms: nat, agentId: Option<string>): Receipt -> bool {
    (r: Receipt) => r.timestampMs == ms && (agentId == None || agentId == Some(r.agentId))
  }

  /** all lists the receipts of that agent, or of every agent, newest first, and those of one
      millisecond in the order of the log. */
  ghost predicate ListsNewestFirst(all: seq<Receipt>, receipts: seq<Receipt>, agentId: Option<string>) {
    && (forall i, j | 0 <= i < j < |all| :: all[i].timestampMs >= all[j].timestampMs)
    && (forall ms: nat :: Filter(all, AtTime(ms)) == Filter(receipts, AtTimeOf(ms, agentId)))
  }

  lemma SortListsNewestFirst(receipts: seq<Receipt>, agentId: Option<string>)
    ensures ListsNewestFirst(Sort(ReceiptsOf(receipts, agentId), NewestFirst), receipts, agentId)
  {
    var mine := ReceiptsOf(receipts, agentId);
    SortSorted(mine, NewestFirst);
    var all := Sort(mine, NewestFirst);
    forall i, j | 0 <= i < j < |all| ensures all[i].timestampMs >= all[j].timestampMs {
      assert NewestFirst(all[i], all[j]);
    }
    forall ms: nat ensures Filter(all, AtTime(ms)) == Filter(receipts, AtTimeOf(ms, agentId)) {
      FilterTied(mine, NewestFirst, AtTime(ms));
      FilterFilter(receipts, (r: Receipt) => agentId.Some? ==> r.agentId == agentId.value, AtTime(ms),
                   AtTimeOf(ms, agentId));
    }
  }

  function ListedReceipts(receipts: seq<Receipt>, limit: nat, agentId: Option<string>): seq<Receipt> {
    var records := Sort(ReceiptsOf(receipts, agentId), NewestFirst);
    if limit == 0 || |records| <= limit then records else records[..limit]
  }

  // ----- the service -----

  class MemoryService {
    const policy: Policy
    var stores: Stores
    var receipts: seq<Receipt>

    ghost function Contents(): Repo
      reads this
    {
      Repo(stores, receipts)
    }

    constructor (policy: Policy)
      ensures this.policy == policy && Contents() == Run(policy, [])
    {
      this.policy := policy;
      stores, receipts := map[], [];
    }

    method WriteEntry(agentId: string, category: string, key: string, content: string, source: string, stamp: Stamp)
        returns (r: Result<Entry, WriteError>)
      modifies this
      ensures var s := Write(agentId, category, key, content, source, stamp);
              Contents() == Next(policy, old(Contents()), s) && r == Written(policy, EntriesOf(old(stores), agentId), s)
    {
      var entry := NewEntry(agentId, category, key, content, source, stamp.now);
      if ByteSize(entry) > policy.maxEntryBytes {
        return Err(SizeLimit("memory entry exceeds size limit: " + Decimal.Print(ByteSize(entry)) + " > "
                             + Decimal.Print(policy.maxEntryBytes)));
      }
      var entries := EntriesOf(stores, agentId);
      SortMultiset(entries, ByUpdated);
      if |entries| >= policy.maxEntriesPerAgent {
        entries := Sort(entries, ByUpdated);
        if entries == [] {
          return Err(Panic);
        }
        entries := entries[1..];
      }
      ghost var kept := Evict(EntriesOf(stores, agentId), policy.maxEntriesPerAgent);
      assert entries == kept;
      var persisted: Entry;
      var i := Position(entries, SlotOf, (category, key));
      if i < |entries| {
        persisted := entries[i].(content := content, updatedAt := stamp.now, source := source);
        entries := entries[i := persisted];
      } else {
        entries := entries + [entry];
        persisted := entry;
      }
      assert persisted == Persisted(kept, entry) && entries == Upsert(kept, entry);
      stores := stores[agentId := entries];
      receipts := receipts + [WriteReceipt(Write(agentId, category, key, content, source, stamp), persisted)];
      return Ok(persisted);
    }

    method SearchEntries(agentId: string, category: Option<string>, keyPrefix: Option<string>, stamp: Stamp)
        returns (filtered: seq<Entry>)
      modifies this`receipts
      ensures Contents() == Next(policy, old(Contents()), Search(agentId, category, keyPrefix, stamp))
      ensures filtered == Found(EntriesOf(stores, agentId), category, keyPrefix)
      ensures forall e :: e in filtered
                          <==> e in EntriesOf(stores, agentId) && (category == None || category == Some(e.category))
                               && (keyPrefix == None || StartsWith(e.key, keyPrefix.value))
    {
      FilterMembers(EntriesOf(stores, agentId), (e: Entry) => Matches(e, category, keyPrefix));
      filtered := Found(EntriesOf(stores, agentId), category, keyPrefix);
      receipts := receipts + [SearchReceipt(Search(agentId, category, keyPrefix, stamp), |filtered|)];
    }

    method RemoveEntry(agentId: string, category: string, key: string, stamp: Stamp) returns (removed: bool)
      modifies this
      ensures Contents() == Next(policy, old(Contents()), Remove(agentId, category, key, stamp))
      ensures removed <==> exists e :: e in EntriesOf(old(stores), agentId) && SlotOf(e) == (category, key)
    {
      var entries := EntriesOf(stores, agentId);
      var before := |entries|;
      RemoveReportsPresence(entries, (category, key));
      entries := RemoveSlot(entries, (category, key));
      removed := |entries| < before;
      if removed {
        stores := stores[agentId := entries];
      }
      receipts := receipts + [RemoveReceipt(Remove(agentId, category, key, stamp), removed)];
    }

    /** The agents' names in order. */
    method ListAgents() returns (agents: seq<string>)
      ensures SortedBy(agents, StringLe) && DistinctBy(agents, Itself)
      ensures forall a :: a in agents <==> a in stores
    {
      agents := [];
      var todo := stores.Keys;
      while todo != {}
        invariant todo <= stores.Keys && DistinctBy(agents, Itself)
        invariant forall a :: a in agents <==> a in stores && a !in todo
        decreases |todo|
      {
        var a :| a in todo;
        assert forall b :: b in agents + [a] <==> b in agents || b == a;
        DistinctPush(agents, a, Itself);
        agents := agents + [a];
        todo := todo - {a};
      }
      StringLePreorder();
      SortSorted(agents, StringLe);
      SortMembers(agents, StringLe);
      SortDistinct(agents, StringLe, Itself);
      agents := Sort(agents, StringLe);
    }

    /** The loop over the agents. */
    method PruneAgents(agents: seq<string>, cutoff: nat) returns (totalPruned: nat)
      requires DistinctBy(agents, Itself) && forall a :: a in agents <==> a in stores
      modifies this`stores
      ensures stores == PruneAll(old(stores), cutoff)
      ensures totalPruned == Size(old(stores)) - Size(stores)
    {
      ghost var before := stores;
      totalPruned := 0;
      PrunedAtEnds(before, cutoff, agents);
      for i := 0 to |agents|
        invariant PrunedUpTo(before, cutoff, agents, i, stores, totalPruned)
      {
        var agentId := agents[i];
        assert Itself(agentId) == agentId && agentId !in agents[..i];
        PrunedOneMore(before, cutoff, agents, i, stores, totalPruned);
        var count := |stores[agentId]|;
        var entries := Retained(stores[agentId], cutoff);
        if |entries| < count {
          totalPruned := totalPruned + (count - |entries|);
          stores := stores[agentId := entries];
        }
      }
    }

    method PruneExpired(stamp: Stamp) returns (totalPruned: nat)
      modifies this
      ensures Contents() == Next(policy, old(Contents()), Prune(stamp))
      ensures totalPruned == Size(old(stores)) - Size(stores)
    {
      var cutoff := Cutoff(stamp.now, policy.retentionDays);
      var agents := ListAgents();
      totalPruned := PruneAgents(agents, cutoff);
      DroppedIsShrinkage(old(stores), cutoff);
      receipts := receipts + [PruneReceipt(Prune(stamp), policy.retentionDays, cutoff, totalPruned)];
    }

    method CompactAgent(agentId: string, stamp: Stamp) returns (compacted: nat)
      modifies this
      ensures Contents() == Next(policy, old(Contents()), Compact(agentId, stamp))
      ensures compacted == |EntriesOf(old(stores), agentId)| - |Slots(EntriesOf(old(stores), agentId))|
    {
      var entries := EntriesOf(stores, agentId);
      var out;
      out, compacted := CompactEntries(entries);
      if compacted == 0 {
        return;
      }
      ListingOrderIsIrrelevant(entries, out, Compacted(entries));
      CompactedIsFixed(entries, out);
      stores := stores[agentId := out];
      receipts := receipts + [CompactReceipt(Compact(agentId, stamp), |entries|, |out|)];
    }

    /** One agent's receipts, newest first, ties in log order, cut at a nonzero limit. */
    method ListReceipts(limit: nat, agentId: Option<string>) returns (records: seq<Receipt>)
      ensures records == ListedReceipts(receipts, limit, agentId)
      ensures exists all :: ListsNewestFirst(all, receipts, agentId)
                            && IsStableSort(all, ReceiptsOf(receipts, agentId), NewestFirst)
                            && records == if limit == 0 || |all| <= limit then all else all[..limit]
    {
      SortIsStable(ReceiptsOf(receipts, agentId), NewestFirst);
      SortListsNewestFirst(receipts, agentId);
      records := Sort(ReceiptsOf(receipts, agentId), NewestFirst);
      if limit == 0 || |records| <= limit {
        return;
      }
      records := records[..limit];
    }

    method SelectReplayEntries(sourceRef: string, focusNodeId: Option<string>, direction: Direction, limit: nat,
            stamp: Stamp)
        returns (r: Result<ReplaySelection, string>)
      modifies this`receipts
      ensures Contents() == Next(policy, old(Contents()), Search(sourceRef, None, None, stamp))
      ensures r == Select(sourceRef, EntriesOf(stores, sourceRef), ListedReceipts(receipts, 0, Some(sourceRef)),
              focusNodeId, direction, limit)
    {
      var entries := SearchEntries(sourceRef, None, None, stamp);
      FilterAll(EntriesOf(stores, sourceRef), (e: Entry) => Matches(e, None, None));
      var records := ListReceipts(0, Some(sourceRef));
      if focusNodeId == None {
        var nodes := BuildGraphNodesFromReceipts(records);
        return Ok(FullSnapshot(sourceRef, entries, |nodes|));
      }
      var graph := GraphInspect(sourceRef, records, focusNodeId, direction, limit);
      if graph.Err? {
        return Err(graph.error);
      }
      var view := graph.value;
      if view.focusNode == None {
        return Err(FocusMissing(sourceRef));
      }
      return Ok(FocusedSelection(entries, view, view.focusNode.value));
    }
  }
}
