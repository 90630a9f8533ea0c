// Compaction of one agent's entries: one entry per (category, key)
// (crates/loom-core/src/memory_service.rs, MemoryService::compact).

module Compaction {
  import opened Sorting
  import opened MemoryTypes
  import opened MemoryStore

  ghost function Slots(entries: seq<Entry>): set<Slot> {
    set e | e in entries :: SlotOf(e)
  }

  /** The map that the loop builds: a later entry replaces one that is strictly older. */
  function BestOf(entries: seq<Entry>): map<Slot, Entry> {
    if entries == [] then map[]
    else Better(BestOf(entries[..|entries| - 1]), entries[|entries| - 1])
  }

  function Better(best: map<Slot, Entry>, e: Entry): map<Slot, Entry> {
    if SlotOf(e) !in best || best[SlotOf(e)].updatedAt < e.updatedAt then best[SlotOf(e) := e] else best
  }

  predicate SlotLe(a: Slot, b: Slot) {
    if a.0 == b.0 then StringLe(a.1, b.1) else StringLe(a.0, b.0)
  }

  predicate BySlot(a: Entry, b: Entry) {
    SlotLe(SlotOf(a), SlotOf(b))
  }

  lemma SlotLeOrder(a: Slot, b: Slot, c: Slot)
    ensures SlotLe(a, b) || SlotLe(b, a)
    ensures SlotLe(a, b) && SlotLe(b, a) ==> a == b
    ensures SlotLe(a, b) && SlotLe(b, c) ==> SlotLe(a, c)
  {
    StringLeTotal(a.0, b.0);
    StringLeTotal(a.1, b.1);
    StringLeTotal(b.0, c.0);
    if StringLe(a.0, b.0) && StringLe(b.0, c.0) { StringLeTransitive(a.0, b.0, c.0); }
    if StringLe(a.1, b.1) && StringLe(b.1, c.1) { StringLeTransitive(a.1, b.1, c.1); }
  }

  lemma BySlotPreorder()
    ensures TotalPreorder(BySlot)
  {
    forall a: Entry, b: Entry ensures BySlot(a, b) || BySlot(b, a) {
      SlotLeOrder(SlotOf(a), SlotOf(b), SlotOf(b));
    }
    forall a, b, c | BySlot(a, b) && BySlot(b, c) ensures BySlot(a, c) {
      SlotLeOrder(SlotOf(a), SlotOf(b), SlotOf(c));
    }
  }

  // ----- the winners -----

  /** entries[i] is the first entry with the greatest `updated_at` in its slot. */
  ghost predicate IsFirstGreatest(entries: seq<Entry>, i: nat) {
    i < |entries| && forall j | 0 <= j < |entries| && SlotOf(entries[j]) == SlotOf(entries[i]) ::
      entries[j].updatedAt <= entries[i].updatedAt && (j < i ==> entries[j].updatedAt < entries[i].updatedAt)
  }

  lemma {:induction false} BestKeys(entries: seq<Entry>)
    ensures BestOf(entries).Keys == Slots(entries)
    ensures forall slot | slot in BestOf(entries) :: SlotOf(BestOf(entries)[slot]) == slot
  {
    if entries == [] {
    } else {
      var front, last := entries[..|entries| - 1], entries[|entries| - 1];
      BestKeys(front);
      assert entries == front + [last];
      assert Slots(entries) == Slots(front) + {SlotOf(last)};
    }
  }

  /** The winner of each slot is its first entry with the greatest `updated_at`. */
  lemma {:induction false} BestIsFirstGreatest(entries: seq<Entry>, slot: Slot) returns (i: nat)
    requires slot in BestOf(entries)
    ensures IsFirstGreatest(entries, i) && entries[i] == BestOf(entries)[slot] && SlotOf(entries[i]) == slot
  {
    BestKeys(entries);
    var front, last := entries[..|entries| - 1], entries[|entries| - 1];
    BestKeys(front);
    if slot in BestOf(front) {
      i := BestIsFirstGreatest(front, slot);
      if slot == SlotOf(last) && entries[i].updatedAt < last.updatedAt {
        i := |front|;
      }
    } else {
      i := |front|;
      forall j | 0 <= j < i ensures SlotOf(entries[j]) != slot {
        assert front[j] == entries[j] && SlotOf(front[j]) in Slots(front);
      }
    }
  }

  // ----- listing the values of the map -----

  /** The values of m in some order. */
  ghost predicate IsListing(values: seq<Entry>, m: map<Slot, Entry>) {
    && |values| == |m|
    && DistinctBy(values, SlotOf)
    && forall e :: e in values <==> SlotOf(e) in m && m[SlotOf(e)] == e
  }

  /** A compacted store: the winners, ordered by slot. */
  ghost predicate IsCompacted(entries: seq<Entry>, out: seq<Entry>) {
    SortedBy(out, BySlot) && IsListing(out, BestOf(entries))
  }

  /** The hash map yields its values in an order of its own choice. */
  method IntoValues(m: map<Slot, Entry>) returns (values: seq<Entry>)
    requires forall slot | slot in m :: SlotOf(m[slot]) == slot
    ensures IsListing(values, m)
  {
    values := [];
    var todo := m.Keys;
    while todo != {}
      invariant todo <= m.Keys && |values| + |todo| == |m|
      invariant DistinctBy(values, SlotOf)
      invariant forall e :: e in values <==> SlotOf(e) in m && SlotOf(e) !in todo && m[SlotOf(e)] == e
      decreases |todo|
    {
      var slot :| slot in todo;
      assert forall e :: e in values + [m[slot]] <==> e in values || e == m[slot];
      DistinctPush(values, m[slot], SlotOf);
      values := values + [m[slot]];
      todo := todo - {slot};
    }
  }

  lemma ListingDistinct(values: seq<Entry>, m: map<Slot, Entry>)
    requires IsListing(values, m)
    ensures DistinctBy(values, Itself) && TiesEqual(values, BySlot)
  {
    forall i, j | 0 <= i < |values| && 0 <= j < |values| && BySlot(values[i], values[j]) && BySlot(values[j], values[i])
      ensures values[i] == values[j] {
      SlotLeOrder(SlotOf(values[i]), SlotOf(values[j]), SlotOf(values[i]));
    }
  }

  /** Sorting makes the result independent of that order. */
  lemma ListingOrderIsIrrelevant(entries: seq<Entry>, a: seq<Entry>, b: seq<Entry>)
    requires IsCompacted(entries, a) && IsCompacted(entries, b)
    ensures a == b
  {
    ListingDistinct(a, BestOf(entries));
    ListingDistinct(b, BestOf(entries));
    SortedSameElements(a, b, BySlot);
  }

  lemma SortedListing(values: seq<Entry>, m: map<Slot, Entry>)
    requires IsListing(values, m)
    ensures SortedBy(Sort(values, BySlot), BySlot) && IsListing(Sort(values, BySlot), m)
  {
    BySlotPreorder();
    SortSorted(values, BySlot);
    SortMembers(values, BySlot);
    SortMultiset(values, BySlot);
    SortDistinct(values, BySlot, SlotOf);
  }

  // ----- compaction -----

  lemma SlotsCount(entries: seq<Entry>)
    ensures |Slots(entries)| <= |entries|
    ensures |Slots(entries)| == |entries| <==> DistinctBy(entries, SlotOf)
  {
    KeysCount(entries, SlotOf);
    assert Slots(entries) == KeysOf(entries, SlotOf);
  }

  /** Returns the number of duplicates; without any, the list is not touched. */
  method CompactEntries(entries: seq<Entry>) returns (out: seq<Entry>, removed: nat)
    ensures removed == |entries| - |Slots(entries)|
    ensures removed == 0 ==> out == entries
    ensures removed > 0 ==> IsCompacted(entries, out) && InSlotOrder(out)
  {
    if entries == [] {
      return entries, 0;
    }
    var best: map<Slot, Entry> := map[];
    for i := 0 to |entries|
      invariant best == BestOf(entries[..i])
    {
      var entry := entries[i];
      assert entries[..i + 1][..i] == entries[..i];
      if SlotOf(entry) !in best || best[SlotOf(entry)].updatedAt < entry.updatedAt {
        best := best[SlotOf(entry) := entry];
      }
    }
    assert entries[..|entries|] == entries;
    BestKeys(entries);
    SlotsCount(entries);
    assert |best| == |best.Keys|;
    removed := |entries| - |best|;
    if removed == 0 {
      return entries, 0;
    }
    var values := IntoValues(best);
    SortedListing(values, best);
    out := Sort(values, BySlot);
    SortedInSlotOrder(out);
  }

  /** By category, and by key within one category. */
  ghost predicate InSlotOrder(out: seq<Entry>) {
    forall i, j | 0 <= i < j < |out| ::
      if out[i].category == out[j].category then StringLe(out[i].key, out[j].key)
      else StringLe(out[i].category, out[j].category)
  }

  lemma SortedInSlotOrder(out: seq<Entry>)
    requires SortedBy(out, BySlot)
    ensures InSlotOrder(out)
  {
    forall i, j | 0 <= i < j < |out|
      ensures if out[i].category == out[j].category then StringLe(out[i].key, out[j].key)
              else StringLe(out[i].category, out[j].category) {
      assert BySlot(out[i], out[j]);
    }
  }

  /** A duplicate-free store is left alone, and a compacted store is duplicate-free: a second
      compaction changes nothing. */
  lemma CompactedIsFixed(entries: seq<Entry>, out: seq<Entry>)
    requires IsCompacted(entries, out)
    ensures |Slots(out)| == |out| == |Slots(entries)|
    ensures Slots(out) == Slots(entries)
  {
    SlotsCount(out);
    BestKeys(entries);
    assert |BestOf(entries)| == |BestOf(entries).Keys|;
    forall slot ensures slot in Slots(out) <==> slot in Slots(entries) {
      if slot in Slots(entries) {
        assert BestOf(entries)[slot] in out;
      }
    }
  }

  /** Compaction keeps the winners, and the winners of a duplicate-free list are its entries. */
  lemma CompactedView(entries: seq<Entry>, out: seq<Entry>)
    requires IsCompacted(entries, out)
    ensures View(out) == BestOf(entries)
    ensures DistinctBy(entries, SlotOf) ==> BestOf(entries) == View(entries)
  {
    BestKeys(entries);
    ViewBy(out, BestOf(entries));
    if DistinctBy(entries, SlotOf) {
      forall slot | slot in BestOf(entries) ensures BestOf(entries)[slot] in entries {
        var i := BestIsFirstGreatest(entries, slot);
      }
      ViewBy(entries, BestOf(entries));
    }
  }

  /** Compaction keeps every limit that the store obeyed. */
  lemma CompactedKeepsLimits(entries: seq<Entry>, out: seq<Entry>, maxBytes: nat)
    requires IsCompacted(entries, out)
    requires forall e | e in entries :: ByteSize(e) <= maxBytes
    ensures |out| <= |entries| && DistinctBy(out, SlotOf)
    ensures forall e | e in out :: e in entries && ByteSize(e) <= maxBytes
  {
    BestKeys(entries);
    SlotsCount(entries);
    assert |BestOf(entries)| == |BestOf(entries).Keys|;
    forall e | e in out ensures e in entries {
      var i := BestIsFirstGreatest(entries, SlotOf(e));
    }
  }

  // ----- the compacted list as a value -----

  lemma {:induction false} ListingExists(m: map<Slot, Entry>) returns (values: seq<Entry>)
    requires forall slot | slot in m :: SlotOf(m[slot]) == slot
    ensures IsListing(values, m)
  {
    values := [];
    if m == map[] {
    } else {
      var slot :| slot in m;
      var rest := ListingExists(m - {slot});
      values := rest + [m[slot]];
      assert forall e :: e in values <==> e in rest || e == m[slot];
      DistinctPush(rest, m[slot], SlotOf);
    }
  }

  lemma CompactedExists(entries: seq<Entry>)
    ensures exists out :: IsCompacted(entries, out)
  {
    BestKeys(entries);
    var values := ListingExists(BestOf(entries));
    SortedListing(values, BestOf(entries));
    assert IsCompacted(entries, Sort(values, BySlot));
  }

  /** What compaction makes of a list. */
  ghost function Compacted(entries: seq<Entry>): (out: seq<Entry>)
    ensures |Slots(entries)| == |entries| ==> out == entries
    ensures |Slots(entries)| != |entries| ==> IsCompacted(entries, out)
  {
    if |Slots(entries)| == |entries| then entries
    else
      CompactedExists(entries);
      var out :| IsCompacted(entries, out);
      out
  }

  /** Compacting twice is compacting once. */
  lemma CompactTwice(entries: seq<Entry>)
    ensures Compacted(Compacted(entries)) == Compacted(entries)
    ensures View(Compacted(entries)) == if |Slots(entries)| == |entries| then View(entries) else BestOf(entries)
  {
    if |Slots(entries)| != |entries| {
      CompactedIsFixed(entries, Compacted(entries));
      CompactedView(entries, Compacted(entries));
    }
  }
}
