// One agent's list of memory entries: what write, remove, prune and search make of it
// (crates/loom-core/src/memory_service.rs).

module MemoryStore {
  import opened Options
  import opened Words
  import opened Sorting
  import opened MemoryTypes

  predicate ByUpdated(a: Entry, b: Entry) {
    a.updatedAt <= b.updatedAt
  }

  // ----- the operations -----

  /** At the cap: sort by `updated_at` and drop the head, if there is one. */
  function Evict(entries: seq<Entry>, cap: nat): seq<Entry> {
    SortMultiset(entries, ByUpdated);
    if |entries| >= cap && entries != [] then Sort(entries, ByUpdated)[1..] else entries
  }

  /** The entry that an upsert of e leaves in e's slot. */
  function Persisted(entries: seq<Entry>, e: Entry): Entry {
    var i := Position(entries, SlotOf, SlotOf(e));
    if i < |entries| then entries[i].(content := e.content, updatedAt := e.updatedAt, source := e.source)
    else e
  }

  function Upsert(entries: seq<Entry>, e: Entry): seq<Entry> {
    var i := Position(entries, SlotOf, SlotOf(e));
    if i < |entries| then entries[i := Persisted(entries, e)] else entries + [e]
  }

  function Put(entries: seq<Entry>, cap: nat, e: Entry): seq<Entry> {
    Upsert(Evict(entries, cap), e)
  }

  function RemoveSlot(entries: seq<Entry>, slot: Slot): seq<Entry> {
    Filter(entries, (e: Entry) => SlotOf(e) != slot)
  }

  /** The product wraps around as in a release build. */
  function Cutoff(now: U64, retentionDays: U64): U64 {
    SaturatingSub(now, Wrap(retentionDays * 86400))
  }

  function Retained(entries: seq<Entry>, cutoff: nat): seq<Entry> {
    Filter(entries, (e: Entry) => e.updatedAt >= cutoff)
  }

  predicate Matches(e: Entry, category: Option<string>, keyPrefix: Option<string>) {
    && (category.Some? ==> e.category == category.value)
    && (keyPrefix.Some? ==> keyPrefix.value <= e.key)
  }

  function Found(entries: seq<Entry>, category: Option<string>, keyPrefix: Option<string>): seq<Entry> {
    Filter(entries, (e: Entry) => Matches(e, category, keyPrefix))
  }

  // ----- the finite map that a list stands for -----

  ghost function View(entries: seq<Entry>): map<Slot, Entry> {
    map slot | slot in (set e | e in entries :: SlotOf(e)) :: FirstIn(entries, slot)
  }

  ghost function FirstIn(entries: seq<Entry>, slot: Slot): Entry
    requires slot in (set e | e in entries :: SlotOf(e))
  {
    var e :| e in entries && SlotOf(e) == slot;
    assert exists j :: 0 <= j < |entries| && SlotOf(entries[j]) == slot;
    entries[Position(entries, SlotOf, slot)]
  }

  ghost predicate WithinPolicy(entries: seq<Entry>, policy: Policy) {
    && DistinctBy(entries, SlotOf)
    && |entries| <= policy.maxEntriesPerAgent
    && forall e | e in entries :: ByteSize(e) <= policy.maxEntryBytes
  }

  lemma ViewHolds(entries: seq<Entry>, e: Entry)
    requires DistinctBy(entries, SlotOf) && e in entries
    ensures SlotOf(e) in View(entries) && View(entries)[SlotOf(e)] == e
  {
    var i :| 0 <= i < |entries| && entries[i] == e;
    var j := Position(entries, SlotOf, SlotOf(e));
    assert i == j;
  }

  lemma ViewOnlyHolds(entries: seq<Entry>, slot: Slot)
    requires slot in View(entries)
    ensures View(entries)[slot] in entries && SlotOf(View(entries)[slot]) == slot
  {
  }

  /** The map depends on the elements only. */
  lemma ViewBy(entries: seq<Entry>, m: map<Slot, Entry>)
    requires DistinctBy(entries, SlotOf)
    requires forall slot :: slot in m ==> m[slot] in entries && SlotOf(m[slot]) == slot
    requires forall e | e in entries :: SlotOf(e) in m
    ensures View(entries) == m
  {
    var v := View(entries);
    forall slot ensures slot in v <==> slot in m
                ensures slot in m ==> slot in v && v[slot] == m[slot] {
      if slot in v { ViewOnlyHolds(entries, slot); }
      if slot in m { ViewHolds(entries, m[slot]); }
    }
    assert v.Keys == m.Keys;
  }

  // ----- eviction -----

  lemma ByUpdatedPreorder()
    ensures TotalPreorder(ByUpdated)
  {
  }

  /** entries[i] is the first of those with the least `updated_at`. */
  ghost predicate IsFirstOldest(entries: seq<Entry>, i: nat) {
    && i < |entries|
    && (forall j | 0 <= j < |entries| :: entries[i].updatedAt <= entries[j].updatedAt)
    && (forall j | 0 <= j < i :: entries[i].updatedAt < entries[j].updatedAt)
  }

  lemma SortedHeadIsFirstOldest(entries: seq<Entry>) returns (i: nat)
    requires entries != []
    ensures IsFirstOldest(entries, i) && |Sort(entries, ByUpdated)| > 0 && Sort(entries, ByUpdated)[0] == entries[i]
  {
    ByUpdatedPreorder();
    i := SortHead(entries, ByUpdated);
    SortMultiset(entries, ByUpdated);
    assert ByUpdated(entries[i], entries[i]);
    forall j | 0 <= j < |entries| ensures entries[i].updatedAt <= entries[j].updatedAt {
      assert ByUpdated(entries[i], entries[j]);
    }
    forall j | 0 <= j < i ensures entries[i].updatedAt < entries[j].updatedAt {
      assert !ByUpdated(entries[j], entries[i]);
    }
  }

  /** At the cap exactly one entry goes: the first of those with the least `updated_at`. */
  lemma EvictDropsFirstOldest(entries: seq<Entry>, cap: nat, i: nat)
    requires |entries| >= cap && IsFirstOldest(entries, i)
    ensures multiset(Evict(entries, cap)) == multiset(entries) - multiset([entries[i]])
    ensures |Evict(entries, cap)| == |entries| - 1
  {
    var k := SortedHeadIsFirstOldest(entries);
    assert i == k;
    SortMultiset(entries, ByUpdated);
    MultisetTail(Sort(entries, ByUpdated));
  }

  function UpdatedAt(t: nat): Entry -> bool {
    (e: Entry) => e.updatedAt == t
  }

  /** all lists the entries by time, and those of one time in the order of the list. */
  ghost predicate OldestFirst(all: seq<Entry>, entries: seq<Entry>) {
    && (forall i, j | 0 <= i < j < |all| :: all[i].updatedAt <= all[j].updatedAt)
    && (forall t: nat :: Filter(all, UpdatedAt(t)) == Filter(entries, UpdatedAt(t)))
  }

  lemma SortsOldestFirst(entries: seq<Entry>)
    ensures OldestFirst(Sort(entries, ByUpdated), entries)
  {
    var all := Sort(entries, ByUpdated);
    ByUpdatedPreorder();
    SortSorted(entries, ByUpdated);
    forall i, j | 0 <= i < j < |all| ensures all[i].updatedAt <= all[j].updatedAt {
      assert ByUpdated(all[i], all[j]);
    }
    forall t: nat ensures Filter(all, UpdatedAt(t)) == Filter(entries, UpdatedAt(t)) {
      FilterTied(entries, ByUpdated, UpdatedAt(t));
    }
  }

  /** What stays after an eviction stands in the order of its update times. */
  lemma EvictKeepsOrder(entries: seq<Entry>, cap: nat, i: nat)
    requires |entries| >= cap && IsFirstOldest(entries, i)
    ensures OldestFirst([entries[i]] + Evict(entries, cap), entries)
  {
    var k := SortedHeadIsFirstOldest(entries);
    assert i == k;
    var all := Sort(entries, ByUpdated);
    assert all == [all[0]] + all[1..];
    SortsOldestFirst(entries);
  }

  lemma EvictDistinct(entries: seq<Entry>, cap: nat)
    requires DistinctBy(entries, SlotOf)
    ensures DistinctBy(Evict(entries, cap), SlotOf)
    ensures forall e | e in Evict(entries, cap) :: e in entries
  {
    if |entries| >= cap && entries != [] {
      SortDistinct(entries, ByUpdated, SlotOf);
      SortMembers(entries, ByUpdated);
      var sorted := Sort(entries, ByUpdated);
      SortMultiset(entries, ByUpdated);
      assert sorted == [sorted[0]] + sorted[1..];
      DistinctCons(sorted[0], sorted[1..], SlotOf);
    }
  }

  lemma EvictView(entries: seq<Entry>, cap: nat, i: nat)
    requires |entries| >= cap && DistinctBy(entries, SlotOf) && IsFirstOldest(entries, i)
    ensures View(Evict(entries, cap)) == View(entries) - {SlotOf(entries[i])}
  {
    EvictDropsFirstOldest(entries, cap, i);
    var victim := entries[i];
    EvictDistinct(entries, cap);
    var kept := Evict(entries, cap);
    forall e | e in kept ensures SlotOf(e) in View(entries) - {SlotOf(victim)} {
      ViewHolds(entries, e);
      if SlotOf(e) == SlotOf(victim) {
        ViewHolds(entries, victim);
        assert e in multiset(kept) && multiset(entries)[e] >= 2;
        NotTwice(entries, e);
      }
    }
    forall slot | slot in View(entries) - {SlotOf(victim)}
      ensures View(entries)[slot] in kept && SlotOf(View(entries)[slot]) == slot {
      ViewOnlyHolds(entries, slot);
      var e := View(entries)[slot];
      assert e in multiset(entries) && e != victim;
      assert e in multiset(kept);
    }
    ViewBy(kept, View(entries) - {SlotOf(victim)});
  }

  lemma {:induction false} NotTwice(entries: seq<Entry>, e: Entry)
    requires DistinctBy(entries, SlotOf)
    ensures multiset(entries)[e] <= 1
  {
    if entries == [] {
    } else {
      var front, last := entries[..|entries| - 1], entries[|entries| - 1];
      assert entries == front + [last];
      DistinctPush(front, last, SlotOf);
      NotTwice(front, e);
      if e == last {
        assert e !in front;
        assert e !in multiset(front);
      }
    }
  }

  // ----- upsert -----

  lemma UpsertDistinct(entries: seq<Entry>, e: Entry)
    requires DistinctBy(entries, SlotOf)
    ensures DistinctBy(Upsert(entries, e), SlotOf)
    ensures Persisted(entries, e) in Upsert(entries, e) && SlotOf(Persisted(entries, e)) == SlotOf(e)
    ensures forall x | x in Upsert(entries, e) :: x == Persisted(entries, e) || (x in entries && SlotOf(x) != SlotOf(e))
    ensures forall x | x in entries && SlotOf(x) != SlotOf(e) :: x in Upsert(entries, e)
  {
    var i := Position(entries, SlotOf, SlotOf(e));
    var p, after := Persisted(entries, e), Upsert(entries, e);
    assert after[i] == p;
    forall x | x in entries && SlotOf(x) != SlotOf(e) ensures x in after {
      var j :| 0 <= j < |entries| && entries[j] == x;
      assert after[j] == x;
    }
    forall x | x in after ensures x == p || (x in entries && SlotOf(x) != SlotOf(e)) {
      var j :| 0 <= j < |after| && after[j] == x;
      if j != i { assert entries[j] == x; }
    }
  }

  lemma UpsertView(entries: seq<Entry>, e: Entry)
    requires DistinctBy(entries, SlotOf)
    ensures View(Upsert(entries, e)) == View(entries)[SlotOf(e) := Persisted(entries, e)]
  {
    UpsertDistinct(entries, e);
    var after, m := Upsert(entries, e), View(entries)[SlotOf(e) := Persisted(entries, e)];
    forall slot | slot in m ensures m[slot] in after && SlotOf(m[slot]) == slot {
      if slot != SlotOf(e) { ViewOnlyHolds(entries, slot); }
    }
    forall x | x in after ensures SlotOf(x) in m {
      if x != Persisted(entries, e) { ViewHolds(entries, x); }
    }
    ViewBy(after, m);
  }

  /** An upsert replaces the first entry in the slot where it stands, or appends. */
  lemma UpsertInPlace(entries: seq<Entry>, e: Entry, i: nat)
    requires i <= |entries| && forall j | 0 <= j < i :: (entries[j].category, entries[j].key) != (e.category, e.key)
    requires i < |entries| ==> entries[i].category == e.category && entries[i].key == e.key
    ensures Upsert(entries, e)
            == if i < |entries| then
                 entries[..i] + [entries[i].(content := e.content, updatedAt := e.updatedAt, source := e.source)]
                 + entries[i + 1..]
               else entries + [e]
  {
    var k := Position(entries, SlotOf, SlotOf(e));
    assert forall j | 0 <= j < i :: SlotOf(entries[j]) != SlotOf(e);
    assert k == i;
  }

  /** A removal leaves the other slots' entries, in their order. */
  lemma RemovedInOrder(entries: seq<Entry>, slot: Slot) returns (at: seq<nat>)
    ensures IsSubsequence(RemoveSlot(entries, slot), entries, at)
    ensures forall i | 0 <= i < |entries| :: i in at <==> (entries[i].category, entries[i].key) != slot
  {
    var p := (e: Entry) => SlotOf(e) != slot;
    at := FilterIsSubsequence(entries, p);
    forall i: nat | i < |entries| ensures i in at <==> p(entries[i]) {}
  }

  /** Pruning leaves the entries updated at or after the cutoff, in their order. */
  lemma RetainedInOrder(entries: seq<Entry>, cutoff: nat) returns (at: seq<nat>)
    ensures IsSubsequence(Retained(entries, cutoff), entries, at)
    ensures forall i | 0 <= i < |entries| :: i in at <==> cutoff <= entries[i].updatedAt
  {
    var p := (e: Entry) => e.updatedAt >= cutoff;
    at := FilterIsSubsequence(entries, p);
    forall i: nat | i < |entries| ensures i in at <==> p(entries[i]) {}
  }

  // ----- write, remove and prune refine the finite map -----

  lemma PutKeepsPolicy(entries: seq<Entry>, policy: Policy, e: Entry)
    requires policy.maxEntriesPerAgent >= 1 && WithinPolicy(entries, policy) && ByteSize(e) <= policy.maxEntryBytes
    ensures WithinPolicy(Put(entries, policy.maxEntriesPerAgent, e), policy)
  {
    var kept := Evict(entries, policy.maxEntriesPerAgent);
    SortMultiset(entries, ByUpdated);
    EvictDistinct(entries, policy.maxEntriesPerAgent);
    UpsertDistinct(kept, e);
    assert ByteSize(Persisted(kept, e)) == ByteSize(e);
  }

  /** The written entry carries the new content, time and source; the rest of it is the
      entry already in the slot, if eviction left one there. */
  lemma PersistedCarries(kept: seq<Entry>, e: Entry)
    requires DistinctBy(kept, SlotOf)
    ensures var p := Persisted(kept, e);
            && p.content == e.content && p.updatedAt == e.updatedAt && p.source == e.source
            && (SlotOf(e) !in View(kept) ==> p == e)
            && (SlotOf(e) in View(kept) ==> p.entryId == View(kept)[SlotOf(e)].entryId
                                            && p.createdAt == View(kept)[SlotOf(e)].createdAt)
  {
    var i := Position(kept, SlotOf, SlotOf(e));
    if i < |kept| {
      ViewHolds(kept, kept[i]);
    } else if SlotOf(e) in View(kept) {
      ViewOnlyHolds(kept, SlotOf(e));
    }
  }

  /** A write sets its slot and touches no other, except that at the cap the first entry with
      the least `updated_at` is dropped before. */
  lemma PutRefinesMap(entries: seq<Entry>, cap: nat, e: Entry)
    requires DistinctBy(entries, SlotOf)
    ensures var p := Persisted(Evict(entries, cap), e);
            && (|entries| < cap ==> View(Put(entries, cap, e)) == View(entries)[SlotOf(e) := p])
            && (|entries| >= cap ==> forall i: nat | IsFirstOldest(entries, i) ::
                  View(Put(entries, cap, e)) == (View(entries) - {SlotOf(entries[i])})[SlotOf(e) := p])
  {
    EvictDistinct(entries, cap);
    UpsertView(Evict(entries, cap), e);
    forall i: nat | |entries| >= cap && IsFirstOldest(entries, i)
      ensures View(Evict(entries, cap)) == View(entries) - {SlotOf(entries[i])} {
      EvictView(entries, cap, i);
    }
  }

  /** Below the cap overwriting a filled slot loses no slot. */
  lemma OverwriteBelowCap(entries: seq<Entry>, cap: nat, e: Entry)
    requires |entries| < cap && DistinctBy(entries, SlotOf) && SlotOf(e) in View(entries)
    ensures View(Put(entries, cap, e)).Keys == View(entries).Keys
  {
    UpsertView(entries, e);
  }

  /** At the cap it loses no slot exactly when the first entry with the least `updated_at` is
      the overwritten one, which then starts anew. */
  lemma OverwriteKeepsSlotsExactly(entries: seq<Entry>, cap: nat, e: Entry, i: nat)
    requires |entries| >= cap && DistinctBy(entries, SlotOf) && SlotOf(e) in View(entries)
    requires IsFirstOldest(entries, i)
    ensures View(Put(entries, cap, e)).Keys == View(entries).Keys <==> SlotOf(entries[i]) == SlotOf(e)
    ensures SlotOf(entries[i]) == SlotOf(e)
            <==> Persisted(Evict(entries, cap), e) == e && SlotOf(e) !in View(Evict(entries, cap))
    ensures View(entries).Keys - View(Put(entries, cap, e)).Keys <= {SlotOf(entries[i])}
  {
    var kept := Evict(entries, cap);
    EvictDistinct(entries, cap);
    EvictView(entries, cap, i);
    UpsertView(kept, e);
    PersistedCarries(kept, e);
    ViewHolds(entries, entries[i]);
    assert SlotOf(entries[i]) in View(entries).Keys;
    assert SlotOf(entries[i]) in View(Put(entries, cap, e)).Keys <==> SlotOf(entries[i]) == SlotOf(e);
  }

  lemma FilterView(entries: seq<Entry>, p: Entry -> bool)
    requires DistinctBy(entries, SlotOf)
    ensures DistinctBy(Filter(entries, p), SlotOf)
    ensures View(Filter(entries, p)) == map slot | slot in View(entries) && p(View(entries)[slot]) ::
            View(entries)[slot]
  {
    FilterDistinct(entries, p, SlotOf);
    FilterMembers(entries, p);
    var m := map slot | slot in View(entries) && p(View(entries)[slot]) :: View(entries)[slot];
    forall slot | slot in m ensures m[slot] in Filter(entries, p) && SlotOf(m[slot]) == slot {
      ViewOnlyHolds(entries, slot);
    }
    forall e | e in Filter(entries, p) ensures SlotOf(e) in m {
      ViewHolds(entries, e);
    }
    ViewBy(Filter(entries, p), m);
  }

  /** Removing a slot removes it from the map and nothing else. */
  lemma RemoveRefinesMap(entries: seq<Entry>, slot: Slot)
    requires DistinctBy(entries, SlotOf)
    ensures View(RemoveSlot(entries, slot)) == View(entries) - {slot}
  {
    var p, m := (e: Entry) => SlotOf(e) != slot, View(entries) - {slot};
    FilterDistinct(entries, p, SlotOf);
    FilterMembers(entries, p);
    forall s | s in m ensures m[s] in RemoveSlot(entries, slot) && SlotOf(m[s]) == s {
      ViewOnlyHolds(entries, s);
    }
    forall e | e in RemoveSlot(entries, slot) ensures SlotOf(e) in m { ViewHolds(entries, e); }
    ViewBy(RemoveSlot(entries, slot), m);
  }

  /** The list gets shorter exactly when the slot was filled. */
  lemma RemoveReportsPresence(entries: seq<Entry>, slot: Slot)
    ensures |RemoveSlot(entries, slot)| < |entries| <==> exists e :: e in entries && SlotOf(e) == slot
    ensures |RemoveSlot(entries, slot)| >= |entries| ==> RemoveSlot(entries, slot) == entries
  {
    FilterKeepsFewer(entries, (e: Entry) => SlotOf(e) != slot);
    FilterMembers(entries, (e: Entry) => SlotOf(e) != slot);
  }

  /** Pruning keeps exactly the entries updated at or after the cutoff. */
  lemma RetainedRefinesMap(entries: seq<Entry>, cutoff: nat)
    requires DistinctBy(entries, SlotOf)
    ensures View(Retained(entries, cutoff))
            == map slot | slot in View(entries) && View(entries)[slot].updatedAt >= cutoff :: View(entries)[slot]
  {
    FilterView(entries, (e: Entry) => e.updatedAt >= cutoff);
  }

  /** The cutoff lies the whole retention period back, at every time, exactly when that period
      fits in a u64 of seconds. */
  lemma CutoffExactly(retentionDays: U64)
    ensures (forall now: U64 ::
            Cutoff(now, retentionDays) == if now < retentionDays * 86400 then 0 else now - retentionDays * 86400)
            <==> retentionDays * 86400 <= MAX
  {
    var half := retentionDays * 43200;
    assert retentionDays * 86400 == 2 * half;
    WrapSmall(2 * half);
    WrapEven(half);
    assert Cutoff(MAX, retentionDays) != 0;
  }

  lemma FilterKeepsPolicy(entries: seq<Entry>, policy: Policy, p: Entry -> bool)
    requires WithinPolicy(entries, policy)
    ensures WithinPolicy(Filter(entries, p), policy)
  {
    FilterDistinct(entries, p, SlotOf);
    FilterMembers(entries, p);
  }

  /** What a lookup selects from any list: the entries of that category, if one is asked for,
      whose key starts with the prefix, if there is one, in the order of the list. */
  lemma FoundInOrder(entries: seq<Entry>, category: Option<string>, keyPrefix: Option<string>) returns (at: seq<nat>)
    ensures IsSubsequence(Found(entries, category, keyPrefix), entries, at)
    ensures forall i | 0 <= i < |entries| ::
              i in at <==> && (category == None || category == Some(entries[i].category))
                           && (keyPrefix == None || StartsWith(entries[i].key, keyPrefix.value))
  {
    var p := (e: Entry) => Matches(e, category, keyPrefix);
    at := FilterIsSubsequence(entries, p);
    forall i: nat | i < |entries| ensures i in at <==> p(entries[i]) {}
  }

  ghost predicate StartsWith(s: string, prefix: string) {
    |prefix| <= |s| && forall i | 0 <= i < |prefix| :: s[i] == prefix[i]
  }

  /** A lookup by category and key prefix returns the map's entries that match, each once. */
  lemma FoundIsExact(entries: seq<Entry>, category: Option<string>, keyPrefix: Option<string>)
    requires DistinctBy(entries, SlotOf)
    ensures DistinctBy(Found(entries, category, keyPrefix), SlotOf)
    ensures forall e :: e in Found(entries, category, keyPrefix)
                        <==> && (e.category, e.key) in View(entries) && View(entries)[(e.category, e.key)] == e
                             && (category == None || category == Some(e.category))
                             && (keyPrefix == None || StartsWith(e.key, keyPrefix.value))
  {
    var p := (e: Entry) => Matches(e, category, keyPrefix);
    FilterDistinct(entries, p, SlotOf);
    FilterMembers(entries, p);
    forall e ensures e in entries <==> SlotOf(e) in View(entries) && View(entries)[SlotOf(e)] == e {
      if e in entries { ViewHolds(entries, e); }
      if SlotOf(e) in View(entries) { ViewOnlyHolds(entries, SlotOf(e)); }
    }
  }

  /** A written entry is what a lookup of its slot returns, and the only one there. */
  lemma PutIsFound(entries: seq<Entry>, cap: nat, e: Entry, x: Entry)
    requires DistinctBy(entries, SlotOf)
    ensures x in Found(Put(entries, cap, e), Some(e.category), Some(e.key)) && x.key == e.key
            <==> x == Persisted(Evict(entries, cap), e)
  {
    var kept := Evict(entries, cap);
    EvictDistinct(entries, cap);
    UpsertDistinct(kept, e);
    var p := Persisted(kept, e);
    FilterMembers(Put(entries, cap, e), (y: Entry) => Matches(y, Some(e.category), Some(e.key)));
    assert SlotOf(p) == (p.category, p.key) == (e.category, e.key);
  }
}
