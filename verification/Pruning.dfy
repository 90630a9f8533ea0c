// The stores of all agents, and what pruning makes of them
// (crates/loom-core/src/memory_service.rs, prune).

module Pruning {
  import opened Words
  import opened Sorting
  import opened MemoryTypes
  import opened MemoryStore

  type Stores = map<string, seq<Entry>>

  ghost function PruneAll(stores: Stores, cutoff: nat): Stores {
    map a | a in stores :: Retained(stores[a], cutoff)
  }

  /** The number of entries of all agents. */
  ghost function Size(stores: Stores): nat {
    MapSum(map a | a in stores :: |stores[a]|)
  }

  function Dropped(entries: seq<Entry>, cutoff: nat): nat {
    FilterMembers(entries, (e: Entry) => e.updatedAt >= cutoff);
    |entries| - |Retained(entries, cutoff)|
  }

  lemma {:induction false} MapSumDifference(a: map<string, nat>, b: map<string, nat>, d: map<string, nat>)
    requires a.Keys == b.Keys == d.Keys
    requires forall k | k in a :: a[k] == b[k] + d[k]
    ensures MapSum(a) == MapSum(b) + MapSum(d)
  {
    if a != map[] {
      var k :| k in a;
      MapSumRemove(a, k);
      MapSumRemove(b, k);
      MapSumRemove(d, k);
      MapSumDifference(a - {k}, b - {k}, d - {k});
    } else {
      assert b == map[] && d == map[];
    }
  }

  /** The entries dropped agent by agent are those by which the total size shrinks. */
  lemma DroppedIsShrinkage(stores: Stores, cutoff: nat)
    ensures Size(stores) == Size(PruneAll(stores, cutoff)) + MapSum(map a | a in stores :: Dropped(stores[a], cutoff))
  {
    var after := PruneAll(stores, cutoff);
    MapSumDifference(map a | a in stores :: |stores[a]|, map a | a in after :: |after[a]|,
                     map a | a in stores :: Dropped(stores[a], cutoff));
  }

  lemma SizeUpdate(stores: Stores, agentId: string, kept: seq<Entry>)
    requires agentId in stores
    ensures Size(stores[agentId := kept]) == Size(stores) - |stores[agentId]| + |kept|
  {
    var stores' := stores[agentId := kept];
    MapSumUpdate(map a | a in stores :: |stores[a]|, agentId, |kept|);
    assert (map a | a in stores' :: |stores'[a]|) == (map a | a in stores :: |stores[a]|)[agentId := |kept|];
  }

  lemma RetainedShorter(entries: seq<Entry>, cutoff: nat)
    ensures |Retained(entries, cutoff)| <= |entries|
    ensures |Retained(entries, cutoff)| == |entries| ==> Retained(entries, cutoff) == entries
  {
    FilterMembers(entries, (e: Entry) => e.updatedAt >= cutoff);
    FilterKeepsFewer(entries, (e: Entry) => e.updatedAt >= cutoff);
  }

  /** Pruning one agent shrinks the total by what it drops. */
  lemma PruneOne(stores: Stores, agentId: string, cutoff: nat)
    requires agentId in stores
    ensures var kept := Retained(stores[agentId], cutoff);
            && |kept| <= |stores[agentId]|
            && Size(stores) - Size(stores[agentId := kept]) == |stores[agentId]| - |kept|
            && (|kept| == |stores[agentId]| ==> kept == stores[agentId] && stores[agentId := kept] == stores)
  {
    RetainedShorter(stores[agentId], cutoff);
    SizeUpdate(stores, agentId, Retained(stores[agentId], cutoff));
  }

  /** The stores once the agents in `done` have been pruned. */
  ghost function PruneSome(stores: Stores, cutoff: nat, done: seq<string>): Stores {
    map a | a in stores :: if a in done then Retained(stores[a], cutoff) else stores[a]
  }

  lemma PruneSomeMore(stores: Stores, cutoff: nat, done: seq<string>, a: string)
    requires a in stores && a !in done
    ensures PruneSome(stores, cutoff, done + [a]) == PruneSome(stores, cutoff, done)[a := Retained(stores[a], cutoff)]
    ensures PruneSome(stores, cutoff, done)[a] == stores[a]
  {
  }

  lemma PruneSomeEnds(stores: Stores, cutoff: nat, done: seq<string>)
    ensures done == [] ==> PruneSome(stores, cutoff, done) == stores
    ensures (forall a | a in stores :: a in done) ==> PruneSome(stores, cutoff, done) == PruneAll(stores, cutoff)
  {
  }

  /** One turn of the loop over the agents: prune a's list, and store it if it got shorter. */
  function PruneTurn(stores: Stores, a: string, cutoff: nat): Stores
    requires a in stores
  {
    var kept := Retained(stores[a], cutoff);
    if |kept| < |stores[a]| then stores[a := kept] else stores
  }

  lemma PruneTurnPrunes(before: Stores, cutoff: nat, done: seq<string>, a: string)
    requires a in before && a !in done
    ensures var stores := PruneSome(before, cutoff, done);
            && PruneTurn(stores, a, cutoff) == PruneSome(before, cutoff, done + [a])
            && |Retained(stores[a], cutoff)| <= |stores[a]|
            && Size(stores) - Size(PruneTurn(stores, a, cutoff)) == |stores[a]| - |Retained(stores[a], cutoff)|
  {
    PruneSomeMore(before, cutoff, done, a);
    PruneOne(PruneSome(before, cutoff, done), a, cutoff);
  }

  /** The state of the loop after the first n agents. */
  ghost predicate PrunedUpTo(before: Stores, cutoff: nat, agents: seq<string>, n: nat, stores: Stores, total: nat)
    requires n <= |agents|
  {
    stores == PruneSome(before, cutoff, agents[..n]) && total == Size(before) - Size(stores)
  }

  lemma PrunedOneMore(before: Stores, cutoff: nat, agents: seq<string>, n: nat, stores: Stores, total: nat)
    requires n < |agents| && agents[n] in before && agents[n] !in agents[..n]
    requires PrunedUpTo(before, cutoff, agents, n, stores, total)
    ensures agents[n] in stores && |Retained(stores[agents[n]], cutoff)| <= |stores[agents[n]]|
    ensures PrunedUpTo(before, cutoff, agents, n + 1, PruneTurn(stores, agents[n], cutoff),
                       total + |stores[agents[n]]| - |Retained(stores[agents[n]], cutoff)|)
  {
    assert agents[..n + 1] == agents[..n] + [agents[n]];
    PruneTurnPrunes(before, cutoff, agents[..n], agents[n]);
  }

  lemma PrunedAtEnds(stores: Stores, cutoff: nat, agents: seq<string>)
    requires forall a | a in stores :: a in agents
    ensures PrunedUpTo(stores, cutoff, agents, 0, stores, 0)
    ensures forall after, total: nat | PrunedUpTo(stores, cutoff, agents, |agents|, after, total) ::
              after == PruneAll(stores, cutoff) && total == Size(stores) - Size(after)
  {
    assert agents[..|agents|] == agents;
    PruneSomeEnds(stores, cutoff, []);
    PruneSomeEnds(stores, cutoff, agents);
  }
}
