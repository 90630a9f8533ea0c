// Pruning all agents in parallel (crates/loom-core/src/memory_service.rs, prune_parallel).
//
// A parallel worker reads its agent's store, adds what it will drop to the shared counter,
// and writes the store back.  The scheduler may interleave these steps of all workers in any
// way, and the reads and writes may fail.

module ParallelPrune {
  import opened Words
  import opened Sorting
  import opened MemoryTypes
  import opened MemoryStore
  import opened Pruning

  // ----- the parallel machine -----

  /** A worker that failed to read or to write its store has recorded an error; it may have
      added to the counter before. */
  datatype Worker =
    | Waiting
    | HasRead(entries: seq<Entry>)
    | HasCounted(kept: seq<Entry>)
    | Finished
    | Failed(counted: nat)

  datatype State = State(stores: Stores, workers: map<string, Worker>, total: nat)

  /** The scheduler gives a worker a turn, in which its file may fail. */
  datatype Turn = Turn(agent: string, fails: bool)

  function Start(stores: Stores): State {
    State(stores, map a | a in stores :: Waiting, 0)
  }

  /** What one turn of a worker does: its next phase, its agent's store, and what it adds to
      the shared counter. */
  function Advance(w: Worker, now: seq<Entry>, cutoff: nat, fails: bool): (Worker, seq<Entry>, nat) {
    match w
    case Waiting => if fails then (Failed(0), now, 0) else (HasRead(now), now, 0)
    case HasRead(entries) =>
      var kept := Retained(entries, cutoff);
      if |kept| < |entries| then (HasCounted(kept), now, |entries| - |kept|) else (Finished, now, 0)
    case HasCounted(kept) =>
      if fails then (Failed(if |kept| < |now| then |now| - |kept| else 0), now, 0) else (Finished, kept, 0)
    case Finished => (Finished, now, 0)
    case Failed(counted) => (Failed(counted), now, 0)
  }

  function Step(st: State, turn: Turn, cutoff: nat): State {
    var agent := turn.agent;
    if agent !in st.workers || agent !in st.stores then st
    else
      var (w, entries, added) := Advance(st.workers[agent], st.stores[agent], cutoff, turn.fails);
      State(st.stores[agent := entries], st.workers[agent := w], st.total + added)
  }

  function Run(stores: Stores, cutoff: nat, schedule: seq<Turn>): State {
    if schedule == [] then Start(stores)
    else Step(Run(stores, cutoff, schedule[..|schedule| - 1]), schedule[|schedule| - 1], cutoff)
  }

  // ----- what holds under every schedule -----

  ghost predicate WorkerConsistent(w: Worker, now: seq<Entry>, before: seq<Entry>, cutoff: nat) {
    match w
    case Waiting => now == before
    case HasRead(entries) => now == entries == before
    case HasCounted(kept) => now == before && kept == Retained(before, cutoff)
    case Finished => now == Retained(before, cutoff)
    case Failed(counted) => now == before && (counted == 0 || counted == Dropped(before, cutoff))
  }

  function Counted(w: Worker, before: seq<Entry>, cutoff: nat): nat {
    match w
    case Failed(counted) => counted
    case HasCounted(_) => Dropped(before, cutoff)
    case Finished => Dropped(before, cutoff)
    case _ => 0
  }

  ghost function Tally(st: State, before: Stores, cutoff: nat): map<string, nat>
    requires st.workers.Keys == before.Keys
  {
    map a | a in before :: Counted(st.workers[a], before[a], cutoff)
  }

  ghost predicate Consistent(st: State, before: Stores, cutoff: nat) {
    && st.stores.Keys == before.Keys == st.workers.Keys
    && (forall a | a in before :: WorkerConsistent(st.workers[a], st.stores[a], before[a], cutoff))
    && st.total == MapSum(Tally(st, before, cutoff))
  }

  lemma AdvanceConsistent(w: Worker, now: seq<Entry>, before: seq<Entry>, cutoff: nat, fails: bool)
    requires WorkerConsistent(w, now, before, cutoff)
    ensures var (w', now', added) := Advance(w, now, cutoff, fails);
            && WorkerConsistent(w', now', before, cutoff)
            && Counted(w', before, cutoff) == Counted(w, before, cutoff) + added
  {
    FilterKeepsFewer(before, (e: Entry) => e.updatedAt >= cutoff);
    FilterMembers(before, (e: Entry) => e.updatedAt >= cutoff);
  }

  /** Changing one worker changes one entry of the tally. */
  lemma TallyStep(st: State, st': State, before: Stores, cutoff: nat, agent: string)
    requires st.workers.Keys == before.Keys == st'.workers.Keys && agent in before
    requires st'.workers == st.workers[agent := st'.workers[agent]]
    ensures MapSum(Tally(st', before, cutoff))
            == MapSum(Tally(st, before, cutoff)) - Counted(st.workers[agent], before[agent], cutoff)
               + Counted(st'.workers[agent], before[agent], cutoff)
  {
    var tally := Tally(st, before, cutoff);
    var counted := Counted(st'.workers[agent], before[agent], cutoff);
    MapSumUpdate(tally, agent, counted);
    assert Tally(st', before, cutoff) == tally[agent := counted];
  }

  lemma StepConsistent(st: State, before: Stores, cutoff: nat, turn: Turn)
    requires Consistent(st, before, cutoff)
    ensures Consistent(Step(st, turn, cutoff), before, cutoff)
  {
    var agent := turn.agent;
    if agent in before {
      AdvanceConsistent(st.workers[agent], st.stores[agent], before[agent], cutoff, turn.fails);
      TallyStep(st, Step(st, turn, cutoff), before, cutoff, agent);
    }
  }

  lemma {:induction false} StartConsistent(stores: Stores, cutoff: nat)
    ensures Consistent(Start(stores), stores, cutoff)
  {
    var tally := Tally(Start(stores), stores, cutoff);
    AllZero(tally);
  }

  lemma {:induction false} AllZero(m: map<string, nat>)
    requires forall k | k in m :: m[k] == 0
    ensures MapSum(m) == 0
  {
    if m == map[] {
    } else {
      var k :| k in m;
      MapSumRemove(m, k);
      AllZero(m - {k});
    }
  }

  lemma {:induction false} RunIsConsistent(stores: Stores, cutoff: nat, schedule: seq<Turn>)
    ensures Consistent(Run(stores, cutoff, schedule), stores, cutoff)
  {
    if schedule == [] {
      StartConsistent(stores, cutoff);
    } else {
      RunIsConsistent(stores, cutoff, schedule[..|schedule| - 1]);
      StepConsistent(Run(stores, cutoff, schedule[..|schedule| - 1]), stores, cutoff, schedule[|schedule| - 1]);
    }
  }

  ghost predicate AllFinished(st: State) {
    forall a | a in st.workers :: st.workers[a].Finished?
  }

  ghost predicate AllDone(st: State) {
    forall a | a in st.workers :: st.workers[a].Finished? || st.workers[a].Failed?
  }

  /** Some worker has recorded an error. */
  ghost predicate SomeFailed(st: State) {
    exists a :: a in st.workers && st.workers[a].Failed?
  }

  /** Under every interleaving and every failure, once all workers are done, each agent's store
      is pruned or, if its worker failed, as it was. */
  lemma FailuresTouchOneStore(stores: Stores, cutoff: nat, schedule: seq<Turn>, agent: string)
    requires AllDone(Run(stores, cutoff, schedule)) && agent in stores
    ensures var st := Run(stores, cutoff, schedule);
            && agent in st.workers && agent in st.stores
            && st.stores[agent] == if st.workers[agent].Failed? then stores[agent] else Retained(stores[agent], cutoff)
    ensures !SomeFailed(Run(stores, cutoff, schedule)) <==> AllFinished(Run(stores, cutoff, schedule))
  {
    RunIsConsistent(stores, cutoff, schedule);
    var st := Run(stores, cutoff, schedule);
    assert WorkerConsistent(st.workers[agent], st.stores[agent], stores[agent], cutoff);
  }

  /** Under every interleaving, once all workers have finished, the stores and the count are
      those of the sequential prune. */
  lemma ParallelEqualsSequential(stores: Stores, cutoff: nat, schedule: seq<Turn>)
    requires AllFinished(Run(stores, cutoff, schedule))
    ensures Run(stores, cutoff, schedule).stores == PruneAll(stores, cutoff)
    ensures Run(stores, cutoff, schedule).total == Size(stores) - Size(PruneAll(stores, cutoff))
  {
    RunIsConsistent(stores, cutoff, schedule);
    FinishedEqualsSequential(Run(stores, cutoff, schedule), stores, cutoff);
  }

  lemma FinishedEqualsSequential(st: State, stores: Stores, cutoff: nat)
    requires Consistent(st, stores, cutoff) && AllFinished(st)
    ensures st.stores == PruneAll(stores, cutoff)
    ensures st.total == Size(stores) - Size(PruneAll(stores, cutoff))
  {
    DroppedIsShrinkage(stores, cutoff);
    assert Tally(st, stores, cutoff) == map a | a in stores :: Dropped(stores[a], cutoff);
  }

  lemma PrunedOrNot(stores: Stores, cutoff: nat, schedule: seq<Turn>, agent: string)
    requires agent in stores
    ensures var now := Run(stores, cutoff, schedule).stores;
            agent in now && Retained(now[agent], cutoff) == Retained(stores[agent], cutoff)
  {
    RunIsConsistent(stores, cutoff, schedule);
    var st := Run(stores, cutoff, schedule);
    assert WorkerConsistent(st.workers[agent], st.stores[agent], stores[agent], cutoff);
    FilterMembers(stores[agent], (e: Entry) => e.updatedAt >= cutoff);
    FilterAll(Retained(stores[agent], cutoff), (e: Entry) => e.updatedAt >= cutoff);
  }

  /** Wherever a parallel prune was left, failed or unfinished, pruning again at the same time
      ends in the same stores. */
  lemma RetryCompletes(stores: Stores, cutoff: nat, schedule: seq<Turn>)
    ensures PruneAll(Run(stores, cutoff, schedule).stores, cutoff) == PruneAll(stores, cutoff)
  {
    RunIsConsistent(stores, cutoff, schedule);
    forall a | a in stores
        ensures Retained(Run(stores, cutoff, schedule).stores[a], cutoff) == Retained(stores[a], cutoff) {
      PrunedOrNot(stores, cutoff, schedule, a);
    }
  }

  /** At every moment of every interleaving, no unexpired entry is missing. */
  lemma UnexpiredAlwaysPresent(stores: Stores, cutoff: nat, schedule: seq<Turn>, agent: string, e: Entry)
    requires agent in stores && e in stores[agent] && e.updatedAt >= cutoff
    ensures agent in Run(stores, cutoff, schedule).stores && e in Run(stores, cutoff, schedule).stores[agent]
  {
    RunIsConsistent(stores, cutoff, schedule);
    FilterMembers(stores[agent], (x: Entry) => x.updatedAt >= cutoff);
    var st := Run(stores, cutoff, schedule);
    assert WorkerConsistent(st.workers[agent], st.stores[agent], stores[agent], cutoff);
  }

  // ----- progress -----

  function Turns(schedule: seq<Turn>, agent: string): nat {
    if schedule == [] then 0
    else Turns(schedule[..|schedule| - 1], agent) + (if schedule[|schedule| - 1].agent == agent then 1 else 0)
  }

  function Remaining(w: Worker): nat {
    match w
    case Waiting => 3
    case HasRead(_) => 2
    case HasCounted(_) => 1
    case Finished => 0
    case Failed(_) => 0
  }

  lemma {:induction false} TurnsMakeProgress(stores: Stores, cutoff: nat, schedule: seq<Turn>, agent: string)
    requires agent in stores
    ensures Run(stores, cutoff, schedule).workers.Keys == stores.Keys == Run(stores, cutoff, schedule).stores.Keys
    ensures var left := Remaining(Run(stores, cutoff, schedule).workers[agent]);
            left == 0 || left + Turns(schedule, agent) <= 3
  {
    if schedule == [] {
    } else {
      TurnsMakeProgress(stores, cutoff, schedule[..|schedule| - 1], agent);
    }
  }

  /** Every schedule that gives each worker three turns brings it to its end. */
  lemma ThreeTurnsFinish(stores: Stores, cutoff: nat, schedule: seq<Turn>)
    requires forall a | a in stores :: Turns(schedule, a) >= 3
    ensures AllDone(Run(stores, cutoff, schedule))
  {
    var st := Run(stores, cutoff, schedule);
    RunIsConsistent(stores, cutoff, schedule);
    forall a | a in st.workers ensures st.workers[a].Finished? || st.workers[a].Failed? {
      TurnsMakeProgress(stores, cutoff, schedule, a);
    }
  }
}
