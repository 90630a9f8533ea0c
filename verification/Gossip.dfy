// Gossip runs over grow-only counters: every node increments its own entry, snapshots
// travel in any order, and may be lost, delayed or delivered many times.

module Gossip {
  import opened Words
  import opened Counters

  /** The index-th increment made by its owner. */
  datatype Event = Event(owner: string, index: nat)

  /** A replica's counter, and the increments that have reached it on any path. */
  datatype Replica = Replica(counts: Counts, known: set<Event>)

  type History = map<string, seq<U64>>

  datatype System = System(replicas: map<string, Replica>, history: History, sent: seq<Replica>)

  /** Messages stay in `sent`: never receiving one is loss, receiving it late is delay,
      receiving it again is duplication. */
  datatype Step =
    | Increment(node: string, amount: U64)
    | Send(node: string)
    | Receive(node: string, message: nat)

  const EMPTY := System(map[], map[], [])

  function Amounts(h: History, node: string): seq<U64> {
    if node in h then h[node] else []
  }

  function ReplicaOf(sys: System, node: string): Replica {
    if node in sys.replicas then sys.replicas[node] else Replica(map[], {})
  }

  function Merged(a: Replica, b: Replica): Replica {
    Replica(Join(a.counts, b.counts), a.known + b.known)
  }

  function Next(sys: System, step: Step): System {
    match step
    case Increment(node, amount) =>
      var r := ReplicaOf(sys, node);
      var past := Amounts(sys.history, node);
      var r' := Replica(Bump(r.counts, node, amount), r.known + {Event(node, |past|)});
      sys.(replicas := sys.replicas[node := r'], history := sys.history[node := past + [amount]])
    case Send(node) => sys.(sent := sys.sent + [ReplicaOf(sys, node)])
    case Receive(node, message) =>
      if message < |sys.sent| then
        sys.(replicas := sys.replicas[node := Merged(ReplicaOf(sys, node), sys.sent[message])])
      else sys
  }

  function Run(steps: seq<Step>): System {
    if steps == [] then EMPTY else Next(Run(steps[..|steps| - 1]), steps[|steps| - 1])
  }

  // ----- what a counter means -----

  function Capped(s: seq<U64>): U64 {
    AtMostMax(Sum(s))
  }

  lemma CappedPush(s: seq<U64>, x: U64)
    ensures Capped(s + [x]) == SaturatingAdd(Capped(s), x)
  {
    SumPush(s, x);
  }

  lemma {:induction false} CappedMonotone(s: seq<U64>, i: nat, j: nat)
    requires i <= j <= |s|
    ensures Capped(s[..i]) <= Capped(s[..j])
  {
    SumAppend(s[..i], s[i..j]);
    assert s[..j] == s[..i] + s[i..j];
  }

  ghost predicate KnowsUpTo(known: set<Event>, node: string, m: nat) {
    forall k: nat :: Event(node, k) in known <==> k < m
  }

  /** The replica has absorbed exactly the first m increments of node, and shows their
      capped sum. */
  ghost predicate FaithfulAt(r: Replica, h: History, node: string, m: nat) {
    && m <= |Amounts(h, node)|
    && KnowsUpTo(r.known, node, m)
    && (node in r.counts <==> m > 0)
    && (m > 0 ==> r.counts[node] == Capped(Amounts(h, node)[..m]))
  }

  ghost predicate FaithfulOn(r: Replica, h: History, node: string) {
    exists m: nat :: FaithfulAt(r, h, node, m)
  }

  ghost predicate Faithful(r: Replica, h: History) {
    forall node :: FaithfulOn(r, h, node)
  }

  ghost predicate Consistent(sys: System) {
    && (forall node :: Faithful(ReplicaOf(sys, node), sys.history))
    && (forall i | 0 <= i < |sys.sent| :: Faithful(sys.sent[i], sys.history))
    && (forall node :: KnowsUpTo(ReplicaOf(sys, node).known, node, |Amounts(sys.history, node)|))
  }

  lemma KnowsUpToUnique(known: set<Event>, node: string, m: nat, n: nat)
    requires KnowsUpTo(known, node, m) && KnowsUpTo(known, node, n)
    ensures m == n
  {
    assert Event(node, m) !in known && Event(node, n) !in known;
  }

  lemma FaithfulLater(r: Replica, h: History, node: string, amount: U64)
    requires Faithful(r, h)
    ensures Faithful(r, h[node := Amounts(h, node) + [amount]])
  {
    var h' := h[node := Amounts(h, node) + [amount]];
    forall n ensures FaithfulOn(r, h', n) {
      assert FaithfulOn(r, h, n);
      var m: nat :| FaithfulAt(r, h, n, m);
      assert Amounts(h', n)[..m] == Amounts(h, n)[..m];
      assert FaithfulAt(r, h', n, m);
    }
  }

  lemma MergeFaithfulAt(a: Replica, b: Replica, h: History, node: string, i: nat, j: nat)
    requires FaithfulAt(a, h, node, i) && FaithfulAt(b, h, node, j)
    ensures FaithfulAt(Merged(a, b), h, node, if i < j then j else i)
  {
    var past := Amounts(h, node);
    if i < j {
      CappedMonotone(past, i, j);
    } else {
      CappedMonotone(past, j, i);
    }
  }

  lemma MergeFaithful(a: Replica, b: Replica, h: History)
    requires Faithful(a, h) && Faithful(b, h)
    ensures Faithful(Merged(a, b), h)
  {
    forall node ensures FaithfulOn(Merged(a, b), h, node) {
      assert FaithfulOn(a, h, node);
      var i: nat :| FaithfulAt(a, h, node, i);
      assert FaithfulOn(b, h, node);
      var j: nat :| FaithfulAt(b, h, node, j);
      MergeFaithfulAt(a, b, h, node, i, j);
    }
  }

  lemma KnowsOneMore(known: set<Event>, node: string, m: nat)
    requires KnowsUpTo(known, node, m)
    ensures KnowsUpTo(known + {Event(node, m)}, node, m + 1)
  {
  }

  lemma BumpAtOwner(counts: Counts, past: seq<U64>, node: string, amount: U64)
    requires node in counts <==> past != []
    requires past != [] ==> counts[node] == Capped(past)
    ensures Bump(counts, node, amount)[node] == Capped(past + [amount])
  {
    CappedPush(past, amount);
    assert past == [] ==> Capped(past) == 0;
  }

  lemma IncrementAtOwner(r: Replica, h: History, node: string, amount: U64, m: nat)
    requires FaithfulAt(r, h, node, m) && m == |Amounts(h, node)|
    ensures FaithfulAt(Replica(Bump(r.counts, node, amount), r.known + {Event(node, m)}),
                       h[node := Amounts(h, node) + [amount]], node, m + 1)
  {
    var past := Amounts(h, node);
    assert past[..m] == past && (past + [amount])[..m + 1] == past + [amount];
    KnowsOneMore(r.known, node, m);
    BumpAtOwner(r.counts, past, node, amount);
  }

  lemma IncrementElsewhere(r: Replica, h: History, node: string, amount: U64, m: nat, n: string, k: nat)
    requires FaithfulAt(r, h, n, k) && n != node
    ensures FaithfulAt(Replica(Bump(r.counts, node, amount), r.known + {Event(node, m)}),
                       h[node := Amounts(h, node) + [amount]], n, k)
  {
  }

  lemma IncrementFaithful(r: Replica, h: History, node: string, amount: U64)
    requires Faithful(r, h) && KnowsUpTo(r.known, node, |Amounts(h, node)|)
    ensures Faithful(Replica(Bump(r.counts, node, amount), r.known + {Event(node, |Amounts(h, node)|)}),
                     h[node := Amounts(h, node) + [amount]])
  {
    var m := |Amounts(h, node)|;
    var r', h' := Replica(Bump(r.counts, node, amount), r.known + {Event(node, m)}),
        h[node := Amounts(h, node) + [amount]];
    forall n ensures FaithfulOn(r', h', n) {
      assert FaithfulOn(r, h, n);
      var k: nat :| FaithfulAt(r, h, n, k);
      if n == node {
        KnowsUpToUnique(r.known, node, k, m);
        IncrementAtOwner(r, h, node, amount, m);
      } else {
        IncrementElsewhere(r, h, node, amount, m, n, k);
      }
    }
  }

  lemma IncrementConsistent(sys: System, node: string, amount: U64)
    requires Consistent(sys)
    ensures Consistent(Next(sys, Increment(node, amount)))
  {
    var sys' := Next(sys, Increment(node, amount));
    IncrementFaithful(ReplicaOf(sys, node), sys.history, node, amount);
    forall n | n != node ensures Faithful(ReplicaOf(sys', n), sys'.history) {
      assert Faithful(ReplicaOf(sys, n), sys.history);
      FaithfulLater(ReplicaOf(sys, n), sys.history, node, amount);
    }
    forall i | 0 <= i < |sys'.sent| ensures Faithful(sys'.sent[i], sys'.history) {
      FaithfulLater(sys.sent[i], sys.history, node, amount);
    }
    forall n ensures KnowsUpTo(ReplicaOf(sys', n).known, n, |Amounts(sys'.history, n)|) {
      assert KnowsUpTo(ReplicaOf(sys, n).known, n, |Amounts(sys.history, n)|);
    }
  }

  lemma ReceiveConsistent(sys: System, node: string, message: nat)
    requires Consistent(sys) && message < |sys.sent|
    ensures Consistent(Next(sys, Receive(node, message)))
  {
    var sys' := Next(sys, Receive(node, message));
    var r, b := ReplicaOf(sys, node), sys.sent[message];
    MergeFaithful(r, b, sys.history);
    assert FaithfulOn(b, sys.history, node);
    var j: nat :| FaithfulAt(b, sys.history, node, j);
    assert KnowsUpTo(r.known, node, |Amounts(sys.history, node)|);
    assert KnowsUpTo(Merged(r, b).known, node, |Amounts(sys.history, node)|);
    forall n ensures Faithful(ReplicaOf(sys', n), sys'.history)
             ensures KnowsUpTo(ReplicaOf(sys', n).known, n, |Amounts(sys'.history, n)|) {
      assert Faithful(ReplicaOf(sys, n), sys.history);
      assert KnowsUpTo(ReplicaOf(sys, n).known, n, |Amounts(sys.history, n)|);
    }
  }

  lemma NextConsistent(sys: System, step: Step)
    requires Consistent(sys)
    ensures Consistent(Next(sys, step))
  {
    match step
    case Increment(node, amount) => IncrementConsistent(sys, node, amount);
    case Send(node) =>
      assert Faithful(ReplicaOf(sys, node), sys.history);
      assert forall n :: ReplicaOf(Next(sys, step), n) == ReplicaOf(sys, n);
    case Receive(node, message) =>
      if message < |sys.sent| {
        ReceiveConsistent(sys, node, message);
      }
  }

  /** In every run, every counter shows exactly the increments that have reached it. */
  lemma {:induction false} RunConsistent(steps: seq<Step>)
    ensures Consistent(Run(steps))
  {
    if steps == [] {
      forall node ensures FaithfulOn(Replica(map[], {}), map[], node) {
        assert FaithfulAt(Replica(map[], {}), map[], node, 0);
      }
    } else {
      RunConsistent(steps[..|steps| - 1]);
      NextConsistent(Run(steps[..|steps| - 1]), steps[|steps| - 1]);
    }
  }

  /** No replica's view of a node exceeds the node's own. */
  lemma OwnerIsAhead(steps: seq<Step>, viewer: string, node: string)
    ensures At(ReplicaOf(Run(steps), viewer).counts, node) <= At(ReplicaOf(Run(steps), node).counts, node)
  {
    RunConsistent(steps);
    var sys := Run(steps);
    var v, o := ReplicaOf(sys, viewer), ReplicaOf(sys, node);
    assert FaithfulOn(v, sys.history, node);
    var i: nat :| FaithfulAt(v, sys.history, node, i);
    assert FaithfulOn(o, sys.history, node);
    var j: nat :| FaithfulAt(o, sys.history, node, j);
    KnowsUpToUnique(o.known, node, j, |Amounts(sys.history, node)|);
    CappedMonotone(Amounts(sys.history, node), i, j);
  }

  /** Replicas that absorbed the same increments hold equal counters, whatever the order,
      loss, delay or duplication of the messages between them. */
  lemma SameKnowledgeSameCounter(steps: seq<Step>, p: string, q: string)
    requires ReplicaOf(Run(steps), p).known == ReplicaOf(Run(steps), q).known
    ensures ReplicaOf(Run(steps), p).counts == ReplicaOf(Run(steps), q).counts
  {
    RunConsistent(steps);
    var sys := Run(steps);
    var a, b := ReplicaOf(sys, p), ReplicaOf(sys, q);
    forall node ensures node in a.counts <==> node in b.counts
                ensures node in a.counts ==> a.counts[node] == b.counts[node] {
      assert FaithfulOn(a, sys.history, node);
      var i: nat :| FaithfulAt(a, sys.history, node, i);
      assert FaithfulOn(b, sys.history, node);
      var j: nat :| FaithfulAt(b, sys.history, node, j);
      KnowsUpToUnique(a.known, node, i, j);
    }
    assert a.counts.Keys == b.counts.Keys;
  }

  // ----- what increments and deliveries do -----

  /** The amounts of all increments made at that node, in order. */
  ghost function IncrementsAt(steps: seq<Step>, node: string): seq<U64> {
    if steps == [] then []
    else
      IncrementsAt(steps[..|steps| - 1], node)
      + (match steps[|steps| - 1] case Increment(n, amount) => (if n == node then [amount] else []) case _ => [])
  }

  lemma {:induction false} HistoryIsIncrements(steps: seq<Step>, node: string)
    ensures Amounts(Run(steps).history, node) == IncrementsAt(steps, node)
  {
    if steps == [] {
    } else {
      HistoryIsIncrements(steps[..|steps| - 1], node);
    }
  }

  /** In every run a node's own entry is the sum of all increments made there, cut off at the
      greatest u64, and no replica knows of an increment that was not made. */
  lemma OwnerCountsAllIncrements(steps: seq<Step>, node: string, viewer: string, k: nat)
    ensures var own := At(ReplicaOf(Run(steps), node).counts, node);
            var sum := Sum(IncrementsAt(steps, node));
            own == if sum <= 0xFFFF_FFFF_FFFF_FFFF then sum else 0xFFFF_FFFF_FFFF_FFFF
    ensures Event(node, k) in ReplicaOf(Run(steps), node).known <==> k < |IncrementsAt(steps, node)|
    ensures Event(node, k) in ReplicaOf(Run(steps), viewer).known ==> k < |IncrementsAt(steps, node)|
  {
    RunConsistent(steps);
    HistoryIsIncrements(steps, node);
    var sys := Run(steps);
    var o, v := ReplicaOf(sys, node), ReplicaOf(sys, viewer);
    assert FaithfulOn(o, sys.history, node);
    var j: nat :| FaithfulAt(o, sys.history, node, j);
    KnowsUpToUnique(o.known, node, j, |Amounts(sys.history, node)|);
    assert Amounts(sys.history, node)[..j] == IncrementsAt(steps, node);
    assert FaithfulOn(v, sys.history, node);
    var i: nat :| FaithfulAt(v, sys.history, node, i);
  }

  lemma RunPush(steps: seq<Step>, step: Step)
    ensures Run(steps + [step]) == Next(Run(steps), step)
  {
    assert (steps + [step])[..|steps|] == steps;
  }

  lemma PrefixOfPrefix<T>(a: seq<T>, b: seq<T>, c: seq<T>)
    requires a <= b <= c
    ensures a <= c
  {
  }

  lemma NextSentStays(sys: System, step: Step)
    ensures sys.sent <= Next(sys, step).sent
  {
  }

  lemma {:induction false} SentStays(steps: seq<Step>, later: seq<Step>)
    ensures Run(steps).sent <= Run(steps + later).sent
    decreases |later|
  {
    if later == [] {
      assert steps + later == steps;
    } else {
      var all := steps + later;
      assert all[..|all| - 1] == steps + later[..|later| - 1];
      SentStays(steps, later[..|later| - 1]);
      NextSentStays(Run(all[..|all| - 1]), later[|later| - 1]);
      PrefixOfPrefix(Run(steps).sent, Run(all[..|all| - 1]).sent, Run(all).sent);
    }
  }

  /** However late a message arrives, receiving it adds exactly what its sender had absorbed when
      it sent it, and touches no other replica. */
  lemma DeliveryInforms(steps: seq<Step>, p: string, later: seq<Step>, q: string, other: string)
    ensures var sender := ReplicaOf(Run(steps), p);
            var now := Run(steps + [Send(p)] + later);
            var after := Run(steps + [Send(p)] + later + [Receive(q, |Run(steps).sent|)]);
            && ReplicaOf(after, q).known == ReplicaOf(now, q).known + sender.known
            && ReplicaOf(after, q).counts == Join(ReplicaOf(now, q).counts, sender.counts)
            && (other != q ==> ReplicaOf(after, other) == ReplicaOf(now, other))
  {
    var i := |Run(steps).sent|;
    RunPush(steps, Send(p));
    SentStays(steps + [Send(p)], later);
    RunPush(steps + [Send(p)] + later, Receive(q, i));
    assert Run(steps + [Send(p)] + later).sent[i] == Run(steps + [Send(p)]).sent[i];
  }

  lemma JoinAbsorbs(a: Counts, b: Counts)
    ensures Join(a, Join(b, a)) == Join(b, a)
  {
    JoinCommutative(b, a);
    JoinAssociative(a, a, b);
    JoinIdempotent(a);
  }

  lemma RunAfterSend(steps: seq<Step>, p: string, q: string)
    ensures var after := Run(steps + [Send(p)] + [Receive(q, |Run(steps).sent|)]);
            && |after.sent| == |Run(steps).sent| + 1
            && (p != q ==> ReplicaOf(after, p) == ReplicaOf(Run(steps), p))
            && ReplicaOf(after, q) == Merged(ReplicaOf(Run(steps), q), ReplicaOf(Run(steps), p))
  {
    RunPush(steps, Send(p));
    RunPush(steps + [Send(p)], Receive(q, |Run(steps).sent|));
  }

  /** After one exchange of messages two replicas are equal: both hold the merge of the two. */
  lemma ExchangeConverges(steps: seq<Step>, p: string, q: string)
    requires p != q
    ensures var n, a, b := |Run(steps).sent|, ReplicaOf(Run(steps), p), ReplicaOf(Run(steps), q);
            var after := Run(steps + [Send(p)] + [Receive(q, n)] + [Send(q)] + [Receive(p, n + 1)]);
            && ReplicaOf(after, p) == ReplicaOf(after, q)
            && ReplicaOf(after, p).counts == Join(b.counts, a.counts)
            && ReplicaOf(after, p).known == a.known + b.known
  {
    var n, a, b := |Run(steps).sent|, ReplicaOf(Run(steps), p), ReplicaOf(Run(steps), q);
    var first := steps + [Send(p)] + [Receive(q, n)];
    RunAfterSend(steps, p, q);
    RunAfterSend(first, q, p);
    JoinAbsorbs(a.counts, b.counts);
    assert a.known + (b.known + a.known) == b.known + a.known == a.known + b.known;
  }

  // ----- counting every increment once -----

  function Amount(h: History, e: Event): nat {
    if e.index < |Amounts(h, e.owner)| then Amounts(h, e.owner)[e.index] else 0
  }

  ghost function SumOver(h: History, events: set<Event>): nat {
    if events == {} then 0
    else
      var e :| e in events;
      Amount(h, e) + SumOver(h, events - {e})
  }

  lemma {:induction false} SumOverRemove(h: History, events: set<Event>, x: Event)
    requires x in events
    ensures SumOver(h, events) == Amount(h, x) + SumOver(h, events - {x})
    decreases |events|
  {
    var e :| e in events && SumOver(h, events) == Amount(h, e) + SumOver(h, events - {e});
    if e != x {
      SumOverRemove(h, events - {e}, x);
      SumOverRemove(h, events - {x}, e);
      assert events - {e} - {x} == events - {x} - {e};
    }
  }

  /** Taking away one owner's first m events takes away the sum of its first m amounts. */
  lemma {:induction false} SumOverOwner(h: History, events: set<Event>, node: string, m: nat)
    requires m <= |Amounts(h, node)| && KnowsUpTo(events, node, m)
    ensures SumOver(h, events) == Sum(Amounts(h, node)[..m]) + SumOver(h, set e | e in events && e.owner != node)
    decreases m
  {
    if m == 0 {
      forall e | e in events ensures e.owner != node { assert e == Event(e.owner, e.index); }
      assert (set e | e in events && e.owner != node) == events;
    } else {
      var last := Event(node, m - 1);
      assert last in events;
      SumOverRemove(h, events, last);
      SumOverOwner(h, events - {last}, node, m - 1);
      assert (set e | e in events - {last} && e.owner != node) == (set e | e in events && e.owner != node);
      assert Amounts(h, node)[..m] == Amounts(h, node)[..m - 1] + [Amounts(h, node)[m - 1]];
      SumPush(Amounts(h, node)[..m - 1], Amounts(h, node)[m - 1]);
    }
  }

  lemma {:induction false} TotalIsSumOver(r: Replica, h: History)
    requires Faithful(r, h) && SumOver(h, r.known) <= MAX
    ensures Total(r.counts) == SumOver(h, r.known)
    decreases |r.counts|
  {
    if r.counts == map[] {
      forall e: Event ensures e !in r.known {
        assert FaithfulOn(r, h, e.owner);
        var m: nat :| FaithfulAt(r, h, e.owner, m);
        assert e == Event(e.owner, e.index);
      }
      assert r.known == {};
    } else {
      var node :| node in r.counts;
      assert FaithfulOn(r, h, node);
      var m: nat :| FaithfulAt(r, h, node, m);
      var rest := Replica(r.counts - {node}, set e | e in r.known && e.owner != node);
      SumOverOwner(h, r.known, node, m);
      MapSumRemove(r.counts, node);
      forall n ensures FaithfulOn(rest, h, n) {
        assert FaithfulOn(r, h, n);
        var k: nat :| FaithfulAt(r, h, n, k);
        var k' := if n == node then 0 else k;
        assert KnowsUpTo(rest.known, n, k');
        assert FaithfulAt(rest, h, n, k');
      }
      TotalIsSumOver(rest, h);
    }
  }

  /** A replica's value counts every increment that reached it exactly once, as long as their
      sum fits in a u64. */
  lemma ValueCountsEachIncrementOnce(steps: seq<Step>, node: string)
    ensures var r, h := ReplicaOf(Run(steps), node), Run(steps).history;
            Wrap(Total(r.counts)) == SumOver(h, r.known) <==> SumOver(h, r.known) <= MAX
  {
    var r, h := ReplicaOf(Run(steps), node), Run(steps).history;
    if SumOver(h, r.known) <= MAX {
      RunConsistent(steps);
      TotalIsSumOver(r, h);
      WrapSmall(Total(r.counts));
    }
  }
}
