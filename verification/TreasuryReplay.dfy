// Replay of treasury events with saturating arithmetic
// (crates/loom-core/src/event_sourcing.rs, replay_treasury).

module TreasuryReplay {
  import opened Words
  import opened Events

  datatype TreasuryState = TreasuryState(
    balanceCents: U64, totalSpentCents: U64, totalDepositedCents: U64, eventCount: nat)

  function AmountOf(e: GovernanceEvent): U64 {
    match e.payload.amountCents case Some(a) => a case None => 0
  }

  function Deposit(e: GovernanceEvent): U64 {
    if e.eventType == "treasury_deposit" then AmountOf(e) else 0
  }

  function Spend(e: GovernanceEvent): U64 {
    if e.eventType == "treasury_spend" then AmountOf(e) else 0
  }

  const INITIAL := TreasuryState(0, 0, 0, 0)

  function Apply(s: TreasuryState, e: GovernanceEvent): TreasuryState {
    match e.eventType
    case "treasury_deposit" =>
      TreasuryState(SaturatingAdd(s.balanceCents, AmountOf(e)), s.totalSpentCents,
                    SaturatingAdd(s.totalDepositedCents, AmountOf(e)), s.eventCount + 1)
    case "treasury_spend" =>
      TreasuryState(SaturatingSub(s.balanceCents, AmountOf(e)),
                    SaturatingAdd(s.totalSpentCents, AmountOf(e)), s.totalDepositedCents, s.eventCount + 1)
    case _ => s.(eventCount := s.eventCount + 1)
  }

  function Replay(events: seq<GovernanceEvent>): TreasuryState {
    if events == [] then INITIAL else Apply(Replay(events[..|events| - 1]), events[|events| - 1])
  }

  method ReplayTreasury(events: seq<GovernanceEvent>) returns (state: TreasuryState)
    ensures state == Replay(events)
  {
    state := TreasuryState(0, 0, 0, 0);
    for i := 0 to |events|
      invariant state == Replay(events[..i])
    {
      var event := events[i];
      assert events[..i + 1][..i] == events[..i] && events[..i + 1][i] == event;
      assert Replay(events[..i + 1]) == Apply(state, event);
      match event.eventType {
      case "treasury_deposit" =>
        var amount := AmountOf(event);
        state := state.(balanceCents := SaturatingAdd(state.balanceCents, amount),
                        totalDepositedCents := SaturatingAdd(state.totalDepositedCents, amount));
      case "treasury_spend" =>
        var amount := AmountOf(event);
        state := state.(balanceCents := SaturatingSub(state.balanceCents, amount),
                        totalSpentCents := SaturatingAdd(state.totalSpentCents, amount));
      case _ =>
      }
      state := state.(eventCount := state.eventCount + 1);
    }
    assert events[..|events|] == events;
  }

  // ----- exact amounts, on unbounded integers -----

  ghost function Deposited(events: seq<GovernanceEvent>): nat {
    if events == [] then 0 else Deposited(events[..|events| - 1]) + Deposit(events[|events| - 1])
  }

  ghost function Spent(events: seq<GovernanceEvent>): nat {
    if events == [] then 0 else Spent(events[..|events| - 1]) + Spend(events[|events| - 1])
  }

  ghost function Net(events: seq<GovernanceEvent>): int {
    Deposited(events) - Spent(events)
  }

  /** The lowest net total that any prefix reaches, the empty one included. */
  ghost function Lowest(events: seq<GovernanceEvent>): int {
    if events == [] then 0
    else
      var before := Lowest(events[..|events| - 1]);
      if Net(events) < before then Net(events) else before
  }

  lemma {:induction false} LowestIsMinimum(events: seq<GovernanceEvent>)
    ensures forall k | 0 <= k <= |events| :: Lowest(events) <= Net(events[..k])
    ensures exists k :: 0 <= k <= |events| && Lowest(events) == Net(events[..k])
  {
    assert events[..|events|] == events;
    if events == [] {
      assert Lowest(events) == Net(events[..0]);
    } else {
      var front := events[..|events| - 1];
      LowestIsMinimum(front);
      forall k | 0 <= k <= |events| ensures Lowest(events) <= Net(events[..k]) {
        if k < |events| { assert events[..k] == front[..k]; }
      }
      var k :| 0 <= k <= |front| && Lowest(front) == Net(front[..k]);
      assert events[..k] == front[..k];
      assert Lowest(events) == Net(events[..|events|]) || Lowest(events) == Net(events[..k]);
    }
  }

  // ----- the closed form -----

  /** No running net total rises more than a u64 above the lowest one so far. */
  ghost predicate Uncapped(events: seq<GovernanceEvent>) {
    forall k | 0 <= k <= |events| :: Net(events[..k]) - Lowest(events[..k]) <= MAX
  }

  /** No spend exceeds the balance it is taken from. */
  ghost predicate NoOverdraft(events: seq<GovernanceEvent>) {
    events != [] ==>
      && NoOverdraft(events[..|events| - 1])
      && Spend(events[|events| - 1]) <= Replay(events[..|events| - 1]).balanceCents
  }

  /** The two running totals are the exact totals, cut off at the top of the u64 range. */
  lemma {:induction false} TotalsAreCappedSums(events: seq<GovernanceEvent>)
    ensures Replay(events).totalDepositedCents == AtMostMax(Deposited(events))
    ensures Replay(events).totalSpentCents == AtMostMax(Spent(events))
    ensures Replay(events).eventCount == |events|
  {
    if events == [] {
    } else {
      TotalsAreCappedSums(events[..|events| - 1]);
    }
  }

  /** What one more event does to the exact sums and to the replayed state: a deposit or a
      spend counts its payload's amount, 0 if there is none, and other events count nothing. */
  lemma OneMoreEvent(events: seq<GovernanceEvent>, e: GovernanceEvent)
    ensures var amount: nat := if e.payload.amountCents.Some? then e.payload.amountCents.value else 0;
            var before, after := Replay(events), Replay(events + [e]);
            && Deposited(events + [e]) == Deposited(events) + (if e.eventType == "treasury_deposit" then amount else 0)
            && Spent(events + [e]) == Spent(events) + (if e.eventType == "treasury_spend" then amount else 0)
            && after.eventCount == before.eventCount + 1
            && (e.eventType == "treasury_deposit" ==>
                && after.balanceCents == Capped(before.balanceCents + amount)
                && after.totalDepositedCents == Capped(before.totalDepositedCents + amount)
                                             == Capped(Deposited(events) + amount)
                && after.totalSpentCents == before.totalSpentCents)
            && (e.eventType == "treasury_spend" ==>
                && after.balanceCents == (if amount <= before.balanceCents then before.balanceCents - amount else 0)
                && after.totalSpentCents == Capped(before.totalSpentCents + amount) == Capped(Spent(events) + amount)
                && after.totalDepositedCents == before.totalDepositedCents)
            && (e.eventType != "treasury_deposit" && e.eventType != "treasury_spend" ==>
                after == before.(eventCount := before.eventCount + 1))
    ensures Replay([]) == TreasuryState(0, 0, 0, 0) && Deposited([]) == Spent([]) == 0
  {
    assert (events + [e])[..|events|] == events;
    TotalsAreCappedSums(events);
  }

  /** n, cut off at the greatest u64. */
  ghost function Capped(n: nat): nat {
    if n <= 0xFFFF_FFFF_FFFF_FFFF then n else 0xFFFF_FFFF_FFFF_FFFF
  }

  lemma UncappedFront(events: seq<GovernanceEvent>)
    requires events != []
    ensures Uncapped(events) <==> Uncapped(events[..|events| - 1]) && Net(events) - Lowest(events) <= MAX
  {
    var front := events[..|events| - 1];
    assert events[..|events|] == events;
    assert forall k | 0 <= k <= |front| :: front[..k] == events[..k];
  }

  /** The final balance is the net total above its lowest point. */
  lemma {:induction false} BalanceClosedForm(events: seq<GovernanceEvent>)
    requires Uncapped(events)
    ensures Replay(events).balanceCents == Net(events) - Lowest(events)
  {
    if events == [] {
    } else {
      UncappedFront(events);
      BalanceClosedForm(events[..|events| - 1]);
    }
  }

  /** The closed form holds throughout a replay exactly when no running total is cut off. */
  lemma ClosedFormExactly(events: seq<GovernanceEvent>)
    ensures (forall k | 0 <= k <= |events| ::
            Replay(events[..k]).balanceCents == Net(events[..k]) - Lowest(events[..k]))
            <==> Uncapped(events)
  {
    if Uncapped(events) {
      forall k | 0 <= k <= |events| ensures Replay(events[..k]).balanceCents == Net(events[..k]) - Lowest(events[..k]) {
        assert forall j | 0 <= j <= k :: events[..k][..j] == events[..j];
        BalanceClosedForm(events[..k]);
      }
    }
  }

  lemma {:induction false} NetBounds(events: seq<GovernanceEvent>)
    ensures -(Spent(events) as int) <= Lowest(events) <= 0
  {
    if events == [] {
    } else {
      NetBounds(events[..|events| - 1]);
    }
  }

  /** Deposits that fit in a u64 altogether are never cut off. */
  lemma {:induction false} DepositsThatFit(events: seq<GovernanceEvent>)
    requires Deposited(events) <= MAX
    ensures Uncapped(events)
  {
    NetBounds(events);
    if events == [] {
    } else {
      UncappedFront(events);
      DepositsThatFit(events[..|events| - 1]);
    }
  }

  lemma {:induction false} OverdraftLowers(events: seq<GovernanceEvent>)
    requires Uncapped(events)
    ensures NoOverdraft(events) <==> Lowest(events) == 0
    ensures Lowest(events) <= 0
  {
    if events == [] {
    } else {
      UncappedFront(events);
      OverdraftLowers(events[..|events| - 1]);
      BalanceClosedForm(events[..|events| - 1]);
    }
  }

  /** With totals inside the u64 range, balance plus spent equals deposited exactly when no
      spend ever exceeded the balance; otherwise it exceeds it by the depth of the overdraft. */
  lemma BooksBalance(events: seq<GovernanceEvent>)
    requires Deposited(events) <= MAX && Spent(events) <= MAX
    ensures var s := Replay(events);
            s.balanceCents + s.totalSpentCents == s.totalDepositedCents - Lowest(events)
    ensures var s := Replay(events);
            s.balanceCents + s.totalSpentCents == s.totalDepositedCents <==> NoOverdraft(events)
  {
    DepositsThatFit(events);
    TotalsAreCappedSums(events);
    BalanceClosedForm(events);
    OverdraftLowers(events);
  }
}
