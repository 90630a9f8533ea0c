// The bid / assign / settle ledger (crates/loom-core/src/agent_marketplace.rs).

module Marketplace {
  import opened Options
  import opened Words
  import opened Sorting
  import Hex

  datatype Error =
    | PriceNotPositive
    | BidNotFound
    | TreasuryInsufficient
    | AssignmentNotFound
    | EmptyProof

  datatype Bid = Bid(
    bidId: string, agentId: string, taskId: string, priceCents: U64, capability: string, timestampMs: U64)

  datatype Assignment = Assignment(
    assignmentId: string, bid: Bid, treasuryCommitmentCents: U64, assignedAtMs: U64)

  datatype SettlementStatus = Completed | Disputed | Refunded

  datatype Settlement = Settlement(
    settlementId: string, assignmentId: string, agentId: string, settledCents: U64,
    proofHash: string, settledAtMs: U64, status: SettlementStatus)

  /** The five state fields, as one value. */
  datatype Book = Book(
    openBids: seq<Bid>, assignments: seq<Assignment>, settlements: seq<Settlement>,
    committedCents: U64, settledCents: U64)

  function Without<T>(s: seq<T>, i: nat): seq<T>
    requires i < |s|
  {
    s[..i] + s[i + 1..]
  }

  // ----- the operations on values -----

  // Bids and assignments are found by the first record with the id.  Ids are printed vector
  // lengths and can repeat once records have been removed.

  function BidId(b: Bid): string {
    b.bidId
  }

  function AssignmentId(a: Assignment): string {
    a.assignmentId
  }

  datatype Step =
    | Submit(agentId: string, taskId: string, priceCents: U64, capability: string, atMs: U64)
    | Assign(bidId: string, balanceCents: U64, floorCents: U64, atMs: U64)
    | Settle(assignmentId: string, proofHash: string, atMs: U64)

  function Submitted(book: Book, s: Step): Result<Bid, Error>
    requires s.Submit?
  {
    if s.priceCents == 0 then Err(PriceNotPositive)
    else Ok(Bid("bid_" + Hex.Digits(|book.openBids|, 16), s.agentId, s.taskId, s.priceCents, s.capability, s.atMs))
  }

  function Assigned(book: Book, s: Step): Result<Assignment, Error>
    requires s.Assign?
  {
    var i := Position(book.openBids, BidId, s.bidId);
    if i == |book.openBids| then Err(BidNotFound)
    else
      var bid := book.openBids[i];
      if SaturatingAdd(book.committedCents, bid.priceCents) > SaturatingSub(s.balanceCents, s.floorCents)
      then Err(TreasuryInsufficient)
      else Ok(Assignment("asgn_" + Hex.Digits(|book.assignments|, 16), bid, bid.priceCents, s.atMs))
  }

  function Settled(book: Book, s: Step): Result<Settlement, Error>
    requires s.Settle?
  {
    var i := Position(book.assignments, AssignmentId, s.assignmentId);
    if i == |book.assignments| then Err(AssignmentNotFound)
    else if s.proofHash == "" then Err(EmptyProof)
    else
      var a := book.assignments[i];
      Ok(Settlement("settle_" + Hex.Digits(|book.settlements|, 16), a.assignmentId, a.bid.agentId,
                    a.treasuryCommitmentCents, s.proofHash, s.atMs, Completed))
  }

  predicate Accepted(book: Book, s: Step) {
    match s
    case Submit(_, _, _, _, _) => Submitted(book, s).Ok?
    case Assign(_, _, _, _) => Assigned(book, s).Ok?
    case Settle(_, _, _) => Settled(book, s).Ok?
  }

  function Next(book: Book, s: Step): Book {
    if !Accepted(book, s) then book
    else
      match s
      case Submit(_, _, _, _, _) => book.(openBids := book.openBids + [Submitted(book, s).value])
      case Assign(_, _, _, _) =>
        var a := Assigned(book, s).value;
        book.(openBids := Without(book.openBids, Position(book.openBids, BidId, s.bidId)),
              assignments := book.assignments + [a],
              committedCents := SaturatingAdd(book.committedCents, a.bid.priceCents))
      case Settle(_, _, _) =>
        var t := Settled(book, s).value;
        book.(assignments := Without(book.assignments, Position(book.assignments, AssignmentId, s.assignmentId)),
              settlements := book.settlements + [t],
              committedCents := SaturatingSub(book.committedCents, t.settledCents),
              settledCents := SaturatingAdd(book.settledCents, t.settledCents))
  }

  const EMPTY := Book([], [], [], 0, 0)

  function Run(steps: seq<Step>): Book {
    if steps == [] then EMPTY else Next(Run(steps[..|steps| - 1]), steps[|steps| - 1])
  }

  // ----- the marketplace object -----

  class Marketplace {
    var openBids: seq<Bid>
    var assignments: seq<Assignment>
    var settlements: seq<Settlement>
    var treasuryCommittedCents: U64
    var treasurySettledCents: U64

    ghost function Contents(): Book
      reads this
    {
      Book(openBids, assignments, settlements, treasuryCommittedCents, treasurySettledCents)
    }

    constructor ()
      ensures Contents() == EMPTY
    {
      openBids, assignments, settlements := [], [], [];
      treasuryCommittedCents, treasurySettledCents := 0, 0;
    }

    method SubmitBid(agentId: string, taskId: string, priceCents: U64, capability: string, timestampMs: U64)
        returns (r: Result<Bid, Error>)
      modifies this
      ensures var s := Submit(agentId, taskId, priceCents, capability, timestampMs);
              r == Submitted(old(Contents()), s) && Contents() == Next(old(Contents()), s)
    {
      if priceCents == 0 {
        return Err(PriceNotPositive);
      }
      var bid := Bid("bid_" + Hex.Digits(|openBids|, 16), agentId, taskId, priceCents, capability, timestampMs);
      openBids := openBids + [bid];
      return Ok(bid);
    }

    method AssignBid(bidId: string, balanceCents: U64, floorCents: U64, timestampMs: U64)
        returns (r: Result<Assignment, Error>)
      modifies this
      ensures var s := Assign(bidId, balanceCents, floorCents, timestampMs);
              r == Assigned(old(Contents()), s) && Contents() == Next(old(Contents()), s)
    {
      var bidIdx := Position(openBids, BidId, bidId);
      if bidIdx == |openBids| {
        return Err(BidNotFound);
      }
      var bid := openBids[bidIdx];
      var available := SaturatingSub(balanceCents, floorCents);
      var totalCommitted := SaturatingAdd(treasuryCommittedCents, bid.priceCents);
      if totalCommitted > available {
        return Err(TreasuryInsufficient);
      }
      var assignment := Assignment("asgn_" + Hex.Digits(|assignments|, 16), bid, bid.priceCents, timestampMs);
      openBids := Without(openBids, bidIdx);
      treasuryCommittedCents := totalCommitted;
      assignments := assignments + [assignment];
      return Ok(assignment);
    }

    method SettleAssignment(assignmentId: string, proofHash: string, timestampMs: U64)
        returns (r: Result<Settlement, Error>)
      modifies this
      ensures var s := Settle(assignmentId, proofHash, timestampMs);
              r == Settled(old(Contents()), s) && Contents() == Next(old(Contents()), s)
    {
      var asgnIdx := Position(assignments, AssignmentId, assignmentId);
      if asgnIdx == |assignments| {
        return Err(AssignmentNotFound);
      }
      var asgn := assignments[asgnIdx];
      if proofHash == "" {
        return Err(EmptyProof);
      }
      var settlement := Settlement("settle_" + Hex.Digits(|settlements|, 16), asgn.assignmentId, asgn.bid.agentId,
                                   asgn.treasuryCommitmentCents, proofHash, timestampMs, Completed);
      treasuryCommittedCents := SaturatingSub(treasuryCommittedCents, asgn.treasuryCommitmentCents);
      treasurySettledCents := SaturatingAdd(treasurySettledCents, asgn.treasuryCommitmentCents);
      assignments := Without(assignments, asgnIdx);
      settlements := settlements + [settlement];
      return Ok(settlement);
    }
  }

  // ----- exact sums over the records of a group of agents -----

  type Group = string -> bool

  function Everyone(): Group {
    _ => true
  }

  function Share(counted: bool, cents: U64): nat {
    if counted then cents else 0
  }

  function Prices(bids: seq<Bid>, g: Group): seq<nat> {
    seq<nat>(|bids|, i requires 0 <= i < |bids| => Share(g(bids[i].agentId), bids[i].priceCents))
  }

  function Commitments(s: seq<Assignment>, g: Group): seq<nat> {
    seq<nat>(|s|, i requires 0 <= i < |s| => Share(g(s[i].bid.agentId), s[i].treasuryCommitmentCents))
  }

  function Payouts(s: seq<Settlement>, g: Group): seq<nat> {
    seq<nat>(|s|, i requires 0 <= i < |s| => Share(g(s[i].agentId), s[i].settledCents))
  }

  function Held(book: Book, g: Group): nat {
    Sum(Prices(book.openBids, g)) + Sum(Commitments(book.assignments, g)) + Sum(Payouts(book.settlements, g))
  }

  /** The prices of all accepted submissions. */
  function SubmittedCents(steps: seq<Step>, g: Group): nat {
    if steps == [] then 0
    else
      var last := steps[|steps| - 1];
      SubmittedCents(steps[..|steps| - 1], g)
      + (if last.Submit? then Share(g(last.agentId), last.priceCents) else 0)
  }

  lemma AssignMoves(book: Book, s: Step, g: Group)
    requires s.Assign? && Accepted(book, s)
    ensures var book' := Next(book, s);
            var bid := Assigned(book, s).value.bid;
            var share := Share(g(bid.agentId), bid.priceCents);
            && Sum(Prices(book'.openBids, g)) == Sum(Prices(book.openBids, g)) - share
            && Sum(Commitments(book'.assignments, g)) == Sum(Commitments(book.assignments, g)) + share
            && book'.settlements == book.settlements
  {
    var book' := Next(book, s);
    var i := Position(book.openBids, BidId, s.bidId);
    var p, c := Prices(book.openBids, g), Commitments(book.assignments, g);
    assert Prices(book'.openBids, g) == p[..i] + p[i + 1..];
    SumRemove(p, i);
    var share := Share(g(book.openBids[i].agentId), book.openBids[i].priceCents);
    assert Commitments(book'.assignments, g) == c + [share];
    SumPush(c, share);
  }

  lemma SettleMoves(book: Book, s: Step, g: Group)
    requires s.Settle? && Accepted(book, s)
    ensures var book' := Next(book, s);
            var settled := Settled(book, s).value;
            var share := Share(g(settled.agentId), settled.settledCents);
            && book'.openBids == book.openBids
            && Sum(Commitments(book'.assignments, g)) == Sum(Commitments(book.assignments, g)) - share
            && Sum(Payouts(book'.settlements, g)) == Sum(Payouts(book.settlements, g)) + share
  {
    var book' := Next(book, s);
    var i := Position(book.assignments, AssignmentId, s.assignmentId);
    var c, p := Commitments(book.assignments, g), Payouts(book.settlements, g);
    assert Commitments(book'.assignments, g) == c[..i] + c[i + 1..];
    SumRemove(c, i);
    var share := Share(g(Settled(book, s).value.agentId), Settled(book, s).value.settledCents);
    assert Payouts(book'.settlements, g) == p + [share];
    SumPush(p, share);
  }

  lemma NextHolds(book: Book, s: Step, g: Group)
    ensures Held(Next(book, s), g)
            == Held(book, g) + (if s.Submit? then Share(g(s.agentId), s.priceCents) else 0)
  {
    if Accepted(book, s) {
      match s
      case Submit(_, _, _, _, _) =>
        var p := Prices(book.openBids, g);
        var share := Share(g(s.agentId), s.priceCents);
        assert Prices(Next(book, s).openBids, g) == p + [share];
        SumPush(p, share);
      case Assign(_, _, _, _) => AssignMoves(book, s, g);
      case Settle(_, _, _) => SettleMoves(book, s, g);
    }
  }

  /** Over every run and for every group of agents: the prices submitted are the open prices
      plus the live commitments plus the settlements. */
  lemma {:induction false} RunConserves(steps: seq<Step>, g: Group)
    ensures Held(Run(steps), g) == SubmittedCents(steps, g)
  {
    if steps == [] {
    } else {
      RunConserves(steps[..|steps| - 1], g);
      NextHolds(Run(steps[..|steps| - 1]), steps[|steps| - 1], g);
    }
  }

  /** The settled counter is the sum of the settlements, cut off at the top of the range. */
  lemma {:induction false} RunSettles(steps: seq<Step>)
    ensures Run(steps).settledCents == AtMostMax(Sum(Payouts(Run(steps).settlements, Everyone())))
  {
    if steps == [] {
    } else {
      var book, s := Run(steps[..|steps| - 1]), steps[|steps| - 1];
      RunSettles(steps[..|steps| - 1]);
      if Accepted(book, s) && s.Settle? {
        SettleMoves(book, s, Everyone());
      }
    }
  }

  // ----- the committed counter -----

  ghost predicate CommittedIsExact(book: Book) {
    book.committedCents == Sum(Commitments(book.assignments, Everyone()))
  }

  /** An accepted assignment whose addition leaves the u64 range. */
  predicate Overflows(book: Book, s: Step) {
    s.Assign? && Accepted(book, s) && book.committedCents + Assigned(book, s).value.bid.priceCents > MAX
  }

  lemma {:induction false} SumAtLeast(s: seq<nat>, i: nat)
    requires i < |s|
    ensures s[i] <= Sum(s)
  {
    SumRemove(s, i);
  }

  /** Each step keeps the counter exact, unless it overflows; then it is exact no more. */
  lemma NextCommitted(book: Book, s: Step)
    requires CommittedIsExact(book)
    ensures CommittedIsExact(Next(book, s)) <==> !Overflows(book, s)
  {
    if Accepted(book, s) {
      match s
      case Submit(_, _, _, _, _) =>
      case Assign(_, _, _, _) => AssignMoves(book, s, Everyone());
      case Settle(_, _, _) =>
        SettleMoves(book, s, Everyone());
        var i := Position(book.assignments, AssignmentId, s.assignmentId);
        SumAtLeast(Commitments(book.assignments, Everyone()), i);
    }
  }

  ghost predicate NeverOverflows(steps: seq<Step>) {
    steps != [] ==>
      var front := steps[..|steps| - 1];
      NeverOverflows(front) && !Overflows(Run(front), steps[|steps| - 1])
  }

  /** The counter is exact after every prefix of the run. */
  ghost predicate AlwaysExact(steps: seq<Step>) {
    CommittedIsExact(Run(steps)) && (steps != [] ==> AlwaysExact(steps[..|steps| - 1]))
  }

  /** Committed cents equal the live commitments throughout a run exactly when no accepted
      assignment overflows. */
  lemma {:induction false} CommittedExactness(steps: seq<Step>)
    ensures AlwaysExact(steps) <==> NeverOverflows(steps)
  {
    if steps == [] {
      assert Commitments([], Everyone()) == [];
    } else {
      var front := steps[..|steps| - 1];
      CommittedExactness(front);
      if CommittedIsExact(Run(front)) {
        NextCommitted(Run(front), steps[|steps| - 1]);
      }
    }
  }

  /** In every assign call of the run, the funds above the floor are below the u64 maximum. */
  ghost predicate FundsBelowMaximum(steps: seq<Step>) {
    forall i | 0 <= i < |steps| && steps[i].Assign? ::
      SaturatingSub(steps[i].balanceCents, steps[i].floorCents) < MAX
  }

  /** Such runs never overflow, so the counter stays exact. */
  lemma {:induction false} FundsBelowMaximumSuffice(steps: seq<Step>)
    requires FundsBelowMaximum(steps)
    ensures NeverOverflows(steps) && AlwaysExact(steps)
  {
    if steps != [] {
      FundsBelowMaximumSuffice(steps[..|steps| - 1]);
    }
    CommittedExactness(steps);
  }

  /** With funds above the floor below the u64 maximum, an accepted assignment does not
      saturate, and all live commitments together fit in those funds. */
  lemma AssignStaysWithinFunds(book: Book, s: Step)
    requires CommittedIsExact(book) && s.Assign? && Accepted(book, s)
    requires SaturatingSub(s.balanceCents, s.floorCents) < MAX
    ensures var book' := Next(book, s);
            && book'.committedCents == book.committedCents + Assigned(book, s).value.bid.priceCents
            && Sum(Commitments(book'.assignments, Everyone())) == book'.committedCents
            && book'.committedCents <= SaturatingSub(s.balanceCents, s.floorCents)
  {
    NextCommitted(book, s);
  }

  lemma RunPush(steps: seq<Step>, s: Step)
    ensures Run(steps + [s]) == Next(Run(steps), s)
  {
    assert (steps + [s])[..|steps|] == steps;
  }

  /** At the maximum itself the gate does let an overflow through: two bids, the first one
      for the whole range, can both be assigned. */
  lemma OverflowIsReachable()
    ensures var assign := Assign("bid_" + Hex.Digits(0, 16), MAX, 0, 0);
            Overflows(Run([Submit("a", "t", MAX, "c", 0)] + [assign] + [Submit("b", "t", 1, "c", 0)]), assign)
  {
    var first, second := Submit("a", "t", MAX, "c", 0), Submit("b", "t", 1, "c", 0);
    var assign := Assign("bid_" + Hex.Digits(0, 16), MAX, 0, 0);
    var b1, b2 := Next(EMPTY, first), Next(Next(EMPTY, first), assign);
    assert Run([first]) == b1 by { RunPush([], first); assert [] + [first] == [first]; }
    RunPush([first], assign);
    RunPush([first] + [assign], second);
    assert |b1.openBids| == 1 && b1.openBids[0].priceCents == MAX && Position(b1.openBids, BidId, assign.bidId) == 0;
    assert b2.openBids == [] && b2.committedCents == MAX;
    assert Position(Next(b2, second).openBids, BidId, assign.bidId) == 0;
  }

  /** book' is book with the first bid of that id, the one at i, turned into the assignment a. */
  ghost predicate BidMoved(book: Book, book': Book, s: Step, i: nat, a: Assignment)
    requires s.Assign?
  {
    && i < |book.openBids| && book.openBids[i].bidId == s.bidId
    && (forall j | 0 <= j < i :: book.openBids[j].bidId != s.bidId)
    && var bid := book.openBids[i];
    && a == Assignment("asgn_" + Hex.Digits(|book.assignments|, 16), bid, bid.priceCents, s.atMs)
    && book'.openBids == book.openBids[..i] + book.openBids[i + 1..]
    && book'.assignments == book.assignments + [a]
    && book'.committedCents == SaturatingAdd(book.committedCents, bid.priceCents)
    && book'.settlements == book.settlements && book'.settledCents == book.settledCents
  }

  /** book' is book with the first assignment of that id, the one at i, turned into the
      settlement t. */
  ghost predicate AssignmentMoved(book: Book, book': Book, s: Step, i: nat, t: Settlement)
    requires s.Settle?
  {
    && i < |book.assignments| && book.assignments[i].assignmentId == s.assignmentId
    && (forall j | 0 <= j < i :: book.assignments[j].assignmentId != s.assignmentId)
    && var a := book.assignments[i];
    && t == Settlement("settle_" + Hex.Digits(|book.settlements|, 16), s.assignmentId, a.bid.agentId,
                       a.treasuryCommitmentCents, s.proofHash, s.atMs, Completed)
    && book'.assignments == book.assignments[..i] + book.assignments[i + 1..]
    && book'.settlements == book.settlements + [t]
    && book'.committedCents == SaturatingSub(book.committedCents, a.treasuryCommitmentCents)
    && book'.settledCents == SaturatingAdd(book.settledCents, a.treasuryCommitmentCents)
    && book'.openBids == book.openBids
  }

  /** A rejected step changes nothing; an accepted one adds the bid it returns, or moves exactly
      one record, the first one with the id, to the end of the next list. */
  lemma StepMovesOneRecord(book: Book, s: Step)
    ensures !Accepted(book, s) ==> Next(book, s) == book
    ensures Accepted(book, s) && s.Submit? ==>
      var bid := Bid("bid_" + Hex.Digits(|book.openBids|, 16), s.agentId, s.taskId, s.priceCents, s.capability, s.atMs);
      Submitted(book, s) == Ok(bid) && Next(book, s) == book.(openBids := book.openBids + [bid])
    ensures Accepted(book, s) && s.Assign? ==>
      exists i: nat, a :: Assigned(book, s) == Ok(a) && BidMoved(book, Next(book, s), s, i, a)
    ensures Accepted(book, s) && s.Settle? ==>
      exists i: nat, t :: Settled(book, s) == Ok(t) && AssignmentMoved(book, Next(book, s), s, i, t)
  {
    if Accepted(book, s) {
      match s
      case Submit(_, _, _, _, _) =>
      case Assign(_, _, _, _) =>
        assert BidMoved(book, Next(book, s), s, Position(book.openBids, BidId, s.bidId), Assigned(book, s).value);
      case Settle(_, _, _) =>
        assert AssignmentMoved(book, Next(book, s), s,
                               Position(book.assignments, AssignmentId, s.assignmentId), Settled(book, s).value);
    }
  }

  /** i is the first open bid with that id. */
  ghost predicate IsFirstBid(book: Book, id: string, i: nat) {
    i < |book.openBids| && book.openBids[i].bidId == id && forall j | 0 <= j < i :: book.openBids[j].bidId != id
  }

  /** A step is accepted exactly when its guards hold, and these are checked in order. */
  lemma AcceptedExactly(book: Book, s: Step)
    ensures s.Submit? ==>
      && (Accepted(book, s) <==> s.priceCents > 0)
      && (!Accepted(book, s) ==> Submitted(book, s) == Err(PriceNotPositive))
    ensures s.Assign? ==>
      && (Assigned(book, s) == Err(BidNotFound)
          <==> forall i | 0 <= i < |book.openBids| :: book.openBids[i].bidId != s.bidId)
      && (Assigned(book, s) == Err(TreasuryInsufficient)
          <==> exists i: nat :: IsFirstBid(book, s.bidId, i)
                 && SaturatingAdd(book.committedCents, book.openBids[i].priceCents)
                    > SaturatingSub(s.balanceCents, s.floorCents))
      && (Accepted(book, s)
          <==> exists i: nat :: IsFirstBid(book, s.bidId, i)
                 && SaturatingAdd(book.committedCents, book.openBids[i].priceCents)
                    <= SaturatingSub(s.balanceCents, s.floorCents))
    ensures s.Settle? ==>
      var known := exists i :: 0 <= i < |book.assignments| && book.assignments[i].assignmentId == s.assignmentId;
      && (Accepted(book, s) <==> known && s.proofHash != "")
      && (!Accepted(book, s) ==> Settled(book, s) == Err(if known then EmptyProof else AssignmentNotFound))
  {
    if s.Assign? && Position(book.openBids, BidId, s.bidId) < |book.openBids| {
      var p := Position(book.openBids, BidId, s.bidId);
      assert book.openBids[p].bidId == s.bidId;
      assert forall i: nat | IsFirstBid(book, s.bidId, i) :: i == p;
      assert IsFirstBid(book, s.bidId, p);
    }
    if s.Settle? && Position(book.assignments, AssignmentId, s.assignmentId) < |book.assignments| {
      assert book.assignments[Position(book.assignments, AssignmentId, s.assignmentId)].assignmentId == s.assignmentId;
    }
  }

  // ----- which record an id finds -----

  /** The id of r prints the number i. */
  ghost predicate Prints<T>(r: T, id: T -> string, prefix: string, i: nat) {
    id(r) == prefix + Hex.Digits(i, 16)
  }

  /** The id of every record prints its position. */
  ghost predicate Numbered<T>(records: seq<T>, id: T -> string, prefix: string) {
    forall i | 0 <= i < |records| :: Prints(records[i], id, prefix, i)
  }

  /** No two records have the same id, and the id of each finds it. */
  ghost predicate FoundByIds<T>(records: seq<T>, id: T -> string) {
    && (forall i, j | 0 <= i < j < |records| :: id(records[i]) != id(records[j]))
    && (forall i | 0 <= i < |records| :: Position(records, id, id(records[i])) == i)
  }

  lemma PrintedDiffer(prefix: string, i: U64, j: U64)
    requires prefix + Hex.Digits(i, 16) == prefix + Hex.Digits(j, 16)
    ensures i == j
  {
    assert Hex.Hex16(i) == (prefix + Hex.Digits(i, 16))[|prefix|..];
    assert Hex.Hex16(j) == (prefix + Hex.Digits(j, 16))[|prefix|..];
    Hex.Hex16Injective(i, j);
  }

  lemma NumberedAreFound<T>(records: seq<T>, id: T -> string, prefix: string)
    requires Numbered(records, id, prefix) && |records| <= MODULUS
    ensures FoundByIds(records, id)
  {
    forall i, j | 0 <= i < |records| && 0 <= j < |records| && id(records[i]) == id(records[j]) ensures i == j {
      assert Prints(records[i], id, prefix, i) && Prints(records[j], id, prefix, j);
      PrintedDiffer(prefix, i, j);
    }
  }

  /** The id that the next record will get finds that record, once it is added, exactly when no
      earlier record has it. */
  lemma NewIsFoundExactly<T>(records: seq<T>, id: T -> string, r: T)
    ensures Position(records + [r], id, id(r)) == |records|
            <==> forall j | 0 <= j < |records| :: id(records[j]) != id(r)
  {
    var all := records + [r];
    var p := Position(all, id, id(r));
    assert all[|records|] == r;
    assert forall j | 0 <= j < |records| :: all[j] == records[j];
  }

  /** The id that a submission returns finds the new bid exactly when no bid already open has
      the id that prints the number of open bids; then an assignment by that id takes just the
      new bid. */
  lemma NewBidIsFoundExactly(book: Book, s: Step)
    requires s.Submit? && s.priceCents > 0
    ensures var id, after := Submitted(book, s).value.bidId, Next(book, s);
            && (Position(after.openBids, BidId, id) == |book.openBids|
                <==> forall j | 0 <= j < |book.openBids| ::
                       book.openBids[j].bidId != "bid_" + Hex.Digits(|book.openBids|, 16))
            && (Position(after.openBids, BidId, id) == |book.openBids| ==>
                forall a: Step | a.Assign? && a.bidId == id && Accepted(after, a) ::
                  && Assigned(after, a).value.bid == Submitted(book, s).value
                  && Next(after, a).openBids == book.openBids)
  {
    var bid := Submitted(book, s).value;
    NewIsFoundExactly(book.openBids, BidId, bid);
    assert Without(book.openBids + [bid], |book.openBids|) == book.openBids;
  }

  /** The id that an assignment returns finds the new assignment exactly when none already
      there has the id that prints their number; then settling by that id takes just that one. */
  lemma NewAssignmentIsFoundExactly(book: Book, s: Step)
    requires s.Assign? && Accepted(book, s)
    ensures var id, after := Assigned(book, s).value.assignmentId, Next(book, s);
            && (Position(after.assignments, AssignmentId, id) == |book.assignments|
                <==> forall j | 0 <= j < |book.assignments| ::
                       book.assignments[j].assignmentId != "asgn_" + Hex.Digits(|book.assignments|, 16))
            && (Position(after.assignments, AssignmentId, id) == |book.assignments| ==>
                forall t: Step | t.Settle? && t.assignmentId == id && Accepted(after, t) ::
                  && Settled(after, t).value.agentId == Assigned(book, s).value.bid.agentId
                  && Next(after, t).assignments == book.assignments)
  {
    var made := Assigned(book, s).value;
    NewIsFoundExactly(book.assignments, AssignmentId, made);
    assert Without(book.assignments + [made], |book.assignments|) == book.assignments;
  }

  /** No bid has been taken out of the open ones. */
  ghost predicate KeepsBids(steps: seq<Step>) {
    steps != [] ==>
      var front, last := steps[..|steps| - 1], steps[|steps| - 1];
      KeepsBids(front) && (last.Assign? ==> !Accepted(Run(front), last))
  }

  /** No assignment has been settled. */
  ghost predicate KeepsAssignments(steps: seq<Step>) {
    steps != [] ==>
      var front, last := steps[..|steps| - 1], steps[|steps| - 1];
      KeepsAssignments(front) && (last.Settle? ==> !Accepted(Run(front), last))
  }

  lemma NumberedPush<T>(records: seq<T>, id: T -> string, prefix: string, r: T)
    requires Numbered(records, id, prefix) && Prints(r, id, prefix, |records|)
    ensures Numbered(records + [r], id, prefix)
  {
    var all := records + [r];
    forall i | 0 <= i < |all| ensures Prints(all[i], id, prefix, i) {
      if i < |records| {
        assert Prints(records[i], id, prefix, i);
      }
    }
  }

  lemma SubmissionNumbers(book: Book, s: Step)
    requires s.Submit?
    ensures |Next(book, s).openBids| <= |book.openBids| + 1
    ensures Numbered(book.openBids, BidId, "bid_") ==> Numbered(Next(book, s).openBids, BidId, "bid_")
  {
    if s.priceCents > 0 && Numbered(book.openBids, BidId, "bid_") {
      NumberedPush(book.openBids, BidId, "bid_", Submitted(book, s).value);
    }
  }

  lemma AssignmentNumbers(book: Book, s: Step)
    requires s.Assign?
    ensures |Next(book, s).openBids| <= |book.openBids| && |Next(book, s).assignments| <= |book.assignments| + 1
    ensures Numbered(book.assignments, AssignmentId, "asgn_") ==>
      Numbered(Next(book, s).assignments, AssignmentId, "asgn_")
  {
    if Accepted(book, s) && Numbered(book.assignments, AssignmentId, "asgn_") {
      NumberedPush(book.assignments, AssignmentId, "asgn_", Assigned(book, s).value);
    }
  }

  lemma SettlementNumbers(book: Book, s: Step)
    requires s.Settle?
    ensures |Next(book, s).assignments| <= |book.assignments| && |Next(book, s).settlements| <= |book.settlements| + 1
    ensures Numbered(book.settlements, SettlementId, "settle_") ==>
      Numbered(Next(book, s).settlements, SettlementId, "settle_")
  {
    if Accepted(book, s) && Numbered(book.settlements, SettlementId, "settle_") {
      NumberedPush(book.settlements, SettlementId, "settle_", Settled(book, s).value);
    }
  }

  ghost predicate BookNumbered(book: Book, bids: bool, assignments: bool) {
    && (bids ==> Numbered(book.openBids, BidId, "bid_"))
    && (assignments ==> Numbered(book.assignments, AssignmentId, "asgn_"))
    && Numbered(book.settlements, SettlementId, "settle_")
  }

  ghost predicate SizesUpTo(book: Book, n: nat) {
    |book.openBids| <= n && |book.assignments| <= n && |book.settlements| <= n
  }

  lemma NextNumbers(book: Book, s: Step, bids: bool, assignments: bool, n: nat)
    requires BookNumbered(book, bids, assignments) && SizesUpTo(book, n)
    requires Accepted(book, s) && s.Assign? ==> !bids
    requires Accepted(book, s) && s.Settle? ==> !assignments
    ensures BookNumbered(Next(book, s), bids, assignments) && SizesUpTo(Next(book, s), n + 1)
  {
    if Accepted(book, s) {
      match s
      case Submit(_, _, _, _, _) => SubmissionNumbers(book, s);
      case Assign(_, _, _, _) => AssignmentNumbers(book, s);
      case Settle(_, _, _) => SettlementNumbers(book, s);
    }
  }

  /** The ids print the positions: of open bids and of assignments as long as none is removed,
      and of settlements always. */
  lemma {:induction false} RunNumbers(steps: seq<Step>)
    ensures BookNumbered(Run(steps), KeepsBids(steps), KeepsAssignments(steps)) && SizesUpTo(Run(steps), |steps|)
  {
    if steps == [] {
    } else {
      var front, last := steps[..|steps| - 1], steps[|steps| - 1];
      RunNumbers(front);
      NextNumbers(Run(front), last, KeepsBids(steps), KeepsAssignments(steps), |front|);
    }
  }

  function SettlementId(t: Settlement): string {
    t.settlementId
  }

  /** Over every run the ids of settlements are distinct, those of open bids while none is
      removed, and those of assignments while none is settled; then each id finds its record. */
  lemma IdsFindRecords(steps: seq<Step>)
    requires |steps| <= MODULUS
    ensures FoundByIds(Run(steps).settlements, SettlementId)
    ensures KeepsBids(steps) ==> FoundByIds(Run(steps).openBids, BidId)
    ensures KeepsAssignments(steps) ==> FoundByIds(Run(steps).assignments, AssignmentId)
  {
    RunNumbers(steps);
    var book := Run(steps);
    NumberedAreFound(book.settlements, SettlementId, "settle_");
    if KeepsBids(steps) {
      NumberedAreFound(book.openBids, BidId, "bid_");
    }
    if KeepsAssignments(steps) {
      NumberedAreFound(book.assignments, AssignmentId, "asgn_");
    }
  }

  lemma {:induction false} KeptRecordsStay(steps: seq<Step>, later: seq<Step>)
    ensures KeepsBids(steps + later) ==> Run(steps).openBids <= Run(steps + later).openBids
    ensures KeepsAssignments(steps + later) ==> Run(steps).assignments <= Run(steps + later).assignments
    decreases |later|
  {
    if later == [] {
      assert steps + later == steps;
    } else {
      var all := steps + later;
      assert all[..|all| - 1] == steps + later[..|later| - 1];
      KeptRecordsStay(steps, later[..|later| - 1]);
    }
  }

  /** While no bid is removed, an assignment by the id that a submission returned takes exactly
      the bid of that submission, however much later it comes. */
  lemma AssignmentTakesSubmittedBid(steps: seq<Step>, s: Step, later: seq<Step>, a: Step)
    requires s.Submit? && s.priceCents > 0 && |steps + [s] + later| <= MODULUS && KeepsBids(steps + [s] + later)
    requires a.Assign? && a.bidId == Submitted(Run(steps), s).value.bidId
    ensures var book, i := Run(steps + [s] + later), |Run(steps).openBids|;
            && Assigned(book, a) != Err(BidNotFound)
            && i < |book.openBids| && book.openBids[i] == Submitted(Run(steps), s).value
            && (Accepted(book, a) ==>
                && Assigned(book, a).value.bid == Submitted(Run(steps), s).value
                && Next(book, a).openBids == book.openBids[..i] + book.openBids[i + 1..])
  {
    KeptRecordsStay(steps + [s], later);
    RunPush(steps, s);
    IdsFindRecords(steps + [s] + later);
    var book, i := Run(steps + [s] + later), |Run(steps).openBids|;
    assert book.openBids[i] == Run(steps + [s]).openBids[i];
    assert BidId(book.openBids[i]) == a.bidId;
  }

  /** While no assignment is settled, settling by the id that an assignment returned settles
      exactly that assignment. */
  lemma SettlementTakesOwnAssignment(steps: seq<Step>, s: Step, later: seq<Step>, t: Step)
    requires s.Assign? && Accepted(Run(steps), s) && |steps + [s] + later| <= MODULUS
    requires KeepsAssignments(steps + [s] + later)
    requires t.Settle? && t.assignmentId == Assigned(Run(steps), s).value.assignmentId
    ensures var book, i := Run(steps + [s] + later), |Run(steps).assignments|;
            && Settled(book, t) != Err(AssignmentNotFound)
            && i < |book.assignments| && book.assignments[i] == Assigned(Run(steps), s).value
            && (Accepted(book, t) ==>
                && Settled(book, t).value.agentId == Assigned(Run(steps), s).value.bid.agentId
                && Next(book, t).assignments == book.assignments[..i] + book.assignments[i + 1..])
  {
    KeptRecordsStay(steps + [s], later);
    RunPush(steps, s);
    IdsFindRecords(steps + [s] + later);
    var book, i := Run(steps + [s] + later), |Run(steps).assignments|;
    assert book.assignments[i] == Run(steps + [s]).assignments[i];
    assert AssignmentId(book.assignments[i]) == t.assignmentId;
  }

  lemma OthersAreNotLast<T>(records: seq<T>, id: T -> string, i: nat)
    requires FoundByIds(records, id) && i < |records|
    ensures (forall j | 0 <= j < |records| - 1 :: id(Without(records, i)[j]) != id(records[|records| - 1]))
            <==> i == |records| - 1
  {
    var left, last := Without(records, i), |records| - 1;
    if i < last {
      assert left[last - 1] == records[last];
    } else {
      assert forall j | 0 <= j < last :: left[j] == records[j];
    }
  }

  lemma RemovedThenAdded<T>(records: seq<T>, id: T -> string, wanted: string, r: T)
    requires FoundByIds(records, id) && Position(records, id, wanted) < |records|
    requires id(r) == id(records[|records| - 1])
    ensures Position(Without(records, Position(records, id, wanted)) + [r], id, id(r)) == |records| - 1
            <==> wanted == id(r)
  {
    var i, last := Position(records, id, wanted), |records| - 1;
    NewIsFoundExactly(Without(records, i), id, r);
    OthersAreNotLast(records, id, i);
    assert Position(records, id, id(records[last])) == last;
  }

  lemma NumberedRemovedThenAdded(bids: seq<Bid>, wanted: string, bid: Bid)
    requires Numbered(bids, BidId, "bid_") && |bids| <= MODULUS && Position(bids, BidId, wanted) < |bids|
    requires Prints(bid, BidId, "bid_", |bids| - 1)
    ensures bid.bidId == bids[|bids| - 1].bidId
    ensures Position(Without(bids, Position(bids, BidId, wanted)) + [bid], BidId, bid.bidId) == |bids| - 1
            <==> wanted == bid.bidId
  {
    NumberedAreFound(bids, BidId, "bid_");
    assert Prints(bids[|bids| - 1], BidId, "bid_", |bids| - 1);
    RemovedThenAdded(bids, BidId, wanted, bid);
  }

  lemma AssignThenSubmit(book: Book, a: Step, s: Step)
    requires a.Assign? && Accepted(book, a) && s.Submit? && s.priceCents > 0
    ensures var i, bid := Position(book.openBids, BidId, a.bidId), Submitted(Next(book, a), s).value;
            && i < |book.openBids| && Prints(bid, BidId, "bid_", |book.openBids| - 1)
            && |Next(book, a).openBids| == |book.openBids| - 1
            && Next(Next(book, a), s).openBids == Without(book.openBids, i) + [bid]
  {
  }

  /** After the first removal the next submission returns an id that finds its bid exactly when
      the removed bid was the last one; otherwise the id is that of the bid that was. */
  lemma RemovalRepeatsId(book: Book, a: Step, s: Step)
    requires Numbered(book.openBids, BidId, "bid_") && |book.openBids| <= MODULUS
    requires a.Assign? && Accepted(book, a) && s.Submit? && s.priceCents > 0
    ensures var between, last := Next(book, a), |book.openBids| - 1;
            var id := Submitted(between, s).value.bidId;
            && id == book.openBids[last].bidId
            && (Position(Next(between, s).openBids, BidId, id) == |between.openBids|
                <==> a.bidId == book.openBids[last].bidId)
  {
    AssignThenSubmit(book, a, s);
    var bids, bid, after := book.openBids, Submitted(Next(book, a), s).value, Next(Next(book, a), s).openBids;
    NumberedRemovedThenAdded(bids, a.bidId, bid);
    assert Position(after, BidId, bid.bidId) == |bids| - 1 <==> a.bidId == bid.bidId;
  }
}
