// The append-only event store (crates/loom-core/src/event_sourcing.rs, EventStore).
//
// The JSONL file is the sequence of the events on its lines; parsing a printed line back
// is taken for granted.

module EventStore {
  import opened Words
  import opened Events
  import opened Sorting
  import Hex

  predicate BySequence(a: GovernanceEvent, b: GovernanceEvent) {
    a.sequence <= b.sequence
  }

  function ReadAllFrom(lines: seq<GovernanceEvent>): seq<GovernanceEvent> {
    Sort(lines, BySequence)
  }

  /** The sequence number at which an opened store continues. */
  function Resume(lines: seq<GovernanceEvent>): nat {
    var events := ReadAllFrom(lines);
    SortMultiset(lines, BySequence);
    if events == [] then 0 else events[|events| - 1].sequence + 1
  }

  function MakeEvent(sequence: U64, eventType: string, agentId: string, payload: Payload,
          timestampMs: U64): GovernanceEvent {
    GovernanceEvent("evt_" + Hex.Hex16(sequence), eventType, agentId, payload, timestampMs, sequence)
  }

  lemma BySequencePreorder()
    ensures TotalPreorder(BySequence)
  {
  }

  function WithNumber(n: nat): GovernanceEvent -> bool {
    (e: GovernanceEvent) => e.sequence == n
  }

  /** events lists the lines by number, and those of one number in the order of the file. */
  ghost predicate ListsByNumber(events: seq<GovernanceEvent>, lines: seq<GovernanceEvent>) {
    && (forall i, j | 0 <= i < j < |events| :: events[i].sequence <= events[j].sequence)
    && (forall n: nat :: Filter(events, WithNumber(n)) == Filter(lines, WithNumber(n)))
  }

  lemma SortsByNumber(lines: seq<GovernanceEvent>)
    ensures ListsByNumber(ReadAllFrom(lines), lines)
  {
    var events := ReadAllFrom(lines);
    BySequencePreorder();
    SortSorted(lines, BySequence);
    forall i, j | 0 <= i < j < |events| ensures events[i].sequence <= events[j].sequence {
      assert BySequence(events[i], events[j]);
    }
    forall n: nat ensures Filter(events, WithNumber(n)) == Filter(lines, WithNumber(n)) {
      FilterTied(lines, BySequence, WithNumber(n));
    }
  }

  class EventFile {
    var lines: seq<GovernanceEvent>

    constructor ()
      ensures lines == []
    {
      lines := [];
    }
  }

  class Store {
    const file: EventFile
    var nextSequence: U64

    /** `EventStore::open` */
    constructor Open(file: EventFile)
      ensures this.file == file && nextSequence == Wrap(Resume(file.lines))
    {
      this.file := file;
      var events := ReadAllFrom(file.lines);
      if events == [] {
        nextSequence := 0;
      } else {
        nextSequence := Wrap(events[|events| - 1].sequence + 1);
      }
    }

    method Append(eventType: string, agentId: string, payload: Payload,
            timestampMs: U64) returns (event: GovernanceEvent)
      modifies this, file
      ensures event == MakeEvent(old(nextSequence), eventType, agentId, payload, timestampMs)
      ensures event == GovernanceEvent("evt_" + Hex.Digits(old(nextSequence), 16), eventType, agentId, payload,
                                       timestampMs, old(nextSequence))
      ensures file.lines == old(file.lines) + [event]
      ensures nextSequence == Wrap(old(nextSequence) + 1)
    {
      event := MakeEvent(nextSequence, eventType, agentId, payload, timestampMs);
      file.lines := file.lines + [event];
      nextSequence := Wrap(nextSequence + 1);
    }

    method ReadAll() returns (events: seq<GovernanceEvent>)
      ensures events == ReadAllFrom(file.lines)
      ensures IsStableSort(events, file.lines, BySequence) && ListsByNumber(events, file.lines)
    {
      BySequencePreorder();
      SortsByNumber(file.lines);
      SortIsStable(file.lines, BySequence);
      events := ReadAllFrom(file.lines);
    }
  }

  // ----- any file -----

  /** Opening any file resumes above every sequence number in it. */
  lemma ResumeIsAboveAll(lines: seq<GovernanceEvent>, e: GovernanceEvent)
    requires e in lines
    ensures e.sequence < Resume(lines)
  {
    BySequencePreorder();
    SortSorted(lines, BySequence);
    SortMembers(lines, BySequence);
    var events := ReadAllFrom(lines);
    assert e in events;
    var i :| 0 <= i < |events| && events[i] == e;
    assert BySequence(events[i], events[|events| - 1]);
  }

  lemma ResumeIsNextOrZero(lines: seq<GovernanceEvent>)
    ensures Resume(lines) == 0 || exists e :: e in lines && Resume(lines) == e.sequence + 1
  {
    SortMembers(lines, BySequence);
    var events := ReadAllFrom(lines);
    SortMultiset(lines, BySequence);
    if events != [] {
      assert events[|events| - 1] in events;
    }
  }

  /** An opened store continues above every number in the file exactly when the greatest u64
      is not among them. */
  lemma OpensAboveAllExactly(lines: seq<GovernanceEvent>)
    ensures (forall e | e in lines :: e.sequence < Wrap(Resume(lines))) <==> forall e | e in lines :: e.sequence != MAX
  {
    forall e | e in lines ensures e.sequence < Resume(lines) { ResumeIsAboveAll(lines, e); }
    ResumeIsNextOrZero(lines);
    WrapSmall(Resume(lines));
    if e :| e in lines && e.sequence == MAX {
      assert Resume(lines) == 0x1_0000_0000_0000_0000;
    }
  }

  // ----- runs of any number of stores on one file -----

  datatype Step =
    | Open(store: nat)
    | Append(store: nat, eventType: string, agentId: string, payload: Payload, timestampMs: U64)

  /** The file, and the number held by each open store. */
  datatype Log = Log(lines: seq<GovernanceEvent>, next: map<nat, nat>)

  /** A store that has been opened makes an append. */
  predicate Appends(log: Log, step: Step) {
    step.Append? && step.store in log.next
  }

  predicate NumbersBelow(log: Log, bound: nat) {
    && (forall i | 0 <= i < |log.lines| :: log.lines[i].sequence < bound)
    && (forall w | w in log.next :: log.next[w] <= bound)
  }

  function AppendTo(log: Log, step: Step): Log
    requires Appends(log, step) && log.next[step.store] <= MAX
  {
    var n := log.next[step.store];
    Log(log.lines + [MakeEvent(n, step.eventType, step.agentId, step.payload, step.timestampMs)],
        log.next[step.store := n + 1])
  }

  lemma ResumeBelow(log: Log, bound: nat)
    requires NumbersBelow(log, bound)
    ensures Resume(log.lines) <= bound
  {
    ResumeIsNextOrZero(log.lines);
  }

  function Next(log: Log, step: Step): Log
    requires Appends(log, step) ==> log.next[step.store] <= MAX
  {
    if step.Open? then Log(log.lines, log.next[step.store := Resume(log.lines)])
    else if Appends(log, step) then AppendTo(log, step)
    else log
  }

  function Run(steps: seq<Step>): (log: Log)
    requires |steps| <= MAX
    ensures NumbersBelow(log, |steps|)
  {
    if steps == [] then Log([], map[])
    else
      var log := Run(steps[..|steps| - 1]);
      ResumeBelow(log, |steps| - 1);
      Next(log, steps[|steps| - 1])
  }

  /** The numbers are 0, 1, 2, ... in file order, and the ids print them. */
  ghost predicate WellNumbered(lines: seq<GovernanceEvent>) {
    forall i | 0 <= i < |lines| ::
      lines[i].sequence == i && lines[i].eventId == "evt_" + Hex.Hex16(lines[i].sequence)
  }

  ghost predicate IdsDistinct(lines: seq<GovernanceEvent>) {
    forall i, j | 0 <= i < j < |lines| :: lines[i].eventId != lines[j].eventId
  }

  /** Every append is made by a store whose number is the current length of the file. */
  ghost predicate AppendsUpToDate(steps: seq<Step>)
    requires |steps| <= MAX
  {
    steps != [] ==>
      var front, last := steps[..|steps| - 1], steps[|steps| - 1];
      AppendsUpToDate(front) && UpToDate(Run(front), last)
  }

  /** Reading back gives the events in the order in which they were appended. */
  lemma ReadsInAppendOrder(lines: seq<GovernanceEvent>)
    requires WellNumbered(lines)
    ensures ReadAllFrom(lines) == lines
  {
    SortOfSorted(lines, BySequence);
  }

  lemma ResumesAtEnd(lines: seq<GovernanceEvent>)
    requires WellNumbered(lines)
    ensures Resume(lines) == |lines|
  {
    ReadsInAppendOrder(lines);
  }

  lemma WellNumberedPush(lines: seq<GovernanceEvent>, e: GovernanceEvent)
    requires e.eventId == "evt_" + Hex.Hex16(e.sequence)
    ensures WellNumbered(lines + [e]) <==> WellNumbered(lines) && e.sequence == |lines|
  {
    if WellNumbered(lines + [e]) {
      assert (lines + [e])[|lines|] == e;
      forall i | 0 <= i < |lines|
        ensures lines[i].sequence == i && lines[i].eventId == "evt_" + Hex.Hex16(lines[i].sequence) {
        assert (lines + [e])[i] == lines[i];
      }
    }
  }

  predicate UpToDate(log: Log, step: Step) {
    Appends(log, step) ==> log.next[step.store] == |log.lines|
  }

  /** No store's number is beyond the end of the file. */
  predicate NoneAhead(log: Log) {
    forall w | w in log.next :: log.next[w] <= |log.lines|
  }

  lemma NextNumbering(log: Log, step: Step)
    requires Appends(log, step) ==> log.next[step.store] <= MAX
    ensures WellNumbered(Next(log, step).lines) <==> WellNumbered(log.lines) && UpToDate(log, step)
  {
    if Appends(log, step) {
      WellNumberedPush(log.lines,
          MakeEvent(log.next[step.store], step.eventType, step.agentId, step.payload, step.timestampMs));
    }
  }

  lemma NextNoneAhead(log: Log, step: Step)
    requires WellNumbered(log.lines) && NoneAhead(log) && UpToDate(log, step)
    requires Appends(log, step) ==> log.next[step.store] <= MAX
    ensures NoneAhead(Next(log, step))
  {
    ResumesAtEnd(log.lines);
  }

  /** Over every run of any number of stores, the file is numbered 0, 1, 2, ... exactly when
      every append is up to date. */
  lemma {:induction false} WellNumberedExactly(steps: seq<Step>)
    requires |steps| <= MAX
    ensures WellNumbered(Run(steps).lines) <==> AppendsUpToDate(steps)
    ensures AppendsUpToDate(steps) ==> NoneAhead(Run(steps))
  {
    if steps == [] {
    } else {
      var front, last := steps[..|steps| - 1], steps[|steps| - 1];
      WellNumberedExactly(front);
      NextNumbering(Run(front), last);
      if AppendsUpToDate(steps) {
        NextNoneAhead(Run(front), last);
      }
    }
  }

  lemma HexIdsDiffer(a: U64, b: U64)
    requires a != b
    ensures "evt_" + Hex.Hex16(a) != "evt_" + Hex.Hex16(b)
  {
    if "evt_" + Hex.Hex16(a) == "evt_" + Hex.Hex16(b) {
      assert Hex.Hex16(a) == ("evt_" + Hex.Hex16(a))[4..] && Hex.Hex16(b) == ("evt_" + Hex.Hex16(b))[4..];
      Hex.Hex16Injective(a, b);
    }
  }

  lemma WellNumberedIdsDiffer(lines: seq<GovernanceEvent>)
    requires WellNumbered(lines)
    ensures IdsDistinct(lines)
  {
    forall i, j | 0 <= i < j < |lines| ensures lines[i].eventId != lines[j].eventId {
      HexIdsDiffer(lines[i].sequence, lines[j].sequence);
    }
  }

  /** The ids of a run are pairwise distinct exactly when every append is up to date. */
  lemma {:induction false} IdsDistinctExactly(steps: seq<Step>)
    requires |steps| <= MAX
    ensures IdsDistinct(Run(steps).lines) <==> AppendsUpToDate(steps)
  {
    WellNumberedExactly(steps);
    if AppendsUpToDate(steps) {
      WellNumberedIdsDiffer(Run(steps).lines);
    } else {
      var front, last := steps[..|steps| - 1], steps[|steps| - 1];
      var log, after := Run(front), Run(steps);
      IdsDistinctExactly(front);
      WellNumberedExactly(front);
      assert log.lines <= after.lines;
      if AppendsUpToDate(front) {
        var n := log.next[last.store];
        assert after.lines[n].eventId == after.lines[|log.lines|].eventId;
      } else {
        var i, j :| 0 <= i < j < |log.lines| && log.lines[i].eventId == log.lines[j].eventId;
        assert after.lines[i].eventId == after.lines[j].eventId;
      }
    }
  }

  /** w is the only open store, and up to date. */
  predicate OnlyUpToDate(log: Log, w: nat) {
    log.next == map[] || log.next == map[w := |log.lines|]
  }

  lemma NextOnlyUpToDate(log: Log, step: Step, w: nat)
    requires WellNumbered(log.lines) && OnlyUpToDate(log, w) && step.store == w
    requires Appends(log, step) ==> log.next[step.store] <= MAX
    ensures UpToDate(log, step) && OnlyUpToDate(Next(log, step), w)
  {
    ResumesAtEnd(log.lines);
  }

  /** In a run of a single store, opened and reopened at will, every append is up to date. */
  lemma {:induction false} SingleWriterIsUpToDate(steps: seq<Step>, w: nat)
    requires |steps| <= MAX && forall i | 0 <= i < |steps| :: steps[i].store == w
    ensures AppendsUpToDate(steps) && OnlyUpToDate(Run(steps), w)
  {
    if steps == [] {
    } else {
      var front, last := steps[..|steps| - 1], steps[|steps| - 1];
      SingleWriterIsUpToDate(front, w);
      WellNumberedExactly(front);
      NextOnlyUpToDate(Run(front), last, w);
    }
  }

  /** The appends that reached the file. */
  ghost function Made(steps: seq<Step>): seq<Step>
    requires |steps| <= MAX
  {
    if steps == [] then []
    else
      var front, last := steps[..|steps| - 1], steps[|steps| - 1];
      Made(front) + (if Appends(Run(front), last) then [last] else [])
  }

  ghost predicate Records(e: GovernanceEvent, step: Step) {
    && step.Append? && e.eventType == step.eventType && e.agentId == step.agentId
    && e.payload == step.payload && e.timestampMs == step.timestampMs
  }

  /** Over every run of any number of stores the file holds exactly the events appended, in
      order, with their own fields. */
  lemma {:induction false} RunKeepsEveryAppend(steps: seq<Step>)
    requires |steps| <= MAX
    ensures |Run(steps).lines| == |Made(steps)|
    ensures forall i | 0 <= i < |Made(steps)| :: Records(Run(steps).lines[i], Made(steps)[i])
  {
    if steps == [] {
    } else {
      RunKeepsEveryAppend(steps[..|steps| - 1]);
    }
  }

  /** Over every run of a single store: the numbers are 0 to n-1 in file order, one per append,
      the ids are distinct, reading back keeps the order of the appends and reopening resumes
      at n. */
  lemma SingleWriterRun(steps: seq<Step>, w: nat)
    requires |steps| <= MAX && forall i | 0 <= i < |steps| :: steps[i].store == w
    ensures var lines := Run(steps).lines;
            && WellNumbered(lines) && IdsDistinct(lines)
            && ReadAllFrom(lines) == lines && Resume(lines) == |lines| == |Made(steps)|
  {
    SingleWriterIsUpToDate(steps, w);
    WellNumberedExactly(steps);
    WellNumberedIdsDiffer(Run(steps).lines);
    ReadsInAppendOrder(Run(steps).lines);
    ResumesAtEnd(Run(steps).lines);
    RunKeepsEveryAppend(steps);
  }

  /** Two stores opened on an empty file, each making one append: both events get number 0. */
  lemma TwoWritersCollide(a: Step, b: Step)
    requires a.Append? && b.Append? && a.store == 0 && b.store == 1
    ensures var lines := Run([] + [Open(0)] + [Open(1)] + [a] + [b]).lines;
            |lines| == 2 && lines[0].eventId == lines[1].eventId && lines[0].sequence == lines[1].sequence == 0
  {
    RunPush([], Open(0));
    RunPush([] + [Open(0)], Open(1));
    RunPush([] + [Open(0)] + [Open(1)], a);
    RunPush([] + [Open(0)] + [Open(1)] + [a], b);
    ResumesAtEnd([]);
  }

  lemma RunPush(steps: seq<Step>, step: Step)
    requires |steps| < MAX
    ensures Appends(Run(steps), step) ==> Run(steps).next[step.store] <= MAX
    ensures Run(steps + [step]) == Next(Run(steps), step)
  {
    assert (steps + [step])[..|steps|] == steps;
  }
}
