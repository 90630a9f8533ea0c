// Inspecting the lineage graph and choosing the entries to replay
// (crates/loom-core/src/memory_service.rs, graph_inspect and select_replay_entries).

module Replay {
  import opened Options
  import opened Sorting
  import opened Text
  import opened MemoryTypes
  import opened Lineage
  import opened LineageWalk
  import opened Lanes

  datatype Direction = TowardsAncestors | TowardsDescendants | BothWays

  datatype InspectView = InspectView(
    sourceRef: string, totalNodes: nat, focusNode: Option<Node>, ancestorNodes: seq<Node>, descendantNodes: seq<Node>,
    direction: Direction, limit: nat, note: string)

  /** Slots listed in order, or in the unspecified order of a hash set. */
  datatype SlotList = InOrder(slots: seq<Slot>) | InAnyOrder(slotSet: set<Slot>)

  datatype ReplaySelection = ReplaySelection(
    sourceRef: string, focusNodeId: Option<string>, mode: string, selectedNodeIds: seq<string>, selectedSlots: SlotList,
    selectedEntries: seq<Entry>, totalGraphNodes: nat, note: string)

  /** `max_by_key(timestamp)`: the last node among those with the greatest timestamp. */
  function Latest(nodes: seq<Node>): Node
    requires nodes != []
  {
    var last := nodes[|nodes| - 1];
    if |nodes| == 1 then last
    else
      var before := Latest(nodes[..|nodes| - 1]);
      if last.timestampMs >= before.timestampMs then last else before
  }

  function FocusId(nodes: seq<Node>, asked: Option<string>): string
    requires nodes != []
  {
    if asked.Some? && Trim(asked.value) != "" then asked.value else Latest(nodes).nodeId
  }

  /** `filter_map` with the node map. */
  function LookUp(m: map<string, Node>, ids: seq<string>): seq<Node> {
    if ids == [] then []
    else LookUp(m, ids[..|ids| - 1]) + (if ids[|ids| - 1] in m then [m[ids[|ids| - 1]]] else [])
  }

  const NO_NODES := "no graph nodes available for source"

  const COMPACT_VIEW := "compact lineage view over governed memory write/remove receipts"

  function NotFound(focus: string, sourceRef: string): string {
    "focus node '" + focus + "' not found for source " + sourceRef
  }

  function Inspect(sourceRef: string, records: seq<Receipt>, asked: Option<string>, direction: Direction, limit: nat)
    : Result<InspectView, string>
  {
    var effective := if limit < 1 then 1 else limit;
    var nodes := GraphNodes(records);
    if nodes == [] then Ok(InspectView(sourceRef, 0, None, [], [], direction, effective, NO_NODES))
    else
      var index, focus := IndexOf(nodes), FocusId(nodes, asked);
      if focus !in index.nodes then Err(NotFound(focus, sourceRef))
      else
        var up := if direction.TowardsDescendants? then [] else Ancestors(index.parents, focus, effective);
        var down := if direction.TowardsAncestors? then [] else Descendants(index, focus, effective);
        Ok(InspectView(sourceRef, |nodes|, Some(index.nodes[focus]), LookUp(index.nodes, up), LookUp(index.nodes, down),
                       direction, effective, COMPACT_VIEW))
  }

  method GraphInspect(sourceRef: string, records: seq<Receipt>, asked: Option<string>, direction: Direction, limit: nat)
      returns (r: Result<InspectView, string>)
    ensures r == Inspect(sourceRef, records, asked, direction, limit)
  {
    var effective := if limit < 1 then 1 else limit;
    var nodes := BuildGraphNodesFromReceipts(records);
    if |nodes| == 0 {
      return Ok(InspectView(sourceRef, 0, None, [], [], direction, effective, NO_NODES));
    }
    var index := BuildGraphIndex(nodes);
    var focus := FocusId(nodes, asked);
    if focus !in index.nodes {
      return Err(NotFound(focus, sourceRef));
    }
    var up, down := [], [];
    if !direction.TowardsDescendants? {
      up := CollectAncestorIds(index.parents, focus, effective);
    }
    if !direction.TowardsAncestors? {
      down := CollectDescendantIds(index.children, index.nodes, focus, effective);
    }
    return Ok(InspectView(sourceRef, |nodes|, Some(index.nodes[focus]), LookUp(index.nodes, up),
           LookUp(index.nodes, down),
                          direction, effective, COMPACT_VIEW));
  }

  /** The slots of the focus node and of the nodes around it. */
  function SelectedSlots(focus: Node, view: InspectView): set<Slot> {
    set n | n in [focus] + view.ancestorNodes + view.descendantNodes :: NodeSlot(n)
  }

  function SlotsInOrder(entries: seq<Entry>): seq<Slot> {
    seq(|entries|, i requires 0 <= i < |entries| => SlotOf(entries[i]))
  }

  function FullSnapshot(sourceRef: string, entries: seq<Entry>, totalNodes: nat): ReplaySelection {
    ReplaySelection(sourceRef, None, "full_snapshot", [], InOrder(SlotsInOrder(entries)), entries, totalNodes,
                    "full snapshot replay selected from source memory entries")
  }

  function FocusMissing(sourceRef: string): string {
    "focus node missing for source " + sourceRef
  }

  function FocusedSelection(entries: seq<Entry>, view: InspectView, focus: Node): ReplaySelection {
    var around, slots := [focus] + view.ancestorNodes + view.descendantNodes, SelectedSlots(focus, view);
    ReplaySelection(view.sourceRef, Some(focus.nodeId), "node_subgraph", SortDedup(Ids(around)), InAnyOrder(slots),
                    Filter(entries, (e: Entry) => SlotOf(e) in slots), view.totalNodes,
                    "selected replay set generated from focused lineage subgraph")
  }

  /** The replay chosen from the stored entries and the receipts in the log. */
  function Select(sourceRef: string, entries: seq<Entry>, records: seq<Receipt>, asked: Option<string>,
                  direction: Direction, limit: nat): Result<ReplaySelection, string>
  {
    if asked == None then Ok(FullSnapshot(sourceRef, entries, |GraphNodes(records)|))
    else
      match Inspect(sourceRef, records, asked, direction, limit)
      case Err(e) => Err(e)
      case Ok(view) =>
        match view.focusNode
        case None => Err(FocusMissing(sourceRef))
        case Some(focus) => Ok(FocusedSelection(entries, view, focus))
  }

  function Ids(nodes: seq<Node>): seq<string> {
    seq(|nodes|, i requires 0 <= i < |nodes| => nodes[i].nodeId)
  }

  // ----- the fallback focus -----

  /** Without a focus the newest node is inspected: the last one of the sorted list. */
  lemma {:induction false} LatestIsLast(nodes: seq<Node>)
    requires nodes != []
    requires forall i, j | 0 <= i < j < |nodes| :: nodes[i].timestampMs <= nodes[j].timestampMs
    ensures Latest(nodes) == nodes[|nodes| - 1]
  {
    if |nodes| > 1 {
      LatestIsLast(nodes[..|nodes| - 1]);
    }
  }

  lemma {:induction false} NodeTimes(receipts: seq<Receipt>, n: Node) returns (k: nat)
    requires n in Nodes(receipts)
    ensures k < |receipts| && n.timestampMs == receipts[k].timestampMs
  {
    var front, last := receipts[..|receipts| - 1], receipts[|receipts| - 1];
    if n in Nodes(front) {
      k := NodeTimes(front, n);
    } else {
      k := |front|;
    }
  }

  lemma {:induction false} NodesKeepTimeOrder(receipts: seq<Receipt>)
    requires SortedBy(receipts, ReceiptLe)
    ensures forall i, j | 0 <= i < j < |Nodes(receipts)| ::
            Nodes(receipts)[i].timestampMs <= Nodes(receipts)[j].timestampMs
  {
    if receipts == [] {
    } else {
      var front, last := receipts[..|receipts| - 1], receipts[|receipts| - 1];
      NodesKeepTimeOrder(front);
      var nodes := Nodes(front);
      forall i | 0 <= i < |nodes| ensures nodes[i].timestampMs <= last.timestampMs {
        var k := NodeTimes(front, nodes[i]);
        assert ReceiptLe(receipts[k], receipts[|front|]);
      }
    }
  }

  /** The focus is the id asked for if there is anything but whitespace in it, else the newest
      node. */
  lemma FallbackIsNewest(records: seq<Receipt>, asked: Option<string>)
    requires GraphNodes(records) != []
    ensures var nodes := GraphNodes(records);
            FocusId(nodes, asked)
            == if asked.Some? && exists k :: 0 <= k < |asked.value| && !IsWhitespace(asked.value[k]) then asked.value
               else nodes[|nodes| - 1].nodeId
    ensures var nodes := GraphNodes(records);
            forall i, j | 0 <= i < j < |nodes| :: nodes[i].timestampMs <= nodes[j].timestampMs
  {
    ReceiptLePreorder();
    SortSorted(Filter(records, Relevant), ReceiptLe);
    NodesKeepTimeOrder(RelevantInOrder(records));
    LatestIsLast(GraphNodes(records));
    if asked.Some? {
      TrimsToNothing(asked.value);
    }
  }

  // ----- focused replay -----

  lemma {:induction false} LookUpFinds(m: map<string, Node>, ids: seq<string>, n: Node)
    requires n in LookUp(m, ids)
    ensures exists id :: id in ids && id in m && m[id] == n
  {
    var front, last := ids[..|ids| - 1], ids[|ids| - 1];
    assert ids == front + [last];
    if n in LookUp(m, front) {
      LookUpFinds(m, front, n);
    }
  }

  lemma AroundShareSlot(nodes: seq<Node>, i: nat, ids: seq<string>, n: Node, limit: nat)
    requires GoodGraph(nodes) && i < |nodes| && n in LookUp(NodeMap(nodes), ids)
    requires ids == Ancestors(ParentMap(nodes), nodes[i].nodeId, limit) || ids
             == Descendants(IndexOf(nodes), nodes[i].nodeId, limit)
    ensures NodeSlot(n) == NodeSlot(nodes[i])
  {
    LookUpFinds(NodeMap(nodes), ids, n);
    var id :| id in ids && id in NodeMap(nodes) && NodeMap(nodes)[id] == n;
    var k := NodeMapHolds(nodes, id);
    IndexIsUnique(IndexOf(nodes), nodes);
    AncestorsExactly(nodes, i, k, limit);
    DescendantsExactly(IndexOf(nodes), nodes, i, k, limit);
  }

  /** Whatever the direction and the limit, everything around the focus shares its slot. */
  lemma OnlyOneSlotSelected(sourceRef: string, records: seq<Receipt>, asked: Option<string>, direction: Direction,
          limit: nat)
    requires UniqueHashes(records)
    requires var r := Inspect(sourceRef, records, asked, direction, limit); r.Ok? && r.value.focusNode.Some?
    ensures var view := Inspect(sourceRef, records, asked, direction, limit).value;
            var focus := view.focusNode.value;
            && SelectedSlots(focus, view) == {NodeSlot(focus)}
            && focus in GraphNodes(records) && focus.nodeId == FocusId(GraphNodes(records), asked)
  {
    GraphWellFormed(records);
    var nodes := GraphNodes(records);
    var view := Inspect(sourceRef, records, asked, direction, limit).value;
    var focus := view.focusNode.value;
    var i := NodeMapHolds(nodes, FocusId(nodes, asked));
    var around := [focus] + view.ancestorNodes + view.descendantNodes;
    forall n | n in around ensures NodeSlot(n) == NodeSlot(focus) {
      if n in view.ancestorNodes && !direction.TowardsDescendants? {
        AroundShareSlot(nodes, i, Ancestors(ParentMap(nodes), focus.nodeId, view.limit), n, view.limit);
      } else if n in view.descendantNodes && !direction.TowardsAncestors? {
        AroundShareSlot(nodes, i, Descendants(IndexOf(nodes), focus.nodeId, view.limit), n, view.limit);
      }
    }
    assert around[0] == focus;
  }

  /** With distinct receipt hashes, focused replay selects exactly the stored entries in the
      focus node's slot. */
  lemma FocusedReplayIsOneSlot(sourceRef: string, entries: seq<Entry>, records: seq<Receipt>, asked: string,
          direction: Direction, limit: nat)
    requires UniqueHashes(records)
    requires Select(sourceRef, entries, records, Some(asked), direction, limit).Ok?
    ensures var chosen := Select(sourceRef, entries, records, Some(asked), direction, limit).value;
            exists focus :: focus in GraphNodes(records)
              && chosen.focusNodeId == Some(focus.nodeId) && focus.nodeId == FocusId(GraphNodes(records), Some(asked))
              && chosen.selectedEntries == Filter(entries, (e: Entry) => SlotOf(e) == NodeSlot(focus))
              && chosen.selectedSlots == InAnyOrder({NodeSlot(focus)})
  {
    var view := Inspect(sourceRef, records, Some(asked), direction, limit).value;
    var focus := view.focusNode.value;
    OnlyOneSlotSelected(sourceRef, records, Some(asked), direction, limit);
    var slots := SelectedSlots(focus, view);
    FilterSame(entries, (e: Entry) => SlotOf(e) in slots, (e: Entry) => SlotOf(e) == NodeSlot(focus));
  }

  // ----- which nodes are selected -----

  /** Looking up ids that the graph has gives nodes of the graph with just these ids. */
  lemma {:induction false} LookUpKeepsIds(nodes: seq<Node>, ids: seq<string>)
    requires forall k | 0 <= k < |ids| :: ids[k] in NodeMap(nodes)
    ensures var found := LookUp(NodeMap(nodes), ids);
            Ids(found) == ids && forall n | n in found :: n in nodes
  {
    if ids == [] {
    } else {
      var front, last := ids[..|ids| - 1], ids[|ids| - 1];
      LookUpKeepsIds(nodes, front);
      var i := NodeMapHolds(nodes, last);
      assert ids == front + [last];
    }
  }

  ghost predicate FromGraph(found: seq<Node>, nodes: seq<Node>, ids: seq<string>) {
    Ids(found) == ids && forall n | n in found :: n in nodes
  }

  lemma AncestorNodes(nodes: seq<Node>, i: nat, limit: nat)
    requires GoodGraph(nodes) && i < |nodes|
    ensures FromGraph(LookUp(NodeMap(nodes), Ancestors(ParentMap(nodes), nodes[i].nodeId, limit)), nodes,
                      TakeBack(Lane(nodes[..i], NodeSlot(nodes[i])), limit))
  {
    var lane := Lane(nodes[..i], NodeSlot(nodes[i]));
    var ids := TakeBack(lane, limit);
    AncestorsAreLaneBefore(nodes, i, limit);
    forall k | 0 <= k < |ids| ensures ids[k] in NodeMap(nodes) {
      TakeBackWithin(lane, limit, ids[k]);
      LaneMembers(nodes[..i], NodeSlot(nodes[i]), ids[k]);
      var m :| 0 <= m < i && nodes[..i][m].nodeId == ids[k];
      NodeMapHas(nodes, m);
    }
    LookUpKeepsIds(nodes, ids);
  }

  lemma DescendantNodes(nodes: seq<Node>, i: nat, limit: nat)
    requires GoodGraph(nodes) && i < |nodes|
    ensures FromGraph(LookUp(NodeMap(nodes), Descendants(IndexOf(nodes), nodes[i].nodeId, limit)), nodes,
                      TakeFront(Lane(nodes[i + 1..], NodeSlot(nodes[i])), limit))
  {
    var after := nodes[i + 1..];
    var lane := Lane(after, NodeSlot(nodes[i]));
    var ids := TakeFront(lane, limit);
    IndexIsUnique(IndexOf(nodes), nodes);
    DescendantsAreLaneAfter(IndexOf(nodes), nodes, i, limit);
    forall k | 0 <= k < |ids| ensures ids[k] in NodeMap(nodes) {
      TakeFrontWithin(lane, limit, ids[k]);
      LaneMembers(after, NodeSlot(nodes[i]), ids[k]);
      var m :| 0 <= m < |after| && after[m].nodeId == ids[k];
      NodeMapHas(nodes, i + 1 + m);
    }
    LookUpKeepsIds(nodes, ids);
  }

  /** The ids of the earlier nodes of the focus's slot, latest first, for the directions that ask
      for ancestors. */
  ghost function IdsBefore(nodes: seq<Node>, i: nat, direction: Direction, limit: nat): seq<string>
    requires i < |nodes|
  {
    match direction
    case TowardsAncestors => TakeBack(Lane(nodes[..i], NodeSlot(nodes[i])), if limit == 0 then 1 else limit)
    case BothWays => TakeBack(Lane(nodes[..i], NodeSlot(nodes[i])), if limit == 0 then 1 else limit)
    case TowardsDescendants => []
  }

  /** The ids of the later nodes of the focus's slot, earliest first, for the directions that ask
      for descendants. */
  ghost function IdsAfter(nodes: seq<Node>, i: nat, direction: Direction, limit: nat): seq<string>
    requires i < |nodes|
  {
    match direction
    case TowardsAncestors => []
    case BothWays => TakeFront(Lane(nodes[i + 1..], NodeSlot(nodes[i])), if limit == 0 then 1 else limit)
    case TowardsDescendants => TakeFront(Lane(nodes[i + 1..], NodeSlot(nodes[i])), if limit == 0 then 1 else limit)
  }

  lemma InspectOk(sourceRef: string, records: seq<Receipt>, asked: Option<string>, direction: Direction, limit: nat)
    requires GraphNodes(records) != [] && FocusId(GraphNodes(records), asked) in NodeMap(GraphNodes(records))
    ensures var nodes, focus := GraphNodes(records), FocusId(GraphNodes(records), asked);
            var effective := if limit == 0 then 1 else limit;
            var up := if direction.TowardsDescendants? then [] else Ancestors(ParentMap(nodes), focus, effective);
            var down := if direction.TowardsAncestors? then [] else Descendants(IndexOf(nodes), focus, effective);
            Inspect(sourceRef, records, asked, direction, limit)
            == Ok(InspectView(sourceRef, |nodes|, Some(NodeMap(nodes)[focus]), LookUp(NodeMap(nodes), up),
                              LookUp(NodeMap(nodes), down), direction, effective, COMPACT_VIEW))
  {
  }

  /** With distinct receipt hashes, inspecting the i-th node shows the part of its lane on the
      side asked for: earlier nodes as ancestors, later ones as descendants. */
  lemma InspectShowsLanes(sourceRef: string, records: seq<Receipt>, asked: Option<string>, direction: Direction,
          limit: nat, i: nat)
    requires UniqueHashes(records) && i < |GraphNodes(records)|
    requires GraphNodes(records)[i].nodeId == FocusId(GraphNodes(records), asked)
    ensures var nodes, r := GraphNodes(records), Inspect(sourceRef, records, asked, direction, limit);
            && r.Ok? && r.value.focusNode == Some(nodes[i])
            && FromGraph(r.value.ancestorNodes, nodes, IdsBefore(nodes, i, direction, limit))
            && FromGraph(r.value.descendantNodes, nodes, IdsAfter(nodes, i, direction, limit))
            && r.value.sourceRef == sourceRef && r.value.totalNodes == |nodes| && r.value.direction == direction
            && r.value.limit == (if limit == 0 then 1 else limit)
            && r.value.note == "compact lineage view over governed memory write/remove receipts"
  {
    GraphWellFormed(records);
    var nodes, effective := GraphNodes(records), if limit == 0 then 1 else limit;
    MapsHoldNodes(nodes, i);
    InspectOk(sourceRef, records, asked, direction, limit);
    match direction
    case TowardsAncestors => AncestorNodes(nodes, i, effective);
    case TowardsDescendants => DescendantNodes(nodes, i, effective);
    case BothWays =>
      AncestorNodes(nodes, i, effective);
      DescendantNodes(nodes, i, effective);
  }

  /** Then the node ids selected for a replay are the focus's and those on the side asked for,
      sorted, each once, and the entries are those in the focus's slot, in the order of the list. */
  lemma ReplaySelectsLanes(sourceRef: string, entries: seq<Entry>, records: seq<Receipt>, asked: string,
          direction: Direction, limit: nat, i: nat)
    requires UniqueHashes(records) && i < |GraphNodes(records)|
    requires GraphNodes(records)[i].nodeId == FocusId(GraphNodes(records), Some(asked))
    ensures var nodes, r := GraphNodes(records), Select(sourceRef, entries, records, Some(asked), direction, limit);
            && r.Ok? && r.value.focusNodeId == Some(nodes[i].nodeId)
            && SortedBy(r.value.selectedNodeIds, StringLe) && DistinctBy(r.value.selectedNodeIds, Itself)
            && (forall id :: id in r.value.selectedNodeIds
                             <==> id == nodes[i].nodeId || id in IdsBefore(nodes, i, direction, limit)
                                  || id in IdsAfter(nodes, i, direction, limit))
            && r.value.sourceRef == sourceRef && r.value.mode == "node_subgraph"
            && r.value.totalGraphNodes == |nodes|
            && r.value.note == "selected replay set generated from focused lineage subgraph"
  {
    var nodes := GraphNodes(records);
    InspectShowsLanes(sourceRef, records, Some(asked), direction, limit, i);
    var view := Inspect(sourceRef, records, Some(asked), direction, limit).value;
    AroundExactly(nodes[i], view.ancestorNodes, view.descendantNodes);
  }

  lemma AroundExactly(focus: Node, up: seq<Node>, down: seq<Node>)
    ensures var ids := SortDedup(Ids([focus] + up + down));
            && SortedBy(ids, StringLe) && DistinctBy(ids, Itself)
            && forall id :: id in ids <==> id == focus.nodeId || id in Ids(up) || id in Ids(down)
  {
    SortDedupExactly(Ids([focus] + up + down));
    assert Ids([focus] + up + down) == [focus.nodeId] + Ids(up) + Ids(down);
  }

  /** Without a focus every stored entry is replayed, in the order of the list. */
  lemma UnfocusedReplayIsAll(sourceRef: string, entries: seq<Entry>, records: seq<Receipt>, direction: Direction,
          limit: nat)
    ensures var r := Select(sourceRef, entries, records, None, direction, limit);
            && r.Ok? && r.value.selectedSlots.InOrder? && |r.value.selectedSlots.slots| == |entries|
            && (forall i | 0 <= i < |entries| ::
                  r.value.selectedSlots.slots[i] == (entries[i].category, entries[i].key))
            && r.value == ReplaySelection(sourceRef, None, "full_snapshot", [], r.value.selectedSlots, entries,
                                          |GraphNodes(records)|,
                                          "full snapshot replay selected from source memory entries")
  {
  }

  /** A focused replay fails exactly when the graph has no node with the focus id, and says
      whether there are no nodes at all. */
  lemma ReplayFailsWithoutFocus(sourceRef: string, entries: seq<Entry>, records: seq<Receipt>, asked: string,
          direction: Direction, limit: nat)
    ensures var r, nodes := Select(sourceRef, entries, records, Some(asked), direction, limit), GraphNodes(records);
            && (r.Err? <==> nodes == []
                            || forall i | 0 <= i < |nodes| :: nodes[i].nodeId != FocusId(nodes, Some(asked)))
            && (r.Err? ==> r.error == if nodes == [] then "focus node missing for source " + sourceRef
                                      else "focus node '" + FocusId(nodes, Some(asked)) + "' not found for source "
                                           + sourceRef)
  {
    var nodes := GraphNodes(records);
    if nodes != [] {
      var id := FocusId(nodes, Some(asked));
      if id in NodeMap(nodes) {
        var i := NodeMapHolds(nodes, id);
      } else {
        forall i | 0 <= i < |nodes| ensures nodes[i].nodeId != id { NodeMapHas(nodes, i); }
      }
    }
  }

  /** An empty graph is shown as such, whatever focus is asked for. */
  lemma InspectEmpty(sourceRef: string, records: seq<Receipt>, asked: Option<string>, direction: Direction, limit: nat)
    requires GraphNodes(records) == []
    ensures Inspect(sourceRef, records, asked, direction, limit)
            == Ok(InspectView(sourceRef, 0, None, [], [], direction, if limit == 0 then 1 else limit,
                              "no graph nodes available for source"))
  {
  }
}
