// The lineage graph rebuilt from the receipt log
// (crates/loom-core/src/memory_service.rs, build_graph_nodes_from_receipts and below).

module Lineage {
  import opened Options
  import opened Words
  import opened Sorting
  import opened MemoryTypes
  import opened Summaries

  datatype Node = Node(
    nodeId: string, timestampMs: U64, operation: string, category: string, key: string,
    source: string, outputSummary: string, parent: Option<string>)

  function NodeSlot(n: Node): Slot {
    (n.category, n.key)
  }

  function NodeId(n: Node): string {
    n.nodeId
  }

  function HashOf(r: Receipt): string {
    r.receiptHash
  }

  // ----- from receipts to nodes -----

  predicate Relevant(r: Receipt) {
    r.operation == "write" || r.operation == "remove"
  }

  predicate ReceiptLe(a: Receipt, b: Receipt) {
    a.timestampMs < b.timestampMs || (a.timestampMs == b.timestampMs && StringLe(a.receiptHash, b.receiptHash))
  }

  function RelevantInOrder(records: seq<Receipt>): seq<Receipt> {
    Sort(Filter(records, Relevant), ReceiptLe)
  }

  function ReceiptSlot(r: Receipt): Slot {
    var fields := Parse(r.inputSummary);
    (Field(fields, "category", ""), Field(fields, "key", ""))
  }

  /** Receipts without a category or without a key give no node. */
  predicate Named(r: Receipt) {
    ReceiptSlot(r).0 != "" && ReceiptSlot(r).1 != ""
  }

  function MakeNode(r: Receipt, parent: Option<string>): Node {
    Node(r.receiptHash, r.timestampMs, r.operation, ReceiptSlot(r).0, ReceiptSlot(r).1,
         Field(Parse(r.inputSummary), "source", "unknown"), r.outputSummary, parent)
  }

  /** The id of the last node in that slot. */
  function Nearest(nodes: seq<Node>, slot: Slot): Option<string> {
    if nodes == [] then None
    else if NodeSlot(nodes[|nodes| - 1]) == slot then Some(nodes[|nodes| - 1].nodeId)
    else Nearest(nodes[..|nodes| - 1], slot)
  }

  function Nodes(receipts: seq<Receipt>): seq<Node> {
    if receipts == [] then []
    else
      var before, r := Nodes(receipts[..|receipts| - 1]), receipts[|receipts| - 1];
      if Named(r) then before + [MakeNode(r, Nearest(before, ReceiptSlot(r)))] else before
  }

  function GraphNodes(records: seq<Receipt>): seq<Node> {
    Nodes(RelevantInOrder(records))
  }

  lemma NearestPush(nodes: seq<Node>, n: Node, slot: Slot)
    ensures Nearest(nodes + [n], slot) == if NodeSlot(n) == slot then Some(n.nodeId) else Nearest(nodes, slot)
  {
    assert (nodes + [n])[..|nodes|] == nodes;
  }

  /** The map holds the last node id of every slot. */
  ghost predicate Tracks(last: map<Slot, string>, nodes: seq<Node>) {
    forall slot :: Nearest(nodes, slot) == if slot in last then Some(last[slot]) else None
  }

  lemma TracksPush(last: map<Slot, string>, nodes: seq<Node>, n: Node)
    requires Tracks(last, nodes)
    ensures Tracks(last[NodeSlot(n) := n.nodeId], nodes + [n])
  {
    var last' := last[NodeSlot(n) := n.nodeId];
    forall slot ensures Nearest(nodes + [n], slot) == if slot in last' then Some(last'[slot]) else None {
      NearestPush(nodes, n, slot);
    }
  }

  method BuildGraphNodesFromReceipts(records: seq<Receipt>) returns (nodes: seq<Node>)
    ensures nodes == GraphNodes(records)
  {
    var relevant := RelevantInOrder(records);
    nodes := [];
    var lastNodeByKey: map<Slot, string> := map[];
    for i := 0 to |relevant|
      invariant nodes == Nodes(relevant[..i])
      invariant Tracks(lastNodeByKey, nodes)
    {
      var record := relevant[i];
      assert relevant[..i + 1][..i] == relevant[..i];
      var summary := ParseSummaryTokens(record.inputSummary);
      var category := if "category" in summary then summary["category"] else "";
      var key := if "key" in summary then summary["key"] else "";
      if category == "" || key == "" {
        continue;
      }
      var source := if "source" in summary then summary["source"] else "unknown";
      var slot := (category, key);
      var parent := if slot in lastNodeByKey then Some(lastNodeByKey[slot]) else None;
      var node := Node(record.receiptHash, record.timestampMs, record.operation, category, key,
                       source, record.outputSummary, parent);
      assert node == MakeNode(record, Nearest(nodes, slot));
      TracksPush(lastNodeByKey, nodes, node);
      nodes := nodes + [node];
      lastNodeByKey := lastNodeByKey[slot := record.receiptHash];
    }
    assert relevant[..|relevant|] == relevant;
  }

  // ----- what the nodes are, in terms of the receipts -----

  ghost predicate HasText(fields: map<string, string>, name: string) {
    name in fields && fields[name] != ""
  }

  /** n is made of the receipt r, whose summary says what slot and source it is about. */
  ghost predicate MadeOf(n: Node, r: Receipt) {
    var fields := Parse(r.inputSummary);
    && "category" in fields && "key" in fields
    && n == Node(r.receiptHash, r.timestampMs, r.operation, fields["category"], fields["key"],
                 if "source" in fields then fields["source"] else "unknown", r.outputSummary, n.parent)
  }

  /** The receipts behind a graph: the writes and removes, by time and then by hash. */
  lemma GraphReceipts(records: seq<Receipt>) returns (ordered: seq<Receipt>)
    ensures GraphNodes(records) == Nodes(ordered)
    ensures forall r :: multiset(ordered)[r]
                        == if r.operation == "write" || r.operation == "remove" then multiset(records)[r] else 0
    ensures forall i, j | 0 <= i < j < |ordered| ::
              || ordered[i].timestampMs < ordered[j].timestampMs
              || (ordered[i].timestampMs == ordered[j].timestampMs
                  && StringLe(ordered[i].receiptHash, ordered[j].receiptHash))
  {
    ordered := RelevantInOrder(records);
    var relevant := Filter(records, Relevant);
    ReceiptLePreorder();
    SortSorted(relevant, ReceiptLe);
    SortMultiset(relevant, ReceiptLe);
    forall r ensures multiset(ordered)[r] == if Relevant(r) then multiset(records)[r] else 0 {
      FilterMultiset(records, Relevant, r);
    }
    forall i, j | 0 <= i < j < |ordered|
      ensures ordered[i].timestampMs < ordered[j].timestampMs
              || (ordered[i].timestampMs == ordered[j].timestampMs
                  && StringLe(ordered[i].receiptHash, ordered[j].receiptHash)) {
      assert ReceiptLe(ordered[i], ordered[j]);
    }
  }

  // ----- the order of the records does not matter -----

  lemma ReceiptLePreorder()
    ensures TotalPreorder(ReceiptLe)
  {
    forall a, b ensures ReceiptLe(a, b) || ReceiptLe(b, a) { StringLeTotal(a.receiptHash, b.receiptHash); }
    forall a, b, c | ReceiptLe(a, b) && ReceiptLe(b, c) ensures ReceiptLe(a, c) {
      if a.timestampMs == b.timestampMs == c.timestampMs {
        StringLeTransitive(a.receiptHash, b.receiptHash, c.receiptHash);
      }
    }
  }

  lemma {:induction false} FilterMultiset(a: seq<Receipt>, p: Receipt -> bool, r: Receipt)
    ensures multiset(Filter(a, p))[r] == if p(r) then multiset(a)[r] else 0
  {
    if a == [] {
    } else {
      FilterMultiset(a[..|a| - 1], p, r);
      assert a == a[..|a| - 1] + [a[|a| - 1]];
    }
  }

  /** The receipts that give nodes. */
  function NamedReceipts(records: seq<Receipt>): seq<Receipt> {
    Filter(Filter(records, Relevant), Named)
  }

  /** No two write or remove receipts that name a slot have the same hash. */
  ghost predicate UniqueHashes(records: seq<Receipt>) {
    DistinctBy(NamedReceipts(records), HashOf)
  }

  lemma {:induction false} NodesSkipUnnamed(receipts: seq<Receipt>)
    ensures Nodes(Filter(receipts, Named)) == Nodes(receipts)
  {
    if receipts == [] {
    } else {
      var front, last := receipts[..|receipts| - 1], receipts[|receipts| - 1];
      NodesSkipUnnamed(front);
      var kept := Filter(front, Named);
      assert Filter(receipts, Named) == if Named(last) then kept + [last] else kept;
      assert (kept + [last])[..|kept|] == kept;
    }
  }

  lemma GraphOfNamed(records: seq<Receipt>)
    ensures GraphNodes(records) == Nodes(Sort(NamedReceipts(records), ReceiptLe))
  {
    ReceiptLePreorder();
    NodesSkipUnnamed(RelevantInOrder(records));
    FilterSort(Filter(records, Relevant), ReceiptLe, Named);
  }

  /** Each named receipt becomes one node. */
  lemma {:induction false} NodesOfNamed(receipts: seq<Receipt>)
    requires forall r | r in receipts :: Named(r)
    ensures |Nodes(receipts)| == |receipts|
    ensures forall i | 0 <= i < |receipts| ::
      var n, r := Nodes(receipts)[i], receipts[i];
      n.nodeId == r.receiptHash && NodeSlot(n) == ReceiptSlot(r) && n.operation == r.operation
          && n.timestampMs == r.timestampMs
  {
    if receipts == [] {
    } else {
      var front, last := receipts[..|receipts| - 1], receipts[|receipts| - 1];
      assert receipts == front + [last] && last in receipts;
      NodesOfNamed(front);
    }
  }

  ghost predicate NamesSlot(r: Receipt) {
    HasText(Parse(r.inputSummary), "category") && HasText(Parse(r.inputSummary), "key")
  }

  lemma {:induction false} NodesAreMade(receipts: seq<Receipt>)
    requires forall r | r in receipts :: Named(r)
    ensures |Nodes(receipts)| == |receipts|
    ensures forall i | 0 <= i < |receipts| :: MadeOf(Nodes(receipts)[i], receipts[i])
  {
    if receipts == [] {
    } else {
      var front, last := receipts[..|receipts| - 1], receipts[|receipts| - 1];
      assert receipts == front + [last] && last in receipts;
      NodesAreMade(front);
      assert MadeOf(MakeNode(last, Nearest(Nodes(front), ReceiptSlot(last))), last);
    }
  }

  /** The nodes are made of the receipts that name a category and a key, in their order. */
  lemma NodesExactly(receipts: seq<Receipt>) returns (at: seq<nat>)
    ensures |Nodes(receipts)| == |at| && forall j, k | 0 <= j < k < |at| :: at[j] < at[k]
    ensures forall k | 0 <= k < |at| :: at[k] < |receipts| && MadeOf(Nodes(receipts)[k], receipts[at[k]])
    ensures forall i: nat :: i in at <==> i < |receipts| && NamesSlot(receipts[i])
  {
    at := FilterIsSubsequence(receipts, Named);
    var named := Filter(receipts, Named);
    FilterMembers(receipts, Named);
    NodesSkipUnnamed(receipts);
    NodesAreMade(named);
    forall k | 0 <= k < |at| ensures at[k] < |receipts| && MadeOf(Nodes(receipts)[k], receipts[at[k]]) {
      assert named[k] == receipts[at[k]];
    }
    forall i: nat | i < |receipts| ensures Named(receipts[i]) <==> NamesSlot(receipts[i]) {}
  }

  lemma DistinctHashesTie(receipts: seq<Receipt>)
    requires DistinctBy(receipts, HashOf)
    ensures TiesEqual(receipts, ReceiptLe)
  {
    forall i, j | 0 <= i < |receipts| && 0 <= j < |receipts|
                  && ReceiptLe(receipts[i], receipts[j]) && ReceiptLe(receipts[j], receipts[i])
      ensures receipts[i] == receipts[j] {
      StringLeTotal(receipts[i].receiptHash, receipts[j].receiptHash);
      DistinctAt(receipts, HashOf, i, j);
    }
  }

  /** With distinct hashes, the same receipts in any order give the same graph. */
  lemma GraphIgnoresRecordOrder(a: seq<Receipt>, b: seq<Receipt>)
    requires UniqueHashes(a) && multiset(a) == multiset(b)
    ensures GraphNodes(a) == GraphNodes(b)
  {
    var fa, fb := NamedReceipts(a), NamedReceipts(b);
    forall r ensures multiset(fa)[r] == multiset(fb)[r] {
      FilterMultiset(a, Relevant, r);
      FilterMultiset(b, Relevant, r);
      FilterMultiset(Filter(a, Relevant), Named, r);
      FilterMultiset(Filter(b, Relevant), Named, r);
    }
    GraphOfNamed(a);
    GraphOfNamed(b);
    ReceiptLePreorder();
    SortSorted(fa, ReceiptLe);
    SortSorted(fb, ReceiptLe);
    SortMultiset(fa, ReceiptLe);
    SortMultiset(fb, ReceiptLe);
    SortDistinct(fa, ReceiptLe, HashOf);
    DistinctHashesTie(Sort(fa, ReceiptLe));
    SortedUnique(Sort(fa, ReceiptLe), Sort(fb, ReceiptLe), ReceiptLe);
  }

  // ----- the parent relation -----

  /** Every parent link leads to the nearest earlier node of the same slot. */
  ghost predicate Linked(nodes: seq<Node>) {
    forall i | 0 <= i < |nodes| :: nodes[i].parent == Nearest(nodes[..i], NodeSlot(nodes[i]))
  }

  lemma {:induction false} NodesLinked(receipts: seq<Receipt>)
    ensures Linked(Nodes(receipts))
  {
    if receipts == [] {
    } else {
      var front := receipts[..|receipts| - 1];
      NodesLinked(front);
      var before, nodes := Nodes(front), Nodes(receipts);
      forall i | 0 <= i < |nodes| ensures nodes[i].parent == Nearest(nodes[..i], NodeSlot(nodes[i])) {
        assert nodes[..i] == before[..i];
        assert before[..|before|] == before;
      }
    }
  }

  lemma NamedNodesDistinct(receipts: seq<Receipt>)
    requires forall r | r in receipts :: Named(r)
    ensures DistinctBy(Nodes(receipts), NodeId) <==> DistinctBy(receipts, HashOf)
  {
    NodesOfNamed(receipts);
    assert forall i | 0 <= i < |receipts| :: NodeId(Nodes(receipts)[i]) == HashOf(receipts[i]);
  }

  /** The node ids are distinct exactly when the hashes of the receipts that give nodes are. */
  lemma NodesDistinctExactly(receipts: seq<Receipt>)
    ensures DistinctBy(Nodes(receipts), NodeId) <==> DistinctBy(Filter(receipts, Named), HashOf)
  {
    NodesSkipUnnamed(receipts);
    FilterMembers(receipts, Named);
    NamedNodesDistinct(Filter(receipts, Named));
  }

  /** The graph of any log is well linked, and its node ids are distinct exactly when the
      hashes of its named write and remove receipts are. */
  lemma GraphWellFormed(records: seq<Receipt>)
    ensures Linked(GraphNodes(records))
    ensures DistinctBy(GraphNodes(records), NodeId) <==> UniqueHashes(records)
  {
    NodesLinked(RelevantInOrder(records));
    GraphOfNamed(records);
    var named := NamedReceipts(records);
    FilterMembers(Filter(records, Relevant), Named);
    SortMembers(named, ReceiptLe);
    NamedNodesDistinct(Sort(named, ReceiptLe));
    SortDistinctExactly(named, ReceiptLe, HashOf);
  }

  /** nodes[j] is the last node of its slot among the first n. */
  ghost predicate LastBefore(nodes: seq<Node>, n: nat, j: nat) {
    j < n <= |nodes| && forall k | j < k < n :: NodeSlot(nodes[k]) != NodeSlot(nodes[j])
  }

  lemma {:induction false} NearestIsLast(nodes: seq<Node>, n: nat, slot: Slot)
    requires n <= |nodes|
    ensures match Nearest(nodes[..n], slot)
            case None => forall k | 0 <= k < n :: NodeSlot(nodes[k]) != slot
            case Some(id) => exists j: nat ::
                LastBefore(nodes, n, j) && NodeSlot(nodes[j]) == slot && nodes[j].nodeId == id
  {
    if n == 0 {
    } else {
      assert nodes[..n][..n - 1] == nodes[..n - 1];
      NearestIsLast(nodes, n - 1, slot);
      if NodeSlot(nodes[n - 1]) == slot {
        assert LastBefore(nodes, n, n - 1);
      } else if Nearest(nodes[..n], slot).Some? {
        var j: nat :| LastBefore(nodes, n - 1, j) && NodeSlot(nodes[j]) == slot
                      && nodes[j].nodeId == Nearest(nodes[..n], slot).value;
        assert LastBefore(nodes, n, j);
      }
    }
  }

  /** k's parent is i exactly when i is the nearest earlier node of k's slot. */
  lemma ParentIsNearest(nodes: seq<Node>, i: nat, k: nat)
    requires Linked(nodes) && DistinctBy(nodes, NodeId) && i < |nodes| && k < |nodes|
    ensures nodes[k].parent == Some(nodes[i].nodeId)
            <==> LastBefore(nodes, k, i) && NodeSlot(nodes[i]) == NodeSlot(nodes[k])
    ensures nodes[k].parent == None <==> forall j | 0 <= j < k :: NodeSlot(nodes[j]) != NodeSlot(nodes[k])
  {
    var slot := NodeSlot(nodes[k]);
    NearestIsLast(nodes, k, slot);
    if nodes[k].parent.Some? {
      var j: nat :| LastBefore(nodes, k, j) && NodeSlot(nodes[j]) == slot && nodes[j].nodeId == nodes[k].parent.value;
      if nodes[j].nodeId == nodes[i].nodeId {
        DistinctAt(nodes, NodeId, i, j);
      }
    }
  }

  /** In any graph a node is its own parent exactly when the last earlier node of its slot has
      its id. */
  lemma SelfParentExactly(nodes: seq<Node>, k: nat)
    requires Linked(nodes) && k < |nodes|
    ensures nodes[k].parent == Some(nodes[k].nodeId)
            <==> exists j: nat :: LastBefore(nodes, k, j) && NodeSlot(nodes[j]) == NodeSlot(nodes[k])
                                  && nodes[j].nodeId == nodes[k].nodeId
  {
    NearestIsLast(nodes, k, NodeSlot(nodes[k]));
  }
}
