// What the walks over the lineage graph find: with distinct receipt hashes the nodes of one
// (category, key) form a lane, ancestors lie before a node in its lane and descendants after.

module Lanes {
  import opened Options
  import opened Sorting
  import opened MemoryTypes
  import opened Lineage
  import opened LineageWalk

  ghost predicate GoodGraph(nodes: seq<Node>) {
    Linked(nodes) && DistinctBy(nodes, NodeId)
  }

  /** The ids of the nodes in that slot, in list order. */
  ghost function Lane(nodes: seq<Node>, slot: Slot): seq<string> {
    if nodes == [] then []
    else Lane(nodes[..|nodes| - 1], slot)
         + (if NodeSlot(nodes[|nodes| - 1]) == slot then [nodes[|nodes| - 1].nodeId] else [])
  }

  /** The last elements of s, at most limit of them, latest first. */
  ghost function TakeBack(s: seq<string>, limit: nat): seq<string> {
    if limit == 0 || s == [] then [] else [s[|s| - 1]] + TakeBack(s[..|s| - 1], limit - 1)
  }

  /** The first elements of s, at most limit of them but at least one if there is one. */
  ghost function TakeFront(s: seq<string>, limit: nat): seq<string> {
    if s == [] then [] else if limit <= 1 then [s[0]] else [s[0]] + TakeFront(s[1..], limit - 1)
  }

  /** Counted from the end of s. */
  lemma {:induction false} TakeBackExactly(s: seq<string>, limit: nat)
    ensures |TakeBack(s, limit)| == if limit < |s| then limit else |s|
    ensures forall k | 0 <= k < |TakeBack(s, limit)| :: TakeBack(s, limit)[k] == s[|s| - 1 - k]
  {
    if limit > 0 && s != [] {
      TakeBackExactly(s[..|s| - 1], limit - 1);
    }
  }

  /** Counted from the start of s. */
  lemma {:induction false} TakeFrontExactly(s: seq<string>, limit: nat)
    ensures |TakeFront(s, limit)| == if |s| <= 1 || |s| <= limit then |s| else if limit == 0 then 1 else limit
    ensures forall k | 0 <= k < |TakeFront(s, limit)| :: TakeFront(s, limit)[k] == s[k]
  {
    if s != [] && limit > 1 {
      TakeFrontExactly(s[1..], limit - 1);
    }
  }

  /** A lane lists the ids of the slot's nodes in the order of the list. */
  lemma {:induction false} LaneInOrder(nodes: seq<Node>, slot: Slot) returns (at: seq<nat>)
    ensures |Lane(nodes, slot)| == |at| && forall j, k | 0 <= j < k < |at| :: at[j] < at[k]
    ensures forall k | 0 <= k < |at| :: at[k] < |nodes| && Lane(nodes, slot)[k] == nodes[at[k]].nodeId
    ensures forall i: nat :: i in at <==> i < |nodes| && (nodes[i].category, nodes[i].key) == slot
  {
    at := [];
    if nodes == [] {
    } else {
      var front, last := nodes[..|nodes| - 1], nodes[|nodes| - 1];
      at := LaneInOrder(front, slot);
      if NodeSlot(last) == slot {
        at := at + [|front|];
      }
    }
  }

  // ----- the maps -----

  lemma {:induction false} MapsHoldNodes(nodes: seq<Node>, i: nat)
    requires DistinctBy(nodes, NodeId) && i < |nodes|
    ensures nodes[i].nodeId in NodeMap(nodes) && NodeMap(nodes)[nodes[i].nodeId] == nodes[i]
    ensures nodes[i].nodeId in ParentMap(nodes) && ParentMap(nodes)[nodes[i].nodeId] == nodes[i].parent
  {
    var front, last := nodes[..|nodes| - 1], nodes[|nodes| - 1];
    if i < |front| {
      assert nodes == front + [last];
      DistinctPush(front, last, NodeId);
      assert NodeId(nodes[i]) != NodeId(last);
      MapsHoldNodes(front, i);
    }
  }

  // ----- lanes -----

  lemma {:induction false} LaneSplit(a: seq<Node>, b: seq<Node>, slot: Slot)
    ensures Lane(a + b, slot) == Lane(a, slot) + Lane(b, slot)
    decreases |b|
  {
    if b == [] {
      assert a + b == a;
    } else {
      LaneSplit(a, b[..|b| - 1], slot);
      assert (a + b)[..|a + b| - 1] == a + b[..|b| - 1];
    }
  }

  lemma {:induction false} LaneSkips(nodes: seq<Node>, slot: Slot)
    requires forall k | 0 <= k < |nodes| :: NodeSlot(nodes[k]) != slot
    ensures Lane(nodes, slot) == []
  {
    if nodes == [] {
    } else {
      LaneSkips(nodes[..|nodes| - 1], slot);
    }
  }

  lemma LaneOne(node: Node)
    ensures Lane([node], NodeSlot(node)) == [node.nodeId]
  {
    assert [node][..0] == [];
  }

  lemma {:induction false} LaneLength(nodes: seq<Node>, slot: Slot)
    ensures |Lane(nodes, slot)| <= |nodes|
  {
    if nodes == [] {
    } else {
      LaneLength(nodes[..|nodes| - 1], slot);
    }
  }

  lemma LaneMembers(nodes: seq<Node>, slot: Slot, id: string)
    ensures id in Lane(nodes, slot)
            <==> exists k :: 0 <= k < |nodes| && NodeSlot(nodes[k]) == slot && nodes[k].nodeId == id
    ensures |Lane(nodes, slot)| <= |nodes|
  {
    LaneLength(nodes, slot);
    var lane := Lane(nodes, slot);
    var at := LaneInOrder(nodes, slot);
    if id in lane {
      var j :| 0 <= j < |lane| && lane[j] == id;
      assert at[j] in at && NodeSlot(nodes[at[j]]) == slot;
    }
    if k: nat :| k < |nodes| && NodeSlot(nodes[k]) == slot && nodes[k].nodeId == id {
      assert k in at;
      var j :| 0 <= j < |at| && at[j] == k;
      assert lane[j] == id;
    }
  }

  // ----- ancestors -----

  /** The nearest node of a slot is the end of its lane. */
  lemma {:induction false} NearestEndsLane(nodes: seq<Node>, slot: Slot)
    ensures var lane := Lane(nodes, slot);
            Nearest(nodes, slot) == if lane == [] then None else Some(lane[|lane| - 1])
  {
    if nodes == [] {
    } else {
      NearestEndsLane(nodes[..|nodes| - 1], slot);
    }
  }

  /** The parent of the k-th id is the one before it. */
  ghost predicate ChainsAt(parents: map<string, Option<string>>, lane: seq<string>, k: nat)
    requires k < |lane|
  {
    lane[k] in parents && parents[lane[k]] == if k == 0 then None else Some(lane[k - 1])
  }

  ghost predicate ChainsBack(parents: map<string, Option<string>>, lane: seq<string>) {
    forall k: nat | k < |lane| :: ChainsAt(parents, lane, k)
  }

  lemma ChainsPush(parents: map<string, Option<string>>, lane: seq<string>, id: string)
    requires ChainsBack(parents, lane) && id in parents
    requires parents[id] == if lane == [] then None else Some(lane[|lane| - 1])
    ensures ChainsBack(parents, lane + [id])
  {
    forall k: nat | k < |lane + [id]| ensures ChainsAt(parents, lane + [id], k) {
      if k < |lane| {
        assert ChainsAt(parents, lane, k);
      }
    }
  }

  /** The parent map sends the i-th node to the end of its lane before it. */
  ghost predicate LinksAt(parents: map<string, Option<string>>, nodes: seq<Node>, i: nat)
    requires i < |nodes|
  {
    var lane := Lane(nodes[..i], NodeSlot(nodes[i]));
    nodes[i].nodeId in parents && parents[nodes[i].nodeId] == if lane == [] then None else Some(lane[|lane| - 1])
  }

  lemma GoodGraphLinks(nodes: seq<Node>, i: nat)
    requires GoodGraph(nodes) && i < |nodes|
    ensures LinksAt(ParentMap(nodes), nodes, i)
  {
    MapsHoldNodes(nodes, i);
    NearestEndsLane(nodes[..i], NodeSlot(nodes[i]));
  }

  lemma LanePush(nodes: seq<Node>, i: nat, slot: Slot)
    requires i < |nodes|
    ensures Lane(nodes[..i + 1], slot)
            == if NodeSlot(nodes[i]) == slot then Lane(nodes[..i], slot) + [nodes[i].nodeId] else Lane(nodes[..i], slot)
  {
    assert nodes[..i + 1][..i] == nodes[..i];
  }

  /** Every lane is a chain of parents. */
  lemma {:induction false} LaneChainsBack(parents: map<string, Option<string>>, nodes: seq<Node>, n: nat, slot: Slot)
    requires n <= |nodes| && forall i: nat | i < |nodes| :: LinksAt(parents, nodes, i)
    ensures ChainsBack(parents, Lane(nodes[..n], slot))
  {
    if n == 0 {
    } else {
      LaneChainsBack(parents, nodes, n - 1, slot);
      LanePush(nodes, n - 1, slot);
      if NodeSlot(nodes[n - 1]) == slot {
        assert LinksAt(parents, nodes, n - 1);
        ChainsPush(parents, Lane(nodes[..n - 1], slot), nodes[n - 1].nodeId);
      }
    }
  }

  /** Walking up a chain reads it backwards. */
  lemma {:induction false} ChainWalk(parents: map<string, Option<string>>, lane: seq<string>, k: nat, limit: nat)
    requires ChainsBack(parents, lane) && k < |lane|
    ensures Ancestors(parents, lane[k], limit) == TakeBack(lane[..k], limit)
    decreases k
  {
    assert ChainsAt(parents, lane, k);
    if k > 0 && limit > 0 {
      ChainWalk(parents, lane, k - 1, limit - 1);
      assert lane[..k][..k - 1] == lane[..k - 1];
    }
  }

  /** The ancestors of a node are its lane read backwards from it. */
  lemma AncestorsAreLaneBefore(nodes: seq<Node>, i: nat, limit: nat)
    requires GoodGraph(nodes) && i < |nodes|
    ensures Ancestors(ParentMap(nodes), nodes[i].nodeId, limit) == TakeBack(Lane(nodes[..i], NodeSlot(nodes[i])), limit)
  {
    var slot := NodeSlot(nodes[i]);
    var before, lane := Lane(nodes[..i], slot), Lane(nodes[..i + 1], slot);
    forall k: nat | k < |nodes| ensures LinksAt(ParentMap(nodes), nodes, k) { GoodGraphLinks(nodes, k); }
    LaneChainsBack(ParentMap(nodes), nodes, i + 1, slot);
    LanePush(nodes, i, slot);
    assert lane[|before|] == nodes[i].nodeId && lane[..|before|] == before;
    ChainWalk(ParentMap(nodes), lane, |before|, limit);
  }

  // ----- children -----

  /** j is the first node after i in i's slot, or |nodes| if there is none. */
  ghost predicate NextIs(nodes: seq<Node>, i: nat, j: nat) {
    i < j <= |nodes| && (j < |nodes| ==> NodeSlot(nodes[j]) == NodeSlot(nodes[i]))
    && forall k | i < k < j :: NodeSlot(nodes[k]) != NodeSlot(nodes[i])
  }

  lemma {:induction false} NextInLane(nodes: seq<Node>, i: nat, n: nat) returns (j: nat)
    requires i < n <= |nodes|
    requires forall k | i < k < n :: NodeSlot(nodes[k]) != NodeSlot(nodes[i])
    ensures NextIs(nodes, i, j)
    decreases |nodes| - n
  {
    if n == |nodes| || NodeSlot(nodes[n]) == NodeSlot(nodes[i]) {
      j := n;
    } else {
      j := NextInLane(nodes, i, n + 1);
    }
  }

  /** A node's children are the nodes that come next in its lane. */
  lemma ParentMeansNext(nodes: seq<Node>, i: nat, j: nat, k: nat)
    requires GoodGraph(nodes) && i < |nodes| && k < |nodes| && NextIs(nodes, i, j)
    ensures nodes[k].parent == Some(nodes[i].nodeId) <==> k == j
  {
    ParentIsNearest(nodes, i, k);
    if nodes[k].parent == Some(nodes[i].nodeId) {
      assert LastBefore(nodes, k, i);
      assert k <= j;
    }
    if k == j {
      assert LastBefore(nodes, j, i);
    }
  }

  lemma ChildIdsPush(nodes: seq<Node>, last: Node, id: string)
    ensures ChildIds(nodes + [last], id)
            == ChildIds(nodes, id) + (if last.parent == Some(id) then [last.nodeId] else [])
  {
    assert (nodes + [last])[..|nodes|] == nodes;
  }

  ghost predicate OnlyChildIs(nodes: seq<Node>, id: string, j: nat) {
    forall k | 0 <= k < |nodes| :: nodes[k].parent == Some(id) <==> k == j
  }

  lemma {:induction false} ChildIsNext(nodes: seq<Node>, id: string, j: nat, n: nat)
    requires n <= |nodes| && OnlyChildIs(nodes, id, j)
    ensures ChildIds(nodes[..n], id) == if j < n then [nodes[j].nodeId] else []
  {
    if n == 0 {
    } else {
      ChildIsNext(nodes, id, j, n - 1);
      ChildIdsPush(nodes[..n - 1], nodes[n - 1], id);
      assert nodes[..n] == nodes[..n - 1] + [nodes[n - 1]];
    }
  }

  lemma SortDedupOne(id: string)
    ensures SortDedup([id]) == [id]
  {
    SortOfSorted([id], StringLe);
  }

  lemma SliceAt<T>(s: seq<T>, a: nat, b: nat)
    requires a <= b < |s|
    ensures s[a..] == s[a..b] + ([s[b]] + s[b + 1..])
  {
    assert s[b..] == [s[b]] + s[b + 1..];
  }

  lemma LaneAfter(nodes: seq<Node>, i: nat, j: nat)
    requires i < |nodes| && NextIs(nodes, i, j)
    ensures Lane(nodes[i + 1..], NodeSlot(nodes[i]))
            == if j == |nodes| then [] else [nodes[j].nodeId] + Lane(nodes[j + 1..], NodeSlot(nodes[i]))
  {
    var slot := NodeSlot(nodes[i]);
    if j == |nodes| {
      LaneSkips(nodes[i + 1..], slot);
    } else {
      SliceAt(nodes, i + 1, j);
      LaneSplit(nodes[i + 1..j], [nodes[j]] + nodes[j + 1..], slot);
      LaneSplit([nodes[j]], nodes[j + 1..], slot);
      LaneSkips(nodes[i + 1..j], slot);
      LaneOne(nodes[j]);
    }
  }

  /** Each node has at most one child, the next node of its lane. */
  lemma AtMostOneChild(index: GraphIndex, nodes: seq<Node>, i: nat) returns (j: nat)
    requires GoodGraph(nodes) && IsIndex(index, nodes) && i < |nodes|
    ensures NextIs(nodes, i, j)
    ensures ChildrenOf(index.children, nodes[i].nodeId) == if j == |nodes| then [] else [nodes[j].nodeId]
  {
    j := NextInLane(nodes, i, i + 1);
    forall k | 0 <= k < |nodes| ensures nodes[k].parent == Some(nodes[i].nodeId) <==> k == j {
      ParentMeansNext(nodes, i, j, k);
    }
    ChildIsNext(nodes, nodes[i].nodeId, j, |nodes|);
    assert nodes[..|nodes|] == nodes;
    if j < |nodes| {
      SortDedupOne(nodes[j].nodeId);
    }
  }

  /** What the index says about lanes: every node is in it, and each node's children are the
      next node of its lane. */
  ghost predicate FollowsLanes(index: GraphIndex, nodes: seq<Node>) {
    && (forall i | 0 <= i < |nodes| :: nodes[i].nodeId in index.nodes)
    && (forall i: nat, j: nat | i < |nodes| && NextIs(nodes, i, j) ::
          ChildrenOf(index.children, nodes[i].nodeId) == if j == |nodes| then [] else [nodes[j].nodeId])
  }

  lemma IndexFollowsLanes(index: GraphIndex, nodes: seq<Node>)
    requires GoodGraph(nodes) && IsIndex(index, nodes)
    ensures FollowsLanes(index, nodes)
  {
    forall i | 0 <= i < |nodes| ensures nodes[i].nodeId in index.nodes { MapsHoldNodes(nodes, i); }
    forall i: nat, j: nat | i < |nodes| && NextIs(nodes, i, j)
      ensures ChildrenOf(index.children, nodes[i].nodeId) == if j == |nodes| then [] else [nodes[j].nodeId] {
      var k := AtMostOneChild(index, nodes, i);
      assert k == j;
    }
  }

  lemma TakeFrontCons(id: string, rest: seq<string>, limit: nat)
    ensures TakeFront([id] + rest, limit) == if limit <= 1 then [id] else [id] + TakeFront(rest, limit - 1)
  {
    assert ([id] + rest)[1..] == rest;
  }

  lemma ReachedFromOne(index: GraphIndex, id: string, visited: set<string>, room: int)
    requires id !in visited && id in index.nodes
    ensures Reached(index.children, index.nodes, [id], visited, room)
            == if room <= 1 then [id]
               else [id] + Reached(index.children, index.nodes, ChildrenOf(index.children, id), visited + {id},
                   room - 1)
  {
    assert [id][1..] + ChildrenOf(index.children, id) == ChildrenOf(index.children, id);
  }

  /** No node from position `from` on has been visited. */
  ghost predicate Ahead(nodes: seq<Node>, from: nat, visited: set<string>) {
    forall k | from <= k < |nodes| :: nodes[k].nodeId !in visited
  }

  lemma StillAhead(nodes: seq<Node>, from: nat, j: nat, visited: set<string>)
    requires DistinctBy(nodes, NodeId) && from <= j < |nodes| && Ahead(nodes, from, visited)
    ensures nodes[j].nodeId !in visited
    ensures Ahead(nodes, j + 1, visited + {nodes[j].nodeId})
  {
    forall k | j < k < |nodes| ensures nodes[k].nodeId !in visited + {nodes[j].nodeId} {
      assert NodeId(nodes[j]) != NodeId(nodes[k]);
    }
  }

  /** The walk goes on to the next node of the lane. */
  lemma ReachedNext(index: GraphIndex, nodes: seq<Node>, i: nat, j: nat, visited: set<string>, room: nat)
    requires FollowsLanes(index, nodes) && i < |nodes| && NextIs(nodes, i, j)
    requires j < |nodes| ==> nodes[j].nodeId !in visited
    ensures Reached(index.children, index.nodes, ChildrenOf(index.children, nodes[i].nodeId), visited, room)
            == if j == |nodes| then []
               else if room <= 1 then [nodes[j].nodeId]
               else [nodes[j].nodeId]
                    + Reached(index.children, index.nodes, ChildrenOf(index.children, nodes[j].nodeId),
                              visited + {nodes[j].nodeId}, room - 1)
  {
    if j < |nodes| {
      ReachedFromOne(index, nodes[j].nodeId, visited, room);
    }
  }

  lemma TakeFrontNext(nodes: seq<Node>, i: nat, j: nat, room: nat)
    requires i < |nodes| && NextIs(nodes, i, j)
    ensures TakeFront(Lane(nodes[i + 1..], NodeSlot(nodes[i])), room)
            == if j == |nodes| then []
               else if room <= 1 then [nodes[j].nodeId]
               else [nodes[j].nodeId] + TakeFront(Lane(nodes[j + 1..], NodeSlot(nodes[j])), room - 1)
  {
    LaneAfter(nodes, i, j);
    if j < |nodes| {
      TakeFrontCons(nodes[j].nodeId, Lane(nodes[j + 1..], NodeSlot(nodes[j])), room);
    }
  }

  /** The breadth-first walk from a node reads its lane forwards. */
  lemma {:induction false} ReachedIsLaneAfter(index: GraphIndex, nodes: seq<Node>, i: nat, visited: set<string>,
          room: nat)
    requires DistinctBy(nodes, NodeId) && FollowsLanes(index, nodes) && i < |nodes|
    requires Ahead(nodes, i + 1, visited)
    ensures Reached(index.children, index.nodes, ChildrenOf(index.children, nodes[i].nodeId), visited, room)
            == TakeFront(Lane(nodes[i + 1..], NodeSlot(nodes[i])), room)
    decreases |nodes| - i
  {
    var j := NextInLane(nodes, i, i + 1);
    if j < |nodes| {
      StillAhead(nodes, i + 1, j, visited);
      if room > 1 {
        ReachedIsLaneAfter(index, nodes, j, visited + {nodes[j].nodeId}, room - 1);
      }
    }
    ReachedNext(index, nodes, i, j, visited, room);
    TakeFrontNext(nodes, i, j, room);
  }

  /** The descendants of a node are its lane read forwards from it. */
  lemma DescendantsAreLaneAfter(index: GraphIndex, nodes: seq<Node>, i: nat, limit: nat)
    requires GoodGraph(nodes) && IsIndex(index, nodes) && i < |nodes|
    ensures Descendants(index, nodes[i].nodeId, limit) == TakeFront(Lane(nodes[i + 1..], NodeSlot(nodes[i])), limit)
  {
    IndexFollowsLanes(index, nodes);
    ReachedIsLaneAfter(index, nodes, i, {}, limit);
  }

  // ----- consequences -----

  lemma {:induction false} TakeBackWithin(s: seq<string>, limit: nat, id: string)
    ensures id in TakeBack(s, limit) ==> id in s
    ensures limit >= |s| ==> (id in TakeBack(s, limit) <==> id in s)
  {
    if limit > 0 && s != [] {
      assert s == s[..|s| - 1] + [s[|s| - 1]];
      TakeBackWithin(s[..|s| - 1], limit - 1, id);
    }
  }

  lemma {:induction false} TakeFrontWithin(s: seq<string>, limit: nat, id: string)
    ensures id in TakeFront(s, limit) ==> id in s
    ensures limit >= |s| ==> (id in TakeFront(s, limit) <==> id in s)
  {
    if s == [] {
    } else {
      assert s == [s[0]] + s[1..];
      if limit > 1 {
        TakeFrontWithin(s[1..], limit - 1, id);
      }
    }
  }

  lemma InLaneBefore(nodes: seq<Node>, i: nat, k: nat)
    requires DistinctBy(nodes, NodeId) && i < |nodes| && k < |nodes|
    ensures nodes[k].nodeId in Lane(nodes[..i], NodeSlot(nodes[i]))
            <==> k < i && NodeSlot(nodes[k]) == NodeSlot(nodes[i])
  {
    var before, slot := nodes[..i], NodeSlot(nodes[i]);
    LaneMembers(before, slot, nodes[k].nodeId);
    if nodes[k].nodeId in Lane(before, slot) {
      var m :| 0 <= m < i && NodeSlot(before[m]) == slot && before[m].nodeId == nodes[k].nodeId;
      DistinctAt(nodes, NodeId, m, k);
    }
    if k < i {
      assert before[k] == nodes[k];
    }
  }

  lemma InLaneAfter(nodes: seq<Node>, i: nat, k: nat)
    requires DistinctBy(nodes, NodeId) && i < |nodes| && k < |nodes|
    ensures nodes[k].nodeId in Lane(nodes[i + 1..], NodeSlot(nodes[i]))
            <==> k > i && NodeSlot(nodes[k]) == NodeSlot(nodes[i])
  {
    var after, slot := nodes[i + 1..], NodeSlot(nodes[i]);
    LaneMembers(after, slot, nodes[k].nodeId);
    if nodes[k].nodeId in Lane(after, slot) {
      var m :| 0 <= m < |after| && NodeSlot(after[m]) == slot && after[m].nodeId == nodes[k].nodeId;
      DistinctAt(nodes, NodeId, i + 1 + m, k);
    }
    if k > i {
      assert after[k - i - 1] == nodes[k];
    }
  }

  /** Every ancestor is an earlier node of the same slot, and with a large enough limit every
      such node is an ancestor. */
  lemma AncestorsExactly(nodes: seq<Node>, i: nat, k: nat, limit: nat)
    requires GoodGraph(nodes) && i < |nodes| && k < |nodes|
    ensures var found := nodes[k].nodeId in Ancestors(ParentMap(nodes), nodes[i].nodeId, limit);
            && (found ==> k < i && NodeSlot(nodes[k]) == NodeSlot(nodes[i]))
            && (limit >= |nodes| ==> (found <==> k < i && NodeSlot(nodes[k]) == NodeSlot(nodes[i])))
  {
    var lane := Lane(nodes[..i], NodeSlot(nodes[i]));
    AncestorsAreLaneBefore(nodes, i, limit);
    TakeBackWithin(lane, limit, nodes[k].nodeId);
    LaneMembers(nodes[..i], NodeSlot(nodes[i]), nodes[k].nodeId);
    InLaneBefore(nodes, i, k);
  }

  /** Every descendant is a later node of the same slot, and with a large enough limit every
      such node is a descendant. */
  lemma DescendantsExactly(index: GraphIndex, nodes: seq<Node>, i: nat, k: nat, limit: nat)
    requires GoodGraph(nodes) && IsIndex(index, nodes) && i < |nodes| && k < |nodes|
    ensures var found := nodes[k].nodeId in Descendants(index, nodes[i].nodeId, limit);
            && (found ==> k > i && NodeSlot(nodes[k]) == NodeSlot(nodes[i]))
            && (limit >= |nodes| ==> (found <==> k > i && NodeSlot(nodes[k]) == NodeSlot(nodes[i])))
  {
    var lane := Lane(nodes[i + 1..], NodeSlot(nodes[i]));
    DescendantsAreLaneAfter(index, nodes, i, limit);
    TakeFrontWithin(lane, limit, nodes[k].nodeId);
    LaneMembers(nodes[i + 1..], NodeSlot(nodes[i]), nodes[k].nodeId);
    InLaneAfter(nodes, i, k);
  }

  /** With a large enough limit, k is an ancestor of i exactly when i is a descendant of k;
      and no node is its own ancestor, whatever the limit. */
  lemma AncestorIffDescendant(index: GraphIndex, nodes: seq<Node>, i: nat, k: nat, limit: nat)
    requires GoodGraph(nodes) && IsIndex(index, nodes) && i < |nodes| && k < |nodes|
    ensures limit >= |nodes| ==>
      (nodes[k].nodeId in Ancestors(index.parents, nodes[i].nodeId, limit)
       <==> nodes[i].nodeId in Descendants(index, nodes[k].nodeId, limit))
    ensures nodes[i].nodeId !in Ancestors(index.parents, nodes[i].nodeId, limit)
    ensures nodes[i].nodeId !in Descendants(index, nodes[i].nodeId, limit)
  {
    AncestorsExactly(nodes, i, k, limit);
    AncestorsExactly(nodes, i, i, limit);
    DescendantsExactly(index, nodes, k, i, limit);
    DescendantsExactly(index, nodes, i, i, limit);
  }

  // ----- repeated hashes -----

  /** Two writes of one slot whose receipts have the same hash make a node its own parent, and
      the ancestor walk repeats it up to the limit. */
  lemma RepeatedHashMakesCycle(r: Receipt, limit: nat)
    requires Named(r)
    ensures var nodes := Nodes([r, r]);
            && |nodes| == 2 && nodes[1].parent == Some(nodes[1].nodeId)
            && Ancestors(ParentMap(nodes), r.receiptHash, limit) == seq(limit, _ => r.receiptHash)
  {
    assert [r, r][..1] == [r] && [r][..0] == [];
    var first := MakeNode(r, None);
    assert Nodes([r]) == [first];
    assert [first][..0] == [];
    var second := MakeNode(r, Some(r.receiptHash));
    assert Nodes([r, r]) == [first, second];
    var parents := ParentMap([first, second]);
    assert [first, second][..1] == [first];
    assert parents[r.receiptHash] == Some(r.receiptHash);
    SelfLoop(parents, r.receiptHash, limit);
  }

  lemma {:induction false} SelfLoop(parents: map<string, Option<string>>, id: string, limit: nat)
    requires id in parents && parents[id] == Some(id)
    ensures Ancestors(parents, id, limit) == seq(limit, _ => id)
  {
    if limit == 0 {
    } else {
      SelfLoop(parents, id, limit - 1);
    }
  }
}
