// The graph index and the walks over it
// (crates/loom-core/src/memory_service.rs, build_graph_index, collect_ancestor_ids and
// collect_descendant_ids).

module LineageWalk {
  import opened Options
  import opened Sorting
  import opened Lineage

  datatype GraphIndex = GraphIndex(
    nodes: map<string, Node>,
    parents: map<string, Option<string>>,
    children: map<string, seq<string>>)

  // ----- the index -----

  function NodeMap(nodes: seq<Node>): map<string, Node> {
    if nodes == [] then map[]
    else NodeMap(nodes[..|nodes| - 1])[nodes[|nodes| - 1].nodeId := nodes[|nodes| - 1]]
  }

  function ParentMap(nodes: seq<Node>): map<string, Option<string>> {
    if nodes == [] then map[]
    else ParentMap(nodes[..|nodes| - 1])[nodes[|nodes| - 1].nodeId := nodes[|nodes| - 1].parent]
  }

  /** The ids of the nodes whose parent is p, in list order. */
  function ChildIds(nodes: seq<Node>, p: string): seq<string> {
    if nodes == [] then []
    else ChildIds(nodes[..|nodes| - 1], p)
         + (if nodes[|nodes| - 1].parent == Some(p) then [nodes[|nodes| - 1].nodeId] else [])
  }

  function ChildrenOf(children: map<string, seq<string>>, id: string): seq<string> {
    if id in children then children[id] else []
  }

  /** `dedup`: drops an element equal to the one before it. */
  function Dedup(s: seq<string>): seq<string> {
    if |s| <= 1 then s
    else if s[0] == s[1] then Dedup(s[1..])
    else [s[0]] + Dedup(s[1..])
  }

  function SortDedup(s: seq<string>): seq<string> {
    Dedup(Sort(s, StringLe))
  }

  /** Every list of children, raw or sorted and without repetitions. */
  ghost predicate HoldsChildren(children: map<string, seq<string>>, nodes: seq<Node>, done: set<string>) {
    forall p :: (p in children <==> ChildIds(nodes, p) != [])
      && (p in children ==> children[p] == if p in done then SortDedup(ChildIds(nodes, p)) else ChildIds(nodes, p))
  }

  ghost predicate IsIndex(index: GraphIndex, nodes: seq<Node>) {
    && index.nodes == NodeMap(nodes)
    && index.parents == ParentMap(nodes)
    && HoldsChildren(index.children, nodes, index.children.Keys)
  }

  function ParentIds(nodes: seq<Node>): set<string> {
    set n | n in nodes && n.parent.Some? :: n.parent.value
  }

  /** The index as one value. */
  function IndexOf(nodes: seq<Node>): GraphIndex {
    GraphIndex(NodeMap(nodes), ParentMap(nodes), map p | p in ParentIds(nodes) :: SortDedup(ChildIds(nodes, p)))
  }

  lemma {:induction false} ParentsHaveChildren(nodes: seq<Node>, p: string)
    ensures ChildIds(nodes, p) != [] <==> p in ParentIds(nodes)
  {
    if nodes == [] {
    } else {
      var front, last := nodes[..|nodes| - 1], nodes[|nodes| - 1];
      ParentsHaveChildren(front, p);
      assert nodes == front + [last];
      assert last in nodes;
    }
  }

  lemma IndexIsUnique(index: GraphIndex, nodes: seq<Node>)
    ensures IsIndex(index, nodes) <==> index == IndexOf(nodes)
  {
    forall p ensures ChildIds(nodes, p) != [] <==> p in ParentIds(nodes) { ParentsHaveChildren(nodes, p); }
    var wanted := IndexOf(nodes).children;
    if IsIndex(index, nodes) {
      assert index.children.Keys == wanted.Keys;
      assert forall p | p in wanted :: index.children[p] == wanted[p];
    }
  }

  /** The node appended to its parent's list. */
  function WithChild(children: map<string, seq<string>>, node: Node): map<string, seq<string>> {
    if node.parent == None then children
    else children[node.parent.value := ChildrenOf(children, node.parent.value) + [node.nodeId]]
  }

  lemma WithChildHolds(children: map<string, seq<string>>, before: seq<Node>, node: Node)
    requires HoldsChildren(children, before, {})
    ensures HoldsChildren(WithChild(children, node), before + [node], {})
  {
    assert (before + [node])[..|before|] == before;
    forall p ensures ChildIds(before + [node], p)
                     == ChildIds(before, p) + (if node.parent == Some(p) then [node.nodeId] else []) {}
  }

  method BuildGraphIndex(nodes: seq<Node>) returns (index: GraphIndex)
    ensures index == IndexOf(nodes)
  {
    var nodeMap: map<string, Node> := map[];
    var parents: map<string, Option<string>> := map[];
    var children: map<string, seq<string>> := map[];
    for i := 0 to |nodes|
      invariant nodeMap == NodeMap(nodes[..i]) && parents == ParentMap(nodes[..i])
      invariant HoldsChildren(children, nodes[..i], {})
    {
      var node := nodes[i];
      assert nodes[..i + 1] == nodes[..i] + [node] && nodes[..i + 1][..i] == nodes[..i];
      WithChildHolds(children, nodes[..i], node);
      nodeMap := nodeMap[node.nodeId := node];
      parents := parents[node.nodeId := node.parent];
      children := WithChild(children, node);
    }
    assert nodes[..|nodes|] == nodes;
    var todo := children.Keys;
    while todo != {}
      invariant todo <= children.Keys
      invariant HoldsChildren(children, nodes, children.Keys - todo)
      decreases |todo|
    {
      var p :| p in todo;
      children := children[p := SortDedup(children[p])];
      todo := todo - {p};
    }
    index := GraphIndex(nodeMap, parents, children);
    IndexIsUnique(index, nodes);
  }

  // ----- the walks -----

  /** The chain of parents, cut off at the limit. */
  function Ancestors(parents: map<string, Option<string>>, id: string, limit: nat): seq<string>
    decreases limit
  {
    if limit == 0 || id !in parents || parents[id] == None then []
    else [parents[id].value] + Ancestors(parents, parents[id].value, limit - 1)
  }

  method CollectAncestorIds(parents: map<string, Option<string>>, nodeId: string, limit: nat)
      returns (out: seq<string>)
    ensures out == Ancestors(parents, nodeId, limit)
  {
    out := [];
    ghost var last := nodeId;
    var cursor := if nodeId in parents then parents[nodeId] else None;
    while cursor.Some?
      invariant |out| <= limit
      invariant cursor == if last in parents then parents[last] else None
      invariant Ancestors(parents, nodeId, limit) == out + Ancestors(parents, last, limit - |out|)
      decreases limit - |out|, cursor.Some?
    {
      if |out| >= limit {
        break;
      }
      var current := cursor.value;
      ghost var ahead := Ancestors(parents, current, limit - |out| - 1);
      assert out + ([current] + ahead) == (out + [current]) + ahead;
      out := out + [current];
      cursor := if current in parents then parents[current] else None;
      last := current;
    }
  }

  /** The ids that the breadth-first loop still puts out; it always puts out one before it
      looks at the limit. */
  function Reached(children: map<string, seq<string>>, nodes: map<string, Node>, queue: seq<string>,
                   visited: set<string>, room: int): seq<string>
    decreases nodes.Keys - visited, |queue|
  {
    if queue == [] then []
    else
      var current, rest := queue[0], queue[1..];
      if current in visited then Reached(children, nodes, rest, visited, room)
      else if current !in nodes then
        assert nodes.Keys - (visited + {current}) == nodes.Keys - visited;
        Reached(children, nodes, rest, visited + {current}, room)
      else if room <= 1 then [current]
      else
        assert current in nodes.Keys - visited;
        [current] + Reached(children, nodes, rest + ChildrenOf(children, current), visited + {current}, room - 1)
  }

  function Descendants(index: GraphIndex, id: string, limit: nat): seq<string> {
    Reached(index.children, index.nodes, ChildrenOf(index.children, id), {}, limit)
  }

  lemma ReachedOne(children: map<string, seq<string>>, nodes: map<string, Node>, queue: seq<string>,
                   visited: set<string>, room: int, out: seq<string>)
    requires queue != [] && queue[0] !in visited && queue[0] in nodes
    ensures room <= 1 ==> Reached(children, nodes, queue, visited, room) == [queue[0]]
    ensures room > 1 ==>
      out + Reached(children, nodes, queue, visited, room)
      == (out + [queue[0]])
         + Reached(children, nodes, queue[1..] + ChildrenOf(children, queue[0]), visited + {queue[0]}, room - 1)
  {
  }

  method CollectDescendantIds(children: map<string, seq<string>>, nodes: map<string, Node>, nodeId: string, limit: nat)
      returns (out: seq<string>)
    ensures out == Reached(children, nodes, ChildrenOf(children, nodeId), {}, limit)
  {
    out := [];
    var queue := ChildrenOf(children, nodeId);
    var visited: set<string> := {};
    while queue != []
      invariant Reached(children, nodes, ChildrenOf(children, nodeId), {}, limit)
                == out + Reached(children, nodes, queue, visited, limit - |out|)
      decreases nodes.Keys - visited, |queue|
    {
      var current, rest := queue[0], queue[1..];
      if current in visited {
        queue := rest;
      } else if current !in nodes {
        assert nodes.Keys - (visited + {current}) == nodes.Keys - visited;
        queue, visited := rest, visited + {current};
      } else {
        ReachedOne(children, nodes, queue, visited, limit - |out|, out);
        assert current in nodes.Keys - visited;
        visited, out := visited + {current}, out + [current];
        if |out| >= limit {
          return;
        }
        queue := rest + ChildrenOf(children, current);
      }
    }
  }

  // ----- what the index and the walks are in any graph, repeated ids included -----

  /** The index knows exactly the ids of the nodes, and for each the last node with that id. */
  lemma {:induction false} NodeMapHolds(nodes: seq<Node>, id: string) returns (i: nat)
    requires id in NodeMap(nodes)
    ensures i < |nodes| && nodes[i].nodeId == id && forall j | i < j < |nodes| :: nodes[j].nodeId != id
    ensures NodeMap(nodes)[id] == nodes[i] && id in ParentMap(nodes) && ParentMap(nodes)[id] == nodes[i].parent
  {
    var front, last := nodes[..|nodes| - 1], nodes[|nodes| - 1];
    if last.nodeId == id {
      i := |front|;
    } else {
      i := NodeMapHolds(front, id);
    }
  }

  lemma {:induction false} NodeMapHas(nodes: seq<Node>, i: nat)
    requires i < |nodes|
    ensures nodes[i].nodeId in NodeMap(nodes)
  {
    if i < |nodes| - 1 {
      NodeMapHas(nodes[..|nodes| - 1], i);
    }
  }

  lemma {:induction false} DedupSorted(s: seq<string>)
    requires SortedBy(s, StringLe)
    ensures SortedBy(Dedup(s), StringLe) && DistinctBy(Dedup(s), Itself)
    ensures forall x :: x in Dedup(s) <==> x in s
  {
    if |s| > 1 {
      var tail := s[1..];
      assert s == [s[0]] + tail;
      DedupSorted(tail);
      if s[0] != s[1] {
        forall x | x in tail ensures StringLe(s[0], x) && x != s[0] {
          var j :| 0 <= j < |tail| && tail[j] == x;
          assert x == s[j + 1];
          StringLeTotal(s[0], s[1]);
          StringLeTotal(s[1], s[1]);
          assert StringLe(s[0], s[1]) && StringLe(s[1], x);
        }
        DistinctCons(s[0], Dedup(tail), Itself);
      }
    }
  }

  /** Sorting and dropping repetitions keeps the elements, each once. */
  lemma SortDedupExactly(s: seq<string>)
    ensures SortedBy(SortDedup(s), StringLe) && DistinctBy(SortDedup(s), Itself)
    ensures forall x :: x in SortDedup(s) <==> x in s
  {
    StringLePreorder();
    SortSorted(s, StringLe);
    SortMembers(s, StringLe);
    DedupSorted(Sort(s, StringLe));
  }

  ghost predicate IsParent(parents: map<string, Option<string>>, id: string, parent: string) {
    id in parents && parents[id] == Some(parent)
  }

  /** Each ancestor is the parent of the one before, and the walk ends early only where there
      is no parent. */
  lemma {:induction false} AncestorsFollowParents(parents: map<string, Option<string>>, id: string, limit: nat)
    ensures var up := [id] + Ancestors(parents, id, limit);
            && |up| <= limit + 1
            && (forall k | 0 < k < |up| :: IsParent(parents, up[k - 1], up[k]))
            && (|up| < limit + 1 ==> up[|up| - 1] !in parents || parents[up[|up| - 1]] == None)
    decreases limit
  {
    if limit > 0 && id in parents && parents[id].Some? {
      var parent := parents[id].value;
      AncestorsFollowParents(parents, parent, limit - 1);
      var above := [parent] + Ancestors(parents, parent, limit - 1);
      var up := [id] + Ancestors(parents, id, limit);
      assert up == [id] + above;
      forall k | 0 < k < |up| ensures IsParent(parents, up[k - 1], up[k]) {
        if k > 1 {
          assert IsParent(parents, above[k - 2], above[k - 1]);
        }
      }
    }
  }

  type Children = map<string, seq<string>>

  ghost predicate IsChild(children: Children, id: string, child: string) {
    child in ChildrenOf(children, id)
  }

  /** out[k] is in the queue or a child of one of the first n elements of out. */
  ghost predicate ReachedBy(children: Children, queue: seq<string>, out: seq<string>, k: nat, n: nat)
    requires k < |out| && n <= |out|
  {
    out[k] in queue || exists j :: 0 <= j < n && IsChild(children, out[j], out[k])
  }

  /** Every element is new, a node, and in the queue or a child of an earlier element. */
  ghost predicate WalkSound(children: Children, nodes: map<string, Node>, queue: seq<string>, visited: set<string>,
                            out: seq<string>) {
    && DistinctBy(out, Itself)
    && (forall k | 0 <= k < |out| :: out[k] in nodes && out[k] !in visited)
    && (forall k | 0 <= k < |out| :: ReachedBy(children, queue, out, k, k))
  }

  lemma SoundPush(children: Children, nodes: map<string, Node>, queue: seq<string>, visited: set<string>,
                  sub: seq<string>)
    requires queue != [] && queue[0] !in visited && queue[0] in nodes
    requires WalkSound(children, nodes, queue[1..] + ChildrenOf(children, queue[0]), visited + {queue[0]}, sub)
    ensures WalkSound(children, nodes, queue, visited, [queue[0]] + sub)
  {
    var current := queue[0];
    var next, out := queue[1..] + ChildrenOf(children, current), [current] + sub;
    forall k | 0 <= k < |out| ensures ReachedBy(children, queue, out, k, k) {
      if k > 0 {
        assert ReachedBy(children, next, sub, k - 1, k - 1);
        if sub[k - 1] in ChildrenOf(children, current) {
          assert IsChild(children, out[0], out[k]);
        } else if j :| 0 <= j < k - 1 && IsChild(children, sub[j], sub[k - 1]) {
          assert IsChild(children, out[j + 1], out[k]);
        }
      }
    }
    DistinctCons(current, sub, Itself);
  }

  lemma {:induction false} ReachedSound(children: Children, nodes: map<string, Node>, queue: seq<string>,
          visited: set<string>, room: int)
    ensures WalkSound(children, nodes, queue, visited, Reached(children, nodes, queue, visited, room))
    decreases nodes.Keys - visited, |queue|
  {
    if queue != [] {
      var current, rest := queue[0], queue[1..];
      if current in visited {
        ReachedSound(children, nodes, rest, visited, room);
        SoundSkip(children, nodes, queue, visited, visited, Reached(children, nodes, rest, visited, room));
      } else if current !in nodes {
        assert nodes.Keys - (visited + {current}) == nodes.Keys - visited;
        ReachedSound(children, nodes, rest, visited + {current}, room);
        SoundSkip(children, nodes, queue, visited, visited + {current},
                  Reached(children, nodes, rest, visited + {current}, room));
      } else if room > 1 {
        assert current in nodes.Keys - visited;
        var next := rest + ChildrenOf(children, current);
        ReachedSound(children, nodes, next, visited + {current}, room - 1);
        SoundPush(children, nodes, queue, visited, Reached(children, nodes, next, visited + {current}, room - 1));
      }
    }
  }

  lemma SoundSkip(children: Children, nodes: map<string, Node>, queue: seq<string>, visited: set<string>,
                  more: set<string>, out: seq<string>)
    requires queue != [] && visited <= more && WalkSound(children, nodes, queue[1..], more, out)
    ensures WalkSound(children, nodes, queue, visited, out)
  {
    forall k | 0 <= k < |out| ensures ReachedBy(children, queue, out, k, k) {
      assert ReachedBy(children, queue[1..], out, k, k);
    }
  }

  /** Nothing reachable is missing: whatever is in the queue or a child of an element is in out,
      unless it had been visited or is no node. */
  ghost predicate WalkComplete(children: Children, nodes: map<string, Node>, queue: seq<string>, visited: set<string>,
                               out: seq<string>) {
    forall c | c in nodes && c !in visited ::
      (c in queue ==> c in out) && (forall x | x in out && IsChild(children, x, c) :: c in out)
  }

  lemma CompletePush(children: Children, nodes: map<string, Node>, queue: seq<string>, visited: set<string>,
                     sub: seq<string>)
    requires queue != [] && queue[0] in nodes
    requires WalkComplete(children, nodes, queue[1..] + ChildrenOf(children, queue[0]), visited + {queue[0]}, sub)
    ensures WalkComplete(children, nodes, queue, visited, [queue[0]] + sub)
  {
    var current, out := queue[0], [queue[0]] + sub;
    forall c | c in nodes && c !in visited
      ensures (c in queue ==> c in out) && (forall x | x in out && IsChild(children, x, c) :: c in out) {
      if c != current {
        assert c in queue ==> c in queue[1..];
        assert IsChild(children, current, c) ==> c in sub;
      } else {
        assert out[0] == c;
      }
    }
  }

  lemma {:induction false} ReachedComplete(children: Children, nodes: map<string, Node>, queue: seq<string>,
          visited: set<string>, room: int)
    requires |Reached(children, nodes, queue, visited, room)| < room
    ensures WalkComplete(children, nodes, queue, visited, Reached(children, nodes, queue, visited, room))
    decreases nodes.Keys - visited, |queue|
  {
    if queue != [] {
      var current, rest := queue[0], queue[1..];
      if current in visited {
        ReachedComplete(children, nodes, rest, visited, room);
      } else if current !in nodes {
        assert nodes.Keys - (visited + {current}) == nodes.Keys - visited;
        ReachedComplete(children, nodes, rest, visited + {current}, room);
      } else {
        assert current in nodes.Keys - visited;
        var next := rest + ChildrenOf(children, current);
        ReachedComplete(children, nodes, next, visited + {current}, room - 1);
        CompletePush(children, nodes, queue, visited, Reached(children, nodes, next, visited + {current}, room - 1));
      }
    }
  }

  ghost predicate InFirst(queue: seq<string>, p: nat, x: string)
    requires p <= |queue|
  {
    x in queue[..p]
  }

  /** First come the elements of the queue, in its order, then the children of earlier elements
      before those of later ones. */
  ghost predicate BreadthFirst(children: Children, queue: seq<string>, out: seq<string>) {
    && (forall p: nat, k, l | p <= |queue| && 0 <= k < l < |out| && InFirst(queue, p, out[l]) ::
          InFirst(queue, p, out[k]))
    && (forall n: nat, k: nat, l: nat | n <= |out| && k < l < |out| && ReachedBy(children, queue, out, l, n) ::
          ReachedBy(children, queue, out, k, n))
  }

  lemma FirstSkip(queue: seq<string>, p: nat, x: string)
    requires 0 < p <= |queue| && x != queue[0]
    ensures InFirst(queue, p, x) <==> InFirst(queue[1..], p - 1, x)
  {
    assert queue[..p] == [queue[0]] + queue[1..][..p - 1];
  }

  lemma FirstOfMore(queue: seq<string>, more: seq<string>, p: nat, x: string)
    requires p <= |queue|
    ensures InFirst(queue + more, p, x) <==> InFirst(queue, p, x)
  {
    assert (queue + more)[..p] == queue[..p];
  }

  lemma FirstSkipMore(queue: seq<string>, more: seq<string>, p: nat, x: string)
    requires 0 < p <= |queue| && x != queue[0]
    ensures InFirst(queue, p, x) <==> InFirst(queue[1..] + more, p - 1, x)
  {
    FirstSkip(queue, p, x);
    FirstOfMore(queue[1..], more, p - 1, x);
  }

  lemma QueueOrderPush(queue: seq<string>, more: seq<string>, sub: seq<string>, p: nat, k: nat, l: nat)
    requires queue != [] && queue[0] !in sub && p <= |queue| && k < l <= |sub|
    requires forall q: nat, i, j | q <= |queue[1..] + more| && 0 <= i < j < |sub|
                                   && InFirst(queue[1..] + more, q, sub[j]) :: InFirst(queue[1..] + more, q, sub[i])
    requires InFirst(queue, p, ([queue[0]] + sub)[l])
    ensures InFirst(queue, p, ([queue[0]] + sub)[k])
  {
    if k > 0 {
      FirstSkipMore(queue, more, p, sub[l - 1]);
      FirstSkipMore(queue, more, p, sub[k - 1]);
    } else {
      assert queue[..p][0] == queue[0];
    }
  }

  lemma InAll(queue: seq<string>, x: string)
    ensures InFirst(queue, |queue|, x) <==> x in queue
  {
    assert queue[..|queue|] == queue;
  }

  /** An element of the rest of the walk, seen from the rest and from the whole. */
  lemma ReachedByPush(children: Children, queue: seq<string>, sub: seq<string>, k: nat, n: nat)
    requires queue != [] && queue[0] !in sub && k < |sub| && n <= |sub|
    ensures ReachedBy(children, queue, [queue[0]] + sub, k + 1, n + 1)
            <==> ReachedBy(children, queue[1..] + ChildrenOf(children, queue[0]), sub, k, n)
  {
    var out, next := [queue[0]] + sub, queue[1..] + ChildrenOf(children, queue[0]);
    if ReachedBy(children, next, sub, k, n) {
      if sub[k] in ChildrenOf(children, queue[0]) {
        assert IsChild(children, out[0], out[k + 1]);
      } else if j :| 0 <= j < n && IsChild(children, sub[j], sub[k]) {
        assert IsChild(children, out[j + 1], out[k + 1]);
      }
    }
    if ReachedBy(children, queue, out, k + 1, n + 1) {
      assert sub[k] in queue ==> sub[k] in queue[1..];
      if j :| 0 <= j < n + 1 && IsChild(children, out[j], out[k + 1]) {
        if j > 0 { assert IsChild(children, sub[j - 1], sub[k]); }
      }
    }
  }

  lemma ChildOrderPush(children: Children, queue: seq<string>, sub: seq<string>, n: nat, k: nat, l: nat)
    requires queue != [] && queue[0] !in sub && n <= |sub| + 1 && k < l <= |sub|
    requires BreadthFirst(children, queue[1..] + ChildrenOf(children, queue[0]), sub)
    requires ReachedBy(children, queue, [queue[0]] + sub, l, n)
    ensures ReachedBy(children, queue, [queue[0]] + sub, k, n)
  {
    var next, out := queue[1..] + ChildrenOf(children, queue[0]), [queue[0]] + sub;
    if k > 0 && n > 0 {
      ReachedByPush(children, queue, sub, l - 1, n - 1);
      ReachedByPush(children, queue, sub, k - 1, n - 1);
    } else if k > 0 {
      InAll(queue, out[l]);
      InAll(queue, out[k]);
      QueueOrderPush(queue, ChildrenOf(children, queue[0]), sub, |queue|, k, l);
    } else {
      assert out[0] in queue;
    }
  }

  lemma BreadthFirstPush(children: Children, queue: seq<string>, sub: seq<string>)
    requires queue != [] && queue[0] !in sub
    requires BreadthFirst(children, queue[1..] + ChildrenOf(children, queue[0]), sub)
    ensures BreadthFirst(children, queue, [queue[0]] + sub)
  {
    var more, out := ChildrenOf(children, queue[0]), [queue[0]] + sub;
    forall p: nat, k, l | p <= |queue| && 0 <= k < l < |out| && InFirst(queue, p, out[l])
      ensures InFirst(queue, p, out[k]) {
      QueueOrderPush(queue, more, sub, p, k, l);
    }
    forall n: nat, k: nat, l: nat | n <= |out| && k < l < |out| && ReachedBy(children, queue, out, l, n)
      ensures ReachedBy(children, queue, out, k, n) {
      ChildOrderPush(children, queue, sub, n, k, l);
    }
  }

  lemma BreadthFirstSkip(children: Children, queue: seq<string>, out: seq<string>)
    requires queue != [] && queue[0] !in out && BreadthFirst(children, queue[1..], out)
    ensures BreadthFirst(children, queue, out)
  {
    forall p: nat, k, l | p <= |queue| && 0 <= k < l < |out| && InFirst(queue, p, out[l])
      ensures InFirst(queue, p, out[k]) {
      FirstSkip(queue, p, out[l]);
      FirstSkip(queue, p, out[k]);
    }
    forall n: nat, k: nat, l: nat | n <= |out| && k < l < |out| && ReachedBy(children, queue, out, l, n)
      ensures ReachedBy(children, queue, out, k, n) {
      assert ReachedBy(children, queue[1..], out, l, n);
      assert ReachedBy(children, queue[1..], out, k, n);
    }
  }

  lemma {:induction false} ReachedBreadthFirst(children: Children, nodes: map<string, Node>, queue: seq<string>,
          visited: set<string>, room: int)
    ensures BreadthFirst(children, queue, Reached(children, nodes, queue, visited, room))
    decreases nodes.Keys - visited, |queue|
  {
    ReachedSound(children, nodes, queue, visited, room);
    if queue != [] {
      var current, rest := queue[0], queue[1..];
      if current in visited {
        ReachedBreadthFirst(children, nodes, rest, visited, room);
        BreadthFirstSkip(children, queue, Reached(children, nodes, rest, visited, room));
      } else if current !in nodes {
        assert nodes.Keys - (visited + {current}) == nodes.Keys - visited;
        ReachedBreadthFirst(children, nodes, rest, visited + {current}, room);
        BreadthFirstSkip(children, queue, Reached(children, nodes, rest, visited + {current}, room));
      } else if room > 1 {
        assert current in nodes.Keys - visited;
        var next := rest + ChildrenOf(children, current);
        ReachedSound(children, nodes, next, visited + {current}, room - 1);
        ReachedBreadthFirst(children, nodes, next, visited + {current}, room - 1);
        BreadthFirstPush(children, queue, Reached(children, nodes, next, visited + {current}, room - 1));
      }
    }
  }

  lemma {:induction false} ReachedWithinRoom(children: Children, nodes: map<string, Node>, queue: seq<string>,
          visited: set<string>, room: int)
    ensures |Reached(children, nodes, queue, visited, room)| <= if room < 1 then 1 else room
    decreases nodes.Keys - visited, |queue|
  {
    if queue != [] {
      var current, rest := queue[0], queue[1..];
      if current in visited {
        ReachedWithinRoom(children, nodes, rest, visited, room);
      } else if current !in nodes {
        assert nodes.Keys - (visited + {current}) == nodes.Keys - visited;
        ReachedWithinRoom(children, nodes, rest, visited + {current}, room);
      } else if room > 1 {
        assert current in nodes.Keys - visited;
        ReachedWithinRoom(children, nodes, rest + ChildrenOf(children, current), visited + {current}, room - 1);
      }
    }
  }

  /** In any graph the descendants are what can be reached over child links, breadth first, each
      node once; the limit cuts the list off, but not before its first element. */
  lemma DescendantsBreadthFirst(index: GraphIndex, id: string, limit: nat)
    ensures var first, down := ChildrenOf(index.children, id), Descendants(index, id, limit);
            && WalkSound(index.children, index.nodes, first, {}, down)
            && BreadthFirst(index.children, first, down)
            && |down| <= (if limit == 0 then 1 else limit)
            && (|down| < limit ==> WalkComplete(index.children, index.nodes, first, {}, down))
  {
    var first := ChildrenOf(index.children, id);
    ReachedSound(index.children, index.nodes, first, {}, limit);
    ReachedBreadthFirst(index.children, index.nodes, first, {}, limit);
    ReachedWithinRoom(index.children, index.nodes, first, {}, limit);
    if |Descendants(index, id, limit)| < limit {
      ReachedComplete(index.children, index.nodes, first, {}, limit);
    }
  }
}
