/** The address space as the server keeps it (AddressSpace.c): nodes that are updated in place,
    held in a growable array, with a short list of frequently used nodes in front of the search. */
module AddressSpaces {
  import opened OpcTypes
  import opened Graphs
  import opened Indexing
  import opened Cloning
  import opened Renaming

  const INITIAL_CAPACITY := 128
  const INCREMENT_BY := 30

  /** Incrementing and decrementing a 32-bit unsigned index. */
  function Inc(i: nat): nat {
    if i == UINT32 - 1 then 0 else i + 1
  }

  function Dec(i: nat): nat {
    if i == 0 then UINT32 - 1 else i - 1
  }

  /** Looking at one more reference: it stays behind those that are kept already, or goes. */
  lemma OneMoreSeen(kept: seq<Ref>, r: Ref, rest: seq<Ref>, target: NodeId)
    ensures kept + Without([r] + rest, target)
      == (if r.target == target then kept else kept + [r]) + Without(rest, target)
  {
    WithoutOfSum([r], rest, target);
    WithoutOne(r, target);
    Regrouped(kept, Without([r], target), Without(rest, target));
    assert kept + [] == kept;
  }

  lemma SeenSplit(kept: seq<Ref>, r: Ref, rest: seq<Ref>)
    ensures (kept + ([r] + rest))[|kept|] == r && kept + ([r] + rest) == (kept + [r]) + rest
    ensures (kept + ([r] + rest))[..|kept|] + (kept + ([r] + rest))[|kept| + 1..] == kept + rest
  {
  }

  lemma Uncons(rest: seq<Ref>) returns (r: Ref, later: seq<Ref>)
    requires rest != []
    ensures rest == [r] + later
  {
    r, later := rest[0], rest[1..];
  }

  /** The array without the node at `k`, once that is gone. */
  ghost function Gap(was: seq<Node>, k: nat, gone: bool): seq<Node> {
    if gone && k < |was| then was[..k] + was[k + 1..] else was
  }

  lemma GapPlace(was: seq<Node>, k: nat, done: nat)
    requires done < |was|
    ensures Gap(was, k, false)[done] == was[done]
    ensures k < done ==> |Gap(was, k, true)| == |was| - 1 && Gap(was, k, true)[done - 1] == was[done]
  {
  }

  /** Marks the identifiers for which the proof needs to know where their node is. */
  predicate Looked(id: NodeId) {
    true
  }

  /** A node; its reference list is reallocated to its exact length, so it has no capacity. */
  class Node {
    var id: NodeId
    const kind: NodeKind
    var nodeClass: NodeClass
    var browse: QName
    var refs: seq<Ref>

    constructor (kind: NodeKind)
      ensures this.kind == kind && id == NULL_ID && Rec() == NodeRec(kind, Unspecified, QName(0, None), [])
    {
      this.kind := kind;
      id, nodeClass, browse, refs := NULL_ID, Unspecified, QName(0, None), [];
    }

    function Rec(): NodeRec
      reads this
    {
      NodeRec(kind, nodeClass, browse, refs)
    }

    /** Shifts the later references down by one. */
    method RemoveReferenceFromArray(index: nat)
      requires index < |refs|
      modifies `refs
      ensures refs == old(refs[..index] + refs[index + 1..])
    {
      var j := index + 1;
      while j < |refs|
        invariant index < j <= |refs| == old(|refs|)
        invariant refs[..j - 1] == old(refs[..index] + refs[index + 1..j])
        invariant refs[j..] == old(refs[j..])
      {
        assert refs[j] == refs[j..][0] == old(refs)[j];
        assert old(refs)[index + 1..j + 1] == old(refs)[index + 1..j] + [old(refs)[j]];
        assert refs[j + 1..] == refs[j..][1..];
        refs := refs[j - 1 := refs[j]];
        assert refs[..j] == refs[..j - 1] + [refs[j - 1]];
        j := j + 1;
      }
      refs := refs[..|refs| - 1];
      assert old(refs)[index + 1..] == old(refs)[index + 1..j];
    }

    /** Removes every reference to `target`, stepping the unsigned index back after each removal. */
    method RemoveReferencesTo(target: NodeId)
      requires |refs| < UINT32
      modifies `refs
      ensures refs == Without(old(refs), target)
    {
      var i: nat := 0;
      ghost var kept: seq<Ref>, rest := [], refs;
      ghost var goal := Without(refs, target);
      assert [] + rest == rest && [] + goal == goal;
      while i < |refs|
        invariant refs == kept + rest && i == |kept| && |refs| < UINT32
        invariant kept + Without(rest, target) == goal
        decreases |rest|
      {
        ghost var r, later := Uncons(rest);
        OneMoreSeen(kept, r, later, target);
        i := RemoveIfTargets(i, target, kept, r, later);
        kept, rest := if r.target == target then kept else kept + [r], later;
      }
      assert rest == [] && kept + [] == kept;
    }

    /** One round of the loop: `kept` has been looked at, `r` is next and `later` follows. */
    method RemoveIfTargets(i: nat, target: NodeId, ghost kept: seq<Ref>, ghost r: Ref, ghost later: seq<Ref>) returns (next: nat)
      requires refs == kept + ([r] + later) && i == |kept| && |refs| < UINT32
      modifies `refs
      ensures refs == (if r.target == target then kept else kept + [r]) + later
      ensures next == if r.target == target then |kept| else |kept| + 1
    {
      SeenSplit(kept, r, later);
      next := i;
      if refs[next].target == target {
        RemoveReferenceFromArray(next);
        next := Dec(next);
      }
      next := Inc(next);
    }

    /** Redirects every reference that answers one of type `refType` from `orig`. */
    method RetargetAnswers(orig: NodeId, new_: NodeId, refType: NodeId, inverse: bool)
      modifies `refs
      ensures refs == Retarget(old(refs), orig, new_, refType, inverse)
    {
      ghost var goal := Retarget(refs, orig, new_, refType, inverse);
      var j := 0;
      while j < |refs|
        invariant 0 <= j <= |refs| == |goal| == |old(refs)|
        invariant forall k :: 0 <= k < j ==> refs[k] == goal[k]
        invariant forall k :: j <= k < |refs| ==> refs[k] == old(refs)[k]
      {
        if refs[j].target == orig && refs[j].refType == refType
           && ((inverse && !refs[j].inverse) || (!inverse && refs[j].inverse)) {
          refs := refs[j := refs[j].(target := new_)];
        }
        j := j + 1;
      }
    }

    /** Whether there is a reference of type `refType` to `target`, in either direction. */
    method RefersTo(target: NodeId, refType: NodeId) returns (found: bool)
      ensures found <==> exists r :: r in refs && r.refType == refType && r.target == target
    {
      var r := 0;
      while r < |refs|
        invariant 0 <= r <= |refs|
        invariant forall q :: q in refs[..r] ==> !(q.refType == refType && q.target == target)
      {
        if refs[r].refType == refType && refs[r].target == target {
          return true;
        }
        r := r + 1;
      }
      assert refs[..r] == refs;
      return false;
    }

    /** Removes the first reference equal to `r`, if there is one. */
    method RemoveFirst(r: Ref)
      modifies `refs
      ensures refs == WithoutFirst(old(refs), r)
    {
      var i := 0;
      while i < |refs|
        invariant 0 <= i <= |refs| && refs == old(refs)
        invariant r !in refs[..i]
      {
        if refs[i].target == r.target && refs[i].refType == r.refType && refs[i].inverse == r.inverse {
          assert refs[i] == r;
          assert refs == refs[..i] + ([r] + refs[i + 1..]);
          WithoutFirstSkips(refs[..i], [r] + refs[i + 1..], r);
          assert ([r] + refs[i + 1..])[1..] == refs[i + 1..];
          RemoveReferenceFromArray(i);
          return;
        }
        i := i + 1;
      }
      assert refs[..i] == refs && refs + [] == refs;
      WithoutFirstSkips(refs, [], r);
    }
  }

  /** `nodes` is the growable array `allNodes` with its capacity beside it. */
  class AddressSpace {
    var nodes: seq<Node>
    var capacity: nat
    var fast: seq<Node>
    ghost var graph: Graph
    ghost var live: set<Node>
    ghost var at: map<NodeId, Node>
    ghost var pos: map<NodeId, nat>

    /** Identifiers are unique: `at` and `pos` find the node, and its place, by identifier. The
        ghost graph is what the nodes hold. */
    ghost predicate Valid()
      reads this, live
    {
      && |nodes| <= capacity
      && (forall i :: 0 <= i < |nodes| ==> nodes[i] in live && nodes[i].id in pos && pos[nodes[i].id] == i)
      && (forall n :: n in live ==> n.id in at && at[n.id] == n && n.id in graph && graph[n.id] == n.Rec())
      && (forall id :: id in at ==> at[id] in live && at[id].id == id)
      && (forall id {:trigger Looked(id)} :: Looked(id) && id in graph ==>
           id in at && id in pos && pos[id] < |nodes| && nodes[pos[id]] == at[id])
    }

    /** Every entry of the fast list is still a node of the address space. */
    ghost predicate FastLive()
      reads this
    {
      forall n :: n in fast ==> n in live
    }

    /** The identifiers in array order. */
    ghost function Ids(): (ids: seq<NodeId>)
      requires Valid()
      reads this, live
      ensures |ids| == |nodes| && forall i :: 0 <= i < |nodes| ==> ids[i] == nodes[i].id && ids[i] in graph
    {
      seq(|nodes|, i requires Valid() && 0 <= i < |nodes| reads this, live => nodes[i].id)
    }

    constructor ()
      ensures Valid() && FastLive() && nodes == [] && graph == map[] && fast == []
    {
      nodes, capacity, fast := [], INITIAL_CAPACITY, [];
      graph, live, at, pos := map[], {}, map[], map[];
    }

    /** Makes room for one more node. */
    method CheckForRealloc()
      requires Valid()
      modifies `capacity
      ensures Valid() && capacity == if |nodes| >= old(capacity) then old(capacity) + INCREMENT_BY else old(capacity)
    {
      if |nodes| >= capacity {
        capacity := capacity + INCREMENT_BY;
      }
    }

    /** CreateNode followed by the assignment of the attributes and of a new identifier. */
    method AddNode(kind: NodeKind, nodeClass: NodeClass, browse: QName, id: NodeId) returns (node: Node)
      requires Valid() && id !in graph
      modifies this
      ensures Valid() && nodes == old(nodes) + [node] && fresh(node) && fast == old(fast)
      ensures graph == old(graph)[id := NodeRec(kind, nodeClass, browse, [])]
      ensures at == old(at)[id := node] && live == old(live) + {node} && capacity >= old(capacity)
    {
      CheckForRealloc();
      node := NewNode(kind, nodeClass, browse, id);
      Store(node);
    }

    method NewNode(kind: NodeKind, nodeClass: NodeClass, browse: QName, id: NodeId) returns (node: Node)
      ensures fresh(node) && node.id == id && node.Rec() == NodeRec(kind, nodeClass, browse, [])
    {
      node := new Node(kind);
      node.nodeClass, node.browse, node.id := nodeClass, browse, id;
    }

    /** Puts a node in the next free place. */
    method Store(node: Node)
      requires Valid() && |nodes| < capacity && node.id !in graph && node !in live
      modifies `nodes, `graph, `live, `at, `pos
      ensures Valid() && nodes == old(nodes) + [node] && live == old(live) + {node}
      ensures graph == old(graph)[node.id := node.Rec()] && at == old(at)[node.id := node]
    {
      nodes := nodes + [node];
      live := live + {node};
      at := at[node.id := node];
      pos := pos[node.id := |nodes| - 1];
      graph := graph[node.id := node.Rec()];
    }

    /** The search from the last node backwards. */
    method FindNodeWithID(id: NodeId) returns (node: Node?)
      requires Valid()
      ensures node == null <==> id !in graph
      ensures node != null ==> id in at && node == at[id]
    {
      assert Looked(id);
      var i := |nodes|;
      while i > 0
        invariant 0 <= i <= |nodes|
        invariant forall j :: i <= j < |nodes| ==> nodes[j].id != id
      {
        i := i - 1;
        if nodes[i].id == id {
          return nodes[i];
        }
      }
      return null;
    }

    /** The search of the fast list: the first entry with the identifier. */
    method FastAccessNode(id: NodeId) returns (node: Node?)
      ensures node == null <==> forall n :: n in fast ==> n.id != id
      ensures node != null ==> node in fast && node.id == id
    {
      var i := 0;
      while i < |fast|
        invariant 0 <= i <= |fast|
        invariant forall j :: 0 <= j < i ==> fast[j].id != id
      {
        if fast[i].id == id {
          return fast[i];
        }
        i := i + 1;
      }
      return null;
    }

    /** Looking in the fast list first gives the node that the whole search gives. */
    method GetNode(id: NodeId) returns (node: Node?)
      requires Valid() && FastLive()
      ensures node == null <==> id !in graph
      ensures node != null ==> id in at && node == at[id]
    {
      node := FastAccessNode(id);
      if node == null {
        node := FindNodeWithID(id);
      }
    }

    method InsertFast(node: Node)
      requires node in live
      modifies `fast
      ensures fast == old(fast) + [node] && (old(FastLive()) ==> FastLive())
    {
      fast := fast + [node];
    }

    /** Appends a reference to the node `source`. */
    method AddUniReference(source: NodeId, target: NodeId, refType: NodeId, inverse: bool)
      requires Valid() && FastLive() && source in graph
      modifies `graph, live`refs
      ensures Valid()
      ensures graph == AddUni(old(graph), source, Ref(refType, inverse, target))
    {
      var attrs := GetNode(source);
      attrs.refs := attrs.refs + [Ref(refType, inverse, target)];
      graph := graph[source := attrs.Rec()];
    }

    method AddBiReference(source: NodeId, target: NodeId, refType: NodeId)
      requires Valid() && FastLive() && source in graph && target in graph
      modifies `graph, live`refs
      ensures Valid()
      ensures graph == AddBi(old(graph), source, target, refType)
    {
      AddUniReference(source, target, refType, false);
      AddUniReference(target, source, refType, true);
    }

    method RemoveUniReference(source: NodeId, target: NodeId, refType: NodeId, inverse: bool)
      requires Valid() && FastLive() && source in graph
      modifies `graph, live`refs
      ensures Valid()
      ensures graph == RemoveUni(old(graph), source, Ref(refType, inverse, target))
    {
      var attrs := GetNode(source);
      attrs.RemoveFirst(Ref(refType, inverse, target));
      graph := graph[source := attrs.Rec()];
    }

    method RemoveBiReference(source: NodeId, target: NodeId, refType: NodeId)
      requires Valid() && FastLive() && source in graph && target in graph
      modifies `graph, live`refs
      ensures Valid()
      ensures graph == RemoveBi(old(graph), source, target, refType)
    {
      RemoveUniReference(source, target, refType, false);
      RemoveUniReference(target, source, refType, true);
    }

    /** Gives the node `orig` the identifier `new_`, following its own references to find those
        that lead back to it. */
    method MapNodeToId(orig: NodeId, new_: NodeId)
      requires Valid() && orig in graph && new_ !in graph
      modifies `graph, `at, `pos, live`refs, live`id
      ensures Valid() && graph == Renaming.MapNodeToId(old(graph), orig, new_)
      ensures orig in old(at) && new_ in at && at[new_] == old(at)[orig]
      ensures forall n :: n in live && n != at[new_] ==> n.id == old(n.id)
    {
      var attrs := FindNodeWithID(orig);
      MapLoopKeepsIds(graph, orig, new_, 0);
      MapReferences(attrs, new_);
      ChangeId(attrs, new_);
    }

    /** The outer loop of the renaming. */
    method MapReferences(attrs: Node, new_: NodeId)
      requires Valid() && attrs in live && attrs.id in graph && new_ !in graph
      modifies `graph, live`refs
      ensures Valid() && graph == MapLoop(old(graph), attrs.id, new_, 0)
    {
      ghost var goal := MapLoop(graph, attrs.id, new_, 0);
      var i := 0;
      while i < |attrs.refs|
        invariant Valid()
        invariant i <= |attrs.refs|
        invariant MapLoop(graph, attrs.id, new_, i) == goal
      {
        MapThroughReference(attrs.refs[i], attrs.id, new_);
        i := i + 1;
      }
    }

    /** One iteration of the renaming: redirects what the target of `refNode` refers back. */
    method MapThroughReference(refNode: Ref, orig: NodeId, new_: NodeId)
      requires Valid()
      modifies `graph, live`refs
      ensures Valid() && graph == MapStep(old(graph), orig, new_, refNode)
      ensures forall n :: n in live ==> |n.refs| == |old(n.refs)|
    {
      if refNode.refType != HAS_MODELLING_RULE {
        var target := FindNodeWithID(refNode.target);
        if target != null {
          RetargetAt(target, orig, new_, refNode.refType, refNode.inverse);
        }
      }
    }

    /** Replaces the identifier of one node. */
    method ChangeId(attrs: Node, new_: NodeId)
      requires Valid() && attrs in live && new_ !in graph
      modifies `graph, `at, `pos, attrs`id
      ensures Valid() && graph == (old(graph) - {old(attrs.id)})[new_ := attrs.Rec()]
      ensures new_ in at && at[new_] == attrs
    {
      ghost var orig := attrs.id;
      assert Looked(orig);
      attrs.id := new_;
      graph := (graph - {orig})[new_ := attrs.Rec()];
      at := (at - {orig})[new_ := attrs];
      pos := (pos - {orig})[new_ := pos[orig]];
    }

    /** The inner loop of the renaming, at one node. */
    method RetargetAt(node: Node, orig: NodeId, new_: NodeId, refType: NodeId, inverse: bool)
      requires Valid() && node in live
      modifies `graph, node`refs
      ensures Valid() && node.id in old(graph)
      ensures graph == old(graph)[node.id := old(graph)[node.id].(
        refs := Retarget(old(graph)[node.id].refs, orig, new_, refType, inverse))]
    {
      node.RetargetAnswers(orig, new_, refType, inverse);
      graph := graph[node.id := node.Rec()];
    }

    /** Refers from `target` to every node of a kind that does not refer to it yet. */
    method BuildReferencesOfTypeToNode(kind: NodeKind, target: NodeId, refType: NodeId)
      requires Valid() && FastLive() && target in graph
      modifies `graph, live`refs
      ensures Valid() && graph == BuildRefs(old(graph), old(Ids()), kind, target, refType)
    {
      ghost var ids := Ids();
      assert ids[..|nodes|] == ids && Looked(target);
      BuildDownFrom(|nodes|, ids, kind, target, refType);
    }

    /** The loop of the build, from index `start` down. */
    method BuildDownFrom(start: nat, ghost ids: seq<NodeId>, kind: NodeKind, target: NodeId, refType: NodeId)
      requires Valid() && FastLive() && target in at && start <= |nodes|
      requires |ids| == |nodes| && forall j :: 0 <= j < |ids| ==> ids[j] == nodes[j].id
      modifies `graph, live`refs
      ensures Valid() && graph == BuildRefs(old(graph), ids[..start], kind, target, refType)
    {
      ghost var goal := BuildRefs(graph, ids[..start], kind, target, refType);
      var i := start;
      while i > 0
        invariant 0 <= i <= |ids| && Valid()
        invariant BuildRefs(graph, ids[..i], kind, target, refType) == goal
      {
        BuildRefsUnfold(graph, ids, i, kind, target, refType);
        i := i - 1;
        BuildReferenceTo(nodes[i], kind, target, refType);
      }
    }

    /** One iteration: links `target` to `node` unless they are linked already. */
    method BuildReferenceTo(node: Node, kind: NodeKind, target: NodeId, refType: NodeId)
      requires Valid() && FastLive() && target in graph && node in live
      modifies `graph, live`refs
      ensures Valid() && node.id in old(graph)
      ensures graph == BuildOne(old(graph), node.id, kind, target, refType)
    {
      if node.kind == kind && node.id != target {
        var isFound := node.RefersTo(target, refType);
        if !isFound {
          AddBiReference(target, node.id, refType);
        }
      }
    }

    /** Removes the node `id` and every reference to it, in one pass over the array. */
    method RemoveNode(id: NodeId)
      requires Valid() && |nodes| < UINT32 && forall n :: n in live ==> |n.refs| < UINT32
      modifies `nodes, `graph, `live, `at, `pos, live`refs, live`id
      ensures Valid() && graph == Graphs.RemoveNode(old(graph), id)
      ensures id !in old(graph) || id == NULL_ID ==> nodes == old(nodes) && live == old(live)
      ensures id in old(graph) && id != NULL_ID ==>
        && id in old(at) && live == old(live) - {old(at)[id]}
        && id in old(pos) && old(pos)[id] < |old(nodes)|
        && nodes == old(nodes)[..old(pos)[id]] + old(nodes)[old(pos)[id] + 1..]
      ensures old(FastLive()) ==> (FastLive() <==> id !in old(graph) || id == NULL_ID || old(at)[id] !in fast)
    {
      assert Looked(id);
      ghost var k := if id in graph && id != NULL_ID then pos[id] else |nodes|;
      ghost var was := nodes;
      SweepLive(id, k);
      if k < |was| {
        Forget(was, id, k);
      } else {
        ForgetNothing(id);
      }
    }

    /** Brings the ghost state in line after nodes have only lost references. */
    ghost method ForgetNothing(id: NodeId)
      requires |nodes| <= capacity && (id !in graph || id == NULL_ID)
      requires forall i :: 0 <= i < |nodes| ==> nodes[i] in live && nodes[i].id in pos && pos[nodes[i].id] == i
      requires forall n :: n in live ==> n.id in at && at[n.id] == n && n.id in graph && n.Rec() == Cleared(n.id, id)
      requires forall x :: x in at ==> at[x] in live && at[x].id == x
      requires forall x {:trigger Looked(x)} :: Looked(x) && x in graph ==>
        x in at && x in pos && pos[x] < |nodes| && nodes[pos[x]] == at[x]
      modifies `graph
      ensures Valid() && graph == Graphs.RemoveNode(old(graph), id)
    {
      graph := Graphs.RemoveNode(graph, id);
    }

    /** Brings the ghost state in line after the node at index `k` has been taken out. */
    ghost method Forget(was: seq<Node>, id: NodeId, k: nat)
      requires k < |was| <= capacity && nodes == was[..k] + was[k + 1..] && id != NULL_ID
      requires id in at && at[id] == was[k] && id in pos && pos[id] == k
      requires forall i :: 0 <= i < |was| && i != k ==>
        was[i] in live && was[i] != was[k] && was[i].id in pos && pos[was[i].id] == i && was[i].id != id
      requires forall n :: n in live && n != was[k] ==>
        n.id in at && at[n.id] == n && n.id in graph && n.id != id && n.Rec() == Cleared(n.id, id)
      requires forall x :: x in at && x != id ==> at[x] in live && at[x] != was[k] && at[x].id == x
      requires forall x {:trigger Looked(x)} :: Looked(x) && x in graph && x != id ==>
        x in at && x in pos && pos[x] < |was| && was[pos[x]] == at[x]
      modifies `graph, `live, `at, `pos
      ensures Valid() && graph == Graphs.RemoveNode(old(graph), id) && live == old(live) - {was[k]}
    {
      forall i | 0 <= i < |nodes|
        ensures nodes[i] in live && nodes[i] != was[k]
      {
        assert nodes[i] == was[if i < k then i else i + 1];
      }
      ForgetPlace(was, id, k);
      ForgetNode(id, was[k]);
    }

    /** The pass, with its effect on the nodes other than the one at index `k`. */
    method SweepLive(id: NodeId, ghost k: nat)
      requires Valid() && |nodes| < UINT32 && forall n :: n in live ==> |n.refs| < UINT32
      requires k <= |nodes| && forall j :: 0 <= j < |nodes| ==> (nodes[j].id == id && id != NULL_ID <==> j == k)
      modifies `nodes, live`refs, live`id
      ensures nodes == if k < |old(nodes)| then old(nodes)[..k] + old(nodes)[k + 1..] else old(nodes)
      ensures forall n :: n in live && (k < |old(nodes)| ==> n != old(nodes)[k]) ==>
        n.id == old(n.id) && n.id in graph && n.Rec() == Cleared(n.id, id)
    {
      ghost var was := nodes;
      SweepOut(id, k, map n | n in live && n.id in pos :: pos[n.id]);
      forall n | n in live && (k < |was| ==> n != was[k])
        ensures n.id == old(n.id) && n.Rec() == Cleared(n.id, id)
      {
        assert Looked(old(n.id));
        assert Swept(was[pos[old(n.id)]], id);
      }
    }

    /** What a node holds after the pass. */
    ghost function Cleared(n: NodeId, id: NodeId): NodeRec
      requires n in graph
      reads `graph
    {
      if n == NULL_ID then graph[n] else graph[n].(refs := Without(graph[n].refs, id))
    }

    /** After the gap at index `k` was closed, the places of the later nodes move down by one. */
    ghost method ForgetPlace(was: seq<Node>, id: NodeId, k: nat)
      requires k < |was| && nodes == was[..k] + was[k + 1..] && id in pos && pos[id] == k
      requires forall i :: 0 <= i < |was| && i != k ==> was[i].id in pos && pos[was[i].id] == i && was[i].id != id
      modifies `pos
      ensures forall i :: 0 <= i < |nodes| ==> nodes[i].id in pos && pos[nodes[i].id] == i && nodes[i].id != id
      ensures forall x :: x in old(pos) && x != id && old(pos)[x] < |was| && old(pos)[x] != k ==>
        x in pos && pos[x] < |nodes| && nodes[pos[x]] == was[old(pos)[x]]
    {
      pos := map x | x in pos && x != id :: if pos[x] > k then pos[x] - 1 else pos[x];
      forall i | 0 <= i < |nodes|
        ensures nodes[i].id in pos && pos[nodes[i].id] == i && nodes[i].id != id
      {
        assert nodes[i] == was[if i < k then i else i + 1];
      }
    }

    /** Drops the destroyed node from the rest of the ghost state. */
    ghost method ForgetNode(id: NodeId, gone: Node)
      requires |nodes| <= capacity && id in at && at[id] == gone && id != NULL_ID
      requires forall i :: 0 <= i < |nodes| ==> nodes[i] in live && nodes[i] != gone && nodes[i].id in pos && pos[nodes[i].id] == i
      requires forall n :: n in live && n != gone ==>
        n.id in at && at[n.id] == n && n.id in graph && n.id != id && n.Rec() == Cleared(n.id, id)
      requires forall x :: x in at && x != id ==> at[x] in live && at[x] != gone && at[x].id == x
      requires forall x {:trigger Looked(x)} :: Looked(x) && x in graph && x != id ==>
        x in at && x in pos && pos[x] < |nodes| && nodes[pos[x]] == at[x]
      modifies `graph, `live, `at
      ensures Valid() && graph == Graphs.RemoveNode(old(graph), id) && live == old(live) - {gone}
    {
      live := live - {gone};
      at := at - {id};
      graph := Graphs.RemoveNode(graph, id);
    }

    /** The pass itself: destroys the node at index `k`, closes the gap and clears the others. */
    method SweepOut(id: NodeId, ghost k: nat, ghost place: map<Node, nat>)
      requires |nodes| < UINT32 && k <= |nodes|
      requires forall j :: 0 <= j < |nodes| ==> |nodes[j].refs| < UINT32
      requires forall j :: 0 <= j < |nodes| ==> nodes[j] in place && place[nodes[j]] == j
      requires forall j :: 0 <= j < |nodes| ==> (nodes[j].id == id && id != NULL_ID <==> j == k)
      modifies `nodes, nodes`refs, nodes`id
      ensures nodes == if k < |old(nodes)| then old(nodes)[..k] + old(nodes)[k + 1..] else old(nodes)
      ensures forall j :: 0 <= j < |old(nodes)| && j != k ==> Swept(old(nodes)[j], id)
    {
      ghost var was := nodes;
      ghost var recs := Recs(nodes);
      ghost var done: nat := 0;
      var isDeleted := false;
      var i: nat := 0;
      while i < |nodes|
        invariant done <= |was| && i == (if isDeleted then done - 1 else done) && (isDeleted <==> k < done)
        invariant nodes == Gap(was, k, isDeleted)
        invariant SweptTo(Recs(was), recs, id, k, done)
        decreases |was| - done
      {
        GapPlace(was, k, done);
        i, isDeleted := Step(was, recs, id, k, place, done, nodes[i], i, isDeleted);
        done := done + 1;
      }
    }

    /** The identifiers and references of some nodes. */
    ghost function Recs(ns: seq<Node>): (recs: seq<(NodeId, seq<Ref>)>)
      reads ns
      ensures |recs| == |ns| && forall j :: 0 <= j < |ns| ==> recs[j] == (ns[j].id, ns[j].refs)
    {
      seq(|ns|, j requires 0 <= j < |ns| reads ns => (ns[j].id, ns[j].refs))
    }

    /** The nodes before `done` other than the one at `k` have been swept, the later ones are as they were. */
    ghost predicate SweptTo(now: seq<(NodeId, seq<Ref>)>, recs: seq<(NodeId, seq<Ref>)>, id: NodeId, k: nat, done: nat) {
      && |recs| == |now|
      && (forall j :: done <= j < |now| ==> now[j] == recs[j])
      && forall j :: 0 <= j < done && j < |now| && j != k ==> now[j] == (recs[j].0, Kept(recs[j], id))
    }

    ghost function Kept(rec: (NodeId, seq<Ref>), id: NodeId): seq<Ref> {
      if rec.0 == NULL_ID then rec.1 else Without(rec.1, id)
    }

    /** One round of the loop, with the unsigned index stepped back when a node was taken out. */
    method Step(ghost was: seq<Node>, ghost recs: seq<(NodeId, seq<Ref>)>, id: NodeId, ghost k: nat, ghost place: map<Node, nat>,
                ghost done: nat, node: Node, i: nat, isDeleted: bool)
      returns (next: nat, isDeleted1: bool)
      requires done < |was| < UINT32 && i == (if isDeleted then done - 1 else done) && (isDeleted <==> k < done)
      requires i < |nodes| && nodes == Gap(was, k, isDeleted) && node == nodes[i] == was[done]
      requires SweptTo(Recs(was), recs, id, k, done) && |recs[done].1| < UINT32
      requires forall j :: 0 <= j < |was| ==> was[j] in place && place[was[j]] == j
      requires recs[done].0 == id && id != NULL_ID <==> done == k
      modifies `nodes, node`refs, node`id
      ensures isDeleted1 <==> k < done + 1
      ensures next == (if isDeleted1 then done else done + 1) && nodes == Gap(was, k, isDeleted1)
      ensures SweptTo(Recs(was), recs, id, k, done + 1)
    {
      ghost var before := Recs(was);
      var deleted := Visit(i, node, id, isDeleted);
      forall j | 0 <= j < |was| && j != done
        ensures was[j] != node && Recs(was)[j] == before[j]
      {
        assert place[was[j]] != place[was[done]];
      }
      SweptOn(before, Recs(was), recs, id, k, done);
      next, isDeleted1 := i, isDeleted;
      if deleted {
        next := Dec(next);
        isDeleted1 := true;
      }
      next := Inc(next);
    }

    /** The pass is one node further when only the node at `done` has changed. */
    lemma SweptOn(before: seq<(NodeId, seq<Ref>)>, now: seq<(NodeId, seq<Ref>)>, recs: seq<(NodeId, seq<Ref>)>,
                  id: NodeId, k: nat, done: nat)
      requires done < |before| == |now| && SweptTo(before, recs, id, k, done)
      requires forall j :: 0 <= j < |now| && j != done ==> now[j] == before[j]
      requires done != k ==> now[done] == (before[done].0, Kept(before[done], id))
      ensures SweptTo(now, recs, id, k, done + 1)
    {
    }

    /** One step of the pass: a node with a null identifier is passed over, the node to remove is
        destroyed, and any other loses its references to it. */
    method Visit(index: nat, node: Node, id: NodeId, isDeleted: bool) returns (deleted: bool)
      requires index < |nodes| && nodes[index] == node && |node.refs| < UINT32
      modifies `nodes, node`refs, node`id
      ensures deleted <==> !isDeleted && id == old(node.id) && id != NULL_ID
      ensures nodes == if deleted then old(nodes)[..index] + old(nodes)[index + 1..] else old(nodes)
      ensures !deleted ==> Swept(node, id)
    {
      deleted := false;
      if node.id == NULL_ID {
      } else if !isDeleted && id == node.id {
        Destroy(node);
        CloseGap(index);
        deleted := true;
      } else {
        node.RemoveReferencesTo(id);
      }
    }

    /** The node keeps its identifier and has lost its references to `id`, unless its own
        identifier is null. */
    twostate predicate Swept(n: Node, id: NodeId)
      reads n
    {
      n.id == old(n.id) && n.refs == if old(n.id) == NULL_ID then old(n.refs) else Without(old(n.refs), id)
    }

    method Destroy(node: Node)
      modifies node`refs, node`id
      ensures node.refs == [] && node.id == NULL_ID
    {
      node.refs, node.id := [], NULL_ID;
    }

    /** Shifts the later nodes down by one. */
    method CloseGap(index: nat)
      requires index < |nodes|
      modifies `nodes
      ensures nodes == old(nodes[..index] + nodes[index + 1..])
    {
      ghost var was := nodes;
      var j := index + 1;
      while j < |nodes|
        invariant index < j <= |nodes| == |was|
        invariant nodes[..j - 1] == was[..index] + was[index + 1..j]
        invariant nodes[j..] == was[j..]
      {
        assert nodes[j] == nodes[j..][0] == was[j];
        assert was[index + 1..j + 1] == was[index + 1..j] + [was[j]];
        assert nodes[j + 1..] == nodes[j..][1..];
        nodes := nodes[j - 1 := nodes[j]];
        assert nodes[..j] == nodes[..j - 1] + [nodes[j - 1]];
        j := j + 1;
      }
      nodes := nodes[..|nodes| - 1];
      assert was[index + 1..] == was[index + 1..j];
    }
  }
}
