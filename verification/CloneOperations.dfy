/** InheritReferences and CloneNode on the address space itself (AddressSpace.c): nodes are created
    and reference lists grow while the loops run. They compute the functions of `Cloning`. */
module CloneOperations {
  import opened OpcTypes
  import opened Graphs
  import opened Indexing
  import opened Cloning
  import opened AddressSpaces

  // ----- What each operation has to reach -----

  /** The goals below are sealed, so that the methods carry them along without the solver unfolding
      them. */
  ghost predicate InheritGoal(g: Graph, ix: Index, s: NodeId, t: NodeId, i: nat, rank: map<NodeId, nat>, goal: (Graph, Index)) {
    forall k {:trigger Unsealed(k)} :: Unsealed(k) ==>
      && Base(g, ix, rank) && Apart(g, t, rank) && s in rank && i <= |g[s].refs|
      && Inherit(g, ix, s, t, i, rank) == goal && goal.1.next < UINT32
  }

  ghost predicate OneGoal(g: Graph, ix: Index, s: NodeId, t: NodeId, r: Ref, rank: map<NodeId, nat>, goal: (Graph, Index)) {
    forall k {:trigger Unsealed(k)} :: Unsealed(k) ==>
      && Base(g, ix, rank) && Apart(g, t, rank) && s in rank && r in g[s].refs
      && InheritOne(g, ix, s, t, r, rank) == goal && goal.1.next < UINT32
  }

  ghost predicate CloneGoal(g: Graph, ix: Index, c: NodeId, n: NodeId, rank: map<NodeId, nat>, goal: (Graph, Index)) {
    forall k {:trigger Unsealed(k)} :: Unsealed(k) ==>
      && Base(g, ix, rank) && c in rank && n !in g && (n.ns == SERVER_NAMESPACE ==> Spent(ix, n.num))
      && Clone(g, ix, c, n, rank) == goal && goal.1.next < UINT32
  }

  /** The loop is done, or its next iteration has a goal and leads on to the same end. */
  lemma InheritUnfolds(g: Graph, ix: Index, s: NodeId, t: NodeId, i: nat, rank: map<NodeId, nat>, goal: (Graph, Index))
    returns (mid: (Graph, Index))
    requires InheritGoal(g, ix, s, t, i, rank, goal)
    ensures s in rank && s in g && t in g && i <= |g[s].refs|
    ensures i == |g[s].refs| ==> goal == (g, ix)
    ensures i < |g[s].refs| ==>
      && OneGoal(g, ix, s, t, g[s].refs[i], rank, mid) && InheritGoal(mid.0, mid.1, s, t, i + 1, rank, goal)
      && s in mid.0 && i + 1 <= |mid.0[s].refs|
      && DescentsLeft(mid.0[s].refs, i + 1) == DescentsLeft(g[s].refs, i) - (if Descends(g[s].refs[i]) then 1 else 0)
      && LoopsLeft(mid.0[s].refs, s, i + 1) == LoopsLeft(g[s].refs, s, i) - (if g[s].refs[i].target == s then 1 else 0)
      && (!Descends(g[s].refs[i]) && g[s].refs[i].target != s ==> |mid.0[s].refs| == |g[s].refs|)
  {
    assert Unsealed(Seal);
    mid := (g, ix);
    if i < |g[s].refs| {
      mid := InheritOne(g, ix, s, t, g[s].refs[i], rank);
      PassStep(g, mid.0, s, t, i);
    }
  }

  /** What one iteration has to do, by the kind of reference. */
  lemma OneUnfolds(g: Graph, ix: Index, s: NodeId, t: NodeId, r: Ref, rank: map<NodeId, nat>, goal: (Graph, Index))
    requires OneGoal(g, ix, s, t, r, rank, goal)
    ensures s in rank && s in g && t in g && (r.refType != HAS_MODELLING_RULE ==> r.target in g)
    ensures goal == (g, ix)
      || (r.refType == HAS_MODELLING_RULE && goal == (AddUni(g, t, r), ix))
      || (!r.inverse && !IsAggregate(r.refType) && r.refType != HAS_MODELLING_RULE && goal == (AddBi(g, t, r.target, r.refType), ix))
      || (r.inverse && r.refType != HAS_MODELLING_RULE && goal == (AddBi(g, r.target, t, r.refType), ix))
      || (Descends(r) && ShouldInherit(g[t].nodeClass, g[r.target]) && !NameTaken(g, t, g[r.target].browse))
    ensures r.refType == HAS_MODELLING_RULE ==> goal == (AddUni(g, t, r), ix)
    ensures IsAggregate(r.refType) && (r.inverse || !ShouldInherit(g[t].nodeClass, g[r.target]) || NameTaken(g, t, g[r.target].browse)) ==>
      goal == (g, ix)
    ensures r.refType == HAS_SUBTYPE || (r.refType == HAS_TYPE_DEFINITION && r.inverse) ==> goal == (g, ix)
    ensures r.refType == HAS_TYPE_DEFINITION && !r.inverse ==> goal == (AddBi(g, t, r.target, r.refType), ix)
    ensures r.refType != HAS_MODELLING_RULE && !IsAggregate(r.refType) && r.refType != HAS_SUBTYPE && r.refType != HAS_TYPE_DEFINITION ==>
      goal == if r.refType == ORGANIZES && g[s].kind != g[t].kind then (g, ix)
              else if r.inverse then (AddBi(g, r.target, t, r.refType), ix)
              else (AddBi(g, t, r.target, r.refType), ix)
  {
    assert Unsealed(Seal);
  }

  /** For a child to be cloned: the identifier drawn is unused, and cloning has a goal. */
  lemma ChildUnfolds(g: Graph, ix: Index, s: NodeId, t: NodeId, r: Ref, rank: map<NodeId, nat>, goal: (Graph, Index))
    returns (mid: (Graph, Index))
    requires OneGoal(g, ix, s, t, r, rank, goal)
    requires Descends(r) && t in g && r.target in g && ShouldInherit(g[t].nodeClass, g[r.target]) && !NameTaken(g, t, g[r.target].browse)
    ensures var n := NodeId(SERVER_NAMESPACE, Issue(ix).0);
      && Issue(ix).1.next < UINT32
      && CloneGoal(g, Issue(ix).1, r.target, n, rank, mid)
      && t in mid.0 && n in mid.0 && goal == (AddBi(mid.0, t, n, r.refType), mid.1)
      && s in rank && r.target in rank && rank[r.target] < rank[s]
  {
    assert Unsealed(Seal);
    IssueIsFresh(ix);
    AdmittedMayClone(g[t].nodeClass, g[r.target]);
    mid := Clone(g, Issue(ix).1, r.target, NodeId(SERVER_NAMESPACE, Issue(ix).0), rank);
  }

  lemma CloneStarts(g: Graph, ix: Index, c: NodeId, n: NodeId, rank: map<NodeId, nat>)
    requires Base(g, ix, rank) && c in rank && n !in g && (n.ns == SERVER_NAMESPACE ==> Spent(ix, n.num))
    requires Clone(g, ix, c, n, rank).1.next < UINT32
    ensures CloneGoal(g, ix, c, n, rank, Clone(g, ix, c, n, rank))
  {
  }

  lemma CloneUnfolds(g: Graph, ix: Index, c: NodeId, n: NodeId, rank: map<NodeId, nat>, goal: (Graph, Index))
    requires CloneGoal(g, ix, c, n, rank, goal)
    ensures c in rank && c in g && n !in g && InheritGoal(CopyNode(g, c, n), ix, c, n, 0, rank, goal)
  {
    assert Unsealed(Seal);
    CopyStep(g, ix, c, n, rank);
  }

  // ----- The operations -----

  /** Older nodes stay where they are; whatever else the space holds is newly allocated. */
  twostate predicate Extends(space: AddressSpace)
    reads space
  {
    && old(space.nodes) <= space.nodes && old(space.live) <= space.live && fresh(space.live - old(space.live))
    && space.fast == old(space.fast)
    && forall id :: id in old(space.at) ==> id in space.at && space.at[id] == old(space.at)[id]
  }

  ghost predicate Live(space: AddressSpace, ix: Indexer)
    reads space, space.live, ix
  {
    space.Valid() && space.FastLive() && ix.Valid()
  }

  /** One iteration of the loop of InheritReferences. */
  method InheritReference(space: AddressSpace, ix: Indexer, source: NodeId, target: NodeId, r: Ref,
                          ghost rank: map<NodeId, nat>, ghost goal: (Graph, Index))
    requires Live(space, ix) && OneGoal(space.graph, ix.State(), source, target, r, rank, goal) && source in rank
    modifies space, space.live, ix
    ensures Live(space, ix) && Extends(space) && (space.graph, ix.State()) == goal
    decreases rank[source], 0
  {
    OneUnfolds(space.graph, ix.State(), source, target, r, rank, goal);
    if r.refType == HAS_MODELLING_RULE {
      space.AddUniReference(target, r.target, r.refType, r.inverse);
    } else if r.refType == HAS_PROPERTY || r.refType == HAS_COMPONENT {
      if !r.inverse {
        InheritChild(space, ix, source, target, r, rank, goal);
      }
    } else if r.refType == HAS_SUBTYPE {
    } else if r.refType == HAS_TYPE_DEFINITION {
      if !r.inverse {
        space.AddBiReference(target, r.target, r.refType);
      }
    } else {
      var src := space.FindNodeWithID(source);
      var tgt := space.FindNodeWithID(target);
      if r.refType != ORGANIZES || src.kind == tgt.kind {
        if !r.inverse {
          space.AddBiReference(target, r.target, r.refType);
        } else {
          space.AddBiReference(r.target, target, r.refType);
        }
      }
    }
  }

  /** The branch for children: decides whether the child is inherited. */
  method InheritChild(space: AddressSpace, ix: Indexer, source: NodeId, target: NodeId, r: Ref,
                      ghost rank: map<NodeId, nat>, ghost goal: (Graph, Index))
    requires Live(space, ix) && OneGoal(space.graph, ix.State(), source, target, r, rank, goal) && source in rank
    requires Descends(r)
    modifies space, space.live, ix
    ensures Live(space, ix) && Extends(space) && (space.graph, ix.State()) == goal
    decreases rank[source], 0, 0
  {
    OneUnfolds(space.graph, ix.State(), source, target, r, rank, goal);
    var tgt := space.FindNodeWithID(target);
    var child := space.FindNodeWithID(r.target);
    var admitted := IsAdmitted(tgt.nodeClass, child);
    if admitted {
      var taken := IsNameTaken(space, tgt, child.browse);
      if !taken {
        ghost var mid := ChildUnfolds(space.graph, ix.State(), source, target, r, rank, goal);
        CloneChild(space, ix, target, r, rank, mid);
      }
    }
  }

  /** Draws a fresh identifier, clones the child under it and links the clone below the heir. */
  method CloneChild(space: AddressSpace, ix: Indexer, target: NodeId, r: Ref,
                    ghost rank: map<NodeId, nat>, ghost mid: (Graph, Index))
    requires Live(space, ix) && Issue(ix.State()).1.next < UINT32 && target in mid.0 && r.target in rank
    requires NodeId(SERVER_NAMESPACE, Issue(ix.State()).0) in mid.0
    requires CloneGoal(space.graph, Issue(ix.State()).1, r.target, NodeId(SERVER_NAMESPACE, Issue(ix.State()).0), rank, mid)
    modifies space, space.live, ix
    ensures Live(space, ix) && Extends(space) && ix.State() == mid.1
    ensures space.graph == AddBi(mid.0, target, NodeId(SERVER_NAMESPACE, old(Issue(ix.State()).0)), r.refType)
    decreases rank[r.target], 4
  {
    var index := ix.GetNextIndex(NextFree(ix.nextIndex, ix.reserved));
    var n := NodeId(SERVER_NAMESPACE, index);
    CloneNode(space, ix, r.target, n, rank, mid);
    space.AddBiReference(target, n, r.refType);
  }

  /** Whether a modelling rule of the child lets an heir of the given class inherit it. */
  method IsAdmitted(heir: NodeClass, child: Node) returns (admitted: bool)
    ensures admitted <==> ShouldInherit(heir, child.Rec())
  {
    var i := 0;
    while i < |child.refs|
      invariant 0 <= i <= |child.refs|
      invariant forall r :: r in child.refs[..i] ==> !(r.refType == HAS_MODELLING_RULE && Admits(heir, r.target))
    {
      var r := child.refs[i];
      if r.refType == HAS_MODELLING_RULE
         && (r.target == RULE_MANDATORY
             || ((heir == Class(ObjectType) || heir == Class(VariableType))
                 && (r.target == RULE_OPTIONAL_PLACEHOLDER || r.target == RULE_MANDATORY_PLACEHOLDER
                     || r.target == RULE_EXPOSES_ITS_ARRAY))) {
        return true;
      }
      i := i + 1;
    }
    assert child.refs[..i] == child.refs;
    return false;
  }

  /** Whether the heir already refers to something with the browse name. */
  method IsNameTaken(space: AddressSpace, tgt: Node, name: QName) returns (taken: bool)
    requires space.Valid() && space.FastLive() && tgt in space.live
    ensures tgt.id in space.graph && (taken <==> NameTaken(space.graph, tgt.id, name))
  {
    var i := 0;
    while i < |tgt.refs|
      invariant 0 <= i <= |tgt.refs|
      invariant forall r :: r in tgt.refs[..i] ==>
        !(r.target in space.graph && SameBrowseName(name, space.graph[r.target].browse))
    {
      var existing := space.GetNode(tgt.refs[i].target);
      if existing != null {
        if name.ns == existing.browse.ns && name.name.Some? && existing.browse.name.Some?
           && name.name.value == existing.browse.name.value {
          return true;
        }
      }
      i := i + 1;
    }
    assert tgt.refs[..i] == tgt.refs;
    return false;
  }

  /** The loop over the references of the source, whose list may grow under way. */
  method InheritReferences(space: AddressSpace, ix: Indexer, source: NodeId, target: NodeId,
                           ghost rank: map<NodeId, nat>, ghost goal: (Graph, Index))
    requires Live(space, ix) && InheritGoal(space.graph, ix.State(), source, target, 0, rank, goal) && source in rank
    modifies space, space.live, ix
    ensures Live(space, ix) && Extends(space) && (space.graph, ix.State()) == goal
    decreases rank[source], 2
  {
    assert source in space.graph by {
      ghost var mid := InheritUnfolds(space.graph, ix.State(), source, target, 0, rank, goal);
    }
    var src := space.FindNodeWithID(source);
    var i := 0;
    while i < |src.refs|
      invariant Live(space, ix) && Extends(space)
      invariant source in space.at && src == space.at[source] && i <= |src.refs|
      invariant InheritGoal(space.graph, ix.State(), source, target, i, rank, goal)
      decreases DescentsLeft(src.refs, i), LoopsLeft(src.refs, source, i), |src.refs| - i
    {
      InheritAt(space, ix, source, target, src, i, rank, goal);
      i := i + 1;
    }
    ghost var mid := InheritUnfolds(space.graph, ix.State(), source, target, i, rank, goal);
  }

  /** The round for the reference at `i`, after which less is left to do however the list has grown. */
  method InheritAt(space: AddressSpace, ix: Indexer, source: NodeId, target: NodeId, src: Node, i: nat,
                   ghost rank: map<NodeId, nat>, ghost goal: (Graph, Index))
    requires Live(space, ix) && InheritGoal(space.graph, ix.State(), source, target, i, rank, goal) && source in rank
    requires source in space.at && src == space.at[source] && i < |src.refs|
    modifies space, space.live, ix
    ensures Live(space, ix) && Extends(space) && source in space.at && src == space.at[source] && i < |src.refs|
    ensures InheritGoal(space.graph, ix.State(), source, target, i + 1, rank, goal)
    ensures var before, after := (DescentsLeft(old(src.refs), i), LoopsLeft(old(src.refs), source, i), |old(src.refs)| - i),
                                 (DescentsLeft(src.refs, i + 1), LoopsLeft(src.refs, source, i + 1), |src.refs| - (i + 1));
      || after.0 < before.0
      || (after.0 == before.0 && (after.1 < before.1 || (after.1 == before.1 && after.2 < before.2)))
    decreases rank[source], 1
  {
    ghost var mid := InheritUnfolds(space.graph, ix.State(), source, target, i, rank, goal);
    InheritReference(space, ix, source, target, src.refs[i], rank, mid);
  }

  /** A new node with the attributes of the original, which then inherits its references. */
  method CloneNode(space: AddressSpace, ix: Indexer, original: NodeId, n: NodeId,
                   ghost rank: map<NodeId, nat>, ghost goal: (Graph, Index))
    requires Live(space, ix) && CloneGoal(space.graph, ix.State(), original, n, rank, goal) && original in rank
    modifies space, space.live, ix
    ensures Live(space, ix) && Extends(space) && (space.graph, ix.State()) == goal
    decreases rank[original], 3
  {
    CloneUnfolds(space.graph, ix.State(), original, n, rank, goal);
    var node := space.FindNodeWithID(original);
    var local := space.AddNode(node.kind, node.nodeClass, node.browse, n);
    InheritReferences(space, ix, original, n, rank, goal);
  }

  /** The whole operation, on a space whose cloneable children are ranked. */
  method CloneSubtree(space: AddressSpace, ix: Indexer, original: NodeId, n: NodeId, ghost rank: map<NodeId, nat>)
    requires Live(space, ix) && Base(space.graph, ix.State(), rank) && original in rank && n !in space.graph
    requires n.ns == SERVER_NAMESPACE ==> Spent(ix.State(), n.num)
    requires Clone(space.graph, ix.State(), original, n, rank).1.next < UINT32
    modifies space, space.live, ix
    ensures Live(space, ix) && Extends(space)
    ensures (space.graph, ix.State()) == Clone(old(space.graph), old(ix.State()), original, n, rank)
  {
    CloneStarts(space.graph, ix.State(), original, n, rank);
    CloneNode(space, ix, original, n, rank, Clone(space.graph, ix.State(), original, n, rank));
  }

  /** CreateObjectFromObjectType, and CreateVariableFromVariableType as far as references go. */
  method CreateFromType(space: AddressSpace, ix: Indexer, ty: NodeId, n: NodeId, kind: NodeKind, ghost rank: map<NodeId, nat>)
    requires Live(space, ix) && Base(space.graph, ix.State(), rank) && ty in rank && n !in space.graph
    requires n.ns == SERVER_NAMESPACE ==> Spent(ix.State(), n.num)
    requires Instantiate(space.graph, ix.State(), ty, n, kind, rank).1.next < UINT32
    modifies space, space.live, ix
    ensures Live(space, ix) && Extends(space)
    ensures (space.graph, ix.State()) == Instantiate(old(space.graph), old(ix.State()), ty, n, kind, rank)
  {
    ghost var mid := InstantiateUnfolds(space.graph, ix.State(), ty, n, kind, rank);
    InheritIntoNew(space, ix, ty, n, kind, rank, mid);
    space.AddBiReference(n, ty, HAS_TYPE_DEFINITION);
  }

  method InheritIntoNew(space: AddressSpace, ix: Indexer, ty: NodeId, n: NodeId, kind: NodeKind,
                        ghost rank: map<NodeId, nat>, ghost mid: (Graph, Index))
    requires Live(space, ix) && n !in space.graph && ty in rank
    requires InheritGoal(space.graph[n := BlankNode(kind)], ix.State(), ty, n, 0, rank, mid)
    modifies space, space.live, ix
    ensures Live(space, ix) && Extends(space) && (space.graph, ix.State()) == mid
  {
    var node := space.AddNode(kind, Class(kind), QName(0, None), n);
    InheritReferences(space, ix, ty, n, rank, mid);
  }

  lemma InstantiateUnfolds(g: Graph, ix: Index, ty: NodeId, n: NodeId, kind: NodeKind, rank: map<NodeId, nat>) returns (mid: (Graph, Index))
    requires Base(g, ix, rank) && ty in rank && n !in g && (n.ns == SERVER_NAMESPACE ==> Spent(ix, n.num))
    requires Instantiate(g, ix, ty, n, kind, rank).1.next < UINT32
    ensures InheritGoal(g[n := BlankNode(kind)], ix, ty, n, 0, rank, mid)
    ensures n in mid.0 && ty in mid.0
    ensures Instantiate(g, ix, ty, n, kind, rank) == (AddBi(mid.0, n, ty, HAS_TYPE_DEFINITION), mid.1)
  {
    NewNodeStep(g, ix, n, BlankNode(kind), rank);
    mid := Inherit(g[n := BlankNode(kind)], ix, ty, n, 0, rank);
  }
}
