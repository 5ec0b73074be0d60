/** The address space over whole runs: any sequence of creating, linking, cloning, instantiating,
    building, renaming and removing keeps references paired, keeps them leading to existing nodes
    and keeps cloning well-founded. */
module GraphRuns {
  import opened OpcTypes
  import opened Indexing
  import opened Graphs
  import opened Cloning
  import opened CloneTheorems
  import opened Acyclicity
  import opened Renaming

  // ----- The result of cloning does not depend on the rank that shows it ends -----

  lemma {:induction false} InheritOneIgnoresRank(g: Graph, ix: Index, s: NodeId, t: NodeId, r: Ref, a: map<NodeId, nat>, b: map<NodeId, nat>)
    requires Base(g, ix, a) && Apart(g, t, a) && s in a && r in g[s].refs
    requires Base(g, ix, b) && Apart(g, t, b) && s in b
    ensures InheritOne(g, ix, s, t, r, a) == InheritOne(g, ix, s, t, r, b)
    decreases a[s], 0
  {
    if Descends(r) && ShouldInherit(g[t].nodeClass, g[r.target]) && !NameTaken(g, t, g[r.target].browse) {
      IssueIsFresh(ix);
      AdmittedMayClone(g[t].nodeClass, g[r.target]);
      CloneIgnoresRank(g, Issue(ix).1, r.target, NodeId(SERVER_NAMESPACE, Issue(ix).0), a, b);
    }
  }

  lemma {:induction false} InheritIgnoresRank(g: Graph, ix: Index, s: NodeId, t: NodeId, i: nat, a: map<NodeId, nat>, b: map<NodeId, nat>)
    requires Base(g, ix, a) && Apart(g, t, a) && s in a && i <= |g[s].refs|
    requires Base(g, ix, b) && Apart(g, t, b) && s in b
    ensures Inherit(g, ix, s, t, i, a) == Inherit(g, ix, s, t, i, b)
    decreases a[s], 1, DescentsLeft(g[s].refs, i), LoopsLeft(g[s].refs, s, i), |g[s].refs| - i
  {
    if i < |g[s].refs| {
      var (g1, ix1) := InheritOne(g, ix, s, t, g[s].refs[i], a);
      InheritOneIgnoresRank(g, ix, s, t, g[s].refs[i], a, b);
      PassStep(g, g1, s, t, i);
      InheritIgnoresRank(g1, ix1, s, t, i + 1, a, b);
    }
  }

  lemma {:induction false} CloneIgnoresRank(g: Graph, ix: Index, c: NodeId, n: NodeId, a: map<NodeId, nat>, b: map<NodeId, nat>)
    requires Base(g, ix, a) && c in a && Base(g, ix, b) && c in b && n !in g
    requires n.ns == SERVER_NAMESPACE ==> Spent(ix, n.num)
    ensures Clone(g, ix, c, n, a) == Clone(g, ix, c, n, b)
    decreases a[c], 2
  {
    CopyStep(g, ix, c, n, a);
    CopyStep(g, ix, c, n, b);
    InheritIgnoresRank(CopyNode(g, c, n), ix, c, n, 0, a, b);
  }

  // ----- New nodes get fresh identifiers -----

  /** Besides `n`, only identifiers that were not spent before have come into use. */
  ghost predicate OnlyFresh(g: Graph, ix: Index, g1: Graph, n: NodeId) {
    forall k :: k in g1 && k !in g && k != n ==> k.ns == SERVER_NAMESPACE && !Spent(ix, k.num)
  }

  lemma {:induction false} InheritOneIsFresh(g: Graph, ix: Index, s: NodeId, t: NodeId, r: Ref, rank: map<NodeId, nat>)
    requires Base(g, ix, rank) && Apart(g, t, rank) && s in rank && r in g[s].refs
    ensures OnlyFresh(g, ix, InheritOne(g, ix, s, t, r, rank).0, t)
    decreases rank[s], 0
  {
    if Descends(r) && ShouldInherit(g[t].nodeClass, g[r.target]) && !NameTaken(g, t, g[r.target].browse) {
      IssueIsFresh(ix);
      AdmittedMayClone(g[t].nodeClass, g[r.target]);
      var n := NodeId(SERVER_NAMESPACE, Issue(ix).0);
      CloneIsFresh(g, Issue(ix).1, r.target, n, rank);
      LinkIsFresh(g, ix, Clone(g, Issue(ix).1, r.target, n, rank).0, t, n, r.refType);
    } else {
      PlainIsFresh(g, ix, t, r);
    }
  }

  lemma LinkIsFresh(g: Graph, ix: Index, gc: Graph, t: NodeId, n: NodeId, refType: NodeId)
    requires OnlyFresh(g, Issue(ix).1, gc, n) && Sound(ix) && n == NodeId(SERVER_NAMESPACE, Issue(ix).0)
    requires t in gc && n in gc
    ensures OnlyFresh(g, ix, AddBi(gc, t, n, refType), t)
  {
    IssueIsFresh(ix);
  }

  lemma PlainIsFresh(g: Graph, ix: Index, t: NodeId, r: Ref)
    requires t in g
    ensures OnlyFresh(g, ix, g, t) && OnlyFresh(g, ix, AddUni(g, t, r), t)
    ensures r.target in g ==>
      OnlyFresh(g, ix, AddBi(g, t, r.target, r.refType), t) && OnlyFresh(g, ix, AddBi(g, r.target, t, r.refType), t)
  {
  }

  lemma {:induction false} InheritIsFresh(g: Graph, ix: Index, s: NodeId, t: NodeId, i: nat, rank: map<NodeId, nat>)
    requires Base(g, ix, rank) && Apart(g, t, rank) && s in rank && i <= |g[s].refs|
    ensures OnlyFresh(g, ix, Inherit(g, ix, s, t, i, rank).0, t)
    decreases rank[s], 1, DescentsLeft(g[s].refs, i), LoopsLeft(g[s].refs, s, i), |g[s].refs| - i
  {
    if i < |g[s].refs| {
      var (g1, ix1) := InheritOne(g, ix, s, t, g[s].refs[i], rank);
      InheritOneIsFresh(g, ix, s, t, g[s].refs[i], rank);
      PassStep(g, g1, s, t, i);
      InheritIsFresh(g1, ix1, s, t, i + 1, rank);
    }
  }

  /** All the nodes that cloning adds below `n` get identifiers that nothing used or reserved. */
  lemma {:induction false} CloneIsFresh(g: Graph, ix: Index, c: NodeId, n: NodeId, rank: map<NodeId, nat>)
    requires Base(g, ix, rank) && c in rank && n !in g
    requires n.ns == SERVER_NAMESPACE ==> Spent(ix, n.num)
    ensures OnlyFresh(g, ix, Clone(g, ix, c, n, rank).0, n)
    decreases rank[c], 2
  {
    CopyStep(g, ix, c, n, rank);
    InheritIsFresh(CopyNode(g, c, n), ix, c, n, 0, rank);
  }

  // ----- What exists is kept -----

  ghost predicate KeepsAll(g: Graph, g1: Graph) {
    forall k :: k in g ==> k in g1 && Kept(g[k], g1[k])
  }

  // ----- The state machine -----

  datatype State = State(g: Graph, ix: Index)

  datatype Edit =
    | Reserve(num: nat)
    | TakeId
    | Create(id: NodeId, kind: NodeKind, nodeClass: NodeClass, browse: QName)
    | SetName(id: NodeId, browse: QName)
    | Link(source: NodeId, target: NodeId, refType: NodeId)
    | Unlink(source: NodeId, target: NodeId, refType: NodeId)
    | AddRule(id: NodeId, rule: NodeId)
    | Repeat(id: NodeId, r: Ref)
    | CloneTo(original: NodeId, id: NodeId)
    | InstantiateTo(ty: NodeId, id: NodeId, kind: NodeKind)
    | Build(order: seq<NodeId>, kind: NodeKind, target: NodeId, refType: NodeId)
    | Rename(orig: NodeId, new_: NodeId)
    | Remove(id: NodeId)

  /** Descending into cloneable children never leads back to the start. */
  ghost predicate Acyclic(g: Graph) {
    NoCycle(Edges(g))
  }

  ghost predicate Sane(s: State) {
    NonDangling(s.g) && Paired(s.g) && Acyclic(s.g) && NULL_ID !in s.g && IdsSpent(s.g, s.ix)
  }

  /** `id` may be given to a new node: unused, not null, and issued or reserved when it is one of
      the server's own numbers. */
  ghost predicate Available(s: State, id: NodeId) {
    id !in s.g && id != NULL_ID && (id.ns == SERVER_NAMESPACE ==> Spent(s.ix, id.num))
  }

  function Rule(rule: NodeId): Ref {
    Ref(HAS_MODELLING_RULE, false, rule)
  }

  ghost predicate Permitted(s: State, e: Edit) {
    match e
    case Reserve(_) => true
    case TakeId => true
    case Create(id, _, _, _) => Available(s, id)
    case SetName(id, _) => id in s.g
    case Link(a, b, refType) =>
      && a in s.g && b in s.g && refType != HAS_MODELLING_RULE
      && (IsAggregate(refType) && MayClone(s.g[b]) ==> !Reaches(Edges(s.g), b, a))
    case Unlink(a, b, refType) =>
      && a in s.g && b in s.g && refType != HAS_MODELLING_RULE
      && (multiset(s.g[a].refs)[Ref(refType, false, b)] > 1 <==> multiset(s.g[b].refs)[Ref(refType, true, a)] > 1)
    case AddRule(id, rule) =>
      && id in s.g
      && (IsRule(rule) && !MayClone(s.g[id]) ==> forall x :: x in Parents(s.g, id) ==> !Reaches(Edges(s.g), id, x))
    case Repeat(id, r) => id in s.g && r in s.g[id].refs
    case CloneTo(c, id) => c in s.g && Available(s, id)
    case InstantiateTo(ty, id, _) => ty in s.g && Available(s, id)
    case Build(order, kind, target, refType) =>
      && target in s.g && (forall n :: n in order ==> n in s.g) && refType != HAS_MODELLING_RULE
      && (IsAggregate(refType) ==> forall n :: n in order ==> !BuildsCycle(s.g, n, kind, target, refType))
    case Rename(orig, new_) => orig in s.g && Available(s, new_) && NoLoop(s.g, orig)
    case Remove(_) => true
  }

  ghost function SomeRank(g: Graph): (rank: map<NodeId, nat>)
    requires Acyclic(g)
    ensures FullyRanked(g, rank)
  {
    RankExistsIffNoCycle(g);
    var rank :| FullyRanked(g, rank);
    rank
  }

  ghost function Cloned(s: State, c: NodeId, id: NodeId): State
    requires Sane(s) && c in s.g && Available(s, id)
  {
    var (g, ix) := Clone(s.g, s.ix, c, id, SomeRank(s.g));
    State(g, ix)
  }

  ghost function Instantiated(s: State, ty: NodeId, id: NodeId, kind: NodeKind): State
    requires Sane(s) && ty in s.g && Available(s, id)
  {
    var (g, ix) := Instantiate(s.g, s.ix, ty, id, kind, SomeRank(s.g));
    State(g, ix)
  }

  ghost function Apply(s: State, e: Edit): State
    requires Sane(s) && Permitted(s, e)
  {
    match e
    case Reserve(num) => s.(ix := s.ix.(reserved := s.ix.reserved + [num]))
    case TakeId => s.(ix := Issue(s.ix).1)
    case Create(id, kind, nodeClass, browse) => s.(g := s.g[id := NodeRec(kind, nodeClass, browse, [])])
    case SetName(id, browse) => s.(g := s.g[id := s.g[id].(browse := browse)])
    case Link(a, b, refType) => s.(g := AddBi(s.g, a, b, refType))
    case Unlink(a, b, refType) => s.(g := RemoveBi(s.g, a, b, refType))
    case AddRule(id, rule) => s.(g := AddUni(s.g, id, Rule(rule)))
    case Repeat(id, r) => s.(g := AddUni(s.g, id, r))
    case CloneTo(c, id) => Cloned(s, c, id)
    case InstantiateTo(ty, id, kind) => Instantiated(s, ty, id, kind)
    case Build(order, kind, target, refType) => s.(g := BuildRefs(s.g, order, kind, target, refType))
    case Rename(orig, new_) => s.(g := MapNodeToId(s.g, orig, new_))
    case Remove(id) => s.(g := RemoveNode(s.g, id))
  }

  // ----- Each step keeps the invariant -----

  lemma RankedIsAcyclic(g: Graph, rank: map<NodeId, nat>)
    requires FullyRanked(g, rank)
    ensures Acyclic(g)
  {
    RankExistsIffNoCycle(g);
  }

  lemma PlainLinkIsAcyclic(g: Graph, a: NodeId, b: NodeId, refType: NodeId)
    requires Acyclic(g) && a in g && b in g && !IsAggregate(refType) && refType != HAS_MODELLING_RULE
    ensures Acyclic(AddBi(g, a, b, refType))
  {
    var g1, rank := AddBi(g, a, b, refType), SomeRank(g);
    forall k | k in g
      ensures MayClone(g1[k]) ==> MayClone(g[k])
      ensures forall r :: r in g1[k].refs && Descends(r) ==> r in g[k].refs
    {
      AddBiRefs(g, a, b, refType, k);
      MayCloneNeedsRule(g[k], g1[k]);
    }
    RankedIsAcyclic(g1, rank);
  }

  lemma {:induction false} BuildIsAcyclic(g: Graph, order: seq<NodeId>, kind: NodeKind, target: NodeId, refType: NodeId)
    requires Acyclic(g) && target in g && (forall n :: n in order ==> n in g)
    requires !IsAggregate(refType) && refType != HAS_MODELLING_RULE
    ensures Acyclic(BuildRefs(g, order, kind, target, refType))
  {
    if order != [] {
      var n := order[|order| - 1];
      PlainLinkIsAcyclic(g, target, n, refType);
      AddBiKeeps(g, target, n, refType);
      BuildIsAcyclic(BuildOne(g, n, kind, target, refType), order[..|order| - 1], kind, target, refType);
    }
  }

  lemma NewNodeIsAcyclic(g: Graph, id: NodeId, rec: NodeRec)
    requires Acyclic(g) && NonDangling(g) && id !in g && rec.refs == []
    ensures Acyclic(g[id := rec])
  {
    RankedIsAcyclic(g[id := rec], SomeRank(g)[id := 0]);
  }

  lemma CloneIsAcyclic(g: Graph, ix: Index, c: NodeId, n: NodeId)
    requires NonDangling(g) && IdsSpent(g, ix) && Acyclic(g) && c in g && n !in g
    requires n.ns == SERVER_NAMESPACE ==> Spent(ix, n.num)
    ensures Acyclic(Clone(g, ix, c, n, SomeRank(g)).0)
  {
    var rank := SomeRank(g);
    var all := CloneKeepsRanks(g, ix, c, n, rank, rank);
    RankedIsAcyclic(Clone(g, ix, c, n, rank).0, all);
  }

  lemma InstantiateIsAcyclic(g: Graph, ix: Index, ty: NodeId, n: NodeId, kind: NodeKind)
    requires NonDangling(g) && IdsSpent(g, ix) && Acyclic(g) && ty in g && n !in g
    requires n.ns == SERVER_NAMESPACE ==> Spent(ix, n.num)
    ensures Acyclic(Instantiate(g, ix, ty, n, kind, SomeRank(g)).0)
  {
    var rank := SomeRank(g);
    var g0 := g[n := BlankNode(kind)];
    NewNodeStep(g, ix, n, BlankNode(kind), rank);
    assert Extended(g0, rank, rank[n := rank[ty]], ty, n);
    var all := InheritKeepsRanks(g0, ix, ty, n, 0, rank, rank[n := rank[ty]]);
    var g1 := Inherit(g0, ix, ty, n, 0, rank).0;
    PairKeepsRanks(g1, n, ty, HAS_TYPE_DEFINITION, n, all);
    RankedIsAcyclic(AddBi(g1, n, ty, HAS_TYPE_DEFINITION), all);
  }

  lemma RenameIsAcyclic(g: Graph, orig: NodeId, new_: NodeId)
    requires NonDangling(g) && Acyclic(g) && orig in g && new_ !in g
    ensures Acyclic(Relinked(g, orig, new_))
  {
    var g1, rank := Relinked(g, orig, new_), SomeRank(g);
    var rank1 := map k | k in g1 :: rank[if k == new_ then orig else k];
    forall k | k in g1
      ensures var k0 := if k == new_ then orig else k;
        && (MayClone(g1[k]) ==> MayClone(g[k0]))
        && forall r :: r in g1[k].refs && r.refType != HAS_MODELLING_RULE ==> r.(target := Swap(r.target, new_, orig)) in g[k0].refs && r.target in g1
    {
      RelinkedNode(g, orig, new_, k);
    }
    RankedIsAcyclic(g1, rank1);
  }

  /** A node after the renaming has the references it had before, with the new identifier swapped
      back; its modelling rules are the same. */
  lemma RelinkedNode(g: Graph, orig: NodeId, new_: NodeId, k: NodeId)
    requires NonDangling(g) && orig in g && new_ !in g && k in Relinked(g, orig, new_)
    ensures var g1, k0 := Relinked(g, orig, new_), if k == new_ then orig else k;
      && k0 in g && (MayClone(g1[k]) ==> MayClone(g[k0]))
      && forall r :: r in g1[k].refs && r.refType != HAS_MODELLING_RULE ==>
           r.(target := Swap(r.target, new_, orig)) in g[k0].refs && r.target in g1
  {
    var g1, k0 := Relinked(g, orig, new_), if k == new_ then orig else k;
    forall r | r in g1[k].refs
      ensures r.refType != HAS_MODELLING_RULE ==> r.(target := Swap(r.target, new_, orig)) in g[k0].refs && r.target in g1
      ensures r.refType == HAS_MODELLING_RULE ==> r in g[k0].refs
    {
      var j := RelinkedFrom(g, orig, new_, k, r);
    }
    MayCloneNeedsRule(g[k0], g1[k]);
  }

  /** Taking references and nodes away closes no cycle. */
  lemma LessIsAcyclic(g: Graph, g1: Graph)
    requires Acyclic(g) && g1.Keys <= g.Keys && forall k, r :: k in g1 && r in g1[k].refs ==> r in g[k].refs
    ensures Acyclic(g1)
  {
    var rank := SomeRank(g);
    var rank1 := map k | k in g1 :: rank[k];
    forall k | k in g1
      ensures MayClone(g1[k]) ==> MayClone(g[k])
    {
      MayCloneNeedsRule(g[k], g1[k]);
    }
    RankedIsAcyclic(g1, rank1);
  }

  lemma CloneStepKeeps(s: State, c: NodeId, id: NodeId)
    requires Sane(s) && c in s.g && Available(s, id)
    ensures Sane(Cloned(s, c, id))
  {
    var rank := SomeRank(s.g);
    CloneIsAcyclic(s.g, s.ix, c, id);
    CloneKeepsPairs(s.g, s.ix, c, id, rank);
    CloneIsFresh(s.g, s.ix, c, id, rank);
  }

  lemma InstantiateStepKeeps(s: State, ty: NodeId, id: NodeId, kind: NodeKind)
    requires Sane(s) && ty in s.g && Available(s, id)
    ensures Sane(Instantiated(s, ty, id, kind))
  {
    var rank := SomeRank(s.g);
    var g1 := Instantiate(s.g, s.ix, ty, id, kind, rank).0;
    assert Acyclic(g1) by { InstantiateIsAcyclic(s.g, s.ix, ty, id, kind); }
    assert Paired(g1) by { InstantiateKeepsPairs(s.g, s.ix, ty, id, kind, rank); }
    assert OnlyFresh(s.g, s.ix, g1, id) by { InstantiateGrows(s.g, s.ix, ty, id, kind, rank); }
    SaneWithoutNull(s, Instantiated(s, ty, id, kind), id);
  }

  lemma SaneWithoutNull(s: State, s1: State, id: NodeId)
    requires NULL_ID !in s.g && OnlyFresh(s.g, s.ix, s1.g, id) && id != NULL_ID
    requires NonDangling(s1.g) && Paired(s1.g) && Acyclic(s1.g) && IdsSpent(s1.g, s1.ix)
    ensures Sane(s1)
  {
  }

  /** Instantiating keeps what exists and adds fresh nodes only. */
  lemma InstantiateGrows(g: Graph, ix: Index, ty: NodeId, n: NodeId, kind: NodeKind, rank: map<NodeId, nat>)
    requires Base(g, ix, rank) && ty in rank && n !in g
    requires n.ns == SERVER_NAMESPACE ==> Spent(ix, n.num)
    ensures KeepsAll(g, Instantiate(g, ix, ty, n, kind, rank).0)
    ensures OnlyFresh(g, ix, Instantiate(g, ix, ty, n, kind, rank).0, n)
  {
    var g0 := g[n := BlankNode(kind)];
    NewNodeStep(g, ix, n, BlankNode(kind), rank);
    InheritIsFresh(g0, ix, ty, n, 0, rank);
    DefinitionGrows(g, ix, g0, Inherit(g0, ix, ty, n, 0, rank).0, ty, n);
  }

  lemma DefinitionGrows(g: Graph, ix: Index, g0: Graph, g1: Graph, ty: NodeId, n: NodeId)
    requires n !in g && n in g0 && g0 == g[n := g0[n]] && Grows(g0, g1, n) && OnlyFresh(g0, ix, g1, n) && ty in g
    ensures n in g1 && ty in g1 && KeepsAll(g, AddBi(g1, n, ty, HAS_TYPE_DEFINITION))
    ensures OnlyFresh(g, ix, AddBi(g1, n, ty, HAS_TYPE_DEFINITION), n)
  {
    var g2 := AddBi(g1, n, ty, HAS_TYPE_DEFINITION);
    forall k | k in g
      ensures k in g2 && Kept(g[k], g2[k])
    {
      assert Kept(g0[k], g1[k]);
      AddBiRefs(g1, n, ty, HAS_TYPE_DEFINITION, k);
    }
  }

  /** A renaming leaves the graph in order exactly when the node does not refer to itself. */
  lemma RenameStaysSaneIff(s: State, orig: NodeId, new_: NodeId)
    requires Sane(s) && orig in s.g && Available(s, new_)
    ensures Sane(s.(g := MapNodeToId(s.g, orig, new_))) <==> NoLoop(s.g, orig)
    ensures NoLoop(s.g, orig) ==> MapNodeToId(s.g, orig, new_) == Relinked(s.g, orig, new_)
  {
    AnsweredWhenPaired(s.g, orig);
    if NoLoop(s.g, orig) {
      AnsweredRelinks(s.g, orig, new_);
      RelinkedKeeps(s.g, orig, new_);
      RenameIsAcyclic(s.g, orig, new_);
    } else {
      var g1 := MapNodeToId(s.g, orig, new_);
      var k, j := LeftBehind(s.g, orig, new_);
      assert g1[Swap(k, orig, new_)].refs[j] == s.g[k].refs[j];
      assert s.g[k].refs[j] in g1[Swap(k, orig, new_)].refs;
      MapLoopKeepsIds(s.g, orig, new_, 0);
    }
  }

  lemma RemoveStepKeeps(s: State, id: NodeId)
    requires Sane(s)
    ensures Sane(Apply(s, Remove(id)))
  {
    LessIsAcyclic(s.g, RemoveNode(s.g, id));
    RemoveNodeKeepsPairs(s.g, id);
    RemoveNodeLeavesNoDangling(s.g, id);
  }

  lemma LinkStepKeeps(s: State, a: NodeId, b: NodeId, refType: NodeId)
    requires Sane(s) && Permitted(s, Link(a, b, refType))
    ensures Sane(Apply(s, Link(a, b, refType)))
  {
    AddBiKeeps(s.g, a, b, refType);
    if IsAggregate(refType) {
      LinkIsAcyclicIff(s.g, a, b, refType);
    } else {
      PlainLinkIsAcyclic(s.g, a, b, refType);
    }
  }

  lemma UnlinkStepKeeps(s: State, a: NodeId, b: NodeId, refType: NodeId)
    requires Sane(s) && Permitted(s, Unlink(a, b, refType))
    ensures Sane(Apply(s, Unlink(a, b, refType)))
  {
    RemoveBiKeeps(s.g, a, b, refType);
    RemoveBiKeepsPairsIff(s.g, a, b, refType);
    forall k, q | k in s.g && q in RemoveBi(s.g, a, b, refType)[k].refs
      ensures q in s.g[k].refs
    {
      RemoveBiHas(s.g, a, b, refType, k, q);
    }
    LessIsAcyclic(s.g, RemoveBi(s.g, a, b, refType));
  }

  lemma RuleStepKeeps(s: State, id: NodeId, rule: NodeId)
    requires Sane(s) && Permitted(s, AddRule(id, rule))
    ensures Sane(Apply(s, AddRule(id, rule)))
  {
    AddRuleKeeps(s.g, id, Rule(rule));
    RuleIsAcyclicIff(s.g, id, Rule(rule));
  }

  /** A reference that is there already may be added again, one-way. */
  lemma RepeatStepKeeps(s: State, id: NodeId, r: Ref)
    requires Sane(s) && Permitted(s, Repeat(id, r))
    ensures Sane(Apply(s, Repeat(id, r)))
  {
    forall k | k in s.g
      ensures forall q :: q in AddUni(s.g, id, r)[k].refs <==> q in s.g[k].refs
    {
    }
    LessIsAcyclic(s.g, AddUni(s.g, id, r));
  }

  lemma StepKeeps(s: State, e: Edit)
    requires Sane(s) && Permitted(s, e)
    ensures Sane(Apply(s, e))
  {
    match e
    case Reserve(_) =>
    case TakeId => IssueIsFresh(s.ix);
    case Create(id, kind, nodeClass, browse) =>
      AddNodeKeeps(s.g, id, NodeRec(kind, nodeClass, browse, []));
      NewNodeIsAcyclic(s.g, id, NodeRec(kind, nodeClass, browse, []));
    case SetName(id, browse) => LessIsAcyclic(s.g, s.g[id := s.g[id].(browse := browse)]);
    case Link(a, b, refType) => LinkStepKeeps(s, a, b, refType);
    case Unlink(a, b, refType) => UnlinkStepKeeps(s, a, b, refType);
    case AddRule(id, rule) => RuleStepKeeps(s, id, rule);
    case Repeat(id, r) => RepeatStepKeeps(s, id, r);
    case CloneTo(c, id) => CloneStepKeeps(s, c, id);
    case InstantiateTo(ty, id, kind) => InstantiateStepKeeps(s, ty, id, kind);
    case Build(order, kind, target, refType) =>
      BuildRefsKeeps(s.g, order, kind, target, refType);
      if IsAggregate(refType) {
        BuildIsAcyclicIff(s.g, order, kind, target, refType);
      } else {
        BuildIsAcyclic(s.g, order, kind, target, refType);
      }
    case Rename(orig, new_) => RenameStaysSaneIff(s, orig, new_);
    case Remove(id) => RemoveStepKeeps(s, id);
  }

  // ----- Runs -----

  ghost predicate EditRun(states: seq<State>, edits: seq<Edit>) {
    && |states| == |edits| + 1 && Sane(states[0])
    && forall i :: 0 <= i < |edits| ==>
         Permitted(states[i], edits[i]) && (Sane(states[i]) ==> states[i + 1] == Apply(states[i], edits[i]))
  }

  /** Every state of every run is sane: references stay paired and lead to existing nodes,
      identifiers of new nodes never clash, and cloning always ends. */
  lemma {:induction false} RunsStaySane(states: seq<State>, edits: seq<Edit>, i: nat)
    requires EditRun(states, edits) && i < |states|
    ensures Sane(states[i])
  {
    if i > 0 {
      RunsStaySane(states, edits, i - 1);
      StepKeeps(states[i - 1], edits[i - 1]);
    }
  }

  lemma EmptyIsSane()
    ensures Sane(State(map[], Index(0, [], [])))
  {
    RankedIsAcyclic(map[], map[]);
  }

  // ----- What runs keep -----

  lemma {:induction false} BuildKeepsAll(g: Graph, order: seq<NodeId>, kind: NodeKind, target: NodeId, refType: NodeId)
    requires target in g && (forall n :: n in order ==> n in g)
    ensures KeepsAll(g, BuildRefs(g, order, kind, target, refType))
  {
    if order != [] {
      var n := order[|order| - 1];
      var g1 := BuildOne(g, n, kind, target, refType);
      BuildKeepsAll(g1, order[..|order| - 1], kind, target, refType);
      assert KeepsAll(g, g1);
    }
  }

  /** Renaming, removing, unlinking and new browse names touch what exists. */
  predicate Takes(e: Edit) {
    e.Rename? || e.Remove? || e.Unlink? || e.SetName?
  }

  /** Every other step keeps each node, its attributes and its references, in their order. */
  lemma StepKeepsAll(s: State, e: Edit)
    requires Sane(s) && Permitted(s, e) && !Takes(e)
    ensures KeepsAll(s.g, Apply(s, e).g)
  {
    match e
    case InstantiateTo(ty, id, kind) => InstantiateGrows(s.g, s.ix, ty, id, kind, SomeRank(s.g));
    case Build(order, kind, target, refType) => BuildKeepsAll(s.g, order, kind, target, refType);
    case _ =>
  }

  lemma {:induction false} RunsKeepAll(states: seq<State>, edits: seq<Edit>, i: nat, j: nat)
    requires EditRun(states, edits) && i <= j < |states|
    requires forall m :: i <= m < j ==> !Takes(edits[m])
    ensures KeepsAll(states[i].g, states[j].g)
    decreases j
  {
    if i < j {
      RunsKeepAll(states, edits, i, j - 1);
      RunKeepsAllAt(states, edits, j - 1);
      KeptOn(states[i].g, states[j - 1].g, states[j].g);
    }
  }

  lemma RunKeepsAllAt(states: seq<State>, edits: seq<Edit>, j: nat)
    requires EditRun(states, edits) && j < |edits| && !Takes(edits[j])
    ensures KeepsAll(states[j].g, states[j + 1].g)
  {
    RunsStaySane(states, edits, j);
    StepKeepsAll(states[j], edits[j]);
  }

  lemma KeptOn(g: Graph, g1: Graph, g2: Graph)
    requires KeepsAll(g, g1) && KeepsAll(g1, g2)
    ensures KeepsAll(g, g2)
  {
    forall k | k in g
      ensures k in g2 && Kept(g[k], g2[k])
    {
      assert Kept(g[k], g1[k]) && Kept(g1[k], g2[k]);
    }
  }

  // ----- Modelling rules -----

  /** The step gives a node a new identifier although modelling rules name the old one. */
  ghost predicate RenamesARule(s: State, e: Edit) {
    e.Rename? && !IsNoRule(s.g, e.orig)
  }

  /** A step makes a modelling rule dangle that led somewhere exactly when it renames a rule's node. */
  lemma StepKeepsRulesIff(s: State, e: Edit)
    requires Sane(s) && Permitted(s, e)
    ensures RulesStay(s.g, Apply(s, e).g) <==> !RenamesARule(s, e)
  {
    match e
    case Rename(orig, new_) =>
      RenameStaysSaneIff(s, orig, new_);
      RelinkedKeepsRulesIff(s.g, orig, new_);
    case Remove(id) => RemoveNodeKeepsRules(s.g, id);
    case Unlink(a, b, refType) => RemoveBiKeeps(s.g, a, b, refType);
    case SetName(_, _) =>
    case _ => StepKeepsAll(s, e);
  }

  lemma {:induction false} InheritOneKeepsAnchors(g: Graph, ix: Index, s: NodeId, t: NodeId, r: Ref, rank: map<NodeId, nat>)
    requires Base(g, ix, rank) && Apart(g, t, rank) && s in rank && r in g[s].refs && Anchored(g)
    ensures Anchored(InheritOne(g, ix, s, t, r, rank).0)
    decreases rank[s], 0
  {
    if Descends(r) && ShouldInherit(g[t].nodeClass, g[r.target]) && !NameTaken(g, t, g[r.target].browse) {
      IssueIsFresh(ix);
      AdmittedMayClone(g[t].nodeClass, g[r.target]);
      var n := NodeId(SERVER_NAMESPACE, Issue(ix).0);
      CloneKeepsAnchors(g, Issue(ix).1, r.target, n, rank);
      LinkKeepsAnchors(Clone(g, Issue(ix).1, r.target, n, rank).0, t, n, r.refType);
    } else {
      LinkKeepsAnchors(g, t, r.target, r.refType);
      LinkKeepsAnchors(g, r.target, t, r.refType);
      UniKeepsAnchors(g, t, r);
    }
  }

  lemma LinkKeepsAnchors(g: Graph, a: NodeId, b: NodeId, refType: NodeId)
    requires a in g && b in g && Anchored(g)
    ensures Anchored(AddBi(g, a, b, refType))
  {
    forall k | k in g
      ensures forall r :: r in AddBi(g, a, b, refType)[k].refs ==> r.target in g
    {
      AddBiRefs(g, a, b, refType, k);
    }
  }

  lemma UniKeepsAnchors(g: Graph, a: NodeId, r: Ref)
    requires a in g && r.target in g && Anchored(g)
    ensures Anchored(AddUni(g, a, r))
  {
  }

  lemma {:induction false} InheritKeepsAnchors(g: Graph, ix: Index, s: NodeId, t: NodeId, i: nat, rank: map<NodeId, nat>)
    requires Base(g, ix, rank) && Apart(g, t, rank) && s in rank && i <= |g[s].refs| && Anchored(g)
    ensures Anchored(Inherit(g, ix, s, t, i, rank).0)
    decreases rank[s], 1, DescentsLeft(g[s].refs, i), LoopsLeft(g[s].refs, s, i), |g[s].refs| - i
  {
    if i < |g[s].refs| {
      var (g1, ix1) := InheritOne(g, ix, s, t, g[s].refs[i], rank);
      InheritOneKeepsAnchors(g, ix, s, t, g[s].refs[i], rank);
      PassStep(g, g1, s, t, i);
      InheritKeepsAnchors(g1, ix1, s, t, i + 1, rank);
    }
  }

  lemma {:induction false} CloneKeepsAnchors(g: Graph, ix: Index, c: NodeId, n: NodeId, rank: map<NodeId, nat>)
    requires Base(g, ix, rank) && c in rank && n !in g && Anchored(g)
    requires n.ns == SERVER_NAMESPACE ==> Spent(ix, n.num)
    ensures Anchored(Clone(g, ix, c, n, rank).0)
    decreases rank[c], 2
  {
    CopyStep(g, ix, c, n, rank);
    InheritKeepsAnchors(CopyNode(g, c, n), ix, c, n, 0, rank);
  }

  lemma InstantiateKeepsAnchors(g: Graph, ix: Index, ty: NodeId, n: NodeId, kind: NodeKind, rank: map<NodeId, nat>)
    requires Base(g, ix, rank) && ty in rank && n !in g && Anchored(g)
    requires n.ns == SERVER_NAMESPACE ==> Spent(ix, n.num)
    ensures Anchored(Instantiate(g, ix, ty, n, kind, rank).0)
  {
    var g0 := g[n := BlankNode(kind)];
    NewNodeStep(g, ix, n, BlankNode(kind), rank);
    InheritKeepsAnchors(g0, ix, ty, n, 0, rank);
    LinkKeepsAnchors(Inherit(g0, ix, ty, n, 0, rank).0, n, ty, HAS_TYPE_DEFINITION);
  }

  lemma {:induction false} BuildKeepsAnchors(g: Graph, order: seq<NodeId>, kind: NodeKind, target: NodeId, refType: NodeId)
    requires target in g && (forall n :: n in order ==> n in g) && Anchored(g)
    ensures Anchored(BuildRefs(g, order, kind, target, refType))
  {
    if order != [] {
      var n := order[|order| - 1];
      LinkKeepsAnchors(g, target, n, refType);
      BuildKeepsAnchors(BuildOne(g, n, kind, target, refType), order[..|order| - 1], kind, target, refType);
    }
  }

  /** Once every modelling rule leads somewhere, this stays so exactly as long as rules are given whose
      nodes exist and no rule's node is renamed. */
  lemma StepKeepsAnchorsIff(s: State, e: Edit)
    requires Sane(s) && Permitted(s, e) && Anchored(s.g)
    ensures Anchored(Apply(s, e).g) <==> (e.AddRule? ==> e.rule in s.g) && !RenamesARule(s, e)
  {
    match e
    case Link(a, b, refType) => LinkKeepsAnchors(s.g, a, b, refType);
    case Unlink(a, b, refType) => RemoveBiKeeps(s.g, a, b, refType);
    case AddRule(id, rule) =>
      assert Rule(rule) in Apply(s, e).g[id].refs;
      if rule in s.g {
        UniKeepsAnchors(s.g, id, Rule(rule));
      }
    case Repeat(id, r) => UniKeepsAnchors(s.g, id, r);
    case CloneTo(c, id) => CloneKeepsAnchors(s.g, s.ix, c, id, SomeRank(s.g));
    case InstantiateTo(ty, id, kind) => InstantiateKeepsAnchors(s.g, s.ix, ty, id, kind, SomeRank(s.g));
    case Build(order, kind, target, refType) => BuildKeepsAnchors(s.g, order, kind, target, refType);
    case Rename(orig, new_) =>
      RenameStaysSaneIff(s, orig, new_);
      RelinkedKeepsRulesIff(s.g, orig, new_);
    case Remove(id) => RemoveNodeKeepsRules(s.g, id);
    case _ =>
  }

  lemma {:induction false} RunsStayAnchored(states: seq<State>, edits: seq<Edit>, i: nat, j: nat)
    requires EditRun(states, edits) && i <= j < |states| && Anchored(states[i].g)
    requires forall m :: i <= m < j ==> (edits[m].AddRule? ==> edits[m].rule in states[m].g) && !RenamesARule(states[m], edits[m])
    ensures Anchored(states[j].g)
    decreases j
  {
    if i < j {
      RunsStaySane(states, edits, j - 1);
      RunsStayAnchored(states, edits, i, j - 1);
      StepKeepsAnchorsIff(states[j - 1], edits[j - 1]);
    }
  }
}
