/** The builders of reference types and data types and the subtype test, on the address space
    itself (AddressSpaceHelper.c). */
module TypeBuilders {
  import opened OpcTypes
  import opened Indexing
  import opened Graphs
  import opened Cloning
  import opened Acyclicity
  import opened GraphRuns
  import opened TypeHierarchy
  import opened AddressSpaces
  import opened CloneOperations

  // ----- What the builders make -----

  /** CreateProperty: a variable `v` below `parent`, with its type definition and modelling rule. */
  function WithProperty(g: Graph, parent: NodeId, v: NodeId, browse: QName, rule: NodeId): Graph
    requires parent in g && PROPERTY_TYPE in g && v !in g
  {
    var g0 := g[v := NodeRec(Variable, Class(Variable), browse, [])];
    var g1 := AddBi(g0, v, PROPERTY_TYPE, HAS_TYPE_DEFINITION);
    AddBi(AddUni(g1, v, Rule(rule)), parent, v, HAS_PROPERTY)
  }

  const NODE_VERSION := QName(0, Some("NodeVersion"))

  /** A new type with its NodeVersion property, without a place in the hierarchy yet. */
  function WithType(g: Graph, ix: Index, id: NodeId, kind: NodeKind, browse: QName): Graph
    requires PROPERTY_TYPE in g && id !in g
    requires NodeId(SERVER_NAMESPACE, Issue(ix).0) !in g && NodeId(SERVER_NAMESPACE, Issue(ix).0) != id
  {
    WithProperty(g[id := NodeRec(kind, Class(kind), browse, [])], id,
      NodeId(SERVER_NAMESPACE, Issue(ix).0), NODE_VERSION, RULE_MANDATORY)
  }

  /** CreateReferenceTypeNode and CreateDataTypeNode: the new type hangs below its parent. */
  function DeclareType(g: Graph, ix: Index, parent: Option<NodeId>, id: NodeId, kind: NodeKind, browse: QName): (Graph, Index)
    requires PROPERTY_TYPE in g && id !in g && (parent.Some? ==> parent.value in g)
    requires NodeId(SERVER_NAMESPACE, Issue(ix).0) !in g && NodeId(SERVER_NAMESPACE, Issue(ix).0) != id
  {
    var g1 := WithType(g, ix, id, kind, browse);
    (if parent.Some? then AddBi(g1, parent.value, id, HAS_SUBTYPE) else g1, Issue(ix).1)
  }

  lemma PropertyKeeps(g: Graph, parent: NodeId, v: NodeId, browse: QName, rule: NodeId)
    requires parent in g && PROPERTY_TYPE in g && v !in g && NonDangling(g)
    ensures var g1 := WithProperty(g, parent, v, browse, rule);
      && NonDangling(g1) && NoNewUps(g, g1) && g1.Keys == g.Keys + {v}
      && (Paired(g) ==> Paired(g1))
  {
    var g0 := g[v := NodeRec(Variable, Class(Variable), browse, [])];
    var g1 := AddBi(g0, v, PROPERTY_TYPE, HAS_TYPE_DEFINITION);
    var g2 := AddUni(g1, v, Rule(rule));
    NodeAddsNoUp(g, v, g0[v]);
    AddNodeKeeps(g, v, g0[v]);
    PairAddsNoUp(g0, v, PROPERTY_TYPE, HAS_TYPE_DEFINITION);
    AddBiKeeps(g0, v, PROPERTY_TYPE, HAS_TYPE_DEFINITION);
    UniAddsNoUp(g1, v, Rule(rule));
    AddRuleKeeps(g1, v, Rule(rule));
    PairAddsNoUp(g2, parent, v, HAS_PROPERTY);
    AddBiKeeps(g2, parent, v, HAS_PROPERTY);
    NoNewUpsOn(g, g0, g1);
    NoNewUpsOn(g, g1, g2);
    NoNewUpsOn(g, g2, AddBi(g2, parent, v, HAS_PROPERTY));
  }

  /** What the new variable refers to, what its parent and the property type gain, and that all else stays. */
  lemma PropertyStands(g: Graph, parent: NodeId, v: NodeId, browse: QName, rule: NodeId)
    requires parent in g && PROPERTY_TYPE in g && v !in g
    ensures var g1 := WithProperty(g, parent, v, browse, rule);
      var defined, owned := Ref(HAS_TYPE_DEFINITION, true, v), Ref(HAS_PROPERTY, false, v);
      && v in g1 && g1[v] == NodeRec(Variable, Class(Variable), browse,
           [Ref(HAS_TYPE_DEFINITION, false, PROPERTY_TYPE), Ref(HAS_MODELLING_RULE, false, rule), Ref(HAS_PROPERTY, true, parent)])
      && parent in g1 && PROPERTY_TYPE in g1
      && (if parent == PROPERTY_TYPE then g1[parent].refs == g[parent].refs + [defined] + [owned]
          else g1[parent].refs == g[parent].refs + [owned] && g1[PROPERTY_TYPE].refs == g[PROPERTY_TYPE].refs + [defined])
      && forall k :: k in g ==> k in g1 && g1[k] == g[k].(refs := g1[k].refs) && (k != parent && k != PROPERTY_TYPE ==> g1[k] == g[k])
  {
    var g0 := g[v := NodeRec(Variable, Class(Variable), browse, [])];
    var g1 := AddBi(g0, v, PROPERTY_TYPE, HAS_TYPE_DEFINITION);
    var g2 := AddUni(g1, v, Rule(rule));
    forall k | k in g0
      ensures g1[k].refs == g0[k].refs + (if k == v then [Ref(HAS_TYPE_DEFINITION, false, PROPERTY_TYPE)] else [])
                            + (if k == PROPERTY_TYPE then [Ref(HAS_TYPE_DEFINITION, true, v)] else [])
    {
      AddBiRefs(g0, v, PROPERTY_TYPE, HAS_TYPE_DEFINITION, k);
    }
    forall k | k in g0
      ensures AddBi(g2, parent, v, HAS_PROPERTY)[k].refs
        == g2[k].refs + (if k == parent then [Ref(HAS_PROPERTY, false, v)] else []) + (if k == v then [Ref(HAS_PROPERTY, true, parent)] else [])
    {
      AddBiRefs(g2, parent, v, HAS_PROPERTY, k);
    }
  }

  /** A declared type stands below its parent and owns its NodeVersion, which is mandatory. */
  lemma TypeStands(g: Graph, ix: Index, parent: Option<NodeId>, id: NodeId, kind: NodeKind, browse: QName)
    requires ReadyFor(g, ix, parent, id)
    ensures NodeId(SERVER_NAMESPACE, Issue(ix).0) !in g && NodeId(SERVER_NAMESPACE, Issue(ix).0) != id
    ensures var g1 := DeclareType(g, ix, parent, id, kind, browse).0;
      var v := NodeId(SERVER_NAMESPACE, Issue(ix).0);
      && id in g1 && v in g1
      && g1[id] == NodeRec(kind, Class(kind), browse,
           [Ref(HAS_PROPERTY, false, v)] + (if parent.Some? then [Ref(HAS_SUBTYPE, true, parent.value)] else []))
      && g1[v] == NodeRec(Variable, Class(Variable), QName(0, Some("NodeVersion")),
           [Ref(HAS_TYPE_DEFINITION, false, PROPERTY_TYPE), Ref(HAS_MODELLING_RULE, false, RULE_MANDATORY), Ref(HAS_PROPERTY, true, id)])
      && (parent.Some? ==> parent.value in g1 && Ref(HAS_SUBTYPE, false, id) in g1[parent.value].refs)
      && forall k :: k in g && k != PROPERTY_TYPE && parent != Some(k) ==> k in g1 && g1[k] == g[k]
  {
    FreshVersion(g, ix, parent, id);
    var v, g0 := NodeId(SERVER_NAMESPACE, Issue(ix).0), g[id := NodeRec(kind, Class(kind), browse, [])];
    PropertyStands(g0, id, v, NODE_VERSION, RULE_MANDATORY);
    var g1 := WithType(g, ix, id, kind, browse);
    assert g1[id].refs == [Ref(HAS_PROPERTY, false, v)];
    if parent.Some? {
      AddBiRefs(g1, parent.value, id, HAS_SUBTYPE, id);
      AddBiRefs(g1, parent.value, id, HAS_SUBTYPE, parent.value);
    }
  }

  ghost predicate ReadyFor(g: Graph, ix: Index, parent: Option<NodeId>, id: NodeId) {
    && NonDangling(g) && IdsSpent(g, ix) && PROPERTY_TYPE in g
    && id !in g && (id.ns == SERVER_NAMESPACE ==> Spent(ix, id.num)) && (parent.Some? ==> parent.value in g)
  }

  lemma FreshVersion(g: Graph, ix: Index, parent: Option<NodeId>, id: NodeId)
    requires ReadyFor(g, ix, parent, id)
    ensures NodeId(SERVER_NAMESPACE, Issue(ix).0) !in g && NodeId(SERVER_NAMESPACE, Issue(ix).0) != id
  {
    IssueIsFresh(ix);
  }

  lemma TypeKeeps(g: Graph, ix: Index, parent: Option<NodeId>, id: NodeId, kind: NodeKind, browse: QName)
    requires ReadyFor(g, ix, parent, id)
    requires NodeId(SERVER_NAMESPACE, Issue(ix).0) !in g && NodeId(SERVER_NAMESPACE, Issue(ix).0) != id
    ensures var g1 := WithType(g, ix, id, kind, browse);
      && NonDangling(g1) && NoNewUps(g, g1) && g1.Keys == g.Keys + {id, NodeId(SERVER_NAMESPACE, Issue(ix).0)}
      && (Paired(g) ==> Paired(g1))
  {
    var rec := NodeRec(kind, Class(kind), browse, []);
    NodeAddsNoUp(g, id, rec);
    AddNodeKeeps(g, id, rec);
    PropertyKeeps(g[id := rec], id, NodeId(SERVER_NAMESPACE, Issue(ix).0), NODE_VERSION, RULE_MANDATORY);
    NoNewUpsOn(g, g[id := rec], WithType(g, ix, id, kind, browse));
  }

  lemma NewNodesAreFree(g: Graph, g1: Graph, k: NodeId)
    requires NonDangling(g) && NoNewUps(g, g1) && k in g1 && k !in g
    ensures FirstUp(g1[k].refs).None? && Childless(g1, k)
  {
    FirstUpIsUp(g1[k].refs);
    if FirstUp(g1[k].refs).Some? {
      var up := Ref(HAS_SUBTYPE, true, FirstUp(g1[k].refs).value);
      assert IsUp(up);
    }
  }

  /** The builder keeps every answer about earlier types; the new type is a subtype of exactly
      itself and of what its parent is a subtype of, and its NodeVersion only of itself. */
  lemma DeclareTypeAnswers(g: Graph, ix: Index, parent: Option<NodeId>, id: NodeId, kind: NodeKind, browse: QName, x: NodeId, y: NodeId)
    requires ReadyFor(g, ix, parent, id)
    ensures NodeId(SERVER_NAMESPACE, Issue(ix).0) !in g && NodeId(SERVER_NAMESPACE, Issue(ix).0) != id
    ensures var g1 := DeclareType(g, ix, parent, id, kind, browse).0;
      x in g1 ==> (IsSubtype(g1, x, y) <==>
        if x in g then IsSubtype(g, x, y)
        else y == x || (x == id && parent.Some? && IsSubtype(g, parent.value, y)))
  {
    FreshVersion(g, ix, parent, id);
    TypeKeeps(g, ix, parent, id, kind, browse);
    var g1 := WithType(g, ix, id, kind, browse);
    forall k, z | k in g1
      ensures IsSubtype(g1, k, z) <==> if k in g then IsSubtype(g, k, z) else z == k
    {
      TypeAnswers(g, g1, k, z);
    }
    NewNodesAreFree(g, g1, id);
    if parent.Some? && x in g1 {
      HangAnswers(g1, parent.value, id, x, y);
    }
  }

  lemma TypeAnswers(g: Graph, g1: Graph, k: NodeId, z: NodeId)
    requires NonDangling(g) && NoNewUps(g, g1) && k in g1
    ensures IsSubtype(g1, k, z) <==> if k in g then IsSubtype(g, k, z) else z == k
  {
    if k in g {
      GrowthKeepsAnswers(g, g1, k, z);
    } else {
      NewNodesAreFree(g, g1, k);
      assert Climb(g1, k, 0) == Some(k);
      assert forall j: nat :: j > 0 ==> Climb(g1, k, j) == None;
    }
  }

  /** The builder keeps the hierarchy ranked and the references paired and leading somewhere. */
  lemma DeclareTypeKeeps(g: Graph, ix: Index, parent: Option<NodeId>, id: NodeId, kind: NodeKind, browse: QName, rank: map<NodeId, nat>)
    returns (rank1: map<NodeId, nat>)
    requires ReadyFor(g, ix, parent, id) && Tiered(g, rank)
    ensures NodeId(SERVER_NAMESPACE, Issue(ix).0) !in g && NodeId(SERVER_NAMESPACE, Issue(ix).0) != id
    ensures var (g1, ix1) := DeclareType(g, ix, parent, id, kind, browse);
      && Tiered(g1, rank1) && (forall k :: k in g ==> rank1[k] == rank[k])
      && NonDangling(g1) && IdsSpent(g1, ix1) && (Paired(g) ==> Paired(g1))
  {
    FreshVersion(g, ix, parent, id);
    TypeKeeps(g, ix, parent, id, kind, browse);
    var g1 := WithType(g, ix, id, kind, browse);
    rank1 := GrowthKeepsTiers(g, g1, rank);
    StillSpent(g, ix, g1, id);
    if parent.Some? {
      NewNodesAreFree(g, g1, id);
      rank1 := HangOn(g1, parent.value, id, rank1);
    }
  }

  lemma StillSpent(g: Graph, ix: Index, g1: Graph, id: NodeId)
    requires IdsSpent(g, ix) && g1.Keys == g.Keys + {id, NodeId(SERVER_NAMESPACE, Issue(ix).0)}
    requires id.ns == SERVER_NAMESPACE ==> Spent(ix, id.num)
    ensures IdsSpent(g1, Issue(ix).1)
  {
    IssueIsFresh(ix);
  }

  lemma HangOn(g: Graph, a: NodeId, b: NodeId, rank: map<NodeId, nat>) returns (rank1: map<NodeId, nat>)
    requires Tiered(g, rank) && a in g && b in g && a != b && Childless(g, b) && NonDangling(g)
    ensures Tiered(AddBi(g, a, b, HAS_SUBTYPE), rank1) && forall k :: k in g && k != b ==> rank1[k] == rank[k]
    ensures NonDangling(AddBi(g, a, b, HAS_SUBTYPE)) && AddBi(g, a, b, HAS_SUBTYPE).Keys == g.Keys
    ensures Paired(g) ==> Paired(AddBi(g, a, b, HAS_SUBTYPE))
  {
    rank1 := HangKeepsTiers(g, a, b, rank);
    AddBiKeeps(g, a, b, HAS_SUBTYPE);
  }

  // ----- On the address space -----

  /** The first inverse HasSubtype reference of a node. */
  method FindParent(node: Node) returns (up: Option<NodeId>)
    ensures up == FirstUp(node.refs)
  {
    var i := 0;
    while i < |node.refs|
      invariant 0 <= i <= |node.refs|
      invariant FirstUp(node.refs[i..]) == FirstUp(node.refs)
    {
      assert node.refs[i..][1..] == node.refs[i + 1..];
      if node.refs[i].inverse && node.refs[i].refType == HAS_SUBTYPE {
        return Some(node.refs[i].target);
      }
      i := i + 1;
    }
    return None;
  }

  /** The recursion, with the number of calls it has left as its measure: by `EndsIffNoLoop` there
      is such a number exactly when the recursion ends. */
  method IsTypeASubtypeOf(space: AddressSpace, sub: NodeId, parent: NodeId, ghost fuel: nat) returns (answer: bool)
    requires space.Valid() && space.FastLive() && Decide(space.graph, sub, parent, fuel).Some?
    ensures Some(answer) == Decide(space.graph, sub, parent, fuel)
    ensures answer <==> IsSubtype(space.graph, sub, parent)
    decreases fuel
  {
    DecidesSubtype(space.graph, sub, parent, fuel);
    var a := space.GetNode(sub);
    var b := space.GetNode(parent);
    if a == null || b == null {
      return false;
    }
    if a == b {
      return true;
    }
    var up := FindParent(a);
    if up.None? {
      return false;
    }
    var above := space.GetNode(up.value);
    if above == null {
      return false;
    }
    if above == b {
      return true;
    }
    answer := IsTypeASubtypeOf(space, above.id, parent, fuel - 1);
  }

  method CreateProperty(space: AddressSpace, parent: NodeId, v: NodeId, browse: QName, rule: NodeId)
    requires space.Valid() && space.FastLive()
    requires parent in space.graph && PROPERTY_TYPE in space.graph && v !in space.graph
    modifies space, space.live
    ensures space.Valid() && space.FastLive() && Extends(space)
    ensures space.graph == WithProperty(old(space.graph), parent, v, browse, rule)
  {
    var node := space.AddNode(Variable, Class(Variable), browse, v);
    ConstructReferences(space, parent, v, rule);
  }

  /** The references of a new property. */
  method ConstructReferences(space: AddressSpace, parent: NodeId, v: NodeId, rule: NodeId)
    requires space.Valid() && space.FastLive()
    requires parent in space.graph && PROPERTY_TYPE in space.graph && v in space.graph
    modifies space`graph, space.live`refs
    ensures space.Valid()
    ensures space.graph == AddBi(AddUni(AddBi(old(space.graph), v, PROPERTY_TYPE, HAS_TYPE_DEFINITION), v, Rule(rule)), parent, v, HAS_PROPERTY)
  {
    space.AddBiReference(v, PROPERTY_TYPE, HAS_TYPE_DEFINITION);
    space.AddUniReference(v, rule, HAS_MODELLING_RULE, false);
    space.AddBiReference(parent, v, HAS_PROPERTY);
  }

  method CreateTypeNode(space: AddressSpace, ix: Indexer, parent: Option<NodeId>, id: NodeId, kind: NodeKind, browse: QName)
    requires Live(space, ix) && ReadyFor(space.graph, ix.State(), parent, id) && Issue(ix.State()).1.next < UINT32
    modifies space, space.live, ix
    ensures Live(space, ix) && Extends(space)
    ensures NodeId(SERVER_NAMESPACE, Issue(old(ix.State())).0) !in old(space.graph) && NodeId(SERVER_NAMESPACE, Issue(old(ix.State())).0) != id
    ensures (space.graph, ix.State()) == DeclareType(old(space.graph), old(ix.State()), parent, id, kind, browse)
  {
    FreshVersion(space.graph, ix.State(), parent, id);
    TypeKeeps(space.graph, ix.State(), parent, id, kind, browse);
    CreateBareType(space, ix, id, kind, browse);
    if parent.Some? {
      space.AddBiReference(parent.value, id, HAS_SUBTYPE);
    }
  }

  /** The new node and its NodeVersion property. */
  method CreateBareType(space: AddressSpace, ix: Indexer, id: NodeId, kind: NodeKind, browse: QName)
    requires Live(space, ix) && Issue(ix.State()).1.next < UINT32 && PROPERTY_TYPE in space.graph && id !in space.graph
    requires NodeId(SERVER_NAMESPACE, Issue(ix.State()).0) !in space.graph && NodeId(SERVER_NAMESPACE, Issue(ix.State()).0) != id
    modifies space, space.live, ix
    ensures Live(space, ix) && Extends(space) && ix.State() == Issue(old(ix.State())).1
    ensures space.graph == WithType(old(space.graph), old(ix.State()), id, kind, browse)
  {
    var node := space.AddNode(kind, Class(kind), browse, id);
    CreateNodeVersionProperty(space, ix, id);
  }

  method CreateNodeVersionProperty(space: AddressSpace, ix: Indexer, parent: NodeId)
    requires Live(space, ix) && Issue(ix.State()).1.next < UINT32
    requires PROPERTY_TYPE in space.graph && parent in space.graph && NodeId(SERVER_NAMESPACE, Issue(ix.State()).0) !in space.graph
    modifies space, space.live, ix
    ensures Live(space, ix) && Extends(space) && ix.State() == Issue(old(ix.State())).1
    ensures space.graph == WithProperty(old(space.graph), parent,
      NodeId(SERVER_NAMESPACE, Issue(old(ix.State())).0), NODE_VERSION, RULE_MANDATORY)
  {
    var index := ix.GetNextIndex(NextFree(ix.nextIndex, ix.reserved));
    CreateProperty(space, parent, NodeId(SERVER_NAMESPACE, index), NODE_VERSION, RULE_MANDATORY);
  }
}
