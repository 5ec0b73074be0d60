/** The builders of properties and types as runs of single edits: whatever holds over runs holds
    through them, before and after the nodes of the modelling rules exist. */
module BuilderRuns {
  import opened OpcTypes
  import opened Indexing
  import opened Graphs
  import opened Cloning
  import opened Acyclicity
  import opened GraphRuns
  import opened TypeHierarchy
  import opened TypeBuilders
  import opened CloneAnswers

  /** A run from `s` to `s1` in which HasSubtype links only hang types. */
  ghost predicate RunsTo(states: seq<State>, edits: seq<Edit>, s: State, s1: State) {
    && EditRun(states, edits) && states[0] == s && states[|edits|] == s1
    && forall j :: 0 <= j < |edits| ==> HangsTypes(states[j], edits[j])
  }

  ghost predicate LeadsTo(s: State, s1: State) {
    exists states, edits :: RunsTo(states, edits, s, s1)
  }

  lemma RunStarts(s: State)
    requires Sane(s)
    ensures LeadsTo(s, s)
  {
    assert RunsTo([s], [], s, s);
  }

  /** One more edit. */
  lemma RunGoesOn(s: State, s1: State, e: Edit)
    requires LeadsTo(s, s1) && Sane(s1) && Permitted(s1, e) && HangsTypes(s1, e)
    ensures LeadsTo(s, Apply(s1, e)) && Sane(Apply(s1, e))
  {
    var states, edits :| RunsTo(states, edits, s, s1);
    var states1, edits1 := states + [Apply(s1, e)], edits + [e];
    forall j | 0 <= j < |edits1|
      ensures Permitted(states1[j], edits1[j]) && HangsTypes(states1[j], edits1[j])
      ensures Sane(states1[j]) ==> states1[j + 1] == Apply(states1[j], edits1[j])
    {
      if j < |edits| {
        assert Permitted(states[j], edits[j]) && HangsTypes(states[j], edits[j]);
      }
    }
    StepKeeps(s1, e);
    assert RunsTo(states1, edits1, s, Apply(s1, e));
  }

  // ----- A property -----

  lemma FirstEdge(edges: set<(NodeId, NodeId)>, p: seq<NodeId>)
    requires Walk(edges, p)
    ensures |p| > 1 ==> (p[0], p[1]) in edges
  {
  }

  /** A node that descends to nothing reaches only itself. */
  lemma LeafReachesItself(g: Graph, v: NodeId, x: NodeId)
    requires v in g && forall r :: r in g[v].refs ==> !Descends(r)
    ensures Reaches(Edges(g), v, x) ==> x == v
  {
    if Reaches(Edges(g), v, x) {
      var p :| Leads(Edges(g), p, v, x);
      FirstEdge(Edges(g), p);
    }
  }

  /** A fresh node with its type definition: nothing descends to it, and it descends to nothing. */
  lemma FreshIsLoose(g: Graph, v: NodeId, rec: NodeRec)
    requires NonDangling(g) && v !in g && PROPERTY_TYPE in g && rec.refs == []
    ensures var g1 := AddBi(g[v := rec], v, PROPERTY_TYPE, HAS_TYPE_DEFINITION);
      Parents(g1, v) == {} && forall r :: r in g1[v].refs ==> !Descends(r)
  {
    var g0 := g[v := rec];
    var g1 := AddBi(g0, v, PROPERTY_TYPE, HAS_TYPE_DEFINITION);
    forall k, r | k in g1 && r in g1[k].refs && Descends(r)
      ensures r.target != v && k != v
    {
      AddBiRefs(g0, v, PROPERTY_TYPE, HAS_TYPE_DEFINITION, k);
    }
  }

  /** Creating a property is a run of four edits, whether the node of its modelling rule exists or not. */
  lemma PropertyIsARun(s0: State, s: State, parent: NodeId, v: NodeId, browse: QName, rule: NodeId)
    requires LeadsTo(s0, s) && Sane(s) && parent in s.g && PROPERTY_TYPE in s.g && Available(s, v)
    ensures LeadsTo(s0, s.(g := WithProperty(s.g, parent, v, browse, rule)))
    ensures Sane(s.(g := WithProperty(s.g, parent, v, browse, rule)))
  {
    var rec := NodeRec(Variable, Class(Variable), browse, []);
    RunGoesOn(s0, s, Create(v, Variable, Class(Variable), browse));
    FreshIsLoose(s.g, v, rec);
    VariableIsARun(s0, s.(g := s.g[v := rec]), parent, v, rule);
  }

  lemma VariableIsARun(s0: State, s: State, parent: NodeId, v: NodeId, rule: NodeId)
    requires LeadsTo(s0, s) && Sane(s) && parent in s.g && v in s.g && parent != v && PROPERTY_TYPE in s.g
    requires var g1 := AddBi(s.g, v, PROPERTY_TYPE, HAS_TYPE_DEFINITION);
      Parents(g1, v) == {} && forall r :: r in g1[v].refs ==> !Descends(r)
    ensures var s1 := s.(g := AddBi(AddUni(AddBi(s.g, v, PROPERTY_TYPE, HAS_TYPE_DEFINITION), v, Rule(rule)), parent, v, HAS_PROPERTY));
      LeadsTo(s0, s1) && Sane(s1)
  {
    RunGoesOn(s0, s, Link(v, PROPERTY_TYPE, HAS_TYPE_DEFINITION));
    var s2 := s.(g := AddBi(s.g, v, PROPERTY_TYPE, HAS_TYPE_DEFINITION));
    RunGoesOn(s0, s2, AddRule(v, rule));
    ChildIsARun(s0, s.(g := AddUni(s2.g, v, Rule(rule))), parent, v);
  }

  /** A node that descends to nothing may become a property of any other. */
  lemma ChildIsARun(s0: State, s: State, parent: NodeId, v: NodeId)
    requires LeadsTo(s0, s) && Sane(s) && parent in s.g && v in s.g && parent != v
    requires forall r :: r in s.g[v].refs ==> !Descends(r)
    ensures LeadsTo(s0, s.(g := AddBi(s.g, parent, v, HAS_PROPERTY))) && Sane(s.(g := AddBi(s.g, parent, v, HAS_PROPERTY)))
  {
    LeafReachesItself(s.g, v, parent);
    RunGoesOn(s0, s, Link(parent, v, HAS_PROPERTY));
  }

  /** A type without subtypes may be hung below any other. */
  lemma HangIsARun(s0: State, s: State, parent: NodeId, id: NodeId)
    requires LeadsTo(s0, s) && Sane(s) && parent in s.g && id in s.g && parent != id && Childless(s.g, id)
    ensures LeadsTo(s0, s.(g := AddBi(s.g, parent, id, HAS_SUBTYPE))) && Sane(s.(g := AddBi(s.g, parent, id, HAS_SUBTYPE)))
  {
    RunGoesOn(s0, s, Link(parent, id, HAS_SUBTYPE));
  }

  // ----- A reference type or data type -----

  /** Declaring a type is a run of edits. In particular it keeps references paired and leading
      somewhere, cloning well-founded and the subtype test terminating. */
  lemma DeclareTypeIsARun(s: State, parent: Option<NodeId>, id: NodeId, kind: NodeKind, browse: QName)
    requires Sane(s) && PROPERTY_TYPE in s.g && Available(s, id) && (parent.Some? ==> parent.value in s.g)
    ensures NodeId(SERVER_NAMESPACE, Issue(s.ix).0) !in s.g && NodeId(SERVER_NAMESPACE, Issue(s.ix).0) != id
    ensures var (g1, ix1) := DeclareType(s.g, s.ix, parent, id, kind, browse);
      LeadsTo(s, State(g1, ix1)) && Sane(State(g1, ix1))
  {
    FreshVersion(s.g, s.ix, parent, id);
    BareTypeIsARun(s, id, kind, browse);
    if parent.Some? {
      TypeKeeps(s.g, s.ix, parent, id, kind, browse);
      var g1 := WithType(s.g, s.ix, id, kind, browse);
      NewNodesAreFree(s.g, g1, id);
      HangIsARun(s, State(g1, Issue(s.ix).1), parent.value, id);
    }
  }

  lemma BareTypeIsARun(s: State, id: NodeId, kind: NodeKind, browse: QName)
    requires Sane(s) && PROPERTY_TYPE in s.g && Available(s, id)
    requires NodeId(SERVER_NAMESPACE, Issue(s.ix).0) !in s.g && NodeId(SERVER_NAMESPACE, Issue(s.ix).0) != id
    ensures var s1 := State(WithType(s.g, s.ix, id, kind, browse), Issue(s.ix).1);
      LeadsTo(s, s1) && Sane(s1)
  {
    RunStarts(s);
    RunGoesOn(s, s, Create(id, kind, Class(kind), browse));
    var s1 := s.(g := s.g[id := NodeRec(kind, Class(kind), browse, [])]);
    RunGoesOn(s, s1, TakeId);
    IssueIsFresh(s.ix);
    PropertyIsARun(s, s1.(ix := Issue(s.ix).1), id, NodeId(SERVER_NAMESPACE, Issue(s.ix).0), NODE_VERSION, RULE_MANDATORY);
  }

  // ----- An object type -----

  /** CreateObjectType below a parent: a clone of the parent, named, and hung below it. */
  ghost function DeriveType(s: State, parent: NodeId, id: NodeId, browse: QName): State
    requires Sane(s) && parent in s.g && Available(s, id)
  {
    var s1 := Cloned(s, parent, id);
    assert id in s1.g && parent in s1.g;
    var g1 := s1.g[id := s1.g[id].(browse := browse)];
    s1.(g := AddBi(g1, parent, id, HAS_SUBTYPE))
  }

  /** A derived type has its name, hangs below its parent, is of the same kind, and has the parent's mandatory
      children, and its placeholders when the parent is of an object or variable type. */
  lemma DerivedStands(s: State, parent: NodeId, id: NodeId, browse: QName)
    requires Sane(s) && parent in s.g && Available(s, id)
    ensures var g1 := DeriveType(s, parent, id, browse).g;
      && id in g1 && parent in g1 && g1[id].browse == browse && g1[id].kind == s.g[parent].kind
      && Ref(HAS_SUBTYPE, true, parent) in g1[id].refs && Ref(HAS_SUBTYPE, false, id) in g1[parent].refs
      && GetsChildren(s.g, Cloned(s, parent, id).g, parent, s.g[parent].nodeClass, id)
      && id in Cloned(s, parent, id).g && g1[id].refs == Cloned(s, parent, id).g[id].refs + [Ref(HAS_SUBTYPE, true, parent)]
  {
    CloneChildren(s.g, s.ix, parent, id, SomeRank(s.g));
    HungStands(Cloned(s, parent, id).g, parent, id, browse);
  }

  lemma HungStands(g: Graph, parent: NodeId, id: NodeId, browse: QName)
    requires parent in g && id in g && parent != id
    ensures var g1 := AddBi(g[id := g[id].(browse := browse)], parent, id, HAS_SUBTYPE);
      && id in g1 && parent in g1 && g1[id].browse == browse && g1[id].kind == g[id].kind
      && g1[id].refs == g[id].refs + [Ref(HAS_SUBTYPE, true, parent)] && Ref(HAS_SUBTYPE, false, id) in g1[parent].refs
  {
    var g1 := g[id := g[id].(browse := browse)];
    AddBiRefs(g1, parent, id, HAS_SUBTYPE, id);
    AddBiRefs(g1, parent, id, HAS_SUBTYPE, parent);
    assert g1[id].refs + [] == g1[id].refs;
  }

  lemma DeriveTypeIsARun(s: State, parent: NodeId, id: NodeId, browse: QName)
    requires Sane(s) && parent in s.g && Available(s, id)
    ensures LeadsTo(s, DeriveType(s, parent, id, browse)) && Sane(DeriveType(s, parent, id, browse))
  {
    RunStarts(s);
    RunGoesOn(s, s, CloneTo(parent, id));
    var s1 := Cloned(s, parent, id);
    CloneAddsNoUp(s.g, s.ix, parent, id, SomeRank(s.g));
    NewNodesAreFree(s.g, s1.g, id);
    NamedIsARun(s, s1, parent, id, browse);
  }

  lemma NamedIsARun(s0: State, s: State, parent: NodeId, id: NodeId, browse: QName)
    requires LeadsTo(s0, s) && Sane(s) && parent in s.g && id in s.g && parent != id && Childless(s.g, id)
    ensures var s1 := s.(g := AddBi(s.g[id := s.g[id].(browse := browse)], parent, id, HAS_SUBTYPE));
      LeadsTo(s0, s1) && Sane(s1)
  {
    RunGoesOn(s0, s, SetName(id, browse));
    var g1 := s.g[id := s.g[id].(browse := browse)];
    assert forall k :: k in g1 ==> g1[k].refs == s.g[k].refs;
    HangIsARun(s0, s.(g := g1), parent, id);
  }

  /** After a run of edits and builders from the empty address space the subtype test still ends, with
      the right answer. */
  lemma BuiltTestsEnd(s: State, s1: State, a: NodeId, b: NodeId)
    requires LeadsTo(s, s1) && s.g == map[]
    ensures exists fuel: nat :: Decide(s1.g, a, b, fuel) == Some(IsSubtype(s1.g, a, b))
  {
    var states, edits :| RunsTo(states, edits, s, s1);
    ReachableTestsEnd(states, edits, |edits|, a, b);
  }
}
