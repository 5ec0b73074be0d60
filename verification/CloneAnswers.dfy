/** What cloning and instantiating leave at the new node, told from references and rule identifiers
    alone: which children it gets and which references it takes over. */
module CloneAnswers {
  import opened OpcTypes
  import opened Graphs
  import opened Indexing
  import opened Cloning
  import opened CloneTheorems

  // ----- In plain words -----

  /** A forward HasProperty or HasComponent reference to an existing node. */
  predicate IsChild(g: Graph, r: Ref) {
    (r.refType == HAS_PROPERTY || r.refType == HAS_COMPONENT) && !r.inverse && r.target in g
  }

  /** The node holds a HasModellingRule reference to the rule, in whatever direction. */
  predicate HoldsRule(g: Graph, x: NodeId, rule: NodeId)
    requires x in g
  {
    Ref(HAS_MODELLING_RULE, false, rule) in g[x].refs || Ref(HAS_MODELLING_RULE, true, rule) in g[x].refs
  }

  predicate HoldsPlaceholder(g: Graph, x: NodeId)
    requires x in g
  {
    || HoldsRule(g, x, RULE_OPTIONAL_PLACEHOLDER)
    || HoldsRule(g, x, RULE_MANDATORY_PLACEHOLDER)
    || HoldsRule(g, x, RULE_EXPOSES_ITS_ARRAY)
  }

  /** A node of this class is of an object or variable type. */
  predicate IsTypeClass(nodeClass: NodeClass) {
    nodeClass == Class(ObjectType) || nodeClass == Class(VariableType)
  }

  /** Both have texts, and these and the namespaces are the same. */
  predicate SameText(a: QName, b: QName) {
    a.ns == b.ns && a.name.Some? && b.name.Some? && a.name.value == b.name.value
  }

  /** The heir refers to something with the name. */
  ghost predicate Names(h: Graph, n: NodeId, name: QName) {
    n in h && exists q :: q in h[n].refs && q.target in h && h[q.target].browse == name
  }

  lemma InheritsIff(g: Graph, heir: NodeClass, x: NodeId)
    requires x in g
    ensures ShouldInherit(heir, g[x]) <==>
      HoldsRule(g, x, RULE_MANDATORY) || (IsTypeClass(heir) && HoldsPlaceholder(g, x))
  {
    if ShouldInherit(heir, g[x]) {
      var r :| r in g[x].refs && r.refType == HAS_MODELLING_RULE && Admits(heir, r.target);
      assert r == Ref(HAS_MODELLING_RULE, r.inverse, r.target);
    }
    forall rule, inverse | Ref(HAS_MODELLING_RULE, inverse, rule) in g[x].refs && Admits(heir, rule)
      ensures ShouldInherit(heir, g[x])
    {
      assert Ref(HAS_MODELLING_RULE, inverse, rule).refType == HAS_MODELLING_RULE;
    }
  }

  // ----- One reference -----

  /** A child reference adds a child exactly when the child is mandatory, or the heir is a type and the child
      a placeholder, and the heir refers to nothing with the same name text yet. */
  lemma ClonesChildIff(g: Graph, ix: Index, s: NodeId, t: NodeId, r: Ref, rank: map<NodeId, nat>)
    requires Base(g, ix, rank) && Apart(g, t, rank) && s in rank && r in g[s].refs && IsChild(g, r)
    ensures var h := InheritOne(g, ix, s, t, r, rank).0;
      var n := NodeId(SERVER_NAMESPACE, Issue(ix).0);
      && n !in g && t in h
      && (Ref(r.refType, false, n) in h[t].refs <==> h != g)
      && (h != g <==>
            && (HoldsRule(g, r.target, RULE_MANDATORY) || (IsTypeClass(g[t].nodeClass) && HoldsPlaceholder(g, r.target)))
            && forall q :: q in g[t].refs && q.target in g ==> !SameText(g[r.target].browse, g[q.target].browse))
  {
    IssueIsFresh(ix);
    InheritsIff(g, g[t].nodeClass, r.target);
    NotNamedBefore(g, ix, t, r.refType);
    var h := InheritOne(g, ix, s, t, r, rank).0;
    if ShouldInherit(g[t].nodeClass, g[r.target]) && !NameTaken(g, t, g[r.target].browse) {
      AdmittedMayClone(g[t].nodeClass, g[r.target]);
      var n := NodeId(SERVER_NAMESPACE, Issue(ix).0);
      var gc := Clone(g, Issue(ix).1, r.target, n, rank).0;
      AddBiRefs(gc, t, n, r.refType, t);
      assert Ref(r.refType, false, n) in h[t].refs;
    }
  }

  lemma NotNamedBefore(g: Graph, ix: Index, t: NodeId, refType: NodeId)
    requires NonDangling(g) && IdsSpent(g, ix) && t in g && refType != HAS_MODELLING_RULE
    ensures NodeId(SERVER_NAMESPACE, Issue(ix).0) !in g
    ensures Ref(refType, false, NodeId(SERVER_NAMESPACE, Issue(ix).0)) !in g[t].refs
  {
    IssueIsFresh(ix);
  }

  // ----- Which children the new node gets -----

  /** A mandatory child is there whatever the class of the heir, and a placeholder below a type. */
  ghost predicate GetsChildren(g: Graph, h: Graph, source: NodeId, heir: NodeClass, n: NodeId)
    requires source in g
  {
    forall r :: r in g[source].refs && IsChild(g, r) ==>
      && (HoldsRule(g, r.target, RULE_MANDATORY) ==> Names(h, n, g[r.target].browse))
      && (IsTypeClass(heir) && HoldsPlaceholder(g, r.target) ==> Names(h, n, g[r.target].browse))
  }

  /** `q` leads to a new node that looks like the target of the source's `r`, which is mandatory, or a
      placeholder below a type. */
  ghost predicate IsCopied(g: Graph, h: Graph, source: NodeId, heir: NodeClass, q: Ref, r: Ref)
    requires source in g
  {
    && r in g[source].refs && IsChild(g, r) && r.refType == q.refType && q.target in h && q.target !in g
    && h[q.target].kind == g[r.target].kind && h[q.target].nodeClass == g[r.target].nodeClass
    && h[q.target].browse == g[r.target].browse
    && (HoldsRule(g, r.target, RULE_MANDATORY) || (IsTypeClass(heir) && HoldsPlaceholder(g, r.target)))
  }

  ghost predicate GetsOnlySuch(g: Graph, h: Graph, source: NodeId, heir: NodeClass, n: NodeId)
    requires source in g && n in h
  {
    forall q :: q in h[n].refs && IsChild(h, q) ==> exists r :: IsCopied(g, h, source, heir, q, r)
  }

  /** No two children have the same name text. */
  ghost predicate NamesDiffer(h: Graph, n: NodeId)
    requires n in h
  {
    forall i, j :: 0 <= i < j < |h[n].refs| && IsChild(h, h[n].refs[i]) && IsChild(h, h[n].refs[j]) ==>
      !SameText(h[h[n].refs[i].target].browse, h[h[n].refs[j].target].browse)
  }

  lemma HandledGets(g: Graph, h: Graph, source: NodeId, rec: NodeRec, n: NodeId)
    requires source in g && forall r :: r in g[source].refs ==> Handled(g, h, g[source].kind, rec, n, r)
    ensures GetsChildren(g, h, source, rec.nodeClass, n)
  {
    forall r | r in g[source].refs && IsChild(g, r)
      ensures HoldsRule(g, r.target, RULE_MANDATORY) || (IsTypeClass(rec.nodeClass) && HoldsPlaceholder(g, r.target)) ==>
        Names(h, n, g[r.target].browse)
    {
      InheritsIff(g, rec.nodeClass, r.target);
      assert Handled(g, h, g[source].kind, rec, n, r);
    }
  }

  lemma StemsIsCopied(g: Graph, h: Graph, source: NodeId, heir: NodeClass, q: Ref, r: Ref, rank: map<NodeId, nat>)
    requires Ranked(g, rank) && source in rank
    requires Stems(g, heir, g[source].refs, q, r) && StemsCopy(g, h, source, r, q, rank)
    ensures IsCopied(g, h, source, heir, q, r)
  {
    InheritsIff(g, heir, r.target);
  }

  lemma DifferIsPlain(h: Graph, n: NodeId)
    requires SiblingsDiffer(h, n, 0)
    ensures NamesDiffer(h, n)
  {
    forall i, j | 0 <= i < j < |h[n].refs| && IsChild(h, h[n].refs[i]) && IsChild(h, h[n].refs[j])
      ensures !SameText(h[h[n].refs[i].target].browse, h[h[n].refs[j].target].browse)
    {
      assert SiblingPairDiffers(h, h[n].refs[i], h[n].refs[j]);
    }
  }

  /** A clone has exactly the children that are mandatory, or placeholders below a type, each name once. */
  lemma CloneChildren(g: Graph, ix: Index, c: NodeId, n: NodeId, rank: map<NodeId, nat>)
    requires Base(g, ix, rank) && c in rank && n !in g
    requires n.ns == SERVER_NAMESPACE ==> Spent(ix, n.num)
    ensures var h := Clone(g, ix, c, n, rank).0;
      && n in h && h[n].kind == g[c].kind && h[n].nodeClass == g[c].nodeClass && h[n].browse == g[c].browse
      && GetsChildren(g, h, c, g[c].nodeClass, n) && GetsOnlySuch(g, h, c, g[c].nodeClass, n) && NamesDiffer(h, n)
  {
    var h := Clone(g, ix, c, n, rank).0;
    CloneCopies(g, ix, c, n, rank);
    HandledGets(g, h, c, g[c], n);
    DifferIsPlain(h, n);
    forall q | q in h[n].refs && IsChild(h, q)
      ensures exists r :: IsCopied(g, h, c, g[c].nodeClass, q, r)
    {
      assert Descends(q);
      var r :| Stems(g, g[c].nodeClass, g[c].refs, q, r) && StemsCopy(g, h, c, r, q, rank);
      StemsIsCopied(g, h, c, g[c].nodeClass, q, r, rank);
    }
  }

  /** An object or variable has exactly the mandatory children of its type, and refers to the type. */
  lemma InstanceChildren(g: Graph, ix: Index, ty: NodeId, n: NodeId, kind: NodeKind, rank: map<NodeId, nat>)
    requires Base(g, ix, rank) && ty in rank && n !in g
    requires n.ns == SERVER_NAMESPACE ==> Spent(ix, n.num)
    ensures var h := Instantiate(g, ix, ty, n, kind, rank).0;
      && n in h && ty in h && h[n].kind == kind && h[n].nodeClass == Class(kind) && h[n].browse == QName(0, None)
      && GetsChildren(g, h, ty, Class(kind), n) && GetsOnlySuch(g, h, ty, Class(kind), n) && NamesDiffer(h, n)
      && Ref(HAS_TYPE_DEFINITION, false, ty) in h[n].refs && Ref(HAS_TYPE_DEFINITION, true, n) in h[ty].refs
  {
    var g0, h := g[n := BlankNode(kind)], Instantiate(g, ix, ty, n, kind, rank).0;
    var h0 := InstanceTakesOver(g, ix, ty, n, kind, rank);
    NewNodeStep(g, ix, n, BlankNode(kind), rank);
    assert Grows(g0, Inherit(g0, ix, ty, n, 0, rank).0, n);
    InstanceIsPlain(g, g0, h0, ty, n, kind, rank);
    AddBiRefs(h0, n, ty, HAS_TYPE_DEFINITION, n);
    AddBiRefs(h0, n, ty, HAS_TYPE_DEFINITION, ty);
  }

  lemma InstanceIsPlain(g: Graph, g0: Graph, h0: Graph, ty: NodeId, n: NodeId, kind: NodeKind, rank: map<NodeId, nat>)
    requires NonDangling(g) && ty in rank && n !in g && g0 == g[n := BlankNode(kind)]
    requires Ranked(g, rank) && Ranked(g0, rank) && ty in h0 && n in h0 && TakesOver(g0, h0, ty, n, 0, rank)
    ensures var h := AddBi(h0, n, ty, HAS_TYPE_DEFINITION);
      GetsChildren(g, h, ty, Class(kind), n) && GetsOnlySuch(g, h, ty, Class(kind), n) && NamesDiffer(h, n)
  {
    var h := AddBi(h0, n, ty, HAS_TYPE_DEFINITION);
    HandledInSource(g0, h0, ty, n, rank);
    HandledGets(g0, h0, ty, g0[n], n);
    DefinedGets(g, g0, h0, ty, n, kind);
    DifferIsPlain(h0, n);
    DefinedDiffers(h0, n, ty);
    forall q | q in h[n].refs && IsChild(h, q)
      ensures exists r :: IsCopied(g, h, ty, Class(kind), q, r)
    {
      DefinedStems(g, g0, h0, ty, n, kind, rank, q);
    }
  }

  lemma HandledInSource(g0: Graph, h0: Graph, ty: NodeId, n: NodeId, rank: map<NodeId, nat>)
    requires Ranked(g0, rank) && ty in rank && n in g0 && TakesOver(g0, h0, ty, n, 0, rank)
    ensures forall r :: r in g0[ty].refs ==> Handled(g0, h0, g0[ty].kind, g0[n], n, r)
  {
    forall r | r in g0[ty].refs
      ensures Handled(g0, h0, g0[ty].kind, g0[n], n, r)
    {
      var j :| 0 <= j < |g0[ty].refs| && g0[ty].refs[j] == r;
    }
  }

  lemma DefinedGets(g: Graph, g0: Graph, h0: Graph, ty: NodeId, n: NodeId, kind: NodeKind)
    requires NonDangling(g) && ty in g && n !in g && g0 == g[n := BlankNode(kind)] && ty in h0 && n in h0
    requires GetsChildren(g0, h0, ty, Class(kind), n)
    ensures GetsChildren(g, AddBi(h0, n, ty, HAS_TYPE_DEFINITION), ty, Class(kind), n)
  {
    var h := AddBi(h0, n, ty, HAS_TYPE_DEFINITION);
    AddBiRefs(h0, n, ty, HAS_TYPE_DEFINITION, n);
    forall r | r in g[ty].refs && IsChild(g, r) && Names(h0, n, g[r.target].browse)
      ensures Names(h, n, g[r.target].browse)
    {
      var q :| q in h0[n].refs && q.target in h0 && h0[q.target].browse == g[r.target].browse;
      assert q in h[n].refs;
    }
  }

  lemma DefinedDiffers(h0: Graph, n: NodeId, ty: NodeId)
    requires n in h0 && ty in h0 && NamesDiffer(h0, n) && n != ty
    ensures NamesDiffer(AddBi(h0, n, ty, HAS_TYPE_DEFINITION), n)
  {
    AddBiRefs(h0, n, ty, HAS_TYPE_DEFINITION, n);
  }

  lemma DefinedStems(g: Graph, g0: Graph, h0: Graph, ty: NodeId, n: NodeId, kind: NodeKind, rank: map<NodeId, nat>, q: Ref)
    requires NonDangling(g) && ty in rank && n !in g && g0 == g[n := BlankNode(kind)]
    requires Ranked(g, rank) && Ranked(g0, rank) && ty in h0 && n in h0 && TakesOver(g0, h0, ty, n, 0, rank)
    requires var h := AddBi(h0, n, ty, HAS_TYPE_DEFINITION); q in h[n].refs && IsChild(h, q)
    ensures exists r :: IsCopied(g, AddBi(h0, n, ty, HAS_TYPE_DEFINITION), ty, Class(kind), q, r)
  {
    var h := AddBi(h0, n, ty, HAS_TYPE_DEFINITION);
    AddBiRefs(h0, n, ty, HAS_TYPE_DEFINITION, n);
    var j :| 0 <= j < |h0[n].refs| && h0[n].refs[j] == q;
    assert NewChild(g0, h0, ty, n, h0[n].refs[j], rank);
    var r :| Stems(g0, g0[n].nodeClass, g0[ty].refs, q, r) && StemsCopy(g0, h0, ty, r, q, rank);
    StemsIsCopied(g0, h0, ty, Class(kind), q, r, rank);
    assert IsCopied(g, h, ty, Class(kind), q, r);
  }

  // ----- Which other references the new node takes over -----

  /** Rules, forward type definitions, Organizes references between nodes of one kind, and everything that is
      no property, component or subtype. */
  predicate GoesOver(r: Ref, sKind: NodeKind, tKind: NodeKind) {
    if r.refType == HAS_TYPE_DEFINITION then !r.inverse
    else if r.refType == ORGANIZES then sKind == tKind
    else r.refType != HAS_PROPERTY && r.refType != HAS_COMPONENT && r.refType != HAS_SUBTYPE
  }

  /** All these are at the heir, and answered unless they are rules. */
  ghost predicate GetsReferences(g: Graph, h: Graph, source: NodeId, n: NodeId, kind: NodeKind)
    requires source in g && n in h
  {
    forall r :: r in g[source].refs && GoesOver(r, g[source].kind, kind) ==>
      r in h[n].refs
      && (r.refType != HAS_MODELLING_RULE ==> r.target in h && Ref(r.refType, !r.inverse, n) in h[r.target].refs)
  }

  /** Among these references of the heir, those from place `from` on that lead to another old node, or are
      rules, are such references of the source. */
  ghost predicate NoOthers(g: Graph, refs: seq<Ref>, source: NodeId, n: NodeId, kind: NodeKind, from: nat)
    requires source in g
  {
    forall j :: from <= j < |refs| && (refs[j].refType == HAS_MODELLING_RULE || (refs[j].target in g && refs[j].target != n)) ==>
      refs[j] in g[source].refs && GoesOver(refs[j], g[source].kind, kind)
  }

  lemma {:induction false} InheritTakesNoOthers(g: Graph, ix: Index, s: NodeId, t: NodeId, i: nat, rank: map<NodeId, nat>)
    requires Base(g, ix, rank) && Apart(g, t, rank) && s in rank && i <= |g[s].refs|
    ensures NoOthers(g, Inherit(g, ix, s, t, i, rank).0[t].refs, s, t, g[t].kind, |g[t].refs|)
    decreases rank[s], 1, DescentsLeft(g[s].refs, i), LoopsLeft(g[s].refs, s, i), |g[s].refs| - i
  {
    if i < |g[s].refs| {
      var (g1, ix1) := InheritOne(g, ix, s, t, g[s].refs[i], rank);
      OneTakesNoOthers(g, ix, s, t, g[s].refs[i], rank);
      PassStep(g, g1, s, t, i);
      InheritTakesNoOthers(g1, ix1, s, t, i + 1, rank);
      NoOthersOn(g, g1, Inherit(g1, ix1, s, t, i + 1, rank).0, s, t);
    }
  }

  lemma NoOthersOn(g: Graph, g1: Graph, h: Graph, s: NodeId, t: NodeId)
    requires s in g && t in g && s != t && Grows(g, g1, t) && Grows(g1, h, t)
    requires NoOthers(g, g1[t].refs, s, t, g[t].kind, |g[t].refs|) && NoOthers(g1, h[t].refs, s, t, g1[t].kind, |g1[t].refs|)
    ensures NoOthers(g, h[t].refs, s, t, g[t].kind, |g[t].refs|)
  {
    assert Kept(g[t], g1[t]) && Kept(g1[t], h[t]) && Kept(g[s], g1[s]);
    forall j | |g[t].refs| <= j < |h[t].refs|
               && (h[t].refs[j].refType == HAS_MODELLING_RULE || (h[t].refs[j].target in g && h[t].refs[j].target != t))
      ensures h[t].refs[j] in g[s].refs && GoesOver(h[t].refs[j], g[s].kind, g[t].kind)
    {
      var q := h[t].refs[j];
      if j < |g1[t].refs| {
        assert g1[t].refs[j] == q;
      } else {
        RefsAreOldOrQuiet(g, g1, t, s, q);
      }
    }
  }

  lemma OneTakesNoOthers(g: Graph, ix: Index, s: NodeId, t: NodeId, r: Ref, rank: map<NodeId, nat>)
    requires Base(g, ix, rank) && Apart(g, t, rank) && s in rank && r in g[s].refs
    ensures NoOthers(g, InheritOne(g, ix, s, t, r, rank).0[t].refs, s, t, g[t].kind, |g[t].refs|)
  {
    if Descends(r) && ShouldInherit(g[t].nodeClass, g[r.target]) && !NameTaken(g, t, g[r.target].browse) {
      IssueIsFresh(ix);
      AdmittedMayClone(g[t].nodeClass, g[r.target]);
      var n := NodeId(SERVER_NAMESPACE, Issue(ix).0);
      var gc := Clone(g, Issue(ix).1, r.target, n, rank).0;
      LinkTakesNoOthers(g, gc, s, t, n, r.refType);
    } else if GoesOver(r, g[s].kind, g[t].kind) {
      PlainTakesNoOthers(g, s, t, r);
    }
  }

  lemma LinkTakesNoOthers(g: Graph, gc: Graph, s: NodeId, t: NodeId, n: NodeId, refType: NodeId)
    requires s in g && t in g && n !in g && n in gc && Grows(g, gc, n) && refType != HAS_MODELLING_RULE
    ensures NoOthers(g, AddBi(gc, t, n, refType)[t].refs, s, t, g[t].kind, |g[t].refs|)
  {
    AddBiRefs(gc, t, n, refType, t);
    assert Kept(g[t], gc[t]);
    forall j | |g[t].refs| <= j < |gc[t].refs|
      ensures Quiet(g, gc[t].refs[j], n)
    {
    }
  }

  lemma PlainTakesNoOthers(g: Graph, s: NodeId, t: NodeId, r: Ref)
    requires s in g && t in g && r in g[s].refs && GoesOver(r, g[s].kind, g[t].kind)
    ensures r.refType == HAS_MODELLING_RULE ==> NoOthers(g, AddUni(g, t, r)[t].refs, s, t, g[t].kind, |g[t].refs|)
    ensures r.refType != HAS_MODELLING_RULE && r.target in g && !r.inverse ==> NoOthers(g, AddBi(g, t, r.target, r.refType)[t].refs, s, t, g[t].kind, |g[t].refs|)
    ensures r.refType != HAS_MODELLING_RULE && r.target in g && r.inverse ==> NoOthers(g, AddBi(g, r.target, t, r.refType)[t].refs, s, t, g[t].kind, |g[t].refs|)
  {
    if r.target in g {
      AddBiRefs(g, t, r.target, r.refType, t);
      AddBiRefs(g, r.target, t, r.refType, t);
    }
  }

  lemma HandledGetsReferences(g: Graph, h: Graph, source: NodeId, rec: NodeRec, n: NodeId)
    requires source in g && n in h && forall r :: r in g[source].refs ==> Handled(g, h, g[source].kind, rec, n, r)
    ensures GetsReferences(g, h, source, n, rec.kind)
  {
    forall r | r in g[source].refs && GoesOver(r, g[source].kind, rec.kind)
      ensures r in h[n].refs
      ensures r.refType != HAS_MODELLING_RULE ==> r.target in h && Ref(r.refType, !r.inverse, n) in h[r.target].refs
    {
      assert Handled(g, h, g[source].kind, rec, n, r);
      assert Flip(r, n) == Ref(r.refType, !r.inverse, n);
    }
  }

  /** A clone takes over exactly the rules, the forward type definitions, and all that is no property,
      component or subtype; each of them is answered. */
  lemma CloneReferences(g: Graph, ix: Index, c: NodeId, n: NodeId, rank: map<NodeId, nat>)
    requires Base(g, ix, rank) && c in rank && n !in g
    requires n.ns == SERVER_NAMESPACE ==> Spent(ix, n.num)
    ensures var h := Clone(g, ix, c, n, rank).0;
      n in h && GetsReferences(g, h, c, n, g[c].kind) && NoOthers(g, h[n].refs, c, n, g[c].kind, 0)
  {
    var g0, h := CopyNode(g, c, n), Clone(g, ix, c, n, rank).0;
    CloneCopies(g, ix, c, n, rank);
    HandledGetsReferences(g, h, c, g[c], n);
    CopyStep(g, ix, c, n, rank);
    InheritTakesNoOthers(g0, ix, c, n, 0, rank);
    OlderNoOthers(g, g0, h[n].refs, c, n, g[c].kind);
  }

  lemma OlderNoOthers(g: Graph, g0: Graph, refs: seq<Ref>, source: NodeId, n: NodeId, kind: NodeKind)
    requires source in g && n !in g && n in g0 && g0 == g[n := g0[n]] && NoOthers(g0, refs, source, n, kind, 0)
    ensures NoOthers(g, refs, source, n, kind, 0)
  {
  }

  /** An instance takes over the same from its type, Organizes references only when the kinds agree, and
      refers to the type in the last place. */
  lemma InstanceReferences(g: Graph, ix: Index, ty: NodeId, n: NodeId, kind: NodeKind, rank: map<NodeId, nat>)
    requires Base(g, ix, rank) && ty in rank && n !in g
    requires n.ns == SERVER_NAMESPACE ==> Spent(ix, n.num)
    ensures var h := Instantiate(g, ix, ty, n, kind, rank).0;
      n in h && |h[n].refs| > 0 && GetsReferences(g, h, ty, n, kind)
      && var last := |h[n].refs| - 1;
         h[n].refs[last] == Ref(HAS_TYPE_DEFINITION, false, ty) && NoOthers(g, h[n].refs[..last], ty, n, kind, 0)
  {
    var g0 := g[n := BlankNode(kind)];
    NewNodeStep(g, ix, n, BlankNode(kind), rank);
    var h0 := Inherit(g0, ix, ty, n, 0, rank).0;
    InheritTakesOver(g0, ix, ty, n, 0, rank);
    HandledInSource(g0, h0, ty, n, rank);
    HandledGetsReferences(g0, h0, ty, g0[n], n);
    InheritTakesNoOthers(g0, ix, ty, n, 0, rank);
    OlderNoOthers(g, g0, h0[n].refs, ty, n, kind);
    DefinedReferences(g, g0, h0, ty, n, kind);
  }

  lemma DefinedReferences(g: Graph, g0: Graph, h0: Graph, ty: NodeId, n: NodeId, kind: NodeKind)
    requires ty in g && n !in g && g0 == g[n := BlankNode(kind)] && ty in h0 && n in h0
    requires GetsReferences(g0, h0, ty, n, kind)
    ensures GetsReferences(g, AddBi(h0, n, ty, HAS_TYPE_DEFINITION), ty, n, kind)
    ensures AddBi(h0, n, ty, HAS_TYPE_DEFINITION)[n].refs == h0[n].refs + [Ref(HAS_TYPE_DEFINITION, false, ty)]
  {
    AddBiRefs(h0, n, ty, HAS_TYPE_DEFINITION, n);
    forall k | k in h0
      ensures forall r :: r in h0[k].refs ==> r in AddBi(h0, n, ty, HAS_TYPE_DEFINITION)[k].refs
    {
      AddBiRefs(h0, n, ty, HAS_TYPE_DEFINITION, k);
    }
  }
}
