/** What cloning achieves: paired references stay paired, a clone mirrors the part of the original
    that is inherited, and the graph stays free of cycles among cloneable children. */
module CloneTheorems {
  import opened OpcTypes
  import opened Graphs
  import opened Indexing
  import opened Cloning

  // ----- Pairing -----

  lemma {:induction false} InheritOneKeepsPairs(g: Graph, ix: Index, s: NodeId, t: NodeId, r: Ref, rank: map<NodeId, nat>)
    requires Base(g, ix, rank) && Apart(g, t, rank) && s in rank && r in g[s].refs && Paired(g)
    ensures Paired(InheritOne(g, ix, s, t, r, rank).0)
    decreases rank[s], 0
  {
    if Descends(r) && ShouldInherit(g[t].nodeClass, g[r.target]) && !NameTaken(g, t, g[r.target].browse) {
      IssueIsFresh(ix);
      AdmittedMayClone(g[t].nodeClass, g[r.target]);
      var n := NodeId(SERVER_NAMESPACE, Issue(ix).0);
      CloneKeepsPairs(g, Issue(ix).1, r.target, n, rank);
      AddBiKeeps(Clone(g, Issue(ix).1, r.target, n, rank).0, t, n, r.refType);
    } else {
      PlainKeepsPairs(g, t, r);
    }
  }

  lemma PlainKeepsPairs(g: Graph, t: NodeId, r: Ref)
    requires t in g && Paired(g)
    ensures r.refType == HAS_MODELLING_RULE ==> Paired(AddUni(g, t, r))
    ensures r.target in g ==> Paired(AddBi(g, r.target, t, r.refType)) && Paired(AddBi(g, t, r.target, r.refType))
  {
    if r.refType == HAS_MODELLING_RULE {
      AddRuleKeeps(g, t, r);
    }
    if r.target in g {
      AddBiKeeps(g, r.target, t, r.refType);
      AddBiKeeps(g, t, r.target, r.refType);
    }
  }

  lemma {:induction false} InheritKeepsPairs(g: Graph, ix: Index, s: NodeId, t: NodeId, i: nat, rank: map<NodeId, nat>)
    requires Base(g, ix, rank) && Apart(g, t, rank) && s in rank && i <= |g[s].refs| && Paired(g)
    ensures Paired(Inherit(g, ix, s, t, i, rank).0)
    decreases rank[s], 1, DescentsLeft(g[s].refs, i), LoopsLeft(g[s].refs, s, i), |g[s].refs| - i
  {
    if i < |g[s].refs| {
      var (g1, ix1) := InheritOne(g, ix, s, t, g[s].refs[i], rank);
      InheritOneKeepsPairs(g, ix, s, t, g[s].refs[i], rank);
      PassStep(g, g1, s, t, i);
      InheritKeepsPairs(g1, ix1, s, t, i + 1, rank);
    }
  }

  lemma {:induction false} CloneKeepsPairs(g: Graph, ix: Index, c: NodeId, n: NodeId, rank: map<NodeId, nat>)
    requires Base(g, ix, rank) && c in rank && n !in g && Paired(g)
    requires n.ns == SERVER_NAMESPACE ==> Spent(ix, n.num)
    ensures Paired(Clone(g, ix, c, n, rank).0)
    decreases rank[c], 2
  {
    CopyStep(g, ix, c, n, rank);
    AddNodeKeeps(g, n, g[c].(refs := []));
    InheritKeepsPairs(CopyNode(g, c, n), ix, c, n, 0, rank);
  }

  lemma InstantiateKeepsPairs(g: Graph, ix: Index, ty: NodeId, n: NodeId, kind: NodeKind, rank: map<NodeId, nat>)
    requires Base(g, ix, rank) && ty in rank && n !in g && Paired(g)
    requires n.ns == SERVER_NAMESPACE ==> Spent(ix, n.num)
    ensures Paired(Instantiate(g, ix, ty, n, kind, rank).0)
  {
    NewNodeStep(g, ix, n, BlankNode(kind), rank);
    AddNodeKeeps(g, n, BlankNode(kind));
    InheritKeepsPairs(g[n := BlankNode(kind)], ix, ty, n, 0, rank);
    AddBiKeeps(Inherit(g[n := BlankNode(kind)], ix, ty, n, 0, rank).0, n, ty, HAS_TYPE_DEFINITION);
  }

  // ----- The clone mirrors the original -----

  /** References taken over as they are: everything except aggregates, subtypes, references from
      instances to their type, and Organizes references between nodes of different kinds. */
  predicate TakenAsIs(r: Ref, sKind: NodeKind, tKind: NodeKind) {
    && !IsAggregate(r.refType) && r.refType != HAS_SUBTYPE
    && (r.refType == HAS_TYPE_DEFINITION ==> !r.inverse)
    && (r.refType == ORGANIZES ==> sKind == tKind)
  }

  /** `t` has something with the browse name of `r`'s target. */
  ghost predicate Covered(h: Graph, t: NodeId, name: QName) {
    t in h && exists q :: q in h[t].refs && q.target in h && h[q.target].browse == name
  }

  /** The reference `r` of the source has been dealt with at `t`. */
  ghost predicate Handled(g: Graph, h: Graph, sKind: NodeKind, t: NodeRec, tId: NodeId, r: Ref) {
    && tId in h
    && (TakenAsIs(r, sKind, t.kind) ==>
          r in h[tId].refs
          && (r.refType != HAS_MODELLING_RULE ==> r.target in h && Flip(r, tId) in h[r.target].refs))
    && (Descends(r) && r.target in g && ShouldInherit(t.nodeClass, g[r.target]) ==>
          Covered(h, tId, g[r.target].browse))
  }

  /** No two children of `t`, one of them at index `from` or later, share a browse name. */
  ghost predicate SiblingsDiffer(h: Graph, t: NodeId, from: nat) {
    t in h && forall i, j :: 0 <= i < j < |h[t].refs| && from <= j ==> SiblingPairDiffers(h, h[t].refs[i], h[t].refs[j])
  }

  ghost predicate SiblingPairDiffers(h: Graph, a: Ref, b: Ref) {
    Descends(a) && Descends(b) && a.target in h && b.target in h ==>
      !SameBrowseName(h[b.target].browse, h[a.target].browse)
  }

  /** The child reference `q` of the heir stems from the child reference `r` of the source. */
  ghost predicate Stems(g: Graph, heir: NodeClass, source: seq<Ref>, q: Ref, r: Ref) {
    && r in source && Descends(r) && r.refType == q.refType && r.target in g
    && ShouldInherit(heir, g[r.target])
  }

  /** `n` is a new node of `h` that mirrors the node `c` of `g`, with all inherited descendants. */
  ghost predicate CopyOf(g: Graph, h: Graph, c: NodeId, n: NodeId, rank: map<NodeId, nat>)
    requires Ranked(g, rank) && c in rank
    decreases rank[c]
  {
    && n in h && n !in g
    && h[n].kind == g[c].kind && h[n].nodeClass == g[c].nodeClass && h[n].browse == g[c].browse
    && (forall r :: r in g[c].refs ==> Handled(g, h, g[c].kind, g[c], n, r))
    && SiblingsDiffer(h, n, 0)
    && forall q :: q in h[n].refs && Descends(q) ==>
         exists r :: Stems(g, g[c].nodeClass, g[c].refs, q, r) && StemsCopy(g, h, c, r, q, rank)
  }

  ghost predicate StemsCopy(g: Graph, h: Graph, c: NodeId, r: Ref, q: Ref, rank: map<NodeId, nat>)
    requires Ranked(g, rank) && c in rank
    decreases rank[c], 0
  {
    && r in g[c].refs && Descends(r) && r.target in g && MayClone(g[r.target])
    && CopyOf(g, h, r.target, q.target, rank)
  }

  /** Everything `Inherit` promises about the heir: references from index `i` on are dealt with,
      new children are copies of children of the source, and their names do not clash. */
  ghost predicate TakesOver(g: Graph, h: Graph, s: NodeId, t: NodeId, i: nat, rank: map<NodeId, nat>)
    requires Ranked(g, rank) && s in rank && t in g
  {
    && t in h
    && (forall j :: i <= j < |g[s].refs| ==> Handled(g, h, g[s].kind, g[t], t, g[s].refs[j]))
    && SiblingsDiffer(h, t, |g[t].refs|)
    && forall j :: |g[t].refs| <= j < |h[t].refs| && Descends(h[t].refs[j]) ==> NewChild(g, h, s, t, h[t].refs[j], rank)
  }

  ghost predicate NewChild(g: Graph, h: Graph, s: NodeId, t: NodeId, q: Ref, rank: map<NodeId, nat>)
    requires Ranked(g, rank) && s in rank && t in g
  {
    exists r :: Stems(g, g[t].nodeClass, g[s].refs, q, r) && StemsCopy(g, h, s, r, q, rank)
  }

  lemma HandledLater(g: Graph, h1: Graph, h: Graph, sKind: NodeKind, t: NodeRec, tId: NodeId, r: Ref, x: NodeId)
    requires Handled(g, h1, sKind, t, tId, r) && Grows(h1, h, x)
    ensures Handled(g, h, sKind, t, tId, r)
  {
    assert Kept(h1[tId], h[tId]);
    if TakenAsIs(r, sKind, t.kind) && r.refType != HAS_MODELLING_RULE {
      assert Kept(h1[r.target], h[r.target]);
    }
    if Descends(r) && r.target in g && ShouldInherit(t.nodeClass, g[r.target]) {
      var q :| q in h1[tId].refs && q.target in h1 && h1[q.target].browse == g[r.target].browse;
      assert Kept(h1[q.target], h[q.target]);
      assert q in h[tId].refs;
    }
  }

  /** Growth around `x` does not change which existing children are inherited. */
  lemma SameAdmission(g: Graph, g1: Graph, x: NodeId, heir: NodeClass, c: NodeId)
    requires Grows(g, g1, x) && c in g
    ensures ShouldInherit(heir, g[c]) ==> ShouldInherit(heir, g1[c])
    ensures c != x && ShouldInherit(heir, g1[c]) ==> ShouldInherit(heir, g[c])
  {
    assert Kept(g[c], g1[c]);
    if c != x && ShouldInherit(heir, g1[c]) {
      var r :| r in g1[c].refs && r.refType == HAS_MODELLING_RULE && Admits(heir, r.target);
      RefsAreOldOrQuiet(g, g1, x, c, r);
    }
  }

  /** What holds of a reference of the grown source holds of it in the source before. */
  lemma HandledEarlier(g: Graph, g1: Graph, h: Graph, x: NodeId, sKind: NodeKind, t: NodeRec, tId: NodeId, r: Ref)
    requires Grows(g, g1, x) && Handled(g1, h, sKind, t, tId, r)
    ensures Handled(g, h, sKind, t, tId, r)
  {
    if r.target in g {
      assert Kept(g[r.target], g1[r.target]);
      SameAdmission(g, g1, x, t.nodeClass, r.target);
    }
  }

  /** The children of a node other than the heir stay the same, and so do their names. */
  lemma SiblingsLater(h1: Graph, h: Graph, n: NodeId, x: NodeId)
    requires SiblingsDiffer(h1, n, 0) && Grows(h1, h, x) && n != x && NonDangling(h1)
    ensures SiblingsDiffer(h, n, 0)
  {
    assert Kept(h1[n], h[n]);
    forall i, j | 0 <= i < j < |h[n].refs|
      ensures SiblingPairDiffers(h, h[n].refs[i], h[n].refs[j])
    {
      var a, b := h[n].refs[i], h[n].refs[j];
      if Descends(a) && Descends(b) {
        ChildIsOld(h1, h, n, x, i);
        ChildIsOld(h1, h, n, x, j);
        assert SiblingPairDiffers(h1, h1[n].refs[i], h1[n].refs[j]);
        assert a in h1[n].refs && b in h1[n].refs;
        assert Kept(h1[a.target], h[a.target]) && Kept(h1[b.target], h[b.target]);
      }
    }
  }

  lemma ChildIsOld(h1: Graph, h: Graph, n: NodeId, x: NodeId, j: nat)
    requires Grows(h1, h, x) && n in h1 && n != x && j < |h[n].refs| && Descends(h[n].refs[j])
    ensures j < |h1[n].refs| && h1[n].refs[j] == h[n].refs[j]
  {
    assert Kept(h1[n], h[n]);
    assert |h1[n].refs| <= j ==> Quiet(h1, h[n].refs[j], x);
  }

  /** A copy stays a copy while the graph grows around `x2`, and is one of the earlier source. */
  lemma {:induction false} CopyTransfers(g: Graph, g1: Graph, x1: NodeId, h1: Graph, h: Graph, x2: NodeId, c: NodeId, n: NodeId, rank: map<NodeId, nat>)
    requires NonDangling(g) && NonDangling(h1) && Ranked(g, rank) && Ranked(g1, rank) && c in rank
    requires Grows(g, g1, x1) && x1 !in rank
    requires forall k, r :: k in rank && r in g[k].refs && Descends(r) ==> r.target != x1
    requires Grows(h1, h, x2) && x2 in g1
    requires CopyOf(g1, h1, c, n, rank)
    ensures CopyOf(g, h, c, n, rank)
    decreases rank[c]
  {
    assert Kept(g[c], g1[c]);
    assert Kept(h1[n], h[n]);
    forall r | r in g[c].refs
      ensures Handled(g, h, g[c].kind, g[c], n, r)
    {
      assert r in g1[c].refs;
      assert Handled(g1, h1, g1[c].kind, g1[c], n, r);
      HandledLater(g1, h1, h, g1[c].kind, g1[c], n, r, x2);
      HandledEarlier(g, g1, h, x1, g[c].kind, g1[c], n, r);
    }
    SiblingsLater(h1, h, n, x2);
    forall q | q in h[n].refs && Descends(q)
      ensures exists r :: Stems(g, g[c].nodeClass, g[c].refs, q, r) && StemsCopy(g, h, c, r, q, rank)
    {
      RefsAreOldOrQuiet(h1, h, x2, n, q);
      var r :| Stems(g1, g1[c].nodeClass, g1[c].refs, q, r) && StemsCopy(g1, h1, c, r, q, rank);
      StemsTransfers(g, g1, x1, c, g[c].nodeClass, q, r, rank);
      CopyTransfers(g, g1, x1, h1, h, x2, r.target, q.target, rank);
      assert StemsCopy(g, h, c, r, q, rank);
    }
  }

  lemma StemsTransfers(g: Graph, g1: Graph, x: NodeId, s: NodeId, heir: NodeClass, q: Ref, r: Ref, rank: map<NodeId, nat>)
    requires NonDangling(g) && Ranked(g, rank) && s in rank && x !in rank && Grows(g, g1, x)
    requires forall k, r :: k in rank && r in g[k].refs && Descends(r) ==> r.target != x
    requires s in g1 && Stems(g1, heir, g1[s].refs, q, r)
    ensures Stems(g, heir, g[s].refs, q, r) && MayClone(g[r.target])
    ensures r.target in rank && rank[r.target] < rank[s]
  {
    RefsAreOldOrQuiet(g, g1, x, s, r);
    SameAdmission(g, g1, x, heir, r.target);
    AdmittedMayClone(heir, g[r.target]);
  }

  /** Two stretches of inheriting compose. */
  lemma TakesOverOn(g: Graph, g1: Graph, h: Graph, s: NodeId, t: NodeId, i: nat, rank: map<NodeId, nat>)
    requires NonDangling(g) && NonDangling(g1) && NonDangling(h) && Ranked(g, rank) && Ranked(g1, rank) && s in rank
    requires Apart(g, t, rank) && Apart(g1, t, rank) && Grows(g, g1, t) && Grows(g1, h, t)
    requires i < |g[s].refs| && TakesOverOne(g, g1, s, t, g[s].refs[i], rank)
    requires TakesOver(g1, h, s, t, i + 1, rank)
    ensures TakesOver(g, h, s, t, i, rank)
  {
    assert Kept(g[t], g1[t]) && Kept(g1[t], h[t]) && Kept(g[s], g1[s]);
    forall j | i <= j < |g[s].refs|
      ensures Handled(g, h, g[s].kind, g[t], t, g[s].refs[j])
    {
      if j == i {
        HandledLater(g, g1, h, g[s].kind, g[t], t, g[s].refs[j], t);
      } else {
        assert g1[s].refs[j] == g[s].refs[j];
        HandledEarlier(g, g1, h, t, g[s].kind, g1[t], t, g[s].refs[j]);
      }
    }
    forall j | |g[t].refs| <= j < |h[t].refs| && Descends(h[t].refs[j])
      ensures NewChild(g, h, s, t, h[t].refs[j], rank)
    {
      var q := h[t].refs[j];
      if j < |g1[t].refs| {
        assert g1[t].refs[j] == q && NewChild(g, g1, s, t, q, rank);
        ChildLater(g, g1, h, s, t, q, rank);
      } else {
        assert NewChild(g1, h, s, t, q, rank);
        ChildEarlier(g, g1, h, s, t, q, rank);
      }
    }
    SiblingsOn(g, g1, h, t);
  }

  /** A new child stays one while the heir goes on inheriting. */
  lemma ChildLater(g: Graph, g1: Graph, h: Graph, s: NodeId, t: NodeId, q: Ref, rank: map<NodeId, nat>)
    requires NonDangling(g) && NonDangling(g1) && Ranked(g, rank) && s in rank
    requires Apart(g, t, rank) && Grows(g, g1, t) && Grows(g1, h, t) && NewChild(g, g1, s, t, q, rank)
    ensures NewChild(g, h, s, t, q, rank)
  {
    var r :| Stems(g, g[t].nodeClass, g[s].refs, q, r) && StemsCopy(g, g1, s, r, q, rank);
    GrowsNot(g, t);
    CopyTransfers(g, g, t, g1, h, t, r.target, q.target, rank);
    assert StemsCopy(g, h, s, r, q, rank);
  }

  lemma GrowsNot(g: Graph, t: NodeId)
    ensures Grows(g, g, t)
  {
  }

  /** A child that is new to the grown graph is new to the one before. */
  lemma ChildEarlier(g: Graph, g1: Graph, h: Graph, s: NodeId, t: NodeId, q: Ref, rank: map<NodeId, nat>)
    requires NonDangling(g) && NonDangling(h) && Ranked(g, rank) && Ranked(g1, rank) && s in rank
    requires Apart(g, t, rank) && t in g1 && Grows(g, g1, t) && Grows(g1, h, t) && NewChild(g1, h, s, t, q, rank)
    ensures NewChild(g, h, s, t, q, rank)
  {
    assert Kept(g[t], g1[t]);
    var r :| Stems(g1, g1[t].nodeClass, g1[s].refs, q, r) && StemsCopy(g1, h, s, r, q, rank);
    StemsTransfers(g, g1, t, s, g[t].nodeClass, q, r, rank);
    GrowsNot(h, t);
    CopyTransfers(g, g1, t, h, h, t, r.target, q.target, rank);
    assert StemsCopy(g, h, s, r, q, rank);
  }

  lemma SiblingsOn(g: Graph, g1: Graph, h: Graph, t: NodeId)
    requires t in g && t in g1 && Grows(g1, h, t) && NonDangling(g1)
    requires SiblingsDiffer(g1, t, |g[t].refs|) && SiblingsDiffer(h, t, |g1[t].refs|)
    ensures SiblingsDiffer(h, t, |g[t].refs|)
  {
    assert Kept(g1[t], h[t]);
    forall i, j | 0 <= i < j < |h[t].refs| && |g[t].refs| <= j
      ensures SiblingPairDiffers(h, h[t].refs[i], h[t].refs[j])
    {
      if j < |g1[t].refs| {
        var a, b := g1[t].refs[i], g1[t].refs[j];
        assert SiblingPairDiffers(g1, a, b);
        assert a in g1[t].refs && b in g1[t].refs;
        if Descends(a) && Descends(b) {
          assert Kept(g1[a.target], h[a.target]) && Kept(g1[b.target], h[b.target]);
        }
      }
    }
  }

  /** The promises of one iteration, from `g` to `g1`, for the reference `r` of `s`. */
  ghost predicate TakesOverOne(g: Graph, g1: Graph, s: NodeId, t: NodeId, r: Ref, rank: map<NodeId, nat>)
    requires Ranked(g, rank) && s in rank && t in g
  {
    && t in g1
    && Handled(g, g1, g[s].kind, g[t], t, r)
    && SiblingsDiffer(g1, t, |g[t].refs|)
    && forall j :: |g[t].refs| <= j < |g1[t].refs| && Descends(g1[t].refs[j]) ==> NewChild(g, g1, s, t, g1[t].refs[j], rank)
  }

  /** An iteration that adds at most one pair of references, or a rule, as it found it. */
  lemma PlainTakesOver(g: Graph, g1: Graph, s: NodeId, t: NodeId, r: Ref, rank: map<NodeId, nat>)
    requires Ranked(g, rank) && s in rank && t in g && (r.refType != HAS_MODELLING_RULE ==> r.target in g) && !Descends(r)
    requires if !TakenAsIs(r, g[s].kind, g[t].kind) then g1 == g
             else if r.refType == HAS_MODELLING_RULE then g1 == AddUni(g, t, r)
             else if r.inverse then g1 == AddBi(g, r.target, t, r.refType)
             else g1 == AddBi(g, t, r.target, r.refType)
    ensures TakesOverOne(g, g1, s, t, r, rank)
  {
    if TakenAsIs(r, g[s].kind, g[t].kind) && r.refType != HAS_MODELLING_RULE {
      var (a, b) := if r.inverse then (r.target, t) else (t, r.target);
      AddBiRefs(g, a, b, r.refType, t);
      AddBiRefs(g, a, b, r.refType, r.target);
    }
  }

  /** An iteration that finds a child not admitted or its browse name already present. */
  lemma SkippedTakesOver(g: Graph, s: NodeId, t: NodeId, r: Ref, rank: map<NodeId, nat>)
    requires Ranked(g, rank) && s in rank && t in g && r.target in g && Descends(r)
    requires ShouldInherit(g[t].nodeClass, g[r.target]) ==> NameTaken(g, t, g[r.target].browse)
    ensures TakesOverOne(g, g, s, t, r, rank)
  {
    if NameTaken(g, t, g[r.target].browse) {
      var q :| q in g[t].refs && q.target in g && SameBrowseName(g[r.target].browse, g[q.target].browse);
      assert g[q.target].browse == g[r.target].browse;
    }
  }

  /** The references of the heir after the child `n` has been cloned and linked: the old ones,
      quiet ones, and the link. */
  lemma LinkedRefs(g: Graph, gc: Graph, t: NodeId, n: NodeId, refType: NodeId)
    requires t in g && n in gc && n !in g && Grows(g, gc, n)
    ensures var refs := AddBi(gc, t, n, refType)[t].refs;
      && g[t].refs <= gc[t].refs && refs == gc[t].refs + [Ref(refType, false, n)]
      && forall j :: |g[t].refs| <= j < |refs| && Descends(refs[j]) ==> j == |gc[t].refs|
  {
    AddBiRefs(gc, t, n, refType, t);
    assert Kept(g[t], gc[t]);
    forall j | |g[t].refs| <= j < |gc[t].refs|
      ensures !Descends(gc[t].refs[j])
    {
      assert Quiet(g, gc[t].refs[j], n);
    }
  }

  lemma LinkedSiblingsDiffer(g: Graph, gc: Graph, t: NodeId, n: NodeId, refType: NodeId, name: QName)
    requires NonDangling(g) && t in g && n in gc && n !in g && Grows(g, gc, n)
    requires gc[n].browse == name && !NameTaken(g, t, name)
    ensures SiblingsDiffer(AddBi(gc, t, n, refType), t, |g[t].refs|)
  {
    var g1 := AddBi(gc, t, n, refType);
    LinkedRefs(g, gc, t, n, refType);
    forall i, j | 0 <= i < j < |g1[t].refs| && |g[t].refs| <= j
      ensures SiblingPairDiffers(g1, g1[t].refs[i], g1[t].refs[j])
    {
      var a := g1[t].refs[i];
      if Descends(a) && Descends(g1[t].refs[j]) {
        assert i < |g[t].refs| && g[t].refs[i] == a;
        assert a in g[t].refs;
        assert Kept(g[a.target], gc[a.target]);
      }
    }
  }

  /** An iteration that clones a child into `n` and links it below `t`. */
  lemma ChildTakesOver(g: Graph, gc: Graph, g1: Graph, s: NodeId, t: NodeId, n: NodeId, r: Ref, rank: map<NodeId, nat>)
    requires NonDangling(g) && NonDangling(gc) && Ranked(g, rank) && Apart(g, t, rank) && s in rank
    requires r in g[s].refs && Descends(r) && r.target in rank && rank[r.target] < rank[s]
    requires ShouldInherit(g[t].nodeClass, g[r.target]) && !NameTaken(g, t, g[r.target].browse)
    requires Grows(g, gc, n) && CopyOf(g, gc, r.target, n, rank) && g1 == AddBi(gc, t, n, r.refType)
    ensures TakesOverOne(g, g1, s, t, r, rank)
  {
    var q := Ref(r.refType, false, n);
    LinkedRefs(g, gc, t, n, r.refType);
    LinkedSiblingsDiffer(g, gc, t, n, r.refType, g[r.target].browse);
    assert Handled(g, g1, g[s].kind, g[t], t, r) by {
      assert q in g1[t].refs && g1[n].browse == g[r.target].browse;
    }
    assert NewChild(g, g1, s, t, q, rank) by {
      AdmittedMayClone(g[t].nodeClass, g[r.target]);
      LinkGrows(gc, t, n, r.refType);
      CopyTransfers(g, g, t, gc, g1, t, r.target, n, rank);
      assert Stems(g, g[t].nodeClass, g[s].refs, q, r) && StemsCopy(g, g1, s, r, q, rank);
    }
  }

  lemma {:induction false} InheritOneTakesOver(g: Graph, ix: Index, s: NodeId, t: NodeId, r: Ref, rank: map<NodeId, nat>)
    requires Base(g, ix, rank) && Apart(g, t, rank) && s in rank && r in g[s].refs
    ensures TakesOverOne(g, InheritOne(g, ix, s, t, r, rank).0, s, t, r, rank)
    decreases rank[s], 0
  {
    if !Descends(r) {
      PlainTakesOver(g, InheritOne(g, ix, s, t, r, rank).0, s, t, r, rank);
    } else if !ShouldInherit(g[t].nodeClass, g[r.target]) || NameTaken(g, t, g[r.target].browse) {
      SkippedTakesOver(g, s, t, r, rank);
    } else {
      IssueIsFresh(ix);
      AdmittedMayClone(g[t].nodeClass, g[r.target]);
      var n := NodeId(SERVER_NAMESPACE, Issue(ix).0);
      CloneCopies(g, Issue(ix).1, r.target, n, rank);
      var gc := Clone(g, Issue(ix).1, r.target, n, rank).0;
      ChildTakesOver(g, gc, AddBi(gc, t, n, r.refType), s, t, n, r, rank);
    }
  }

  lemma LinkGrows(g: Graph, t: NodeId, n: NodeId, refType: NodeId)
    requires t in g && n in g && t != n && IsAggregate(refType)
    ensures Grows(g, AddBi(g, t, n, refType), t)
  {
  }

  /** InheritReferences deals with every reference of the source that it meets. */
  lemma {:induction false} InheritTakesOver(g: Graph, ix: Index, s: NodeId, t: NodeId, i: nat, rank: map<NodeId, nat>)
    requires Base(g, ix, rank) && Apart(g, t, rank) && s in rank && i <= |g[s].refs|
    ensures TakesOver(g, Inherit(g, ix, s, t, i, rank).0, s, t, i, rank)
    decreases rank[s], 1, DescentsLeft(g[s].refs, i), LoopsLeft(g[s].refs, s, i), |g[s].refs| - i
  {
    if i < |g[s].refs| {
      var (g1, ix1) := InheritOne(g, ix, s, t, g[s].refs[i], rank);
      InheritOneTakesOver(g, ix, s, t, g[s].refs[i], rank);
      PassStep(g, g1, s, t, i);
      InheritTakesOver(g1, ix1, s, t, i + 1, rank);
      TakesOverOn(g, g1, Inherit(g1, ix1, s, t, i + 1, rank).0, s, t, i, rank);
    }
  }

  /** A heir that started without references and took over everything is a copy. */
  lemma HeirIsCopy(g: Graph, g0: Graph, h: Graph, c: NodeId, n: NodeId, rank: map<NodeId, nat>)
    requires NonDangling(g) && NonDangling(h) && Ranked(g, rank) && Ranked(g0, rank) && c in rank && n !in g
    requires g0 == CopyNode(g, c, n) && Grows(g, g0, n) && Grows(g0, h, n)
    requires TakesOver(g0, h, c, n, 0, rank)
    ensures CopyOf(g, h, c, n, rank)
  {
    assert Kept(g0[n], h[n]);
    forall r | r in g[c].refs
      ensures Handled(g, h, g[c].kind, g[c], n, r)
    {
      var j :| 0 <= j < |g[c].refs| && g[c].refs[j] == r;
      assert Handled(g0, h, g0[c].kind, g0[n], n, g0[c].refs[j]);
      HandledEarlier(g, g0, h, n, g[c].kind, g0[n], n, r);
    }
    forall q | q in h[n].refs && Descends(q)
      ensures exists r :: Stems(g, g[c].nodeClass, g[c].refs, q, r) && StemsCopy(g, h, c, r, q, rank)
    {
      var j :| 0 <= j < |h[n].refs| && h[n].refs[j] == q;
      assert NewChild(g0, h, c, n, h[n].refs[j], rank);
      HeirChildIsCopy(g, g0, h, c, n, q, rank);
    }
  }

  /** A child of the heir is a copy of a child of the original. */
  lemma HeirChildIsCopy(g: Graph, g0: Graph, h: Graph, c: NodeId, n: NodeId, q: Ref, rank: map<NodeId, nat>)
    requires NonDangling(g) && NonDangling(h) && Ranked(g, rank) && Ranked(g0, rank) && c in rank && n !in g
    requires g0 == CopyNode(g, c, n) && Grows(g, g0, n) && NewChild(g0, h, c, n, q, rank)
    ensures exists r :: Stems(g, g[c].nodeClass, g[c].refs, q, r) && StemsCopy(g, h, c, r, q, rank)
  {
    var r :| Stems(g0, g0[n].nodeClass, g0[c].refs, q, r) && StemsCopy(g0, h, c, r, q, rank);
    StemsTransfers(g, g0, n, c, g[c].nodeClass, q, r, rank);
    CopyTransfers(g, g0, n, h, h, n, r.target, q.target, rank);
    assert StemsCopy(g, h, c, r, q, rank);
  }

  /** CloneNode creates a copy of the node with all the children it inherits, recursively. */
  lemma {:induction false} CloneCopies(g: Graph, ix: Index, c: NodeId, n: NodeId, rank: map<NodeId, nat>)
    requires Base(g, ix, rank) && c in rank && n !in g
    requires n.ns == SERVER_NAMESPACE ==> Spent(ix, n.num)
    ensures CopyOf(g, Clone(g, ix, c, n, rank).0, c, n, rank)
    decreases rank[c], 2
  {
    var g0 := CopyNode(g, c, n);
    CopyStep(g, ix, c, n, rank);
    InheritTakesOver(g0, ix, c, n, 0, rank);
    HeirIsCopy(g, g0, Inherit(g0, ix, c, n, 0, rank).0, c, n, rank);
  }

  /** An instance takes over from its type like an heir that starts empty, and then refers to it. */
  lemma InstanceTakesOver(g: Graph, ix: Index, ty: NodeId, n: NodeId, kind: NodeKind, rank: map<NodeId, nat>) returns (h: Graph)
    requires Base(g, ix, rank) && ty in rank && n !in g
    requires n.ns == SERVER_NAMESPACE ==> Spent(ix, n.num)
    ensures Ranked(g[n := BlankNode(kind)], rank) && n in h && ty in h
    ensures TakesOver(g[n := BlankNode(kind)], h, ty, n, 0, rank)
    ensures Instantiate(g, ix, ty, n, kind, rank).0 == AddBi(h, n, ty, HAS_TYPE_DEFINITION)
  {
    var g0 := g[n := BlankNode(kind)];
    NewNodeStep(g, ix, n, BlankNode(kind), rank);
    InheritTakesOver(g0, ix, ty, n, 0, rank);
    h := Inherit(g0, ix, ty, n, 0, rank).0;
  }
}
