/** What removing, unlinking and building leave of every reference list (AddressSpace.c), told from the list
    before. */
module GraphAnswers {
  import opened OpcTypes
  import opened Graphs

  lemma {:induction false} WithoutIsFilter(refs: seq<Ref>, id: NodeId)
    ensures Without(refs, id) == Filter(refs, (r: Ref) => r.target != id)
    decreases |refs|
  {
    if refs != [] {
      assert [refs[0]] + refs[1..] == refs;
      WithoutOfSum([refs[0]], refs[1..], id);
      WithoutOne(refs[0], id);
      WithoutIsFilter(refs[1..], id);
    }
  }

  /** Removing a node takes it out and, from every other node, exactly the references that lead to it; the rest
      stands in its order, and nothing else of the other nodes changes. */
  lemma RemoveAnswers(g: Graph, id: NodeId)
    requires NULL_ID !in g
    ensures var g1 := RemoveNode(g, id);
      && (forall k :: k in g1 <==> k in g && k != id)
      && forall k :: k in g1 ==>
           g1[k] == NodeRec(g[k].kind, g[k].nodeClass, g[k].browse, Filter(g[k].refs, (r: Ref) => r.target != id))
  {
    forall k | k in g
      ensures Without(g[k].refs, id) == Filter(g[k].refs, (r: Ref) => r.target != id)
    {
      WithoutIsFilter(g[k].refs, id);
    }
  }

  /** The list without its first element equal to `r`; the same list when there is none. */
  ghost predicate LostFirst(refs: seq<Ref>, r: Ref, out: seq<Ref>) {
    if r !in refs then out == refs
    else exists i :: 0 <= i < |refs| && refs[i] == r && r !in refs[..i] && out == refs[..i] + refs[i + 1..]
  }

  lemma WithoutFirstLoses(refs: seq<Ref>, r: Ref)
    ensures LostFirst(refs, r, WithoutFirst(refs, r))
  {
    if r in refs {
      var i := WithoutFirstAt(refs, r);
    } else {
      WithoutFirstAbsent(refs, r);
    }
  }

  lemma {:induction false} WithoutFirstAbsent(refs: seq<Ref>, r: Ref)
    requires r !in refs
    ensures WithoutFirst(refs, r) == refs
  {
    if refs != [] {
      WithoutFirstAbsent(refs[1..], r);
    }
  }

  lemma {:induction false} WithoutFirstAt(refs: seq<Ref>, r: Ref) returns (i: nat)
    requires r in refs
    ensures i < |refs| && refs[i] == r && r !in refs[..i] && WithoutFirst(refs, r) == refs[..i] + refs[i + 1..]
  {
    if refs[0] == r {
      i := 0;
    } else {
      var j := WithoutFirstAt(refs[1..], r);
      i := j + 1;
      FrontPlus(refs, j);
    }
  }

  lemma FrontPlus(refs: seq<Ref>, j: nat)
    requires j + 1 < |refs|
    ensures refs[..j + 1] == [refs[0]] + refs[1..][..j] && refs[j + 2..] == refs[1..][j + 1..]
    ensures [refs[0]] + (refs[1..][..j] + refs[1..][j + 1..]) == refs[..j + 1] + refs[j + 2..]
  {
  }

  /** Taking a two-way reference away takes the first equal one at either end, and nothing else. */
  lemma UnlinkAnswers(g: Graph, a: NodeId, b: NodeId, refType: NodeId)
    requires a in g && b in g && a != b
    ensures var g1 := RemoveBi(g, a, b, refType);
      && g1.Keys == g.Keys
      && g1[a] == g[a].(refs := g1[a].refs) && LostFirst(g[a].refs, Ref(refType, false, b), g1[a].refs)
      && g1[b] == g[b].(refs := g1[b].refs) && LostFirst(g[b].refs, Ref(refType, true, a), g1[b].refs)
      && forall k :: k in g && k != a && k != b ==> g1[k] == g[k]
  {
    WithoutFirstLoses(g[a].refs, Ref(refType, false, b));
    WithoutFirstLoses(g[b].refs, Ref(refType, true, a));
  }

  /** The node is of the kind, another one than the target, and has no reference of the type to it. */
  predicate GetsLinked(g: Graph, n: NodeId, kind: NodeKind, target: NodeId, refType: NodeId)
    requires n in g
  {
    g[n].kind == kind && n != target && Ref(refType, false, target) !in g[n].refs && Ref(refType, true, target) !in g[n].refs
  }

  lemma LacksIs(g: Graph, n: NodeId, kind: NodeKind, target: NodeId, refType: NodeId)
    requires n in g
    ensures Lacks(g, n, kind, target, refType) <==> GetsLinked(g, n, kind, target, refType)
  {
    forall r | r in g[n].refs && r.refType == refType && r.target == target
      ensures r == Ref(refType, false, target) || r == Ref(refType, true, target)
    {
    }
  }

  /** After a build exactly these nodes have gained an inverse reference to the target, which has gained a forward
      one to each of them behind what it had; nothing else has changed. */
  lemma BuildAnswers(g: Graph, order: seq<NodeId>, kind: NodeKind, target: NodeId, refType: NodeId)
    requires target in g && Distinct(order) && forall n :: n in order ==> n in g
    ensures var g1 := BuildRefs(g, order, kind, target, refType);
      && g1.Keys == g.Keys
      && (forall n :: n in g && n != target ==>
            g1[n] == if n in order && GetsLinked(g, n, kind, target, refType)
                     then g[n].(refs := g[n].refs + [Ref(refType, true, target)]) else g[n])
      && g1[target] == g[target].(refs := g1[target].refs) && g[target].refs <= g1[target].refs
      && var gained := g1[target].refs[|g[target].refs|..];
         && (forall r :: r in gained ==> r.refType == refType && !r.inverse)
         && (forall n :: Ref(refType, false, n) in gained <==> n in order && GetsLinked(g, n, kind, target, refType))
         && forall i, j :: 0 <= i < j < |gained| ==> gained[i] != gained[j]
  {
    BuildRefsAdds(g, order, kind, target, refType);
    forall n | n in g
      ensures Lacks(g, n, kind, target, refType) <==> GetsLinked(g, n, kind, target, refType)
    {
      LacksIs(g, n, kind, target, refType);
    }
    GainedIs(g, order, kind, target, refType);
    var g1 := BuildRefs(g, order, kind, target, refType);
    assert g1[target].refs[|g[target].refs|..] == Gained(g, order, kind, target, refType);
  }

  lemma {:induction false} GainedIs(g: Graph, order: seq<NodeId>, kind: NodeKind, target: NodeId, refType: NodeId)
    requires Distinct(order) && forall n :: n in order ==> n in g
    ensures var gained := Gained(g, order, kind, target, refType);
      && (forall r :: r in gained <==>
            r.refType == refType && !r.inverse && r.target in order && Lacks(g, r.target, kind, target, refType))
      && forall i, j :: 0 <= i < j < |gained| ==> gained[i] != gained[j]
    decreases |order|
  {
    if order != [] {
      var init, n := order[..|order| - 1], order[|order| - 1];
      assert order == init + [n];
      GainedIs(g, init, kind, target, refType);
      assert n !in init;
    }
  }
}
