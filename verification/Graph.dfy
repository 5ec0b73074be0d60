/** The address-space graph as a value: what each editing operation of AddressSpace.c does to it,
    and the two invariants that the operations keep. */
module Graphs {
  import opened OpcTypes

  /** Every reference other than a modelling rule leads to an existing node. Modelling rules are
      given to nodes long before the nodes that represent the rules are created. */
  ghost predicate NonDangling(g: Graph) {
    forall s, r :: s in g && r in g[s].refs && r.refType != HAS_MODELLING_RULE ==> r.target in g
  }

  /** Every reference leads to an existing node, modelling rules included. */
  ghost predicate Anchored(g: Graph) {
    forall s, r :: s in g && r in g[s].refs ==> r.target in g
  }

  /** No modelling rule of `g1` dangles that leads to a node of `g`. */
  ghost predicate RulesStay(g: Graph, g1: Graph) {
    forall s, r :: s in g1 && r in g1[s].refs && r.refType == HAS_MODELLING_RULE && r.target in g ==> r.target in g1
  }

  /** Every reference other than a modelling rule has an opposite one at its target. */
  ghost predicate Paired(g: Graph) {
    forall s, r :: s in g && r in g[s].refs && r.refType != HAS_MODELLING_RULE ==>
      r.target in g && Flip(r, s) in g[r.target].refs
  }

  // ----- Adding references -----

  function AddUni(g: Graph, s: NodeId, r: Ref): Graph
    requires s in g
  {
    g[s := g[s].(refs := g[s].refs + [r])]
  }

  function AddBi(g: Graph, s: NodeId, t: NodeId, refType: NodeId): Graph
    requires s in g && t in g
  {
    AddUni(AddUni(g, s, Ref(refType, false, t)), t, Ref(refType, true, s))
  }

  /** The references that a node holds after `AddBi`. */
  lemma AddBiRefs(g: Graph, s: NodeId, t: NodeId, refType: NodeId, k: NodeId)
    requires s in g && t in g && k in g
    ensures AddBi(g, s, t, refType)[k] == g[k].(refs := g[k].refs
      + (if k == s then [Ref(refType, false, t)] else [])
      + (if k == t then [Ref(refType, true, s)] else []))
  {
    assert g[k].refs + [] == g[k].refs;
    assert g[k].refs + [] + [Ref(refType, true, s)] == g[k].refs + [Ref(refType, true, s)];
    assert g[k].refs + [Ref(refType, false, t)] + [] == g[k].refs + [Ref(refType, false, t)];
  }

  lemma AddBiKeeps(g: Graph, s: NodeId, t: NodeId, refType: NodeId)
    requires s in g && t in g
    ensures AddBi(g, s, t, refType).Keys == g.Keys
    ensures NonDangling(g) ==> NonDangling(AddBi(g, s, t, refType))
    ensures Paired(g) ==> Paired(AddBi(g, s, t, refType))
  {
    var g1 := AddBi(g, s, t, refType);
    forall k | k in g
      ensures g1[k].refs == g[k].refs
        + (if k == s then [Ref(refType, false, t)] else [])
        + (if k == t then [Ref(refType, true, s)] else [])
    {
      AddBiRefs(g, s, t, refType, k);
    }
  }

  /** A modelling rule is a one-way reference, so adding one keeps the other references paired. */
  lemma AddRuleKeeps(g: Graph, s: NodeId, r: Ref)
    requires s in g && r.refType == HAS_MODELLING_RULE
    ensures Paired(g) ==> Paired(AddUni(g, s, r))
    ensures NonDangling(g) ==> NonDangling(AddUni(g, s, r))
  {
    var g1 := AddUni(g, s, r);
    assert forall k :: k in g && k != s ==> g1[k] == g[k];
  }

  lemma AddNodeKeeps(g: Graph, id: NodeId, rec: NodeRec)
    requires id !in g && rec.refs == []
    ensures NonDangling(g) ==> NonDangling(g[id := rec])
    ensures Paired(g) && NonDangling(g) ==> Paired(g[id := rec])
  {
  }

  // ----- Removing references and nodes -----

  /** The references of `refs` that do not lead to `id`, in order. */
  function Without(refs: seq<Ref>, id: NodeId): (kept: seq<Ref>)
    ensures forall r :: r in kept <==> r in refs && r.target != id
  {
    if refs == [] then []
    else
      var last := refs[|refs| - 1];
      Without(refs[..|refs| - 1], id) + (if last.target == id then [] else [last])
  }

  lemma WithoutOne(r: Ref, id: NodeId)
    ensures Without([r], id) == if r.target == id then [] else [r]
  {
    assert [r][..0] == [];
  }

  lemma WithoutLast(refs: seq<Ref>, r: Ref, id: NodeId)
    ensures Without(refs + [r], id) == Without(refs, id) + Without([r], id)
  {
    assert (refs + [r])[..|refs|] == refs;
    WithoutOne(r, id);
  }

  /** What is left of two stretches stands in their order, and each reference as often as before. */
  lemma {:induction false} WithoutOfSum(a: seq<Ref>, b: seq<Ref>, id: NodeId)
    ensures Without(a + b, id) == Without(a, id) + Without(b, id)
  {
    if b == [] {
      assert a + b == a;
    } else {
      var init, r := b[..|b| - 1], b[|b| - 1];
      assert b == init + [r];
      Regrouped(a, init, [r]);
      WithoutLast(a + init, r, id);
      WithoutLast(init, r, id);
      WithoutOfSum(a, init, id);
      Regrouped(Without(a, id), Without(init, id), Without([r], id));
    }
  }

  /** What RemoveNode leaves: nodes whose own identifier is null are passed over, so that they
      are neither removed nor cleared of references to the removed node. */
  function RemoveNode(g: Graph, id: NodeId): Graph {
    map k | k in g && (k != id || k == NULL_ID) ::
      if k == NULL_ID then g[k] else g[k].(refs := Without(g[k].refs, id))
  }

  /** Removing a node makes no reference dangle, exactly when no node with a null identifier refers
      to it by other than a modelling rule. */
  lemma RemoveNodeLeavesNoDangling(g: Graph, id: NodeId)
    requires NonDangling(g)
    ensures NonDangling(RemoveNode(g, id)) <==>
      !(NULL_ID in g && id != NULL_ID && exists r :: r in g[NULL_ID].refs && r.target == id && r.refType != HAS_MODELLING_RULE)
  {
    var g1 := RemoveNode(g, id);
    if NULL_ID in g && id != NULL_ID && exists r :: r in g[NULL_ID].refs && r.target == id && r.refType != HAS_MODELLING_RULE {
      var r :| r in g[NULL_ID].refs && r.target == id && r.refType != HAS_MODELLING_RULE;
      assert NULL_ID in g1 && r in g1[NULL_ID].refs && r.target !in g1;
    } else {
      forall s, r | s in g1 && r in g1[s].refs && r.refType != HAS_MODELLING_RULE
        ensures r.target in g1
      {
        assert r in g[s].refs;
      }
    }
  }

  /** Removal leaves no modelling rule that leads to the removed node. */
  lemma RemoveNodeKeepsRules(g: Graph, id: NodeId)
    requires NULL_ID !in g
    ensures RulesStay(g, RemoveNode(g, id)) && (Anchored(g) ==> Anchored(RemoveNode(g, id)))
  {
    var g1 := RemoveNode(g, id);
    forall s, r | s in g1 && r in g1[s].refs
      ensures r in g[s].refs && r.target != id
    {
    }
  }

  lemma RemoveNodeKeepsPairs(g: Graph, id: NodeId)
    requires Paired(g) && NULL_ID !in g
    ensures Paired(RemoveNode(g, id))
  {
    var g1 := RemoveNode(g, id);
    forall s, r | s in g1 && r in g1[s].refs && r.refType != HAS_MODELLING_RULE
      ensures r.target in g1 && Flip(r, s) in g1[r.target].refs
    {
      assert r in g[s].refs;
    }
  }

  /** The references left after the first one equal to `r` is removed. */
  function WithoutFirst(refs: seq<Ref>, r: Ref): seq<Ref> {
    if refs == [] then []
    else if refs[0] == r then refs[1..]
    else [refs[0]] + WithoutFirst(refs[1..], r)
  }

  lemma {:induction false} WithoutFirstInverts(refs: seq<Ref>, r: Ref)
    requires r !in refs
    ensures WithoutFirst(refs + [r], r) == refs
  {
    if refs == [] {
      assert ([] + [r])[1..] == [];
    } else {
      assert (refs + [r])[1..] == refs[1..] + [r];
      WithoutFirstInverts(refs[1..], r);
    }
  }

  function RemoveUni(g: Graph, s: NodeId, r: Ref): Graph
    requires s in g
  {
    g[s := g[s].(refs := WithoutFirst(g[s].refs, r))]
  }

  function RemoveBi(g: Graph, s: NodeId, t: NodeId, refType: NodeId): Graph
    requires s in g && t in g
  {
    RemoveUni(RemoveUni(g, s, Ref(refType, false, t)), t, Ref(refType, true, s))
  }

  /** Removing a pair of references that was absent before it was added restores the graph. */
  lemma RemoveBiInvertsAddBi(g: Graph, s: NodeId, t: NodeId, refType: NodeId)
    requires s in g && t in g
    requires Ref(refType, false, t) !in g[s].refs && Ref(refType, true, s) !in g[t].refs
    ensures RemoveBi(AddBi(g, s, t, refType), s, t, refType) == g
  {
    var f, b := Ref(refType, false, t), Ref(refType, true, s);
    if s == t {
      var refs := g[s].refs;
      assert refs + [f] + [b] == refs + [f, b];
      WithoutFirstSkips(refs, [f, b], f);
      assert WithoutFirst([f, b], f) == [b];
      WithoutFirstInverts(refs, b);
    } else {
      WithoutFirstInverts(g[s].refs, f);
      WithoutFirstInverts(g[t].refs, b);
    }
  }

  lemma {:induction false} WithoutFirstCounts(refs: seq<Ref>, r: Ref, q: Ref)
    ensures multiset(WithoutFirst(refs, r))[q] == if q == r && r in refs then multiset(refs)[q] - 1 else multiset(refs)[q]
  {
    if refs != [] {
      assert refs == [refs[0]] + refs[1..];
      if refs[0] != r {
        WithoutFirstCounts(refs[1..], r, q);
      }
    }
  }

  lemma WithoutFirstHas(refs: seq<Ref>, r: Ref, q: Ref)
    ensures q in WithoutFirst(refs, r) <==> if q == r then multiset(refs)[r] > 1 else q in refs
  {
    WithoutFirstCounts(refs, r, q);
    assert forall s: seq<Ref> :: q in s <==> q in multiset(s);
  }

  /** Whether a node still refers by `q` after a two-way reference has been removed. */
  lemma RemoveBiHas(g: Graph, s: NodeId, t: NodeId, refType: NodeId, k: NodeId, q: Ref)
    requires s in g && t in g && k in g
    ensures var f, b := Ref(refType, false, t), Ref(refType, true, s);
      q in RemoveBi(g, s, t, refType)[k].refs <==>
        if (k == s && q == f) || (k == t && q == b) then multiset(g[k].refs)[q] > 1 else q in g[k].refs
  {
    var f, b := Ref(refType, false, t), Ref(refType, true, s);
    WithoutFirstHas(g[k].refs, f, q);
    WithoutFirstHas(g[k].refs, b, q);
    WithoutFirstHas(WithoutFirst(g[k].refs, f), b, q);
    WithoutFirstCounts(g[k].refs, f, q);
  }

  /** Removing a two-way reference keeps references paired exactly when either both ends or neither
      hold it more than once. */
  lemma RemoveBiKeepsPairsIff(g: Graph, s: NodeId, t: NodeId, refType: NodeId)
    requires s in g && t in g && refType != HAS_MODELLING_RULE && Paired(g)
    ensures var f, b := Ref(refType, false, t), Ref(refType, true, s);
      Paired(RemoveBi(g, s, t, refType)) <==> (multiset(g[s].refs)[f] > 1 <==> multiset(g[t].refs)[b] > 1)
  {
    var f, b := Ref(refType, false, t), Ref(refType, true, s);
    var g1 := RemoveBi(g, s, t, refType);
    assert g1.Keys == g.Keys;
    RemoveBiHas(g, s, t, refType, s, f);
    RemoveBiHas(g, s, t, refType, t, b);
    if multiset(g[s].refs)[f] > 1 <==> multiset(g[t].refs)[b] > 1 {
      forall k, q | k in g1 && q in g1[k].refs && q.refType != HAS_MODELLING_RULE
        ensures q.target in g1 && Flip(q, k) in g1[q.target].refs
      {
        RemoveBiHas(g, s, t, refType, k, q);
        RemoveBiHas(g, s, t, refType, q.target, Flip(q, k));
      }
    } else {
      assert Flip(f, s) == b && Flip(b, t) == f;
    }
  }

  /** Removing references makes none dangle. */
  lemma RemoveBiKeeps(g: Graph, s: NodeId, t: NodeId, refType: NodeId)
    requires s in g && t in g
    ensures RemoveBi(g, s, t, refType).Keys == g.Keys
    ensures NonDangling(g) ==> NonDangling(RemoveBi(g, s, t, refType))
    ensures Anchored(g) ==> Anchored(RemoveBi(g, s, t, refType))
  {
    forall k, q | k in g && q in RemoveBi(g, s, t, refType)[k].refs
      ensures q in g[k].refs
    {
      RemoveBiHas(g, s, t, refType, k, q);
    }
  }

  lemma {:induction false} WithoutFirstSkips(refs: seq<Ref>, rest: seq<Ref>, r: Ref)
    requires r !in refs
    ensures WithoutFirst(refs + rest, r) == refs + WithoutFirst(rest, r)
  {
    if refs == [] {
      assert [] + rest == rest;
    } else {
      assert (refs + rest)[1..] == refs[1..] + rest;
      WithoutFirstSkips(refs[1..], rest, r);
    }
  }

  // ----- Building references to all nodes of a kind -----

  /** `n` is a node of the wanted kind that does not refer to `target` yet, in either direction. */
  predicate Lacks(g: Graph, n: NodeId, kind: NodeKind, target: NodeId, refType: NodeId)
    requires n in g
  {
    && g[n].kind == kind
    && n != target
    && forall r :: r in g[n].refs ==> !(r.refType == refType && r.target == target)
  }

  /** One iteration: link `target` and `n` unless they are linked already. */
  function BuildOne(g: Graph, n: NodeId, kind: NodeKind, target: NodeId, refType: NodeId): Graph {
    if n in g && target in g && Lacks(g, n, kind, target, refType) then AddBi(g, target, n, refType) else g
  }

  /** BuildReferencesOfTypeToNode over the nodes of `order`, last to first. */
  function BuildRefs(g: Graph, order: seq<NodeId>, kind: NodeKind, target: NodeId, refType: NodeId): Graph {
    if order == [] then g
    else
      var last := |order| - 1;
      BuildRefs(BuildOne(g, order[last], kind, target, refType), order[..last], kind, target, refType)
  }

  lemma BuildRefsUnfold(g: Graph, ids: seq<NodeId>, i: nat, kind: NodeKind, target: NodeId, refType: NodeId)
    requires 0 < i <= |ids|
    ensures BuildRefs(g, ids[..i], kind, target, refType)
      == BuildRefs(BuildOne(g, ids[i - 1], kind, target, refType), ids[..i - 1], kind, target, refType)
  {
    assert ids[..i][i - 1] == ids[i - 1] && ids[..i][..i - 1] == ids[..i - 1];
  }

  /** The forward references that the target gains: one for each node that lacked it. */
  function Gained(g: Graph, order: seq<NodeId>, kind: NodeKind, target: NodeId, refType: NodeId): seq<Ref>
    requires forall n :: n in order ==> n in g
  {
    if order == [] then []
    else
      var n := order[|order| - 1];
      (if Lacks(g, n, kind, target, refType) then [Ref(refType, false, n)] else [])
      + Gained(g, order[..|order| - 1], kind, target, refType)
  }

  predicate Distinct(order: seq<NodeId>) {
    forall i, j :: 0 <= i < j < |order| ==> order[i] != order[j]
  }

  /** The effect of building over `order`: the target gains a forward reference to exactly the
      nodes that lacked one, each of these gains the inverse reference, and nothing else changes. */
  ghost predicate Built(g: Graph, g1: Graph, order: seq<NodeId>, kind: NodeKind, target: NodeId, refType: NodeId)
    requires target in g && forall n :: n in order ==> n in g
  {
    && g1.Keys == g.Keys
    && g1[target] == g[target].(refs := g[target].refs + Gained(g, order, kind, target, refType))
    && forall n :: n in g && n != target ==>
         g1[n] == if n in order && Lacks(g, n, kind, target, refType)
                  then g[n].(refs := g[n].refs + [Ref(refType, true, target)]) else g[n]
  }

  lemma {:induction false} BuildRefsAdds(g: Graph, order: seq<NodeId>, kind: NodeKind, target: NodeId, refType: NodeId)
    requires target in g && Distinct(order) && forall n :: n in order ==> n in g
    ensures Built(g, BuildRefs(g, order, kind, target, refType), order, kind, target, refType)
  {
    if order == [] {
      assert g[target].refs + [] == g[target].refs;
    } else {
      var n, rest := order[|order| - 1], order[..|order| - 1];
      assert order == rest + [n];
      if Lacks(g, n, kind, target, refType) {
        var g1 := AddBi(g, target, n, refType);
        BuildRefsAdds(g1, rest, kind, target, refType);
        BuiltOn(g, g1, BuildRefs(g1, rest, kind, target, refType), rest, n, kind, target, refType);
      } else {
        BuildRefsAdds(g, rest, kind, target, refType);
        assert [] + Gained(g, rest, kind, target, refType) == Gained(g, rest, kind, target, refType);
      }
    }
  }

  /** Linking one node and then building over the rest is building over all. */
  lemma BuiltOn(g: Graph, g1: Graph, h: Graph, rest: seq<NodeId>, n: NodeId, kind: NodeKind, target: NodeId, refType: NodeId)
    requires target in g && n in g && n !in rest && forall m :: m in rest ==> m in g
    requires Lacks(g, n, kind, target, refType) && g1 == AddBi(g, target, n, refType)
    requires Built(g1, h, rest, kind, target, refType)
    ensures Built(g, h, rest + [n], kind, target, refType)
  {
    BuildStep(g, g1, rest, n, kind, target, refType);
    forall m | m in g && m != target
      ensures g1[m] == if m == n then g[m].(refs := g[m].refs + [Ref(refType, true, target)]) else g[m]
      ensures m in rest + [n] <==> m in rest || m == n
    {
      AddBiRefs(g, target, n, refType, m);
    }
  }

  lemma BuildStep(g: Graph, g1: Graph, rest: seq<NodeId>, n: NodeId, kind: NodeKind, target: NodeId, refType: NodeId)
    requires target in g && n in g && n !in rest && forall m :: m in rest ==> m in g
    requires Lacks(g, n, kind, target, refType) && g1 == AddBi(g, target, n, refType)
    ensures forall m :: m in rest ==> Lacks(g1, m, kind, target, refType) == Lacks(g, m, kind, target, refType)
    ensures Gained(g1, rest, kind, target, refType) == Gained(g, rest, kind, target, refType)
    ensures g1[target].refs + Gained(g, rest, kind, target, refType)
         == g[target].refs + Gained(g, rest + [n], kind, target, refType)
  {
    GainedDepends(g, g1, rest, kind, target, refType);
    var f := [Ref(refType, false, n)];
    assert (rest + [n])[..|rest|] == rest;
    assert g[target].refs + f + Gained(g, rest, kind, target, refType)
        == g[target].refs + (f + Gained(g, rest, kind, target, refType));
  }

  lemma {:induction false} GainedDepends(g: Graph, g1: Graph, order: seq<NodeId>, kind: NodeKind, target: NodeId, refType: NodeId)
    requires forall n :: n in order ==> n in g && n in g1
    requires forall n :: n in order ==> Lacks(g1, n, kind, target, refType) == Lacks(g, n, kind, target, refType)
    ensures Gained(g1, order, kind, target, refType) == Gained(g, order, kind, target, refType)
  {
    if order != [] {
      GainedDepends(g, g1, order[..|order| - 1], kind, target, refType);
    }
  }

  /** A second build finds nothing to add. */
  lemma BuildRefsIsIdempotent(g: Graph, order: seq<NodeId>, kind: NodeKind, target: NodeId, refType: NodeId)
    requires target in g && Distinct(order) && forall n :: n in order ==> n in g
    ensures var g1 := BuildRefs(g, order, kind, target, refType);
      g1.Keys == g.Keys && BuildRefs(g1, order, kind, target, refType) == g1
  {
    BuildRefsAdds(g, order, kind, target, refType);
    var g1 := BuildRefs(g, order, kind, target, refType);
    forall n | n in order
      ensures !Lacks(g1, n, kind, target, refType)
    {
      if n != target && Lacks(g, n, kind, target, refType) {
        var r := Ref(refType, true, target);
        assert g1[n].refs == g[n].refs + [r];
        assert r in g1[n].refs;
      }
    }
    BuildRefsIdle(g1, order, kind, target, refType);
  }

  lemma {:induction false} BuildRefsIdle(g: Graph, order: seq<NodeId>, kind: NodeKind, target: NodeId, refType: NodeId)
    requires target in g && forall n :: n in order ==> n in g && !Lacks(g, n, kind, target, refType)
    ensures BuildRefs(g, order, kind, target, refType) == g
  {
    if order != [] {
      BuildRefsIdle(g, order[..|order| - 1], kind, target, refType);
    }
  }

  lemma {:induction false} BuildRefsKeeps(g: Graph, order: seq<NodeId>, kind: NodeKind, target: NodeId, refType: NodeId)
    requires target in g && forall n :: n in order ==> n in g
    ensures BuildRefs(g, order, kind, target, refType).Keys == g.Keys
    ensures NonDangling(g) ==> NonDangling(BuildRefs(g, order, kind, target, refType))
    ensures Paired(g) ==> Paired(BuildRefs(g, order, kind, target, refType))
  {
    if order != [] {
      var n := order[|order| - 1];
      AddBiKeeps(g, target, n, refType);
      var g1 := BuildOne(g, n, kind, target, refType);
      BuildRefsKeeps(g1, order[..|order| - 1], kind, target, refType);
    }
  }
}
