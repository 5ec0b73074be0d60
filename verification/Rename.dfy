/** Replacing a node's identifier in place (MapNodeToId in AddressSpace.c): the references that
    lead to the node are found through the node's own references. */
module Renaming {
  import opened OpcTypes
  import opened Graphs

  /** A back reference of type `refType` to `orig`, opposite in direction to `inverse`. */
  predicate Answers(q: Ref, orig: NodeId, refType: NodeId, inverse: bool) {
    q.target == orig && q.refType == refType && q.inverse != inverse
  }

  /** The inner loop over the references of one target node. */
  function Retarget(refs: seq<Ref>, orig: NodeId, new_: NodeId, refType: NodeId, inverse: bool): (out: seq<Ref>)
    ensures |out| == |refs|
    ensures forall j :: 0 <= j < |refs| ==>
      out[j] == if Answers(refs[j], orig, refType, inverse) then refs[j].(target := new_) else refs[j]
  {
    seq(|refs|, j requires 0 <= j < |refs| =>
      if Answers(refs[j], orig, refType, inverse) then refs[j].(target := new_) else refs[j])
  }

  function MapStep(g: Graph, orig: NodeId, new_: NodeId, r: Ref): Graph {
    if r.refType == HAS_MODELLING_RULE || r.target !in g then g
    else g[r.target := g[r.target].(refs := Retarget(g[r.target].refs, orig, new_, r.refType, r.inverse))]
  }

  /** The outer loop over the references of the renamed node, which may rewrite that very list. */
  function MapLoop(g: Graph, orig: NodeId, new_: NodeId, i: nat): Graph
    decreases if orig in g then |g[orig].refs| - i else 0
  {
    if orig !in g || i >= |g[orig].refs| then g
    else MapLoop(MapStep(g, orig, new_, g[orig].refs[i]), orig, new_, i + 1)
  }

  lemma {:induction false} MapLoopKeepsIds(g: Graph, orig: NodeId, new_: NodeId, i: nat)
    ensures MapLoop(g, orig, new_, i).Keys == g.Keys
    decreases if orig in g then |g[orig].refs| - i else 0
  {
    if orig in g && i < |g[orig].refs| {
      MapLoopKeepsIds(MapStep(g, orig, new_, g[orig].refs[i]), orig, new_, i + 1);
    }
  }

  function MapNodeToId(g: Graph, orig: NodeId, new_: NodeId): Graph
    requires orig in g
  {
    MapLoopKeepsIds(g, orig, new_, 0);
    var g1 := MapLoop(g, orig, new_, 0);
    (g1 - {orig})[new_ := g1[orig]]
  }

  // ----- What renaming should mean -----

  function Swap(id: NodeId, orig: NodeId, new_: NodeId): NodeId {
    if id == orig then new_ else id
  }

  function SwapRefs(refs: seq<Ref>, orig: NodeId, new_: NodeId): (out: seq<Ref>)
    ensures |out| == |refs|
    ensures forall j :: 0 <= j < |refs| ==> out[j] == refs[j].(target := Swap(refs[j].target, orig, new_))
  {
    seq(|refs|, j requires 0 <= j < |refs| => refs[j].(target := Swap(refs[j].target, orig, new_)))
  }

  /** The same graph with the old identifier replaced everywhere. */
  function Renamed(g: Graph, orig: NodeId, new_: NodeId): Graph
    requires orig in g
  {
    (map k | k in g && k != orig :: g[k].(refs := SwapRefs(g[k].refs, orig, new_)))
      [new_ := g[orig].(refs := SwapRefs(g[orig].refs, orig, new_))]
  }

  /** The same with modelling rules left as they are. */
  function Relink(q: Ref, orig: NodeId, new_: NodeId): Ref {
    if q.refType == HAS_MODELLING_RULE then q else q.(target := Swap(q.target, orig, new_))
  }

  function RelinkRefs(refs: seq<Ref>, orig: NodeId, new_: NodeId): (out: seq<Ref>)
    ensures |out| == |refs|
    ensures forall j :: 0 <= j < |refs| ==> out[j] == Relink(refs[j], orig, new_)
  {
    seq(|refs|, j requires 0 <= j < |refs| => Relink(refs[j], orig, new_))
  }

  function Relinked(g: Graph, orig: NodeId, new_: NodeId): Graph
    requires orig in g
  {
    (map k | k in g && k != orig :: g[k].(refs := RelinkRefs(g[k].refs, orig, new_)))
      [new_ := g[orig].(refs := RelinkRefs(g[orig].refs, orig, new_))]
  }

  /** Every reference to the node but modelling rules comes from another node and is answered by an
      opposite reference of the node itself. */
  ghost predicate Answered(g: Graph, orig: NodeId)
    requires orig in g
  {
    forall k, q :: k in g && q in g[k].refs && q.target == orig && q.refType != HAS_MODELLING_RULE ==> AnsweredRef(g, orig, k, q)
  }

  ghost predicate AnsweredRef(g: Graph, orig: NodeId, k: NodeId, q: Ref)
    requires orig in g
  {
    k != orig && Flip(q, k) in g[orig].refs
  }

  /** No modelling rule leads to the node. */
  ghost predicate IsNoRule(g: Graph, orig: NodeId) {
    forall k, q :: k in g && q in g[k].refs && q.refType == HAS_MODELLING_RULE ==> q.target != orig
  }

  // ----- The loop only changes references that the node answers -----

  /** `cur` is `old_` after some of the references of node `k` to `orig` have been redirected. */
  ghost predicate Redirected(g: Graph, cur: Graph, orig: NodeId, new_: NodeId)
    requires orig in g
  {
    cur.Keys == g.Keys &&
    forall k :: k in g ==>
      && cur[k] == g[k].(refs := cur[k].refs) && |cur[k].refs| == |g[k].refs|
      && forall j :: 0 <= j < |g[k].refs| ==> RedirectedRef(g, orig, new_, k, g[k].refs[j], cur[k].refs[j])
  }

  ghost predicate RedirectedRef(g: Graph, orig: NodeId, new_: NodeId, k: NodeId, q: Ref, q1: Ref)
    requires orig in g
  {
    || q1 == q
    || (q1 == q.(target := new_) && q.target == orig && q.refType != HAS_MODELLING_RULE && Flip(q, k) in g[orig].refs)
  }

  lemma StepRedirects(g: Graph, cur: Graph, orig: NodeId, new_: NodeId, i: nat)
    requires orig in g && new_ !in g && Redirected(g, cur, orig, new_) && i < |cur[orig].refs|
    ensures Redirected(g, MapStep(cur, orig, new_, cur[orig].refs[i]), orig, new_)
  {
    var r := cur[orig].refs[i];
    var nxt := MapStep(cur, orig, new_, r);
    if r.refType != HAS_MODELLING_RULE && r.target in cur {
      assert RedirectedRef(g, orig, new_, orig, g[orig].refs[i], r);
      assert r in g[orig].refs;
      forall k, j | k in g && 0 <= j < |g[k].refs|
        ensures RedirectedRef(g, orig, new_, k, g[k].refs[j], nxt[k].refs[j])
      {
        var q := g[k].refs[j];
        assert RedirectedRef(g, orig, new_, k, q, cur[k].refs[j]);
        if nxt[k].refs[j] != cur[k].refs[j] {
          assert k == r.target && Flip(q, k) == r;
        }
      }
    }
  }

  lemma {:induction false} LoopRedirects(g: Graph, cur: Graph, orig: NodeId, new_: NodeId, i: nat)
    requires orig in g && new_ !in g && Redirected(g, cur, orig, new_) && i <= |cur[orig].refs|
    ensures Redirected(g, MapLoop(cur, orig, new_, i), orig, new_)
    decreases |cur[orig].refs| - i
  {
    if i < |cur[orig].refs| {
      StepRedirects(g, cur, orig, new_, i);
      LoopRedirects(g, MapStep(cur, orig, new_, cur[orig].refs[i]), orig, new_, i + 1);
    }
  }

  // ----- With every reference answered, the loop redirects them all -----

  /** The first `i` references of the node have been used. */
  ghost predicate Used(g: Graph, cur: Graph, orig: NodeId, new_: NodeId, i: nat)
    requires orig in g && i <= |g[orig].refs|
  {
    && Redirected(g, cur, orig, new_) && cur[orig] == g[orig]
    && forall k, j :: k in g && 0 <= j < |g[k].refs| && AnsweredWithin(g, orig, i, k, g[k].refs[j]) ==>
         cur[k].refs[j].target == new_
  }

  ghost predicate AnsweredWithin(g: Graph, orig: NodeId, i: nat, k: NodeId, q: Ref)
    requires orig in g && i <= |g[orig].refs|
  {
    q.target == orig && q.refType != HAS_MODELLING_RULE && Flip(q, k) in g[orig].refs[..i]
  }

  lemma {:induction false} LoopUsesAll(g: Graph, cur: Graph, orig: NodeId, new_: NodeId, i: nat)
    requires orig in g && new_ !in g && Answered(g, orig) && i <= |g[orig].refs| && Used(g, cur, orig, new_, i)
    ensures Used(g, MapLoop(cur, orig, new_, i), orig, new_, |g[orig].refs|)
    decreases |g[orig].refs| - i
  {
    if i < |g[orig].refs| {
      var r := g[orig].refs[i];
      var nxt := MapStep(cur, orig, new_, r);
      StepRedirects(g, cur, orig, new_, i);
      assert g[orig].refs[..i + 1] == g[orig].refs[..i] + [r];
      forall k, j | k in g && 0 <= j < |g[k].refs| && AnsweredWithin(g, orig, i + 1, k, g[k].refs[j])
        ensures nxt[k].refs[j].target == new_
      {
        var q := g[k].refs[j];
        assert RedirectedRef(g, orig, new_, k, q, cur[k].refs[j]);
        if Flip(q, k) == r {
          assert r.target == k;
        }
      }
      assert nxt[orig] == g[orig];
      LoopUsesAll(g, nxt, orig, new_, i + 1);
    }
  }

  lemma AnsweredRelinks(g: Graph, orig: NodeId, new_: NodeId)
    requires orig in g && new_ !in g && Answered(g, orig)
    ensures MapNodeToId(g, orig, new_) == Relinked(g, orig, new_)
  {
    var g1 := MapLoop(g, orig, new_, 0);
    LoopUsesAll(g, g, orig, new_, 0);
    var all := g[orig].refs;
    assert all[..|all|] == all;
    forall k | k in g
      ensures g1[k].refs == RelinkRefs(g[k].refs, orig, new_)
    {
      forall j | 0 <= j < |g[k].refs|
        ensures g1[k].refs[j] == RelinkRefs(g[k].refs, orig, new_)[j]
      {
        var q := g[k].refs[j];
        assert q in g[k].refs;
        assert RedirectedRef(g, orig, new_, k, q, g1[k].refs[j]);
      }
    }
    assert MapNodeToId(g, orig, new_) == Relinked(g, orig, new_);
  }

  // ----- Otherwise some reference keeps the old identifier -----

  /** `a` is a reference of the node to itself that no later step can redirect any more. */
  ghost predicate Stuck(cur: Graph, orig: NodeId, a: nat, i: nat)
    requires orig in cur
  {
    var refs := cur[orig].refs;
    && a < |refs| && refs[a].target == orig && refs[a].refType != HAS_MODELLING_RULE
    && if i <= a
       then forall j :: 0 <= j < a ==> refs[j].target != orig || refs[j].refType == HAS_MODELLING_RULE
       else forall j :: 0 <= j < |refs| ==> !Answers(refs[j], orig, refs[a].refType, refs[a].inverse)
  }

  lemma {:induction false} StuckStays(cur: Graph, orig: NodeId, new_: NodeId, a: nat, i: nat)
    requires orig in cur && new_ !in cur && i <= |cur[orig].refs| && Stuck(cur, orig, a, i)
    ensures var g1 := MapLoop(cur, orig, new_, i);
      orig in g1 && a < |g1[orig].refs| && g1[orig].refs[a].target == orig
    decreases |cur[orig].refs| - i
  {
    if i < |cur[orig].refs| {
      StuckStays(MapStep(cur, orig, new_, cur[orig].refs[i]), orig, new_, a, i + 1);
    }
  }

  /** A reference that is not answered, or from the node itself, leaves one behind that still names the node. */
  lemma LeftBehind(g: Graph, orig: NodeId, new_: NodeId) returns (k: NodeId, j: nat)
    requires orig in g && new_ !in g && !Answered(g, orig)
    ensures k in g && j < |g[k].refs| && g[k].refs[j].target == orig && g[k].refs[j].refType != HAS_MODELLING_RULE
    ensures k in MapLoop(g, orig, new_, 0) && MapLoop(g, orig, new_, 0)[k].refs == MapNodeToId(g, orig, new_)[Swap(k, orig, new_)].refs
    ensures j < |MapLoop(g, orig, new_, 0)[k].refs| && MapLoop(g, orig, new_, 0)[k].refs[j] == g[k].refs[j]
  {
    var g1 := MapLoop(g, orig, new_, 0);
    LoopRedirects(g, g, orig, new_, 0);
    var q :| exists k :: k in g && q in g[k].refs && q.target == orig && q.refType != HAS_MODELLING_RULE && !AnsweredRef(g, orig, k, q);
    k :| k in g && q in g[k].refs && !AnsweredRef(g, orig, k, q);
    j :| 0 <= j < |g[k].refs| && g[k].refs[j] == q;
    if k == orig {
      j := FirstLoop(g[orig].refs, orig, j);
      StuckStays(g, orig, new_, j, 0);
    }
    assert RedirectedRef(g, orig, new_, k, g[k].refs[j], g1[k].refs[j]);
  }

  /** MapNodeToId renames the node in all references but modelling rules exactly when every such
      reference to it comes from another node and is answered by the node. */
  lemma RelinksIffAnswered(g: Graph, orig: NodeId, new_: NodeId)
    requires orig in g && new_ !in g
    ensures MapNodeToId(g, orig, new_) == Relinked(g, orig, new_) <==> Answered(g, orig)
  {
    if Answered(g, orig) {
      AnsweredRelinks(g, orig, new_);
    } else {
      var k, j := LeftBehind(g, orig, new_);
      assert Relinked(g, orig, new_)[Swap(k, orig, new_)].refs[j].target == new_;
    }
  }

  /** It renames the node everywhere exactly when moreover no modelling rule leads to it. */
  lemma RenamesIffLinked(g: Graph, orig: NodeId, new_: NodeId)
    requires orig in g && new_ !in g
    ensures MapNodeToId(g, orig, new_) == Renamed(g, orig, new_) <==> Answered(g, orig) && IsNoRule(g, orig)
  {
    if !Answered(g, orig) {
      var k, j := LeftBehind(g, orig, new_);
      assert Renamed(g, orig, new_)[Swap(k, orig, new_)].refs[j].target == new_;
    } else {
      AnsweredRelinks(g, orig, new_);
      RelinkedIsRenamedIff(g, orig, new_);
    }
  }

  lemma RelinkedIsRenamedIff(g: Graph, orig: NodeId, new_: NodeId)
    requires orig in g && new_ !in g
    ensures Relinked(g, orig, new_) == Renamed(g, orig, new_) <==> IsNoRule(g, orig)
  {
    if k, q :| k in g && q in g[k].refs && q.refType == HAS_MODELLING_RULE && q.target == orig {
      var j :| 0 <= j < |g[k].refs| && g[k].refs[j] == q;
      var k1 := Swap(k, orig, new_);
      assert Relinked(g, orig, new_)[k1].refs[j] != Renamed(g, orig, new_)[k1].refs[j];
    } else {
      forall k | k in g
        ensures RelinkRefs(g[k].refs, orig, new_) == SwapRefs(g[k].refs, orig, new_)
      {
        forall j | 0 <= j < |g[k].refs|
          ensures RelinkRefs(g[k].refs, orig, new_)[j] == SwapRefs(g[k].refs, orig, new_)[j]
        {
          assert g[k].refs[j] in g[k].refs;
        }
      }
    }
  }

  lemma {:induction false} FirstLoop(refs: seq<Ref>, orig: NodeId, j: nat) returns (a: nat)
    requires j < |refs| && refs[j].target == orig && refs[j].refType != HAS_MODELLING_RULE
    ensures a < |refs| && refs[a].target == orig && refs[a].refType != HAS_MODELLING_RULE
    ensures forall i :: 0 <= i < a ==> refs[i].target != orig || refs[i].refType == HAS_MODELLING_RULE
    decreases j
  {
    if i :| 0 <= i < j && refs[i].target == orig && refs[i].refType != HAS_MODELLING_RULE {
      a := FirstLoop(refs, orig, i);
    } else {
      a := j;
    }
  }

  /** In a paired graph every reference to the node is answered exactly when the node does not refer to
      itself, modelling rules apart. */
  lemma AnsweredWhenPaired(g: Graph, orig: NodeId)
    requires orig in g && Paired(g)
    ensures Answered(g, orig) <==> NoLoop(g, orig)
  {
  }

  ghost predicate NoLoop(g: Graph, orig: NodeId)
    requires orig in g
  {
    forall q :: q in g[orig].refs && q.refType != HAS_MODELLING_RULE ==> q.target != orig
  }

  // ----- Renaming keeps the graph in order -----

  /** Where a reference of the renamed graph comes from. */
  lemma RelinkedFrom(g: Graph, orig: NodeId, new_: NodeId, k1: NodeId, r1: Ref) returns (j: nat)
    requires orig in g && new_ !in g && k1 in Relinked(g, orig, new_) && r1 in Relinked(g, orig, new_)[k1].refs
    ensures var k := if k1 == new_ then orig else k1;
      k in g && j < |g[k].refs| && g[k].refs[j] in g[k].refs && r1 == Relink(g[k].refs[j], orig, new_)
  {
    j :| 0 <= j < |Relinked(g, orig, new_)[k1].refs| && Relinked(g, orig, new_)[k1].refs[j] == r1;
  }

  lemma RelinkedKeeps(g: Graph, orig: NodeId, new_: NodeId)
    requires orig in g && new_ !in g
    ensures NonDangling(g) ==> NonDangling(Relinked(g, orig, new_))
    ensures Paired(g) && NonDangling(g) ==> Paired(Relinked(g, orig, new_))
  {
    var g1 := Relinked(g, orig, new_);
    forall k1, r1 | k1 in g1 && r1 in g1[k1].refs && r1.refType != HAS_MODELLING_RULE
      ensures NonDangling(g) ==> r1.target in g1
      ensures Paired(g) && NonDangling(g) ==> r1.target in g1 && Flip(r1, k1) in g1[r1.target].refs
    {
      var j := RelinkedFrom(g, orig, new_, k1, r1);
      var k := if k1 == new_ then orig else k1;
      var r := g[k].refs[j];
      if Paired(g) && NonDangling(g) {
        var b :| 0 <= b < |g[r.target].refs| && g[r.target].refs[b] == Flip(r, k);
        assert g1[r1.target].refs[b] == Flip(r1, k1);
      }
    }
  }

  /** Renaming makes a modelling rule dangle that led somewhere exactly when one leads to the node. */
  lemma RelinkedKeepsRulesIff(g: Graph, orig: NodeId, new_: NodeId)
    requires orig in g && new_ !in g
    ensures RulesStay(g, Relinked(g, orig, new_)) <==> IsNoRule(g, orig)
    ensures Anchored(g) ==> (Anchored(Relinked(g, orig, new_)) <==> IsNoRule(g, orig))
  {
    var g1 := Relinked(g, orig, new_);
    if IsNoRule(g, orig) {
      NoRuleStaysAnchored(g, orig, new_);
    } else {
      var k, q :| k in g && q in g[k].refs && q.refType == HAS_MODELLING_RULE && q.target == orig;
      var j :| 0 <= j < |g[k].refs| && g[k].refs[j] == q;
      assert g1[Swap(k, orig, new_)].refs[j] == q;
      assert q in g1[Swap(k, orig, new_)].refs;
    }
  }

  lemma NoRuleStaysAnchored(g: Graph, orig: NodeId, new_: NodeId)
    requires orig in g && new_ !in g && IsNoRule(g, orig)
    ensures RulesStay(g, Relinked(g, orig, new_)) && (Anchored(g) ==> Anchored(Relinked(g, orig, new_)))
  {
    var g1 := Relinked(g, orig, new_);
    forall k1, r1 | k1 in g1 && r1 in g1[k1].refs
      ensures r1.refType == HAS_MODELLING_RULE && r1.target in g ==> r1.target in g1
      ensures Anchored(g) ==> r1.target in g1
    {
      var j := RelinkedFrom(g, orig, new_, k1, r1);
    }
  }

  /** Where renaming back does not restore a reference: where it named the new identifier before. */
  lemma RenamedTwice(g: Graph, orig: NodeId, new_: NodeId, k: NodeId, j: nat)
    requires orig in g && new_ !in g && k in g && j < |g[k].refs|
    ensures var g2 := Renamed(Renamed(g, orig, new_), new_, orig);
      && g2.Keys == g.Keys && g2[k] == g[k].(refs := g2[k].refs) && |g2[k].refs| == |g[k].refs|
      && (g2[k].refs[j] == g[k].refs[j] <==> g[k].refs[j].target != new_)
  {
  }

  /** Renaming back restores the graph exactly when no modelling rule named the new identifier before
      any node had it. */
  lemma RenameInvertsIff(g: Graph, orig: NodeId, new_: NodeId)
    requires orig in g && new_ !in g && NonDangling(g)
    ensures Renamed(Renamed(g, orig, new_), new_, orig) == g <==>
      forall k, r :: k in g && r in g[k].refs && r.refType == HAS_MODELLING_RULE ==> r.target != new_
  {
    var g2 := Renamed(Renamed(g, orig, new_), new_, orig);
    assert g2.Keys == g.Keys;
    if k, r :| k in g && r in g[k].refs && r.refType == HAS_MODELLING_RULE && r.target == new_ {
      var j :| 0 <= j < |g[k].refs| && g[k].refs[j] == r;
      RenamedTwice(g, orig, new_, k, j);
    } else {
      forall k | k in g
        ensures g2[k] == g[k]
      {
        SameWhenNotNamed(g, orig, new_, k);
      }
    }
  }

  lemma SameWhenNotNamed(g: Graph, orig: NodeId, new_: NodeId, k: NodeId)
    requires orig in g && new_ !in g && k in g && forall r :: r in g[k].refs ==> r.target != new_
    ensures k in Renamed(Renamed(g, orig, new_), new_, orig) && Renamed(Renamed(g, orig, new_), new_, orig)[k] == g[k]
  {
    var g2 := Renamed(Renamed(g, orig, new_), new_, orig);
    assert |g2[k].refs| == |g[k].refs|;
    forall j | 0 <= j < |g[k].refs|
      ensures g2[k].refs[j] == g[k].refs[j]
    {
      assert g[k].refs[j] in g[k].refs;
      RenamedTwice(g, orig, new_, k, j);
    }
  }
}
