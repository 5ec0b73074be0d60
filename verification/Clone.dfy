/** Inheriting references and cloning type subtrees (AddressSpace.c): two mutually recursive
    operations that walk the reference list of a node while the graph is growing. */
module Cloning {
  import opened OpcTypes
  import opened Graphs
  import opened Indexing

  // ----- What decides whether a child is inherited -----

  predicate IsRule(rule: NodeId) {
    rule == RULE_MANDATORY || rule == RULE_EXPOSES_ITS_ARRAY
    || rule == RULE_OPTIONAL_PLACEHOLDER || rule == RULE_MANDATORY_PLACEHOLDER
  }

  /** A type inherits placeholder children too; anything else inherits only mandatory ones. */
  predicate Admits(heir: NodeClass, rule: NodeId) {
    || rule == RULE_MANDATORY
    || ((heir == Class(ObjectType) || heir == Class(VariableType)) && IsRule(rule))
  }

  predicate ShouldInherit(heir: NodeClass, child: NodeRec) {
    exists r :: r in child.refs && r.refType == HAS_MODELLING_RULE && Admits(heir, r.target)
  }

  /** The child carries a rule under which some heir would clone it. */
  predicate MayClone(child: NodeRec) {
    exists r :: r in child.refs && r.refType == HAS_MODELLING_RULE && IsRule(r.target)
  }

  /** Something that `t` already refers to has the browse name `name`. */
  predicate NameTaken(g: Graph, t: NodeId, name: QName)
    requires t in g
  {
    exists r :: r in g[t].refs && r.target in g && SameBrowseName(name, g[r.target].browse)
  }

  // ----- When the recursion is well-founded -----

  /** `rank` covers a part of the graph that is closed under descending into cloneable children,
      and each such step lowers it. */
  ghost predicate Ranked(g: Graph, rank: map<NodeId, nat>) {
    && rank.Keys <= g.Keys
    && forall k, r :: k in rank && r in g[k].refs && Descends(r) && r.target in g && MayClone(g[r.target]) ==>
         r.target in rank && rank[r.target] < rank[k]
  }

  /** Every identifier of the server's namespace in use is spent, so fresh indexes are unused. */
  ghost predicate IdsSpent(g: Graph, ix: Index) {
    Sound(ix) && forall id :: id in g && id.ns == SERVER_NAMESPACE ==> Spent(ix, id.num)
  }

  ghost predicate Base(g: Graph, ix: Index, rank: map<NodeId, nat>) {
    NonDangling(g) && IdsSpent(g, ix) && Ranked(g, rank)
  }

  /** The heir is a separate node that the ranked part does not descend into. */
  ghost predicate Apart(g: Graph, t: NodeId, rank: map<NodeId, nat>) {
    && t in g && t !in rank
    && forall k, r :: k in rank && k in g && r in g[k].refs && Descends(r) ==> r.target != t
  }

  // ----- How the graph may grow -----

  /** References that older nodes may gain while `t` inherits: never one that cloning descends,
      never a modelling rule, and always leading to `t` or to a new node. */
  ghost predicate Quiet(g: Graph, r: Ref, t: NodeId) {
    !Descends(r) && r.refType != HAS_MODELLING_RULE && (r.target == t || r.target !in g)
  }

  ghost predicate Kept(a: NodeRec, b: NodeRec) {
    a.kind == b.kind && a.nodeClass == b.nodeClass && a.browse == b.browse && a.refs <= b.refs
  }

  ghost predicate Grows(g: Graph, g1: Graph, t: NodeId) {
    && g.Keys <= g1.Keys
    && (forall k :: k in g ==> Kept(g[k], g1[k]))
    && forall k, j :: k in g && k != t && |g[k].refs| <= j < |g1[k].refs| ==> Quiet(g, g1[k].refs[j], t)
  }

  ghost predicate Later(ix: Index, ix1: Index) {
    && ix.next <= ix1.next && ix.reserved == ix1.reserved && Sound(ix1)
    && forall u :: Spent(ix, u) ==> Spent(ix1, u)
  }

  // ----- The measure of one pass over a reference list -----

  function DescentsLeft(refs: seq<Ref>, i: nat): nat
    requires i <= |refs|
    decreases |refs| - i
  {
    if i == |refs| then 0 else (if Descends(refs[i]) then 1 else 0) + DescentsLeft(refs, i + 1)
  }

  function LoopsLeft(refs: seq<Ref>, s: NodeId, i: nat): nat
    requires i <= |refs|
    decreases |refs| - i
  {
    if i == |refs| then 0 else (if refs[i].target == s then 1 else 0) + LoopsLeft(refs, s, i + 1)
  }

  lemma {:induction false} QuietGrowthKeepsMeasure(refs: seq<Ref>, refs1: seq<Ref>, s: NodeId, i: nat)
    requires refs <= refs1 && i <= |refs|
    requires forall j :: |refs| <= j < |refs1| ==> !Descends(refs1[j]) && refs1[j].target != s
    ensures DescentsLeft(refs1, i) == DescentsLeft(refs, i)
    ensures LoopsLeft(refs1, s, i) == LoopsLeft(refs, s, i)
    decreases |refs1| - i
  {
    if i < |refs| {
      QuietGrowthKeepsMeasure(refs, refs1, s, i + 1);
    } else if i < |refs1| {
      QuietGrowthKeepsMeasure(refs1[..i + 1], refs1, s, i + 1);
      MeasureAtEnd(refs1, s, i + 1);
    }
  }

  lemma {:induction false} MeasureAtEnd(refs: seq<Ref>, s: NodeId, i: nat)
    requires i <= |refs|
    requires forall j :: i <= j < |refs| ==> !Descends(refs[j]) && refs[j].target != s
    ensures DescentsLeft(refs, i) == 0 && LoopsLeft(refs, s, i) == 0
    decreases |refs| - i
  {
    if i < |refs| {
      MeasureAtEnd(refs, s, i + 1);
    }
  }

  /** However the list of `s` grew during iteration `i`, the rest of the pass has only what the
      old list had left of descents and of references of `s` to itself. */
  lemma PassStep(g: Graph, g1: Graph, s: NodeId, t: NodeId, i: nat)
    requires Grows(g, g1, t) && s in g && s != t && i < |g[s].refs|
    ensures i + 1 <= |g1[s].refs|
    ensures DescentsLeft(g1[s].refs, i + 1)
      == DescentsLeft(g[s].refs, i) - (if Descends(g[s].refs[i]) then 1 else 0)
    ensures LoopsLeft(g1[s].refs, s, i + 1)
      == LoopsLeft(g[s].refs, s, i) - (if g[s].refs[i].target == s then 1 else 0)
  {
    assert Kept(g[s], g1[s]);
    assert forall j :: |g[s].refs| <= j < |g1[s].refs| ==> Quiet(g, g1[s].refs[j], t);
    QuietGrowthKeepsMeasure(g[s].refs, g1[s].refs, s, i + 1);
  }

  // ----- The two operations -----

  /** One iteration: what `t` takes over from the reference `r` of `s`. */
  ghost function InheritOne(g: Graph, ix: Index, s: NodeId, t: NodeId, r: Ref, rank: map<NodeId, nat>): (res: (Graph, Index))
    requires Base(g, ix, rank) && Apart(g, t, rank) && s in rank && r in g[s].refs
    ensures Base(res.0, res.1, rank) && Apart(res.0, t, rank)
    ensures Grows(g, res.0, t) && Later(ix, res.1)
    ensures !Descends(r) && r.target != s ==> res.0[s] == g[s]
    decreases rank[s], 0
  {
    assert r.refType != HAS_MODELLING_RULE ==> r.target in g;
    if r.refType == HAS_MODELLING_RULE then
      UniStep(g, ix, t, r, rank);
      (AddUni(g, t, r), ix)
    else if IsAggregate(r.refType) then
      if r.inverse || !ShouldInherit(g[t].nodeClass, g[r.target]) || NameTaken(g, t, g[r.target].browse) then
        Stays(g, ix, t, rank);
        (g, ix)
      else
        IssueIsFresh(ix);
        AdmittedMayClone(g[t].nodeClass, g[r.target]);
        var n := NodeId(SERVER_NAMESPACE, Issue(ix).0);
        var (g1, ix1) := Clone(g, Issue(ix).1, r.target, n, rank);
        ChildStep(g, ix, g1, ix1, t, n, r.refType, rank);
        (AddBi(g1, t, n, r.refType), ix1)
    else if r.refType == HAS_SUBTYPE then
      Stays(g, ix, t, rank);
      (g, ix)
    else if r.refType == HAS_TYPE_DEFINITION then
      if r.inverse then Stays(g, ix, t, rank); (g, ix)
      else BiStep(g, ix, t, t, r.target, r.refType, rank); (AddBi(g, t, r.target, r.refType), ix)
    else if r.refType != ORGANIZES || g[s].kind == g[t].kind then
      if r.inverse then BiStep(g, ix, t, r.target, t, r.refType, rank); (AddBi(g, r.target, t, r.refType), ix)
      else BiStep(g, ix, t, t, r.target, r.refType, rank); (AddBi(g, t, r.target, r.refType), ix)
    else
      Stays(g, ix, t, rank);
      (g, ix)
  }

  /** The loop of InheritReferences from index `i` on; the list of `s` may grow under way. */
  ghost function Inherit(g: Graph, ix: Index, s: NodeId, t: NodeId, i: nat, rank: map<NodeId, nat>): (res: (Graph, Index))
    requires Base(g, ix, rank) && Apart(g, t, rank) && s in rank && i <= |g[s].refs|
    ensures Base(res.0, res.1, rank) && Apart(res.0, t, rank)
    ensures Grows(g, res.0, t) && Later(ix, res.1)
    decreases rank[s], 1, DescentsLeft(g[s].refs, i), LoopsLeft(g[s].refs, s, i), |g[s].refs| - i
  {
    if i == |g[s].refs| then
      Stays(g, ix, t, rank);
      (g, ix)
    else
      var (g1, ix1) := InheritOne(g, ix, s, t, g[s].refs[i], rank);
      PassStep(g, g1, s, t, i);
      var res := Inherit(g1, ix1, s, t, i + 1, rank);
      GrowsOn(g, g1, res.0, t);
      res
  }

  /** A new node `n` that takes over what `c` has. */
  ghost function Clone(g: Graph, ix: Index, c: NodeId, n: NodeId, rank: map<NodeId, nat>): (res: (Graph, Index))
    requires Base(g, ix, rank) && c in rank && n !in g
    requires n.ns == SERVER_NAMESPACE ==> Spent(ix, n.num)
    ensures Base(res.0, res.1, rank) && Apart(res.0, n, rank)
    ensures Grows(g, res.0, n) && Later(ix, res.1)
    decreases rank[c], 2
  {
    var g0 := CopyNode(g, c, n);
    CopyStep(g, ix, c, n, rank);
    var res := Inherit(g0, ix, c, n, 0, rank);
    GrowsOn(g, g0, res.0, n);
    res
  }

  function CopyNode(g: Graph, c: NodeId, n: NodeId): Graph
    requires c in g
  {
    g[n := g[c].(refs := [])]
  }

  function BlankNode(kind: NodeKind): NodeRec {
    NodeRec(kind, Class(kind), QName(0, None), [])
  }

  /** CreateObjectFromObjectType and CreateVariableFromVariableType: a new node that inherits from
      its type and refers to it as its definition. */
  ghost function Instantiate(g: Graph, ix: Index, ty: NodeId, n: NodeId, kind: NodeKind, rank: map<NodeId, nat>): (res: (Graph, Index))
    requires Base(g, ix, rank) && ty in rank && n !in g
    requires n.ns == SERVER_NAMESPACE ==> Spent(ix, n.num)
    ensures NonDangling(res.0) && IdsSpent(res.0, res.1) && Later(ix, res.1)
    ensures g.Keys <= res.0.Keys && n in res.0
  {
    NewNodeStep(g, ix, n, BlankNode(kind), rank);
    var (g1, ix1) := Inherit(g[n := BlankNode(kind)], ix, ty, n, 0, rank);
    AddBiKeeps(g1, n, ty, HAS_TYPE_DEFINITION);
    (AddBi(g1, n, ty, HAS_TYPE_DEFINITION), ix1)
  }

  // ----- The steps keep what the recursion relies on -----

  lemma Stays(g: Graph, ix: Index, t: NodeId, rank: map<NodeId, nat>)
    requires Base(g, ix, rank)
    ensures Grows(g, g, t) && Later(ix, ix)
  {
  }

  lemma GrowsOn(g: Graph, g1: Graph, g2: Graph, t: NodeId)
    requires Grows(g, g1, t) && Grows(g1, g2, t)
    ensures Grows(g, g2, t)
  {
    forall k | k in g
      ensures Kept(g[k], g2[k])
    {
      assert Kept(g[k], g1[k]) && Kept(g1[k], g2[k]);
    }
    forall k, j | k in g && k != t && |g[k].refs| <= j < |g2[k].refs|
      ensures Quiet(g, g2[k].refs[j], t)
    {
      assert Kept(g[k], g1[k]) && Kept(g1[k], g2[k]);
      if j < |g1[k].refs| {
        assert g2[k].refs[j] == g1[k].refs[j];
        assert Quiet(g, g1[k].refs[j], t);
      } else {
        assert Quiet(g1, g2[k].refs[j], t);
      }
    }
  }

  /** Growth around a heir that the ranked part does not reach keeps that part as it was. */
  lemma GrowthKeepsRanks(g: Graph, g1: Graph, t: NodeId, rank: map<NodeId, nat>)
    requires Grows(g, g1, t) && NonDangling(g) && Ranked(g, rank) && t !in rank
    requires forall k, r :: k in rank && r in g[k].refs && Descends(r) ==> r.target != t
    ensures Ranked(g1, rank)
    ensures t in g1 ==> Apart(g1, t, rank)
  {
    forall k, r | k in rank && r in g1[k].refs && Descends(r)
      ensures r in g[k].refs && r.target != t
      ensures MayClone(g1[r.target]) ==> MayClone(g[r.target])
    {
      RefsAreOldOrQuiet(g, g1, t, k, r);
      if MayClone(g1[r.target]) {
        var q :| q in g1[r.target].refs && q.refType == HAS_MODELLING_RULE && IsRule(q.target);
        RefsAreOldOrQuiet(g, g1, t, r.target, q);
      }
    }
  }

  lemma RefsAreOldOrQuiet(g: Graph, g1: Graph, t: NodeId, k: NodeId, r: Ref)
    requires Grows(g, g1, t) && k in g && k != t && r in g1[k].refs
    ensures r in g[k].refs || Quiet(g, r, t)
  {
    assert Kept(g[k], g1[k]);
    var j :| 0 <= j < |g1[k].refs| && g1[k].refs[j] == r;
    if j < |g[k].refs| {
      assert g[k].refs[j] == r;
    } else {
      assert Quiet(g, g1[k].refs[j], t);
    }
  }

  lemma UniStep(g: Graph, ix: Index, t: NodeId, r: Ref, rank: map<NodeId, nat>)
    requires Base(g, ix, rank) && Apart(g, t, rank) && r.refType == HAS_MODELLING_RULE
    ensures var g1 := AddUni(g, t, r);
      Base(g1, ix, rank) && Apart(g1, t, rank) && Grows(g, g1, t) && Later(ix, ix)
      && forall k :: k in g && k != t ==> g1[k] == g[k]
  {
    AddRuleKeeps(g, t, r);
    GrowthKeepsRanks(g, AddUni(g, t, r), t, rank);
  }

  lemma BiStep(g: Graph, ix: Index, t: NodeId, a: NodeId, b: NodeId, refType: NodeId, rank: map<NodeId, nat>)
    requires Base(g, ix, rank) && Apart(g, t, rank) && a in g && b in g && (a == t || b == t)
    requires !IsAggregate(refType) && refType != HAS_MODELLING_RULE
    ensures var g1 := AddBi(g, a, b, refType);
      Base(g1, ix, rank) && Apart(g1, t, rank) && Grows(g, g1, t) && Later(ix, ix)
      && forall k :: k in g && k != a && k != b ==> g1[k] == g[k]
  {
    AddBiKeeps(g, a, b, refType);
    GrowthKeepsRanks(g, AddBi(g, a, b, refType), t, rank);
  }

  lemma NewNodeStep(g: Graph, ix: Index, n: NodeId, rec: NodeRec, rank: map<NodeId, nat>)
    requires Base(g, ix, rank) && n !in g && rec.refs == []
    requires n.ns == SERVER_NAMESPACE ==> Spent(ix, n.num)
    ensures Base(g[n := rec], ix, rank) && Apart(g[n := rec], n, rank) && Grows(g, g[n := rec], n)
  {
    AddNodeKeeps(g, n, rec);
    GrowthKeepsRanks(g, g[n := rec], n, rank);
  }

  lemma CopyStep(g: Graph, ix: Index, c: NodeId, n: NodeId, rank: map<NodeId, nat>)
    requires Base(g, ix, rank) && c in g && n !in g
    requires n.ns == SERVER_NAMESPACE ==> Spent(ix, n.num)
    ensures var g1 := CopyNode(g, c, n);
      Base(g1, ix, rank) && Apart(g1, n, rank) && Grows(g, g1, n)
  {
    NewNodeStep(g, ix, n, g[c].(refs := []), rank);
  }

  lemma AdmittedMayClone(heir: NodeClass, child: NodeRec)
    requires ShouldInherit(heir, child)
    ensures MayClone(child)
  {
    var r :| r in child.refs && r.refType == HAS_MODELLING_RULE && Admits(heir, r.target);
    assert IsRule(r.target);
  }

  /** After the child `n` has been cloned, linking it below `t` completes the iteration. */
  lemma ChildStep(g: Graph, ix: Index, g1: Graph, ix1: Index, t: NodeId, n: NodeId, refType: NodeId, rank: map<NodeId, nat>)
    requires Base(g, ix, rank) && Apart(g, t, rank) && n !in g && IsAggregate(refType)
    requires Base(g1, ix1, rank) && Apart(g1, n, rank) && Grows(g, g1, n) && Later(Issue(ix).1, ix1)
    ensures var g2 := AddBi(g1, t, n, refType);
      Base(g2, ix1, rank) && Apart(g2, t, rank) && Grows(g, g2, t) && Later(ix, ix1)
  {
    IssueIsFresh(ix);
    AddBiKeeps(g1, t, n, refType);
    var g2 := AddBi(g1, t, n, refType);
    assert Kept(g[t], g1[t]);
    forall k, j | k in g && k != t && |g[k].refs| <= j < |g2[k].refs|
      ensures Quiet(g, g2[k].refs[j], t)
    {
      assert g2[k] == g1[k] && Quiet(g, g1[k].refs[j], n);
    }
    assert Grows(g, g2, t);
    GrowthKeepsRanks(g, g2, t, rank);
  }
}
