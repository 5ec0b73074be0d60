/** When cloning terminates: descending into cloneable children must not lead back to the start.
    This is the same as having a rank, and cloning itself preserves it. */
module Acyclicity {
  import opened OpcTypes
  import opened Graphs
  import opened Indexing
  import opened Cloning

  /** The descents into cloneable children, as pairs of nodes. */
  ghost function Edges(g: Graph): set<(NodeId, NodeId)> {
    set a, b | a in g && b in g && ChildOf(g, a, b) :: (a, b)
  }

  ghost predicate ChildOf(g: Graph, a: NodeId, b: NodeId)
    requires a in g && b in g
  {
    MayClone(g[b]) && exists r :: r in g[a].refs && Descends(r) && r.target == b
  }

  ghost predicate Walk(edges: set<(NodeId, NodeId)>, p: seq<NodeId>) {
    forall i :: 0 <= i < |p| - 1 ==> (p[i], p[i + 1]) in edges
  }

  /** A walk that returns to its start. */
  ghost predicate Cycle(edges: set<(NodeId, NodeId)>, p: seq<NodeId>) {
    |p| >= 2 && Walk(edges, p) && p[0] == p[|p| - 1]
  }

  ghost predicate Lowers(edges: set<(NodeId, NodeId)>, rank: map<NodeId, nat>) {
    forall e :: e in edges ==> e.0 in rank && e.1 in rank && rank[e.1] < rank[e.0]
  }

  lemma {:induction false} WalksLowerRank(edges: set<(NodeId, NodeId)>, rank: map<NodeId, nat>, p: seq<NodeId>)
    requires Lowers(edges, rank) && Walk(edges, p) && |p| >= 2
    ensures p[0] in rank && p[|p| - 1] in rank && rank[p[|p| - 1]] < rank[p[0]]
    decreases |p|
  {
    assert (p[0], p[1]) in edges;
    if |p| > 2 {
      var q := p[1..];
      forall i | 0 <= i < |q| - 1
        ensures (q[i], q[i + 1]) in edges
      {
        assert (p[i + 1], p[i + 2]) in edges;
      }
      WalksLowerRank(edges, rank, q);
    }
  }

  // ----- A rank from the absence of cycles -----

  lemma {:induction false} SubsetSize<T>(a: set<T>, b: set<T>)
    requires a <= b
    ensures |a| <= |b|
  {
    if a != {} {
      var x :| x in a;
      SubsetSize(a - {x}, b - {x});
    }
  }

  lemma {:induction false} DistinctSize(p: seq<NodeId>)
    requires Distinct(p)
    ensures |set x | x in p| == |p|
  {
    if p != [] {
      var q, x := p[..|p| - 1], p[|p| - 1];
      DistinctSize(q);
      assert p == q + [x];
      assert (set y | y in p) == (set y | y in q) + {x};
      assert x !in q;
    }
  }

  ghost predicate IsSink(edges: set<(NodeId, NodeId)>, nodes: set<NodeId>, x: NodeId) {
    x in nodes && forall b :: b in nodes ==> (x, b) !in edges
  }

  lemma {:induction false} LongWalk(edges: set<(NodeId, NodeId)>, nodes: set<NodeId>, n: nat) returns (p: seq<NodeId>)
    requires nodes != {} && forall a :: !IsSink(edges, nodes, a)
    ensures |p| == n + 1 && Walk(edges, p) && forall x :: x in p ==> x in nodes
  {
    if n == 0 {
      var a :| a in nodes;
      p := [a];
    } else {
      var q := LongWalk(edges, nodes, n - 1);
      var a := q[n - 1];
      assert !IsSink(edges, nodes, a);
      var b :| b in nodes && (a, b) in edges;
      p := q + [b];
    }
  }

  /** A finite set of nodes without a cycle has a node that descends to no other. */
  lemma SinkExists(edges: set<(NodeId, NodeId)>, nodes: set<NodeId>) returns (x: NodeId)
    requires nodes != {} && forall p :: !Cycle(edges, p)
    ensures IsSink(edges, nodes, x)
  {
    if forall a :: !IsSink(edges, nodes, a) {
      var p := LongWalk(edges, nodes, |nodes|);
      if Distinct(p) {
        DistinctSize(p);
        SubsetSize((set y | y in p), nodes);
        assert false;
      }
      var i, j :| 0 <= i < j < |p| && p[i] == p[j];
      var c := p[i..j + 1];
      forall k | 0 <= k < |c| - 1
        ensures (c[k], c[k + 1]) in edges
      {
        assert (p[i + k], p[i + k + 1]) in edges;
      }
      assert Cycle(edges, c);
    }
    x :| IsSink(edges, nodes, x);
  }

  lemma {:induction false} RankPart(edges: set<(NodeId, NodeId)>, nodes: set<NodeId>) returns (rank: map<NodeId, nat>)
    requires forall p :: !Cycle(edges, p)
    ensures rank.Keys == nodes
    ensures forall a, b :: a in nodes && b in nodes && (a, b) in edges ==> rank[b] < rank[a]
    decreases |nodes|
  {
    if nodes == {} {
      rank := map[];
    } else {
      var x := SinkExists(edges, nodes);
      var below := RankPart(edges, nodes - {x});
      rank := map k | k in nodes :: if k == x then 0 else below[k] + 1;
    }
  }

  ghost predicate FullyRanked(g: Graph, rank: map<NodeId, nat>) {
    Ranked(g, rank) && rank.Keys == g.Keys
  }

  lemma RankedMeansLowers(g: Graph, rank: map<NodeId, nat>)
    requires rank.Keys == g.Keys
    ensures FullyRanked(g, rank) <==> Lowers(Edges(g), rank)
  {
    if FullyRanked(g, rank) {
      forall e | e in Edges(g)
        ensures e.0 in rank && e.1 in rank && rank[e.1] < rank[e.0]
      {
        var r :| r in g[e.0].refs && Descends(r) && r.target == e.1;
      }
    }
    if Lowers(Edges(g), rank) {
      forall k, r | k in rank && r in g[k].refs && Descends(r) && r.target in g && MayClone(g[r.target])
        ensures r.target in rank && rank[r.target] < rank[k]
      {
        assert (k, r.target) in Edges(g);
      }
    }
  }

  /** A rank for the whole graph exists exactly when no descent into cloneable children returns to
      its start: the condition under which cloning is known to end. */
  lemma RankExistsIffNoCycle(g: Graph)
    ensures (exists rank :: FullyRanked(g, rank)) <==> (forall p :: !Cycle(Edges(g), p))
  {
    if exists rank :: FullyRanked(g, rank) {
      var rank :| FullyRanked(g, rank);
      RankedMeansLowers(g, rank);
      forall p
        ensures !Cycle(Edges(g), p)
      {
        if Cycle(Edges(g), p) {
          WalksLowerRank(Edges(g), rank, p);
        }
      }
    }
    if forall p :: !Cycle(Edges(g), p) {
      var rank := RankPart(Edges(g), g.Keys);
      RankedMeansLowers(g, rank);
    }
  }

  // ----- When a new reference or a new rule closes a cycle -----

  ghost predicate NoCycle(edges: set<(NodeId, NodeId)>) {
    forall p :: !Cycle(edges, p)
  }

  ghost predicate Leads(edges: set<(NodeId, NodeId)>, p: seq<NodeId>, a: NodeId, b: NodeId) {
    |p| >= 1 && Walk(edges, p) && p[0] == a && p[|p| - 1] == b
  }

  /** A walk leads from `a` to `b`; every node reaches itself. */
  ghost predicate Reaches(edges: set<(NodeId, NodeId)>, a: NodeId, b: NodeId) {
    exists p :: Leads(edges, p, a, b)
  }

  /** The same edges and one to `id` from each of `parents`. */
  ghost function Joined(edges: set<(NodeId, NodeId)>, parents: set<NodeId>, id: NodeId): set<(NodeId, NodeId)> {
    edges + (set x | x in parents :: (x, id))
  }

  ghost predicate Within(edges: set<(NodeId, NodeId)>, nodes: set<NodeId>) {
    forall e :: e in edges ==> e.0 in nodes && e.1 in nodes
  }

  lemma ReachesOn(edges: set<(NodeId, NodeId)>, a: NodeId, b: NodeId, c: NodeId)
    ensures Reaches(edges, a, a)
    ensures (a, b) in edges && Reaches(edges, b, c) ==> Reaches(edges, a, c)
  {
    assert Leads(edges, [a], a, a);
    if (a, b) in edges && Reaches(edges, b, c) {
      var p :| Leads(edges, p, b, c);
      var q := [a] + p;
      forall i | 0 <= i < |q| - 1
        ensures (q[i], q[i + 1]) in edges
      {
        assert i > 0 ==> (p[i - 1], p[i]) in edges;
      }
      assert Leads(edges, q, a, c);
    }
  }

  lemma LoweredHasNoCycle(edges: set<(NodeId, NodeId)>, rank: map<NodeId, nat>)
    requires Lowers(edges, rank)
    ensures NoCycle(edges)
  {
    forall p
      ensures !Cycle(edges, p)
    {
      if Cycle(edges, p) {
        WalksLowerRank(edges, rank, p);
      }
    }
  }

  /** New edges into `id` close no cycle exactly when `id` reaches none of their starts. */
  lemma JoinedIff(edges: set<(NodeId, NodeId)>, nodes: set<NodeId>, parents: set<NodeId>, id: NodeId)
    requires NoCycle(edges) && Within(edges, nodes) && parents <= nodes && id in nodes
    ensures NoCycle(Joined(edges, parents, id)) <==> forall x :: x in parents ==> !Reaches(edges, id, x)
  {
    if x :| x in parents && Reaches(edges, id, x) {
      var p :| Leads(edges, p, id, x);
      ClosesCycle(edges, parents, id, x, p);
    } else {
      var rank := RankPart(edges, nodes);
      var rank1 := RaisedRank(edges, nodes, parents, id, rank);
      LoweredHasNoCycle(Joined(edges, parents, id), rank1);
    }
  }

  lemma ClosesCycle(edges: set<(NodeId, NodeId)>, parents: set<NodeId>, id: NodeId, x: NodeId, p: seq<NodeId>)
    requires x in parents && Leads(edges, p, id, x)
    ensures Cycle(Joined(edges, parents, id), [x] + p)
  {
    var q := [x] + p;
    forall i | 0 <= i < |q| - 1
      ensures (q[i], q[i + 1]) in Joined(edges, parents, id)
    {
      assert i > 0 ==> (p[i - 1], p[i]) in edges;
    }
  }

  /** Whatever reaches one of the starts ranks above `id`. */
  lemma RaisedRank(edges: set<(NodeId, NodeId)>, nodes: set<NodeId>, parents: set<NodeId>, id: NodeId, rank: map<NodeId, nat>)
    returns (rank1: map<NodeId, nat>)
    requires Within(edges, nodes) && parents <= nodes && id in nodes && Lowers(edges, rank) && rank.Keys == nodes
    requires forall x :: x in parents ==> !Reaches(edges, id, x)
    ensures Lowers(Joined(edges, parents, id), rank1)
  {
    rank1 := map k | k in nodes :: rank[k] + (if exists x :: x in parents && Reaches(edges, k, x) then rank[id] + 1 else 0);
    forall e | e in Joined(edges, parents, id)
      ensures e.0 in rank1 && e.1 in rank1 && rank1[e.1] < rank1[e.0]
    {
      if e in edges {
        forall x | x in parents
          ensures Reaches(edges, e.1, x) ==> Reaches(edges, e.0, x)
        {
          ReachesOn(edges, e.0, e.1, x);
        }
      } else {
        ReachesOn(edges, e.0, e.0, e.0);
      }
    }
  }

  lemma EdgesWithin(g: Graph)
    ensures Within(Edges(g), g.Keys)
  {
  }

  /** The nodes that refer to `id` as a child. */
  ghost function Parents(g: Graph, id: NodeId): set<NodeId> {
    set x | x in g && exists r :: r in g[x].refs && Descends(r) && r.target == id
  }

  /** Linking a child keeps descents free of cycles exactly when the child cannot be cloned or does not
      lead back to its new parent. */
  lemma LinkIsAcyclicIff(g: Graph, a: NodeId, b: NodeId, refType: NodeId)
    requires NoCycle(Edges(g)) && a in g && b in g && IsAggregate(refType)
    ensures NoCycle(Edges(AddBi(g, a, b, refType))) <==> !MayClone(g[b]) || !Reaches(Edges(g), b, a)
  {
    LinkEdges(g, a, b, refType);
    EdgesWithin(g);
    JoinedIff(Edges(g), g.Keys, {a}, b);
  }

  lemma LinkEdges(g: Graph, a: NodeId, b: NodeId, refType: NodeId)
    requires a in g && b in g && IsAggregate(refType)
    ensures Edges(AddBi(g, a, b, refType)) == if MayClone(g[b]) then Joined(Edges(g), {a}, b) else Edges(g)
  {
    var g1 := AddBi(g, a, b, refType);
    forall k | k in g
      ensures MayClone(g1[k]) <==> MayClone(g[k])
      ensures forall r: Ref :: r in g[k].refs ==> r in g1[k].refs
      ensures forall r: Ref :: r in g1[k].refs && Descends(r) ==> r in g[k].refs || (k == a && r == Ref(refType, false, b))
    {
      AddBiRefs(g, a, b, refType, k);
      SameRules(g[k], g1[k]);
    }
    AddBiRefs(g, a, b, refType, a);
    LinkedEdges(g, g1, a, b, refType);
  }

  lemma SameRules(a: NodeRec, b: NodeRec)
    requires forall q: Ref :: q.refType == HAS_MODELLING_RULE ==> (q in a.refs <==> q in b.refs)
    ensures MayClone(a) <==> MayClone(b)
  {
    MayCloneNeedsRule(a, b);
    MayCloneNeedsRule(b, a);
  }

  lemma LinkedEdges(g: Graph, g1: Graph, a: NodeId, b: NodeId, refType: NodeId)
    requires a in g && b in g && g1.Keys == g.Keys && IsAggregate(refType)
    requires forall k :: k in g ==> (MayClone(g1[k]) <==> MayClone(g[k]))
    requires Ref(refType, false, b) in g1[a].refs
    requires forall k, r: Ref :: k in g && r in g[k].refs ==> r in g1[k].refs
    requires forall k, r: Ref :: k in g && r in g1[k].refs && Descends(r) ==> r in g[k].refs || (k == a && r == Ref(refType, false, b))
    ensures Edges(g1) == if MayClone(g[b]) then Joined(Edges(g), {a}, b) else Edges(g)
  {
    forall x, y | x in g && y in g
      ensures ChildOf(g1, x, y) <==> ChildOf(g, x, y) || (x == a && y == b && MayClone(g[b]))
    {
      if q :| q in g[x].refs && Descends(q) && q.target == y {
        assert q in g1[x].refs;
      }
    }
  }

  /** A new edge out of `a` opens no way to `a` itself. */
  lemma ReachesStartIff(edges: set<(NodeId, NodeId)>, a: NodeId, b: NodeId, x: NodeId)
    ensures Reaches(Joined(edges, {a}, b), x, a) <==> Reaches(edges, x, a)
  {
    if Reaches(edges, x, a) {
      var p :| Leads(edges, p, x, a);
      assert Leads(Joined(edges, {a}, b), p, x, a);
    }
    if Reaches(Joined(edges, {a}, b), x, a) {
      var p :| Leads(Joined(edges, {a}, b), p, x, a);
      WalkToStart(edges, a, b, p);
    }
  }

  lemma {:induction false} WalkToStart(edges: set<(NodeId, NodeId)>, a: NodeId, b: NodeId, p: seq<NodeId>)
    requires |p| >= 1 && Walk(Joined(edges, {a}, b), p) && p[|p| - 1] == a
    ensures Reaches(edges, p[0], a)
    decreases |p|
  {
    if p[0] == a {
      ReachesOn(edges, a, a, a);
    } else {
      var q := p[1..];
      assert forall i :: 0 <= i < |q| - 1 ==> (q[i], q[i + 1]) == (p[i + 1], p[i + 2]);
      WalkToStart(edges, a, b, q);
      assert (p[0], p[1]) in Joined(edges, {a}, b);
      ReachesOn(edges, p[0], p[1], a);
    }
  }

  /** The build links a child to the target that leads back to it. */
  ghost predicate BuildsCycle(g: Graph, n: NodeId, kind: NodeKind, target: NodeId, refType: NodeId)
    requires n in g
  {
    Lacks(g, n, kind, target, refType) && MayClone(g[n]) && Reaches(Edges(g), n, target)
  }

  /** Building references to children keeps descents free of cycles exactly when no node that gets
      linked can be cloned and leads back to the target. */
  lemma {:induction false} BuildIsAcyclicIff(g: Graph, order: seq<NodeId>, kind: NodeKind, target: NodeId, refType: NodeId)
    requires NoCycle(Edges(g)) && target in g && IsAggregate(refType) && forall n :: n in order ==> n in g
    ensures NoCycle(Edges(BuildRefs(g, order, kind, target, refType)))
      <==> forall n :: n in order ==> !BuildsCycle(g, n, kind, target, refType)
    decreases |order|
  {
    if order != [] {
      var n, rest := order[|order| - 1], order[..|order| - 1];
      assert order == rest + [n];
      var g1 := BuildOne(g, n, kind, target, refType);
      if Lacks(g, n, kind, target, refType) {
        LinkIsAcyclicIff(g, target, n, refType);
        if BuildsCycle(g, n, kind, target, refType) {
          BuildKeepsCycle(g1, rest, kind, target, refType);
        } else {
          forall m | m in rest
            ensures BuildsCycle(g1, m, kind, target, refType) <==> BuildsCycle(g, m, kind, target, refType)
          {
            SameBuildsCycle(g, n, m, kind, target, refType);
          }
          BuildIsAcyclicIff(g1, rest, kind, target, refType);
        }
      } else {
        BuildIsAcyclicIff(g, rest, kind, target, refType);
      }
    }
  }

  lemma SameBuildsCycle(g: Graph, n: NodeId, m: NodeId, kind: NodeKind, target: NodeId, refType: NodeId)
    requires target in g && n in g && m in g && IsAggregate(refType)
    requires Lacks(g, n, kind, target, refType) && !BuildsCycle(g, n, kind, target, refType)
    ensures BuildsCycle(AddBi(g, target, n, refType), m, kind, target, refType) <==> BuildsCycle(g, m, kind, target, refType)
  {
    var g1 := AddBi(g, target, n, refType);
    if m == n {
      AddBiRefs(g, target, n, refType, n);
      assert Ref(refType, true, target) in g1[n].refs;
    } else if m != target {
      AddBiRefs(g, target, n, refType, m);
      SameRules(g[m], g1[m]);
      LinkEdges(g, target, n, refType);
      ReachesStartIff(Edges(g), target, n, m);
    }
  }

  lemma {:induction false} BuildKeepsCycle(g: Graph, order: seq<NodeId>, kind: NodeKind, target: NodeId, refType: NodeId)
    requires !NoCycle(Edges(g)) && target in g && IsAggregate(refType) && forall n :: n in order ==> n in g
    ensures !NoCycle(Edges(BuildRefs(g, order, kind, target, refType)))
    decreases |order|
  {
    if order != [] {
      var n, rest := order[|order| - 1], order[..|order| - 1];
      var g1 := BuildOne(g, n, kind, target, refType);
      if g1 != g {
        LinkEdges(g, target, n, refType);
        var p :| Cycle(Edges(g), p);
        assert Cycle(Edges(g1), p);
      }
      BuildKeepsCycle(g1, rest, kind, target, refType);
    }
  }

  /** Giving a node a modelling rule keeps descents free of cycles exactly when it could be cloned
      before, the rule lets nothing be cloned, or the node does not lead back to a parent. */
  lemma RuleIsAcyclicIff(g: Graph, id: NodeId, r: Ref)
    requires NoCycle(Edges(g)) && id in g && r.refType == HAS_MODELLING_RULE
    ensures NoCycle(Edges(AddUni(g, id, r))) <==>
      MayClone(g[id]) || !IsRule(r.target) || forall x :: x in Parents(g, id) ==> !Reaches(Edges(g), id, x)
  {
    RuledEdges(g, id, r);
    EdgesWithin(g);
    JoinedIff(Edges(g), g.Keys, Parents(g, id), id);
  }

  lemma RuledEdges(g: Graph, id: NodeId, r: Ref)
    requires id in g && r.refType == HAS_MODELLING_RULE
    ensures Edges(AddUni(g, id, r)) ==
      if !MayClone(g[id]) && IsRule(r.target) then Joined(Edges(g), Parents(g, id), id) else Edges(g)
  {
    var g1 := AddUni(g, id, r);
    assert r in g1[id].refs;
    forall k | k in g
      ensures MayClone(g1[k]) <==> MayClone(g[k]) || (k == id && IsRule(r.target))
    {
      if k == id && MayClone(g[k]) {
        var q :| q in g[k].refs && q.refType == HAS_MODELLING_RULE && IsRule(q.target);
        assert q in g1[k].refs;
      }
    }
    forall x, y | x in g && y in g
      ensures ChildOf(g1, x, y) <==> ChildOf(g, x, y) || (y == id && x in Parents(g, id) && IsRule(r.target))
    {
      ChildrenKept(g, g1, x, y, id, r);
    }
  }

  lemma ChildrenKept(g: Graph, g1: Graph, x: NodeId, y: NodeId, id: NodeId, r: Ref)
    requires id in g && x in g && y in g && r.refType == HAS_MODELLING_RULE && g1 == AddUni(g, id, r)
    ensures (exists q :: q in g1[x].refs && Descends(q) && q.target == y) <==> (exists q :: q in g[x].refs && Descends(q) && q.target == y)
  {
    if q :| q in g[x].refs && Descends(q) && q.target == y {
      assert q in g1[x].refs;
    }
  }

  // ----- Cloning preserves it -----

  /** New children are new nodes: a descent into an older node is an old one. */
  ghost predicate FreshDescents(g: Graph, g1: Graph) {
    forall k, r :: k in g1 && r in g1[k].refs && Descends(r) && r.target in g ==> k in g && r in g[k].refs
  }

  lemma PairDescents(g: Graph, gc: Graph, a: NodeId, b: NodeId, refType: NodeId)
    requires a in gc && b in gc && FreshDescents(g, gc) && (b in g ==> !IsAggregate(refType))
    ensures FreshDescents(g, AddBi(gc, a, b, refType))
  {
    var g1 := AddBi(gc, a, b, refType);
    forall k | k in g1
      ensures forall r :: r in g1[k].refs && Descends(r) && r.target in g ==> r in gc[k].refs
    {
      AddBiRefs(gc, a, b, refType, k);
    }
  }

  lemma {:induction false} InheritOneDescents(g: Graph, ix: Index, s: NodeId, t: NodeId, r: Ref, rank: map<NodeId, nat>)
    requires Base(g, ix, rank) && Apart(g, t, rank) && s in rank && r in g[s].refs
    ensures FreshDescents(g, InheritOne(g, ix, s, t, r, rank).0)
    decreases rank[s], 0
  {
    if Descends(r) && ShouldInherit(g[t].nodeClass, g[r.target]) && !NameTaken(g, t, g[r.target].browse) {
      IssueIsFresh(ix);
      AdmittedMayClone(g[t].nodeClass, g[r.target]);
      var n := NodeId(SERVER_NAMESPACE, Issue(ix).0);
      CloneDescents(g, Issue(ix).1, r.target, n, rank);
      PairDescents(g, Clone(g, Issue(ix).1, r.target, n, rank).0, t, n, r.refType);
    } else {
      PlainDescents(g, InheritOne(g, ix, s, t, r, rank).0, t, r);
    }
  }

  lemma PlainDescents(g: Graph, g1: Graph, t: NodeId, r: Ref)
    requires t in g && (r.refType != HAS_MODELLING_RULE ==> r.target in g)
    requires || g1 == g
             || (r.refType == HAS_MODELLING_RULE && g1 == AddUni(g, t, r))
             || (!IsAggregate(r.refType) && r.refType != HAS_MODELLING_RULE
                 && (g1 == AddBi(g, r.target, t, r.refType) || g1 == AddBi(g, t, r.target, r.refType)))
    ensures FreshDescents(g, g1)
  {
    if !IsAggregate(r.refType) && r.refType != HAS_MODELLING_RULE {
      PairDescents(g, g, r.target, t, r.refType);
      PairDescents(g, g, t, r.target, r.refType);
    }
  }

  lemma {:induction false} InheritDescents(g: Graph, ix: Index, s: NodeId, t: NodeId, i: nat, rank: map<NodeId, nat>)
    requires Base(g, ix, rank) && Apart(g, t, rank) && s in rank && i <= |g[s].refs|
    ensures FreshDescents(g, Inherit(g, ix, s, t, i, rank).0)
    decreases rank[s], 1, DescentsLeft(g[s].refs, i), LoopsLeft(g[s].refs, s, i), |g[s].refs| - i
  {
    if i < |g[s].refs| {
      var (g1, ix1) := InheritOne(g, ix, s, t, g[s].refs[i], rank);
      InheritOneDescents(g, ix, s, t, g[s].refs[i], rank);
      PassStep(g, g1, s, t, i);
      InheritDescents(g1, ix1, s, t, i + 1, rank);
      DescentsOn(g, g1, Inherit(g1, ix1, s, t, i + 1, rank).0);
    }
  }

  lemma DescentsOn(g: Graph, g1: Graph, g2: Graph)
    requires FreshDescents(g, g1) && FreshDescents(g1, g2) && g.Keys <= g1.Keys
    ensures FreshDescents(g, g2)
  {
  }

  lemma {:induction false} CloneDescents(g: Graph, ix: Index, c: NodeId, n: NodeId, rank: map<NodeId, nat>)
    requires Base(g, ix, rank) && c in rank && n !in g
    requires n.ns == SERVER_NAMESPACE ==> Spent(ix, n.num)
    ensures FreshDescents(g, Clone(g, ix, c, n, rank).0)
    decreases rank[c], 2
  {
    CopyStep(g, ix, c, n, rank);
    InheritDescents(CopyNode(g, c, n), ix, c, n, 0, rank);
  }

  ghost predicate Agrees(a: map<NodeId, nat>, b: map<NodeId, nat>) {
    forall k :: k in a ==> k in b && b[k] == a[k]
  }

  ghost predicate NothingAbove(g: Graph, t: NodeId) {
    forall k, r :: k in g && r in g[k].refs && Descends(r) ==> r.target != t
  }

  /** `all` ranks every node and extends `part`; nothing descends to the heir, which ranks at
      least as high as its source. */
  ghost predicate Extended(g: Graph, part: map<NodeId, nat>, all: map<NodeId, nat>, s: NodeId, t: NodeId) {
    && FullyRanked(g, all) && s in part && t in all && all[t] >= part[s]
    && Agrees(part, all) && NothingAbove(g, t)
  }

  lemma MayCloneNeedsRule(a: NodeRec, b: NodeRec)
    requires forall q :: q in b.refs && q.refType == HAS_MODELLING_RULE ==> q in a.refs
    ensures MayClone(b) ==> MayClone(a)
  {
    if MayClone(b) {
      var q :| q in b.refs && q.refType == HAS_MODELLING_RULE && IsRule(q.target);
      assert q in a.refs;
    }
  }

  lemma RuleKeepsRanks(g: Graph, t: NodeId, r: Ref, all: map<NodeId, nat>)
    requires FullyRanked(g, all) && NothingAbove(g, t) && t in g && r.refType == HAS_MODELLING_RULE
    ensures FullyRanked(AddUni(g, t, r), all) && NothingAbove(AddUni(g, t, r), t)
  {
  }

  lemma PairKeepsRanks(g: Graph, a: NodeId, b: NodeId, refType: NodeId, t: NodeId, all: map<NodeId, nat>)
    requires FullyRanked(g, all) && NothingAbove(g, t) && a in g && b in g
    requires refType != HAS_MODELLING_RULE
    requires IsAggregate(refType) ==> b != t && all[b] < all[a]
    ensures FullyRanked(AddBi(g, a, b, refType), all) && NothingAbove(AddBi(g, a, b, refType), t)
  {
    var g1 := AddBi(g, a, b, refType);
    forall k | k in g
      ensures MayClone(g1[k]) ==> MayClone(g[k])
      ensures forall r :: r in g1[k].refs && Descends(r) ==> r in g[k].refs || (k == a && r.target == b && IsAggregate(refType))
    {
      AddBiRefs(g, a, b, refType, k);
      MayCloneNeedsRule(g[k], g1[k]);
    }
  }

  lemma ChildKeepsRanks(g: Graph, gc: Graph, s: NodeId, t: NodeId, c: NodeId, n: NodeId, refType: NodeId,
                        part: map<NodeId, nat>, all: map<NodeId, nat>, all1: map<NodeId, nat>)
    requires Extended(g, part, all, s, t) && c in part && part[c] < part[s] && n !in g && IsAggregate(refType)
    requires FullyRanked(gc, all1) && Agrees(all, all1) && n in all1 && all1[n] == part[c] && FreshDescents(g, gc)
    ensures t in gc && n in gc && Extended(AddBi(gc, t, n, refType), part, all1, s, t)
  {
    PairKeepsRanks(gc, t, n, refType, t, all1);
  }

  lemma PlainKeepsRanks(g: Graph, g1: Graph, s: NodeId, t: NodeId, r: Ref, part: map<NodeId, nat>, all: map<NodeId, nat>)
    requires Extended(g, part, all, s, t) && t in g && (r.refType != HAS_MODELLING_RULE ==> r.target in g)
    requires || g1 == g
             || (r.refType == HAS_MODELLING_RULE && g1 == AddUni(g, t, r))
             || (!IsAggregate(r.refType) && r.refType != HAS_MODELLING_RULE
                 && (g1 == AddBi(g, r.target, t, r.refType) || g1 == AddBi(g, t, r.target, r.refType)))
    ensures Extended(g1, part, all, s, t)
  {
    if r.refType == HAS_MODELLING_RULE {
      RuleKeepsRanks(g, t, r, all);
    } else if !IsAggregate(r.refType) {
      PairKeepsRanks(g, r.target, t, r.refType, t, all);
      PairKeepsRanks(g, t, r.target, r.refType, t, all);
    }
  }

  lemma {:induction false} InheritOneKeepsRanks(g: Graph, ix: Index, s: NodeId, t: NodeId, r: Ref, part: map<NodeId, nat>, all: map<NodeId, nat>)
    returns (all1: map<NodeId, nat>)
    requires Base(g, ix, part) && Apart(g, t, part) && s in part && r in g[s].refs && Extended(g, part, all, s, t)
    ensures Extended(InheritOne(g, ix, s, t, r, part).0, part, all1, s, t) && Agrees(all, all1)
    decreases part[s], 0
  {
    if Descends(r) && ShouldInherit(g[t].nodeClass, g[r.target]) && !NameTaken(g, t, g[r.target].browse) {
      all1 := InheritChildKeepsRanks(g, ix, s, t, r, part, all);
    } else {
      all1 := all;
      PlainKeepsRanks(g, InheritOne(g, ix, s, t, r, part).0, s, t, r, part, all);
    }
  }

  lemma {:induction false} InheritChildKeepsRanks(g: Graph, ix: Index, s: NodeId, t: NodeId, r: Ref, part: map<NodeId, nat>, all: map<NodeId, nat>)
    returns (all1: map<NodeId, nat>)
    requires Base(g, ix, part) && Apart(g, t, part) && s in part && r in g[s].refs && Extended(g, part, all, s, t)
    requires Descends(r) && ShouldInherit(g[t].nodeClass, g[r.target]) && !NameTaken(g, t, g[r.target].browse)
    ensures Extended(InheritOne(g, ix, s, t, r, part).0, part, all1, s, t) && Agrees(all, all1)
    decreases part[s], 0, 0
  {
    IssueIsFresh(ix);
    AdmittedMayClone(g[t].nodeClass, g[r.target]);
    var n := NodeId(SERVER_NAMESPACE, Issue(ix).0);
    all1 := CloneKeepsRanks(g, Issue(ix).1, r.target, n, part, all);
    CloneDescents(g, Issue(ix).1, r.target, n, part);
    ChildKeepsRanks(g, Clone(g, Issue(ix).1, r.target, n, part).0, s, t, r.target, n, r.refType, part, all, all1);
  }

  lemma {:induction false} InheritKeepsRanks(g: Graph, ix: Index, s: NodeId, t: NodeId, i: nat, part: map<NodeId, nat>, all: map<NodeId, nat>)
    returns (all1: map<NodeId, nat>)
    requires Base(g, ix, part) && Apart(g, t, part) && s in part && i <= |g[s].refs| && Extended(g, part, all, s, t)
    ensures Extended(Inherit(g, ix, s, t, i, part).0, part, all1, s, t) && Agrees(all, all1)
    decreases part[s], 1, DescentsLeft(g[s].refs, i), LoopsLeft(g[s].refs, s, i), |g[s].refs| - i
  {
    if i == |g[s].refs| {
      all1 := all;
    } else {
      var (g1, ix1) := InheritOne(g, ix, s, t, g[s].refs[i], part);
      var mid := InheritOneKeepsRanks(g, ix, s, t, g[s].refs[i], part, all);
      PassStep(g, g1, s, t, i);
      all1 := InheritKeepsRanks(g1, ix1, s, t, i + 1, part, mid);
    }
  }

  lemma CopyIsRanked(g: Graph, c: NodeId, n: NodeId, part: map<NodeId, nat>, all: map<NodeId, nat>)
    requires NonDangling(g) && FullyRanked(g, all) && Agrees(part, all) && c in part && c in g && n !in g
    ensures Extended(CopyNode(g, c, n), part, all[n := part[c]], c, n)
  {
  }

  /** Cloning adds no cycle: the clone ranks as its original. */
  lemma {:induction false} CloneKeepsRanks(g: Graph, ix: Index, c: NodeId, n: NodeId, part: map<NodeId, nat>, all: map<NodeId, nat>)
    returns (all1: map<NodeId, nat>)
    requires Base(g, ix, part) && c in part && n !in g && FullyRanked(g, all) && Agrees(part, all)
    requires n.ns == SERVER_NAMESPACE ==> Spent(ix, n.num)
    ensures FullyRanked(Clone(g, ix, c, n, part).0, all1) && Agrees(all, all1) && n in all1 && all1[n] == part[c]
    decreases part[c], 2
  {
    CopyStep(g, ix, c, n, part);
    CopyIsRanked(g, c, n, part, all);
    var all0 := all[n := part[c]];
    all1 := InheritKeepsRanks(CopyNode(g, c, n), ix, c, n, 0, part, all0);
    assert n in all0;
  }
}
