/** TranslateBrowsePathsToNodeIds (Access.c): following a relative path from a node along every
    reference that fits. */
module Translating {
  import opened OpcTypes
  import opened Graphs
  import opened TypeHierarchy
  import opened AddressSpaces
  import opened Continuing
  import opened Browsing

  /** One element of a relative path; the name may be null in the last element only. */
  datatype Element = Element(refType: NodeId, inverse: bool, subtypes: bool, name: QName)

  ghost predicate WellFormed(path: seq<Element>) {
    forall k :: 0 <= k < |path| - 1 ==> path[k].name.name.Some?
  }

  /** Every reference leads, through its alias, to a node with a browse name. */
  ghost predicate Followable(g: Graph, alias: map<NodeId, NodeId>) {
    && (forall k :: k in g ==> g[k].browse.name.Some?)
    && forall k, r :: k in g && r in g[k].refs ==> Resolve(alias, r.target) in g
  }

  /** The reference fits the element `path[k]`. */
  ghost predicate Fits(g: Graph, alias: map<NodeId, NodeId>, path: seq<Element>, k: nat, r: Ref)
    requires k < |path|
  {
    var e, target := path[k], Resolve(alias, r.target);
    && e.inverse == r.inverse
    && TypeAdmits(g, e.refType, e.subtypes, r.refType)
    && ((e.name.name.None? && k == |path| - 1) || (target in g && g[target].browse == e.name))
  }

  // ----- The recursion -----

  /** What the loop appends from place `i` of the references of `node` on. */
  ghost function Collect(g: Graph, alias: map<NodeId, NodeId>, path: seq<Element>, k: nat, node: NodeId, i: nat): seq<NodeId>
    decreases |path| - k, if node in g then |g[node].refs| - i else 0
  {
    if k >= |path| || node !in g || i >= |g[node].refs| then []
    else CollectOne(g, alias, path, k, node, i) + Collect(g, alias, path, k, node, i + 1)
  }

  /** What one reference contributes: its target at the end of the path, or the recursion. */
  ghost function CollectOne(g: Graph, alias: map<NodeId, NodeId>, path: seq<Element>, k: nat, node: NodeId, i: nat): seq<NodeId>
    requires k < |path| && node in g && i < |g[node].refs|
    decreases |path| - k, |g[node].refs| - i, 0
  {
    var r := g[node].refs[i];
    if !Fits(g, alias, path, k, r) then []
    else if k == |path| - 1 then [r.target]
    else Collect(g, alias, path, k + 1, Resolve(alias, r.target), 0)
  }

  // ----- The meaning of a relative path -----

  /** A walk picks a fitting reference of the current node for each element of the path. */
  ghost predicate IsWalk(g: Graph, alias: map<NodeId, NodeId>, path: seq<Element>, k: nat, node: NodeId, w: seq<nat>)
    decreases |w|
  {
    && 0 < |w| == |path| - k && node in g && w[0] < |g[node].refs|
    && var r := g[node].refs[w[0]];
       Fits(g, alias, path, k, r)
       && (|w| > 1 ==> IsWalk(g, alias, path, k + 1, Resolve(alias, r.target), w[1..]))
  }

  /** The target of the last reference of a walk. */
  ghost function End(g: Graph, alias: map<NodeId, NodeId>, node: NodeId, w: seq<nat>): NodeId
    decreases |w|
  {
    if |w| == 0 || node !in g || w[0] >= |g[node].refs| then NULL_ID
    else
      var r := g[node].refs[w[0]];
      if |w| == 1 then r.target else End(g, alias, Resolve(alias, r.target), w[1..])
  }

  /** Lexicographic order. */
  predicate Before(a: seq<nat>, b: seq<nat>) {
    |a| > 0 && |b| > 0 && (a[0] < b[0] || (a[0] == b[0] && Before(a[1..], b[1..])))
  }

  /** `targets` are the ends of exactly the walks that start at place `i` or later, each walk once,
      in the order in which a depth-first search meets them. */
  ghost predicate EndsOfAll(g: Graph, alias: map<NodeId, NodeId>, path: seq<Element>, k: nat, node: NodeId, i: nat,
                            targets: seq<NodeId>, walks: seq<seq<nat>>) {
    && |targets| == |walks|
    && (forall j :: 0 <= j < |walks| ==>
          IsWalk(g, alias, path, k, node, walks[j]) && walks[j][0] >= i && targets[j] == End(g, alias, node, walks[j]))
    && (forall w :: IsWalk(g, alias, path, k, node, w) && w[0] >= i ==> w in walks)
    && InOrder(walks)
  }

  function Prefixed(i: nat, walks: seq<seq<nat>>): (out: seq<seq<nat>>)
    ensures |out| == |walks| && forall j :: 0 <= j < |out| ==> out[j] == [i] + walks[j]
  {
    seq(|walks|, j requires 0 <= j < |walks| => [i] + walks[j])
  }

  /** The recursion finds the ends of all walks and of nothing else. */
  lemma {:induction false} CollectsEndsOfAll(g: Graph, alias: map<NodeId, NodeId>, path: seq<Element>, k: nat, node: NodeId, i: nat)
    returns (walks: seq<seq<nat>>)
    requires k < |path|
    ensures EndsOfAll(g, alias, path, k, node, i, Collect(g, alias, path, k, node, i), walks)
    decreases |path| - k, if node in g then |g[node].refs| - i else 0
  {
    if node !in g || i >= |g[node].refs| {
      walks := [];
    } else {
      var first := CollectsOne(g, alias, path, k, node, i);
      var rest := CollectsEndsOfAll(g, alias, path, k, node, i + 1);
      walks := first + rest;
      Joins(g, alias, path, k, node, i, CollectOne(g, alias, path, k, node, i), first, Collect(g, alias, path, k, node, i + 1), rest);
    }
  }

  /** The same for the walks that start with reference `i`. */
  ghost predicate EndsOfOne(g: Graph, alias: map<NodeId, NodeId>, path: seq<Element>, k: nat, node: NodeId, i: nat,
                            targets: seq<NodeId>, walks: seq<seq<nat>>) {
    && |targets| == |walks|
    && (forall j :: 0 <= j < |walks| ==>
          IsWalk(g, alias, path, k, node, walks[j]) && walks[j][0] == i && targets[j] == End(g, alias, node, walks[j]))
    && (forall w :: IsWalk(g, alias, path, k, node, w) && w[0] == i ==> w in walks)
    && InOrder(walks)
  }

  lemma {:induction false} CollectsOne(g: Graph, alias: map<NodeId, NodeId>, path: seq<Element>, k: nat, node: NodeId, i: nat)
    returns (walks: seq<seq<nat>>)
    requires k < |path| && node in g && i < |g[node].refs|
    ensures EndsOfOne(g, alias, path, k, node, i, CollectOne(g, alias, path, k, node, i), walks)
    decreases |path| - k, |g[node].refs| - i, 0
  {
    var r := g[node].refs[i];
    if !Fits(g, alias, path, k, r) {
      walks := [];
    } else if k == |path| - 1 {
      walks := [[i]];
      forall w | IsWalk(g, alias, path, k, node, w) && w[0] == i
        ensures w in walks
      {
        assert w == [i];
      }
    } else {
      var next := Resolve(alias, r.target);
      var tails := CollectsEndsOfAll(g, alias, path, k + 1, next, 0);
      walks := Prefixed(i, tails);
      Extends(g, alias, path, k, node, i, Collect(g, alias, path, k + 1, next, 0), tails);
    }
  }

  /** Putting `i` in front of a walk of the rest of the path. */
  lemma ExtendsOne(g: Graph, alias: map<NodeId, NodeId>, path: seq<Element>, k: nat, node: NodeId, i: nat, tail: seq<nat>)
    requires k + 1 < |path| && node in g && i < |g[node].refs| && Fits(g, alias, path, k, g[node].refs[i])
    ensures var next := Resolve(alias, g[node].refs[i].target);
      IsWalk(g, alias, path, k + 1, next, tail) ==>
        IsWalk(g, alias, path, k, node, [i] + tail) && End(g, alias, node, [i] + tail) == End(g, alias, next, tail)
  {
    assert ([i] + tail)[1..] == tail;
  }

  lemma TailIsWalk(g: Graph, alias: map<NodeId, NodeId>, path: seq<Element>, k: nat, node: NodeId, w: seq<nat>)
    requires IsWalk(g, alias, path, k, node, w) && k + 1 < |path|
    ensures IsWalk(g, alias, path, k + 1, Resolve(alias, g[node].refs[w[0]].target), w[1..]) && w == [w[0]] + w[1..]
  {
  }

  lemma Extends(g: Graph, alias: map<NodeId, NodeId>, path: seq<Element>, k: nat, node: NodeId, i: nat,
                targets: seq<NodeId>, tails: seq<seq<nat>>)
    requires k + 1 < |path| && node in g && i < |g[node].refs| && Fits(g, alias, path, k, g[node].refs[i])
    requires EndsOfAll(g, alias, path, k + 1, Resolve(alias, g[node].refs[i].target), 0, targets, tails)
    ensures EndsOfOne(g, alias, path, k, node, i, targets, Prefixed(i, tails))
  {
    var walks := Prefixed(i, tails);
    forall j | 0 <= j < |walks|
      ensures IsWalk(g, alias, path, k, node, walks[j]) && walks[j][0] == i && targets[j] == End(g, alias, node, walks[j])
    {
      ExtendsOne(g, alias, path, k, node, i, tails[j]);
    }
    ExtendsHasAll(g, alias, path, k, node, i, targets, tails);
    OrderExtends(i, tails);
  }

  lemma ExtendsHasAll(g: Graph, alias: map<NodeId, NodeId>, path: seq<Element>, k: nat, node: NodeId, i: nat,
                      targets: seq<NodeId>, tails: seq<seq<nat>>)
    requires k + 1 < |path| && node in g && i < |g[node].refs| && Fits(g, alias, path, k, g[node].refs[i])
    requires EndsOfAll(g, alias, path, k + 1, Resolve(alias, g[node].refs[i].target), 0, targets, tails)
    ensures forall w :: IsWalk(g, alias, path, k, node, w) && w[0] == i ==> w in Prefixed(i, tails)
  {
    forall w | IsWalk(g, alias, path, k, node, w) && w[0] == i
      ensures w in Prefixed(i, tails)
    {
      TailIsWalk(g, alias, path, k, node, w);
      var j :| 0 <= j < |tails| && tails[j] == w[1..];
      assert Prefixed(i, tails)[j] == w;
    }
  }

  lemma OrderExtends(i: nat, tails: seq<seq<nat>>)
    requires InOrder(tails)
    ensures InOrder(Prefixed(i, tails))
  {
    var walks := Prefixed(i, tails);
    forall j, m | 0 <= j < m < |walks|
      ensures Before(walks[j], walks[m])
    {
      assert walks[j][1..] == tails[j] && walks[m][1..] == tails[m];
    }
  }

  lemma Joins(g: Graph, alias: map<NodeId, NodeId>, path: seq<Element>, k: nat, node: NodeId, i: nat,
              ends1: seq<NodeId>, walks1: seq<seq<nat>>, ends2: seq<NodeId>, walks2: seq<seq<nat>>)
    requires EndsOfOne(g, alias, path, k, node, i, ends1, walks1)
    requires EndsOfAll(g, alias, path, k, node, i + 1, ends2, walks2)
    ensures EndsOfAll(g, alias, path, k, node, i, ends1 + ends2, walks1 + walks2)
  {
    var ends, walks := ends1 + ends2, walks1 + walks2;
    forall j | 0 <= j < |walks|
      ensures IsWalk(g, alias, path, k, node, walks[j]) && walks[j][0] >= i && ends[j] == End(g, alias, node, walks[j])
    {
      if j < |walks1| {
        assert walks[j] == walks1[j] && ends[j] == ends1[j];
      } else {
        assert walks[j] == walks2[j - |walks1|] && ends[j] == ends2[j - |walks1|];
      }
    }
    OrderJoins(walks1, walks2, i);
    forall w | IsWalk(g, alias, path, k, node, w) && w[0] >= i
      ensures w in walks
    {
      assert w[0] == i ==> w in walks1;
      assert w[0] > i ==> w in walks2;
    }
  }

  ghost predicate InOrder(walks: seq<seq<nat>>) {
    forall j, m :: 0 <= j < m < |walks| ==> Before(walks[j], walks[m])
  }

  lemma OrderJoins(a: seq<seq<nat>>, b: seq<seq<nat>>, i: nat)
    requires InOrder(a) && InOrder(b)
    requires forall j :: 0 <= j < |a| ==> |a[j]| > 0 && a[j][0] == i
    requires forall j :: 0 <= j < |b| ==> |b[j]| > 0 && b[j][0] > i
    ensures InOrder(a + b)
  {
    forall j, m | 0 <= j < m < |a + b|
      ensures Before((a + b)[j], (a + b)[m])
    {
      if m < |a| {
        assert Before(a[j], a[m]);
      } else if j >= |a| {
        assert Before(b[j - |a|], b[m - |a|]);
      } else {
        assert a[j][0] < b[m - |a|][0];
      }
    }
  }

  // ----- The service for one browse path -----

  datatype PathStatus = PathGood | PathNodeIdUnknown | PathNothingToDo | PathBrowseNameInvalid | PathNoMatch

  predicate IsNamed(e: Element) {
    e.name.name.Some? && e.name.name.value != ""
  }

  ghost function Translate(g: Graph, alias: map<NodeId, NodeId>, start: NodeId, path: seq<Element>): (PathStatus, seq<NodeId>) {
    var node := Resolve(alias, start);
    if node !in g then (PathNodeIdUnknown, [])
    else if path == [] then (PathNothingToDo, [])
    else if exists e :: e in path && !IsNamed(e) then (PathBrowseNameInvalid, [])
    else
      var targets := Collect(g, alias, path, 0, node, 0);
      (if targets == [] then PathNoMatch else PathGood, targets)
  }

  ghost predicate Follows(g: Graph, alias: map<NodeId, NodeId>, start: NodeId, path: seq<Element>, w: seq<nat>) {
    IsWalk(g, alias, path, 0, Resolve(alias, start), w)
  }

  /** A named path that starts somewhere gets an answer exactly when some walk follows it, and the
      answer is the end of every walk. */
  lemma TranslatesExactly(g: Graph, alias: map<NodeId, NodeId>, start: NodeId, path: seq<Element>) returns (walks: seq<seq<nat>>)
    requires Resolve(alias, start) in g && path != [] && forall e :: e in path ==> IsNamed(e)
    ensures EndsOfAll(g, alias, path, 0, Resolve(alias, start), 0, Translate(g, alias, start, path).1, walks)
    ensures Translate(g, alias, start, path).0 == PathGood <==> exists w :: Follows(g, alias, start, path, w)
    ensures Translate(g, alias, start, path).0 == PathNoMatch <==> Translate(g, alias, start, path).1 == []
  {
    walks := CollectsEndsOfAll(g, alias, path, 0, Resolve(alias, start), 0);
    if walks != [] {
      assert Follows(g, alias, start, path, walks[0]);
    }
    if w :| Follows(g, alias, start, path, w) {
      assert w in walks;
    }
  }

  // ----- On the address space -----

  class BrowsePathResult {
    var targets: seq<NodeId>
    var status: PathStatus

    constructor ()
      ensures targets == [] && status == PathGood
    {
      targets, status := [], PathGood;
    }
  }

  method ReferenceFits(space: AddressSpace, alias: map<NodeId, NodeId>, path: seq<Element>, k: nat, r: Ref, ghost rank: map<NodeId, nat>)
    returns (fits: bool)
    requires space.Valid() && space.FastLive() && Tiered(space.graph, rank) && Followable(space.graph, alias)
    requires WellFormed(path) && k < |path| && Resolve(alias, r.target) in space.graph
    ensures fits <==> Fits(space.graph, alias, path, k, r)
  {
    var criteria := path[k];
    if criteria.inverse == r.inverse {
      var typed := TypePasses(space, criteria.refType, criteria.subtypes, r.refType, rank);
      if typed {
        var target := space.GetNode(if r.target in alias then alias[r.target] else r.target);
        return (criteria.name.name.None? && k == |path| - 1)
            || (target.browse.ns == criteria.name.ns && target.browse.name.value == criteria.name.name.value);
      }
    }
    return false;
  }

  /** The search appends to one shared result while it recurses. */
  method Transcribe(space: AddressSpace, alias: map<NodeId, NodeId>, path: seq<Element>, k: nat, source: Node?,
                    result: BrowsePathResult, ghost rank: map<NodeId, nat>)
    requires space.Valid() && space.FastLive() && Tiered(space.graph, rank) && Followable(space.graph, alias)
    requires WellFormed(path) && (source != null ==> source in space.live)
    modifies result`targets
    ensures result.targets == old(result.targets)
      + if source == null then [] else Collect(space.graph, alias, path, k, source.id, 0)
    decreases |path| - k
  {
    assert result.targets + [] == result.targets;
    if source == null {
      return;
    }
    if k >= |path| {
      return;
    }
    ghost var goal := result.targets + Collect(space.graph, alias, path, k, source.id, 0);
    var i := 0;
    while i < |source.refs|
      invariant 0 <= i <= |source.refs|
      invariant result.targets + Collect(space.graph, alias, path, k, source.id, i) == goal
    {
      TranscribeOne(space, alias, path, k, source, i, result, rank);
      i := i + 1;
    }
    assert result.targets + [] == result.targets;
  }

  method TranscribeOne(space: AddressSpace, alias: map<NodeId, NodeId>, path: seq<Element>, k: nat, source: Node, i: nat,
                       result: BrowsePathResult, ghost rank: map<NodeId, nat>)
    requires space.Valid() && space.FastLive() && Tiered(space.graph, rank) && Followable(space.graph, alias)
    requires WellFormed(path) && source in space.live && k < |path| && i < |source.refs|
    modifies result`targets
    ensures source.id in space.graph && space.graph[source.id].refs == source.refs
    ensures result.targets == old(result.targets) + CollectOne(space.graph, alias, path, k, source.id, i)
    decreases |path| - k, 0
  {
    var r := source.refs[i];
    assert space.graph[source.id] == source.Rec() && r in space.graph[source.id].refs;
    var fits := ReferenceFits(space, alias, path, k, r, rank);
    assert result.targets + [] == result.targets;
    if fits {
      if k == |path| - 1 {
        result.targets := result.targets + [r.target];
      } else {
        var target := space.GetNode(if r.target in alias then alias[r.target] else r.target);
        Transcribe(space, alias, path, k + 1, target, result, rank);
      }
    }
  }

  method AllNamed(path: seq<Element>) returns (named: bool)
    ensures named <==> forall e :: e in path ==> IsNamed(e)
  {
    var e := 0;
    while e < |path|
      invariant 0 <= e <= |path| && forall x :: x in path[..e] ==> IsNamed(x)
    {
      if path[e].name.name.None? || |path[e].name.name.value| == 0 {
        assert path[e] in path && !IsNamed(path[e]);
        return false;
      }
      e := e + 1;
    }
    assert path[..e] == path;
    return true;
  }

  method TranslatePath(space: AddressSpace, alias: map<NodeId, NodeId>, start: NodeId, path: seq<Element>, ghost rank: map<NodeId, nat>)
    returns (result: BrowsePathResult)
    requires space.Valid() && space.FastLive() && Tiered(space.graph, rank) && Followable(space.graph, alias)
    ensures fresh(result) && (result.status, result.targets) == Translate(space.graph, alias, start, path)
  {
    result := new BrowsePathResult();
    var node := space.GetNode(if start in alias then alias[start] else start);
    if node == null {
      result.status := PathNodeIdUnknown;
      return;
    }
    if |path| == 0 {
      result.status := PathNothingToDo;
      return;
    }
    var named := AllNamed(path);
    if !named {
      result.status := PathBrowseNameInvalid;
      return;
    }
    assert forall k :: 0 <= k < |path| ==> path[k] in path;
    Transcribe(space, alias, path, 0, node, result, rank);
    assert [] + Collect(space.graph, alias, path, 0, node.id, 0) == Collect(space.graph, alias, path, 0, node.id, 0);
    result.status := if |result.targets| == 0 then PathNoMatch else PathGood;
  }
}
