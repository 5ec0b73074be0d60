/** What a relative path leads to (Access.c), told element by element from directions, types and names. */
module TranslateAnswers {
  import opened OpcTypes
  import opened Graphs
  import opened TypeHierarchy
  import opened Continuing
  import opened Translating

  /** The reference has the element's direction and type, or a type below it where these count, and leads,
      through its alias, to a node of the element's name. */
  ghost predicate Hop(g: Graph, alias: map<NodeId, NodeId>, e: Element, r: Ref) {
    var target := if r.target in alias then alias[r.target] else r.target;
    && (r.inverse <==> e.inverse)
    && (e.refType == NULL_ID || r.refType == e.refType || (e.subtypes && IsSubtype(g, r.refType, e.refType)))
    && target in g && g[target].browse == e.name
  }

  /** The targets of the references that the element admits, in their order. */
  ghost function Hops(g: Graph, alias: map<NodeId, NodeId>, e: Element, refs: seq<Ref>): (out: seq<NodeId>)
    ensures forall x :: x in out <==> exists r :: r in refs && Hop(g, alias, e, r) && r.target == x
  {
    if refs == [] then [] else (if Hop(g, alias, e, refs[0]) then [refs[0].target] else []) + Hops(g, alias, e, refs[1..])
  }

  /** Element by element: the ends of the path from each node that the first element leads to, one after the other. */
  ghost function EndsOf(g: Graph, alias: map<NodeId, NodeId>, path: seq<Element>, node: NodeId): seq<NodeId>
    decreases |path|, 0
  {
    if path == [] || node !in g then []
    else if |path| == 1 then Hops(g, alias, path[0], g[node].refs)
    else Spread(g, alias, path[1..], Hops(g, alias, path[0], g[node].refs))
  }

  ghost function Spread(g: Graph, alias: map<NodeId, NodeId>, path: seq<Element>, nodes: seq<NodeId>): seq<NodeId>
    decreases |path|, 1, |nodes|
  {
    if nodes == [] then []
    else EndsOf(g, alias, path, Resolve(alias, nodes[0])) + Spread(g, alias, path, nodes[1..])
  }

  lemma FitsIsHop(g: Graph, alias: map<NodeId, NodeId>, path: seq<Element>, k: nat, r: Ref)
    requires k < |path| && IsNamed(path[k])
    ensures Fits(g, alias, path, k, r) <==> Hop(g, alias, path[k], r)
  {
  }

  lemma {:induction false} CollectIsEnds(g: Graph, alias: map<NodeId, NodeId>, path: seq<Element>, k: nat, node: NodeId, i: nat)
    requires k < |path| && node in g && i <= |g[node].refs| && forall e :: e in path ==> IsNamed(e)
    ensures var hops := Hops(g, alias, path[k], g[node].refs[i..]);
      Collect(g, alias, path, k, node, i) == if k == |path| - 1 then hops else Spread(g, alias, path[k + 1..], hops)
    decreases |path| - k, |g[node].refs| - i
  {
    if i < |g[node].refs| {
      var r := g[node].refs[i];
      assert path[k] in path;
      CollectIsEnds(g, alias, path, k, node, i + 1);
      var rest := Hops(g, alias, path[k], g[node].refs[i + 1..]);
      if Hop(g, alias, path[k], r) && k < |path| - 1 {
        RestIsEnds(g, alias, path, k + 1, Resolve(alias, r.target));
      }
      OneHop(g, alias, path, k, node, i, rest);
    }
  }

  /** What one more reference contributes. */
  lemma OneHop(g: Graph, alias: map<NodeId, NodeId>, path: seq<Element>, k: nat, node: NodeId, i: nat, rest: seq<NodeId>)
    requires k < |path| && node in g && i < |g[node].refs| && IsNamed(path[k])
    requires rest == Hops(g, alias, path[k], g[node].refs[i + 1..])
    requires var r := g[node].refs[i];
      Hop(g, alias, path[k], r) && k < |path| - 1 ==>
        Collect(g, alias, path, k + 1, Resolve(alias, r.target), 0) == EndsOf(g, alias, path[k + 1..], Resolve(alias, r.target))
    ensures var hops := Hops(g, alias, path[k], g[node].refs[i..]);
      if k == |path| - 1 then hops == CollectOne(g, alias, path, k, node, i) + rest
      else Spread(g, alias, path[k + 1..], hops) == CollectOne(g, alias, path, k, node, i) + Spread(g, alias, path[k + 1..], rest)
  {
    var r := g[node].refs[i];
    FitsIsHop(g, alias, path, k, r);
    assert g[node].refs[i..][1..] == g[node].refs[i + 1..];
    if Hop(g, alias, path[k], r) {
      assert ([r.target] + rest)[1..] == rest;
    } else {
      assert [] + rest == rest && [] + Spread(g, alias, path[k + 1..], rest) == Spread(g, alias, path[k + 1..], rest);
    }
  }

  lemma {:induction false} RestIsEnds(g: Graph, alias: map<NodeId, NodeId>, path: seq<Element>, k: nat, node: NodeId)
    requires k < |path| && forall e :: e in path ==> IsNamed(e)
    ensures Collect(g, alias, path, k, node, 0) == EndsOf(g, alias, path[k..], node)
    decreases |path| - k, if node in g then |g[node].refs| + 1 else 0
  {
    if node in g {
      CollectIsEnds(g, alias, path, k, node, 0);
      assert g[node].refs[0..] == g[node].refs;
      assert path[k..][1..] == path[k + 1..];
    }
  }

  /** A path of named elements leads to the ends that following it element by element has; other paths and
      starts are refused. */
  lemma PathAnswers(g: Graph, alias: map<NodeId, NodeId>, start: NodeId, path: seq<Element>)
    ensures var (status, targets) := Translate(g, alias, start, path);
      var node := if start in alias then alias[start] else start;
      var named := forall e :: e in path ==> e.name.name.Some? && e.name.name.value != "";
      && (status == PathNodeIdUnknown <==> node !in g)
      && (status == PathNothingToDo <==> node in g && path == [])
      && (status == PathBrowseNameInvalid <==> node in g && !named)
      && targets == (if node in g && named then EndsOf(g, alias, path, node) else [])
      && (status == PathNoMatch <==> node in g && path != [] && named && targets == [])
  {
    var node := Resolve(alias, start);
    if node in g && path != [] && forall e :: e in path ==> IsNamed(e) {
      RestIsEnds(g, alias, path, 0, node);
      assert path[0..] == path;
    }
  }

  /** One element leads along a reference that was added from `a` to `b` from `a` when it is forward and from
      `b` when it is inverse, and a reference is never followed against its direction. */
  lemma AddedIsFollowed(g: Graph, a: NodeId, b: NodeId, refType: NodeId)
    requires a in g && b in g && IsNamed(Element(refType, false, false, g[b].browse)) && IsNamed(Element(refType, true, false, g[a].browse))
    ensures var g1 := AddBi(g, a, b, refType);
      && b in Translate(g1, map[], a, [Element(refType, false, false, g[b].browse)]).1
      && a in Translate(g1, map[], b, [Element(refType, true, false, g[a].browse)]).1
    ensures var g1 := AddBi(g, a, b, refType);
      a != b && Ref(refType, true, b) !in g[a].refs ==>
        refType != NULL_ID ==> b !in Translate(g1, map[], a, [Element(refType, true, false, g[b].browse)]).1
  {
    var g1 := AddBi(g, a, b, refType);
    AddBiRefs(g, a, b, refType, a);
    AddBiRefs(g, a, b, refType, b);
    var forward, inverse := Element(refType, false, false, g[b].browse), Element(refType, true, false, g[a].browse);
    PathAnswers(g1, map[], a, [forward]);
    PathAnswers(g1, map[], b, [inverse]);
    assert Hop(g1, map[], forward, Ref(refType, false, b)) && Hop(g1, map[], inverse, Ref(refType, true, a));
    assert Ref(refType, false, b) in g1[a].refs && Ref(refType, true, a) in g1[b].refs;
    PathAnswers(g1, map[], a, [Element(refType, true, false, g[b].browse)]);
  }
}
