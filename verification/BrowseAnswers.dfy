/** What Browse and BrowseNext answer (Access.c), told from the references of the node and the numbers of
    the request. */
module BrowseAnswers {
  import opened OpcTypes
  import opened Graphs
  import opened TypeHierarchy
  import opened Continuing
  import opened Browsing

  // ----- An answer without a limit -----

  lemma {:induction false} MatchingIsFilter(g: Graph, q: Request, refs: seq<Ref>, i: nat, keep: Ref -> bool)
    requires i <= |refs| && forall r :: r in refs ==> (keep(r) <==> Matches(g, q, r))
    ensures Matching(g, q, refs, i) == Filter(refs[i..], keep)
    decreases |refs| - i
  {
    if i < |refs| {
      MatchingIsFilter(g, q, refs, i + 1, keep);
      assert refs[i..][1..] == refs[i + 1..];
      assert [] + Filter(refs[i + 1..], keep) == Filter(refs[i + 1..], keep);
    }
  }

  /** Without a limit the answer holds the references that the request keeps, in their order. */
  lemma AnswersFilter(g: Graph, alias: map<NodeId, NodeId>, t: Table, q: Request, session: NodeId, keep: Ref -> bool)
    requires Browsable(g, alias, q)
    requires forall r :: r in g[Resolve(alias, q.node)].refs ==> (keep(r) <==> Matches(g, q, r))
    ensures ServeBrowse(g, alias, t, q, 0, session)
      == (Response(Good, Filter(g[Resolve(alias, q.node)].refs, keep), None), t)
  {
    var refs := g[Resolve(alias, q.node)].refs;
    ServesAll(g, alias, t, q, session);
    MatchingIsFilter(g, q, refs, 0, keep);
    assert refs[0..] == refs;
  }

  lemma ServesAll(g: Graph, alias: map<NodeId, NodeId>, t: Table, q: Request, session: NodeId)
    requires Browsable(g, alias, q)
    ensures ServeBrowse(g, alias, t, q, 0, session)
      == (Response(Good, Matching(g, q, g[Resolve(alias, q.node)].refs, 0), None), t)
  {
    var refs := g[Resolve(alias, q.node)].refs;
    PageIsPrefix(g, q, refs, 0, 0, 0);
    assert Page(g, q, refs, 0, 0, 0) == (Matching(g, q, refs, 0), None);
  }

  // ----- Directions -----

  /** Direction 0 asks for the forward references, 1 for the inverse ones and 2 for all. */
  lemma DirectionAnswers(g: Graph, t: Table, node: NodeId, subtypes: bool, session: NodeId)
    requires node in g
    ensures var refs := g[node].refs;
      && ServeBrowse(g, map[], t, Request(node, 0, NULL_ID, subtypes, 0), 0, session).0
         == Response(Good, Filter(refs, (r: Ref) => !r.inverse), None)
      && ServeBrowse(g, map[], t, Request(node, 1, NULL_ID, subtypes, 0), 0, session).0
         == Response(Good, Filter(refs, (r: Ref) => r.inverse), None)
      && ServeBrowse(g, map[], t, Request(node, 2, NULL_ID, subtypes, 0), 0, session).0 == Response(Good, refs, None)
  {
    AnswersFilter(g, map[], t, Request(node, 0, NULL_ID, subtypes, 0), session, (r: Ref) => !r.inverse);
    AnswersFilter(g, map[], t, Request(node, 1, NULL_ID, subtypes, 0), session, (r: Ref) => r.inverse);
    AnswersFilter(g, map[], t, Request(node, 2, NULL_ID, subtypes, 0), session, (r: Ref) => true);
    FilterAll(g[node].refs, (r: Ref) => true);
  }

  lemma {:induction false} FilterAll<T(!new)>(s: seq<T>, keep: T -> bool)
    requires forall x :: keep(x)
    ensures Filter(s, keep) == s
  {
    if s != [] {
      FilterAll(s[1..], keep);
    }
  }

  /** A reference that was added from `a` to `b` is found forward from `a` and inverse from `b`, and not the
      other way. */
  lemma AddedIsFound(g: Graph, t: Table, a: NodeId, b: NodeId, refType: NodeId, session: NodeId)
    requires a in g && b in g
    ensures var g1 := AddBi(g, a, b, refType);
      && Ref(refType, false, b) in ServeBrowse(g1, map[], t, Request(a, 0, NULL_ID, false, 0), 0, session).0.refs
      && Ref(refType, true, a) in ServeBrowse(g1, map[], t, Request(b, 1, NULL_ID, false, 0), 0, session).0.refs
      && Ref(refType, false, b) !in ServeBrowse(g1, map[], t, Request(a, 1, NULL_ID, false, 0), 0, session).0.refs
      && Ref(refType, true, a) !in ServeBrowse(g1, map[], t, Request(b, 0, NULL_ID, false, 0), 0, session).0.refs
  {
    var g1 := AddBi(g, a, b, refType);
    AddBiRefs(g, a, b, refType, a);
    AddBiRefs(g, a, b, refType, b);
    DirectionAnswers(g1, t, a, false, session);
    DirectionAnswers(g1, t, b, false, session);
  }

  // ----- Node classes -----

  /** The bits of the standard's node classes. */
  function Bit(kind: NodeKind): nat {
    match kind
    case Object => 1
    case Variable => 2
    case Method => 4
    case ObjectType => 8
    case VariableType => 16
    case ReferenceType => 32
    case DataType => 64
    case View => 128
  }

  /** The target exists and its class is this one. */
  predicate LeadsToA(g: Graph, kind: NodeKind, r: Ref) {
    r.target in g && g[r.target].nodeClass == Class(kind)
  }

  /** A mask of one bit asks for the references to nodes of that class. */
  lemma ClassAnswers(g: Graph, t: Table, node: NodeId, kind: NodeKind, session: NodeId)
    requires node in g
    ensures ServeBrowse(g, map[], t, Request(node, 2, NULL_ID, false, Bit(kind)), 0, session).0
      == Response(Good, Filter(g[node].refs, (r: Ref) => LeadsToA(g, kind, r)), None)
  {
    AnswersFilter(g, map[], t, Request(node, 2, NULL_ID, false, Bit(kind)), session, (r: Ref) => LeadsToA(g, kind, r));
  }

  /** Any other mask asks for the classes whose bits it has. */
  lemma MaskAnswers(g: Graph, t: Table, node: NodeId, mask: nat, session: NodeId)
    requires node in g && mask > 0
    ensures ServeBrowse(g, map[], t, Request(node, 2, NULL_ID, false, mask), 0, session).0
      == Response(Good, Filter(g[node].refs, (r: Ref) => LeadsToMasked(g, mask, r)), None)
  {
    AnswersFilter(g, map[], t, Request(node, 2, NULL_ID, false, mask), session, (r: Ref) => LeadsToMasked(g, mask, r));
  }

  predicate LeadsToMasked(g: Graph, mask: nat, r: Ref) {
    r.target in g && g[r.target].nodeClass.Class? && mask / Bit(g[r.target].nodeClass.kind) % 2 == 1
  }

  // ----- Reference types -----

  /** A type without its subtypes asks for the references of that type; with subtypes, for those whose type
      climbs to it by first supertypes. */
  lemma TypeAnswers(g: Graph, t: Table, node: NodeId, refType: NodeId, session: NodeId)
    requires node in g && refType in g && refType != NULL_ID && g[refType].nodeClass == Class(ReferenceType)
    ensures ServeBrowse(g, map[], t, Request(node, 2, refType, false, 0), 0, session).0
      == Response(Good, Filter(g[node].refs, (r: Ref) => r.refType == refType), None)
    ensures var answer := ServeBrowse(g, map[], t, Request(node, 2, refType, true, 0), 0, session).0.refs;
      forall r :: r in answer <==> r in g[node].refs && (r.refType == refType || IsSubtype(g, r.refType, refType))
  {
    AnswersFilter(g, map[], t, Request(node, 2, refType, false, 0), session, (r: Ref) => r.refType == refType);
    var q := Request(node, 2, refType, true, 0);
    ServesAll(g, map[], t, q, session);
    MatchingHas(g, q, g[node].refs, 0);
  }

  lemma {:induction false} MatchingHas(g: Graph, q: Request, refs: seq<Ref>, i: nat)
    requires i <= |refs|
    ensures forall r :: r in Matching(g, q, refs, i) <==> r in refs[i..] && Matches(g, q, r)
    decreases |refs| - i
  {
    if i < |refs| {
      MatchingHas(g, q, refs, i + 1);
      assert refs[i..] == [refs[i]] + refs[i + 1..];
    }
  }

  // ----- Refusals -----

  /** Which request is refused, and why; a refusal changes nothing. */
  lemma BrowseRefuses(g: Graph, alias: map<NodeId, NodeId>, t: Table, q: Request, limit: int, session: NodeId)
    ensures var (response, t1) := ServeBrowse(g, alias, t, q, limit, session);
      var node := if q.node in alias then alias[q.node] else q.node;
      var typed := q.refType == NULL_ID || (q.refType in g && g[q.refType].nodeClass == Class(ReferenceType));
      && (response.status == BadBrowseDirectionInvalid <==> q.direction !in {0, 1, 2})
      && (response.status == BadReferenceTypeIdInvalid <==> q.direction in {0, 1, 2} && !typed)
      && (response.status == BadNodeIdUnknown <==> q.direction in {0, 1, 2} && typed && node !in g)
      && (response.status == Good <==> q.direction in {0, 1, 2} && typed && node in g)
      && (response.status != Good ==> response == Response(response.status, [], None) && t1 == t)
  {
  }

  // ----- Pages -----

  /** With a limit the answer holds the first that an unlimited one would hold, and a continuation point
      exactly when there are more. */
  lemma FirstPageIs(g: Graph, alias: map<NodeId, NodeId>, t: Table, q: Request, limit: nat, session: NodeId)
    requires Browsable(g, alias, q) && limit > 0
    ensures var all := ServeBrowse(g, alias, t, q, 0, session).0.refs;
      var (response, t1) := ServeBrowse(g, alias, t, q, limit, session);
      && response.status == Good
      && response.refs == (if |all| <= limit then all else all[..limit])
      && (response.next.Some? <==> |all| > limit)
      && (|all| <= limit ==> t1 == t)
      && (|all| > limit ==> Opened(t, t1, response, session, limit))
  {
    var refs := g[Resolve(alias, q.node)].refs;
    ServesAll(g, alias, t, q, session);
    PageIsPrefix(g, q, refs, limit, 0, 0);
    var (page, next) := Page(g, q, refs, limit, 0, 0);
    if next.Some? {
      assert (page + Matching(g, q, refs, next.value))[..limit] == page;
    }
    assert ServeBrowse(g, alias, t, q, limit, session) == Settle(alias, t, q, limit, session, None, page, next);
  }

  /** The answer names a new point at the end of the table, of this session and page size. */
  ghost predicate Opened(t: Table, t1: Table, response: Response, session: NodeId, limit: nat) {
    && |t1.points| == |t.points| + 1 && t1.points[..|t.points|] == t.points
    && var p := t1.points[|t.points|];
       p.session == session && p.batch == limit && response.next == Some(p.ident)
  }

  /** For a point whose identifier nobody has before it, BrowseNext holds the next ones of what is left, in
      the same number as before, and gives the point back exactly when none are left behind them. */
  lemma NextPageIs(g: Graph, alias: map<NodeId, NodeId>, before: seq<Point>, p: Point, after: seq<Point>, counter: nat, session: NodeId)
    requires (forall b :: b in before ==> b.ident != p.ident) && Resolve(alias, p.request.node) in g && p.batch > 0
    ensures var left := Matching(g, p.request, g[Resolve(alias, p.request.node)].refs, p.offset);
      var (response, t1) := ServeNext(g, alias, Table(before + [p] + after, counter), p.ident, session, false);
      && response.status == Good
      && response.refs == (if |left| <= p.batch then left else left[..p.batch])
      && response.next == (if |left| <= p.batch then None else Some(p.ident))
      && (|left| <= p.batch ==> t1 == Table(before + after, counter))
      && (|left| > p.batch ==> exists p1 ::
            MovedOn(g, p, g[Resolve(alias, p.request.node)].refs, p1, left[p.batch..]) && t1 == Table(before + [p1] + after, counter))
  {
    var refs := g[Resolve(alias, p.request.node)].refs;
    PageIsPrefix(g, p.request, refs, p.batch, p.offset, 0);
    NextServes(g, alias, before, p, after, counter, session, refs);
    var (page, next) := Page(g, p.request, refs, p.batch, p.offset, 0);
    if next.Some? {
      var rest := Matching(g, p.request, refs, next.value);
      assert (page + rest)[p.batch..] == rest && (page + rest)[..p.batch] == page;
      assert MovedOn(g, p, refs, p.(offset := next.value), rest);
    }
  }

  /** The point further on, where `rest` is left. */
  ghost predicate MovedOn(g: Graph, p: Point, refs: seq<Ref>, p1: Point, rest: seq<Ref>) {
    p1 == p.(offset := p1.offset) && p.offset < p1.offset && Matching(g, p.request, refs, p1.offset) == rest
  }

  /** An identifier that no point has is refused; releasing gives back the first point that has it. */
  lemma NextRefusesOrReleases(g: Graph, alias: map<NodeId, NodeId>, t: Table, id: Ident, session: NodeId, release: bool)
    ensures var (response, t1) := ServeNext(g, alias, t, id, session, release);
      && (response.status == BadContinuationPointInvalid <==> forall p :: p in t.points ==> p.ident != id)
      && (response.status == BadContinuationPointInvalid ==> response.refs == [] && response.next == None && t1 == t)
      && (release && response.status != BadContinuationPointInvalid ==>
            && response == Response(Good, [], None) && t1.counter == t.counter
            && exists i :: 0 <= i < |t.points| && t.points[i].ident == id && t1.points == t.points[..i] + t.points[i + 1..]
                 && forall j :: 0 <= j < i ==> t.points[j].ident != id)
  {
    var i := FirstAt(t.points, id);
    if i < |t.points| {
      assert t.points[i] in t.points;
    }
  }
}
