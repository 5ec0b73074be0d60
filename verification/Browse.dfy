/** Browse and BrowseNext (Access.c): paging through the references of a node with a stored offset. */
module Browsing {
  import opened OpcTypes
  import opened Graphs
  import opened TypeHierarchy
  import opened TypeBuilders
  import opened AddressSpaces
  import opened Continuing

  // ----- Which references match -----

  predicate DirectionAdmits(direction: nat, inverse: bool) {
    direction == 2 || (inverse && direction == 1) || (!inverse && direction == 0)
  }

  /** The bit of the node class is set in the mask. */
  predicate MaskHas(mask: nat, nodeClass: NodeClass) {
    match nodeClass
    case Unspecified => false
    case Class(Object) => mask % 2 == 1
    case Class(Variable) => mask / 2 % 2 == 1
    case Class(Method) => mask / 4 % 2 == 1
    case Class(ObjectType) => mask / 8 % 2 == 1
    case Class(VariableType) => mask / 16 % 2 == 1
    case Class(ReferenceType) => mask / 32 % 2 == 1
    case Class(DataType) => mask / 64 % 2 == 1
    case Class(View) => mask / 128 % 2 == 1
  }

  /** The filter is null, or the type itself, or the type is a subtype of it where these count. */
  ghost predicate TypeAdmits(g: Graph, filter: NodeId, subtypes: bool, refType: NodeId) {
    filter == NULL_ID || refType == filter || (subtypes && IsSubtype(g, refType, filter))
  }

  ghost predicate Matches(g: Graph, q: Request, r: Ref) {
    && DirectionAdmits(q.direction, r.inverse)
    && TypeAdmits(g, q.refType, q.subtypes, r.refType)
    && (q.mask == 0 || (r.target in g && MaskHas(q.mask, g[r.target].nodeClass)))
  }

  /** The matching references from place `i` on: what an unpaged Browse returns. */
  ghost function Matching(g: Graph, q: Request, refs: seq<Ref>, i: nat): seq<Ref>
    decreases |refs| - i
  {
    if i >= |refs| then []
    else if Matches(g, q, refs[i]) then [refs[i]] + Matching(g, q, refs, i + 1)
    else Matching(g, q, refs, i + 1)
  }

  /** The loop of Browse: a page, and where to resume when one more reference matched than the
      page may hold. A limit of zero is no limit. */
  ghost function Page(g: Graph, q: Request, refs: seq<Ref>, limit: int, i: nat, count: nat): (seq<Ref>, Option<nat>)
    decreases |refs| - i
  {
    if i >= |refs| then ([], None)
    else if !Matches(g, q, refs[i]) then Page(g, q, refs, limit, i + 1, count)
    else if count >= limit && limit != 0 then ([], Some(i))
    else
      var (page, next) := Page(g, q, refs, limit, i + 1, count + 1);
      ([refs[i]] + page, next)
  }

  /** The page is full, and the reference at `cut` is the first one that it has no room for. */
  ghost predicate CutAt(g: Graph, q: Request, refs: seq<Ref>, limit: int, i: nat, count: nat, page: seq<Ref>, cut: nat) {
    && i <= cut < |refs| && limit > 0 && count + |page| == limit && (count < limit ==> i < cut)
    && Matches(g, q, refs[cut]) && Matching(g, q, refs, i) == page + Matching(g, q, refs, cut)
  }

  /** A page is a prefix of what matches, never over the limit; there is a place to resume exactly
      when more matches remain, and it is the next match, further on. */
  lemma {:induction false} PageIsPrefix(g: Graph, q: Request, refs: seq<Ref>, limit: int, i: nat, count: nat)
    requires 0 <= count <= limit || limit == 0
    ensures var (page, next) := Page(g, q, refs, limit, i, count);
      && (limit > 0 ==> count + |page| <= limit)
      && (next.None? ==> page == Matching(g, q, refs, i))
      && (next.Some? ==> CutAt(g, q, refs, limit, i, count, page, next.value))
      && (next.Some? <==> limit > 0 && count + |Matching(g, q, refs, i)| > limit)
    decreases |refs| - i
  {
    if i < |refs| {
      if !Matches(g, q, refs[i]) {
        PageIsPrefix(g, q, refs, limit, i + 1, count);
      } else if count >= limit && limit != 0 {
        assert [] + Matching(g, q, refs, i) == Matching(g, q, refs, i);
      } else {
        PageIsPrefix(g, q, refs, limit, i + 1, count + 1);
        var (page, next) := Page(g, q, refs, limit, i + 1, count + 1);
        if next.Some? {
          assert [refs[i]] + (page + Matching(g, q, refs, next.value)) == ([refs[i]] + page) + Matching(g, q, refs, next.value);
        }
      }
    }
  }

  /** A negative limit, which a request of 2^31 or more turns into, never gets past the first match. */
  lemma {:induction false} NegativeLimitStalls(g: Graph, q: Request, refs: seq<Ref>, limit: int, i: nat)
    requires limit < 0
    ensures var (page, next) := Page(g, q, refs, limit, i, 0);
      page == [] && (next.Some? <==> Matching(g, q, refs, i) != [])
      && (next.Some? ==> Page(g, q, refs, limit, next.value, 0) == ([], next))
    decreases |refs| - i
  {
    if i < |refs| && !Matches(g, q, refs[i]) {
      NegativeLimitStalls(g, q, refs, limit, i + 1);
    }
  }

  // ----- The service -----

  datatype Status = Good | BadNodeIdUnknown | BadBrowseDirectionInvalid | BadReferenceTypeIdInvalid | BadContinuationPointInvalid

  datatype Response = Response(status: Status, refs: seq<Ref>, next: Option<Ident>)

  ghost predicate ValidRefType(g: Graph, refType: NodeId) {
    refType == NULL_ID || (refType in g && g[refType].nodeClass == Class(ReferenceType))
  }

  /** ID_Browse: `at` is the place of an existing continuation point. */
  ghost function BrowseAt(g: Graph, alias: map<NodeId, NodeId>, t: Table, q: Request, limit: int, session: NodeId, at: Option<nat>): (Response, Table)
    requires at.Some? ==> at.value < |t.points|
  {
    var node := Resolve(alias, q.node);
    if node !in g then (Response(BadNodeIdUnknown, [], None), t)
    else
      var start := if at.Some? then t.points[at.value].offset else 0;
      var (page, next) := Page(g, q, g[node].refs, limit, start, 0);
      Settle(alias, t, q, limit, session, at, page, next)
  }

  /** The answer with a page, and the table with the place to go on from. */
  ghost function Settle(alias: map<NodeId, NodeId>, t: Table, q: Request, limit: int, session: NodeId, at: Option<nat>,
                        page: seq<Ref>, next: Option<nat>): (Response, Table)
    requires at.Some? ==> at.value < |t.points|
  {
    if next.Some? then
      if at.Some? then
        var p := t.points[at.value];
        (Response(Good, page, Some(p.ident)), t.(points := t.points[at.value := p.(offset := next.value)]))
      else
        var id := IdentOf(t.counter);
        (Response(Good, page, Some(id)),
         Table(t.points + [Point(id, Continued(alias, q), session, limit, next.value)], (t.counter + 1) % UINT32))
    else if at.Some? then
      (Response(Good, page, None), t.(points := WithoutAt(t.points, FirstAt(t.points, t.points[at.value].ident))))
    else
      (Response(Good, page, None), t)
  }

  ghost function ServeBrowse(g: Graph, alias: map<NodeId, NodeId>, t: Table, q: Request, limit: int, session: NodeId): (Response, Table) {
    if q.direction > 2 then (Response(BadBrowseDirectionInvalid, [], None), t)
    else if !ValidRefType(g, q.refType) then (Response(BadReferenceTypeIdInvalid, [], None), t)
    else BrowseAt(g, alias, t, q, limit, session, None)
  }

  ghost function ServeNext(g: Graph, alias: map<NodeId, NodeId>, t: Table, id: Ident, session: NodeId, release: bool): (Response, Table) {
    var i := FirstAt(t.points, id);
    if i == |t.points| then (Response(BadContinuationPointInvalid, [], None), t)
    else if release then (Response(Good, [], None), t.(points := WithoutAt(t.points, FirstAt(t.points, t.points[i].ident))))
    else BrowseAt(g, alias, t, t.points[i].request, t.points[i].batch, session, Some(i))
  }

  /** A client that asks for the next page until there is none, at most `fuel` + 1 times. */
  ghost function Follow(g: Graph, alias: map<NodeId, NodeId>, t: Table, id: Ident, session: NodeId, fuel: nat): (seq<Ref>, Table)
    decreases fuel
  {
    var (response, t1) := ServeNext(g, alias, t, id, session, false);
    if response.next.None? || fuel == 0 then (response.refs, t1)
    else
      var (more, t2) := Follow(g, alias, t1, response.next.value, session, fuel - 1);
      (response.refs + more, t2)
  }

  /** Browse and then BrowseNext until the end. */
  ghost function BrowseAll(g: Graph, alias: map<NodeId, NodeId>, t: Table, q: Request, limit: int, session: NodeId, fuel: nat): (seq<Ref>, Table) {
    var (response, t1) := ServeBrowse(g, alias, t, q, limit, session);
    if response.next.None? then (response.refs, t1)
    else
      var (more, t2) := Follow(g, alias, t1, response.next.value, session, fuel);
      (response.refs + more, t2)
  }

  // ----- Following a continuation point -----

  /** What matches from the offset of a point on. */
  ghost function Rest(g: Graph, alias: map<NodeId, NodeId>, p: Point): seq<Ref>
    requires Resolve(alias, p.request.node) in g
  {
    Matching(g, p.request, g[Resolve(alias, p.request.node)].refs, p.offset)
  }

  /** Following the point comes to an end: its node exists, and its batch size is not negative unless
      nothing is left. */
  ghost predicate Ends(g: Graph, alias: map<NodeId, NodeId>, p: Point) {
    Resolve(alias, p.request.node) in g && (p.batch >= 0 || Rest(g, alias, p) == [])
  }

  lemma FoundBehind(before: seq<Point>, p: Point, after: seq<Point>)
    requires forall b :: b in before ==> b.ident != p.ident
    ensures FirstAt(before + [p] + after, p.ident) == |before|
    ensures WithoutAt(before + [p] + after, |before|) == before + after
  {
    var points := before + [p] + after;
    assert points[|before|] == p;
    assert forall j :: 0 <= j < |before| ==> points[j] == before[j] && before[j] in before;
  }

  /** One BrowseNext: the next page of the first point with the identifier, and that point advanced or
      gone. */
  lemma NextServes(g: Graph, alias: map<NodeId, NodeId>, before: seq<Point>, p: Point, after: seq<Point>,
                   counter: nat, session: NodeId, refs: seq<Ref>)
    requires forall b :: b in before ==> b.ident != p.ident
    requires Resolve(alias, p.request.node) in g && g[Resolve(alias, p.request.node)].refs == refs
    ensures var (page, next) := Page(g, p.request, refs, p.batch, p.offset, 0);
      ServeNext(g, alias, Table(before + [p] + after, counter), p.ident, session, false)
      == if next.Some?
         then (Response(Good, page, Some(p.ident)), Table(before + [p.(offset := next.value)] + after, counter))
         else (Response(Good, page, None), Table(before + after, counter))
  {
    FoundBehind(before, p, after);
    assert (before + [p] + after)[|before|] == p;
    var next := Page(g, p.request, refs, p.batch, p.offset, 0).1;
    if next.Some? {
      var p1 := p.(offset := next.value);
      assert (before + [p] + after)[|before| := p1] == before + [p1] + after;
    }
  }

  /** What the client gets from one BrowseNext and from following on. */
  lemma FollowStep(g: Graph, alias: map<NodeId, NodeId>, before: seq<Point>, p: Point, after: seq<Point>,
                   counter: nat, session: NodeId, fuel: nat)
    requires (forall b :: b in before ==> b.ident != p.ident) && Resolve(alias, p.request.node) in g
    ensures var (page, next) := Page(g, p.request, g[Resolve(alias, p.request.node)].refs, p.batch, p.offset, 0);
      Follow(g, alias, Table(before + [p] + after, counter), p.ident, session, fuel)
      == if next.None? then (page, Table(before + after, counter))
         else
           var t1 := Table(before + [p.(offset := next.value)] + after, counter);
           if fuel == 0 then (page, t1)
           else
             var (more, t2) := Follow(g, alias, t1, p.ident, session, fuel - 1);
             (page + more, t2)
  {
    var refs := g[Resolve(alias, p.request.node)].refs;
    NextServes(g, alias, before, p, after, counter, session, refs);
    var (page, next) := Page(g, p.request, refs, p.batch, p.offset, 0);
    var (response, t1) := ServeNext(g, alias, Table(before + [p] + after, counter), p.ident, session, false);
    assert response.refs == page && response.next == if next.Some? then Some(p.ident) else None;
  }

  /** Following an identifier returns all that matches from the offset of the first point that has it
      and gives that point back; all other points stay as they are. */
  lemma {:induction false} FollowCollects(g: Graph, alias: map<NodeId, NodeId>, before: seq<Point>, p: Point, after: seq<Point>,
                                          counter: nat, session: NodeId, fuel: nat)
    requires (forall b :: b in before ==> b.ident != p.ident) && Ends(g, alias, p)
    requires fuel >= |g[Resolve(alias, p.request.node)].refs| - p.offset
    ensures Follow(g, alias, Table(before + [p] + after, counter), p.ident, session, fuel)
      == (Rest(g, alias, p), Table(before + after, counter))
    decreases fuel
  {
    FollowStep(g, alias, before, p, after, counter, session, fuel);
    RestPages(g, alias, p);
    var next := Page(g, p.request, g[Resolve(alias, p.request.node)].refs, p.batch, p.offset, 0).1;
    if next.Some? {
      FollowCollects(g, alias, before, p.(offset := next.value), after, counter, session, fuel - 1);
    }
  }

  /** The next page of a point that ends, and what is left for the later ones. */
  lemma RestPages(g: Graph, alias: map<NodeId, NodeId>, p: Point)
    requires Ends(g, alias, p)
    ensures var refs := g[Resolve(alias, p.request.node)].refs;
      var (page, next) := Page(g, p.request, refs, p.batch, p.offset, 0);
      if next.None? then Rest(g, alias, p) == page
      else
        var p1 := p.(offset := next.value);
        p.offset < next.value < |refs| && Ends(g, alias, p1) && Rest(g, alias, p) == page + Rest(g, alias, p1)
  {
    var refs := g[Resolve(alias, p.request.node)].refs;
    var (page, next) := Page(g, p.request, refs, p.batch, p.offset, 0);
    assert Rest(g, alias, p) == Matching(g, p.request, refs, p.offset);
    if p.batch < 0 {
      NegativeLimitStalls(g, p.request, refs, p.batch, p.offset);
      assert next.None?;
    } else {
      PageIsPrefix(g, p.request, refs, p.batch, p.offset, 0);
      if next.Some? {
        assert CutAt(g, p.request, refs, p.batch, p.offset, 0, page, next.value);
        assert Rest(g, alias, p.(offset := next.value)) == Matching(g, p.request, refs, next.value);
      }
    }
  }

  /** A point whose node is gone, or whose negative batch size has matches left, yields nothing however
      often it is followed, and stays in the table. */
  lemma {:induction false} FollowIsStuck(g: Graph, alias: map<NodeId, NodeId>, before: seq<Point>, p: Point, after: seq<Point>,
                                         counter: nat, session: NodeId, fuel: nat)
    requires (forall b :: b in before ==> b.ident != p.ident) && !Ends(g, alias, p)
    ensures var (more, t) := Follow(g, alias, Table(before + [p] + after, counter), p.ident, session, fuel);
      more == [] && |t.points| == |before| + 1 + |after|
    decreases fuel
  {
    FoundBehind(before, p, after);
    assert (before + [p] + after)[|before|] == p;
    if Resolve(alias, p.request.node) in g {
      var refs := g[Resolve(alias, p.request.node)].refs;
      FollowStep(g, alias, before, p, after, counter, session, fuel);
      NegativeLimitStalls(g, p.request, refs, p.batch, p.offset);
      var next := Page(g, p.request, refs, p.batch, p.offset, 0).1;
      if fuel > 0 {
        StillStuck(g, alias, p, next.value);
        FollowIsStuck(g, alias, before, p.(offset := next.value), after, counter, session, fuel - 1);
      }
    }
  }

  lemma StillStuck(g: Graph, alias: map<NodeId, NodeId>, p: Point, next: nat)
    requires Resolve(alias, p.request.node) in g && !Ends(g, alias, p)
    requires Page(g, p.request, g[Resolve(alias, p.request.node)].refs, p.batch, p.offset, 0).1 == Some(next)
    ensures !Ends(g, alias, p.(offset := next))
  {
    var refs := g[Resolve(alias, p.request.node)].refs;
    NegativeLimitStalls(g, p.request, refs, p.batch, p.offset);
    NegativeLimitStalls(g, p.request, refs, p.batch, next);
  }

  // ----- What a client gets from Browse and BrowseNext together -----

  ghost predicate Browsable(g: Graph, alias: map<NodeId, NodeId>, q: Request) {
    && q.direction <= 2 && ValidRefType(g, q.refType)
    && Resolve(alias, q.node) in g && Resolve(alias, q.node) !in alias
  }

  ghost predicate EnoughFuel(g: Graph, fuel: nat) {
    forall k :: k in g ==> fuel >= |g[k].refs|
  }

  /** The point that Browse leaves when the first page stops at `cut`. */
  function NewPoint(alias: map<NodeId, NodeId>, t: Table, q: Request, limit: int, session: NodeId, cut: nat): Point {
    Point(IdentOf(t.counter), Continued(alias, q), session, limit, cut)
  }

  /** The point that the new identifier finds: the first one that has it. */
  function FoundPoint(t: Table, p: Point): Point {
    var i := FirstAt(t.points, p.ident);
    if i < |t.points| then t.points[i] else p
  }

  /** The client gets the first page and then what the point yields that the new identifier finds, be it
      its own or an earlier one of anybody's; that point is given back. */
  lemma ClientGets(g: Graph, alias: map<NodeId, NodeId>, t: Table, q: Request, limit: int, session: NodeId, fuel: nat)
    requires Browsable(g, alias, q) && limit > 0 && EnoughFuel(g, fuel)
    ensures var (all, t1) := BrowseAll(g, alias, t, q, limit, session, fuel);
      var (page, cut) := Page(g, q, g[Resolve(alias, q.node)].refs, limit, 0, 0);
      if cut.None? then all == page && t1 == t
      else
        var p := NewPoint(alias, t, q, limit, session, cut.value);
        var points := t.points + [p];
        if Ends(g, alias, FoundPoint(t, p))
        then all == page + Rest(g, alias, FoundPoint(t, p)) && t1.points == WithoutAt(points, FirstAt(points, p.ident))
        else all == page && |t1.points| == |t.points| + 1
  {
    var refs := g[Resolve(alias, q.node)].refs;
    var (page, cut) := Page(g, q, refs, limit, 0, 0);
    if cut.Some? {
      var p := NewPoint(alias, t, q, limit, session, cut.value);
      BrowseOpens(g, alias, t, q, limit, session, fuel, cut.value);
      FollowFound(g, alias, t, p, (t.counter + 1) % UINT32, session, fuel);
    }
  }

  lemma BrowseOpens(g: Graph, alias: map<NodeId, NodeId>, t: Table, q: Request, limit: int, session: NodeId, fuel: nat, cut: nat)
    requires Browsable(g, alias, q) && Page(g, q, g[Resolve(alias, q.node)].refs, limit, 0, 0).1 == Some(cut)
    ensures var p := NewPoint(alias, t, q, limit, session, cut);
      var (more, t1) := Follow(g, alias, Table(t.points + [p], (t.counter + 1) % UINT32), p.ident, session, fuel);
      BrowseAll(g, alias, t, q, limit, session, fuel) == (Page(g, q, g[Resolve(alias, q.node)].refs, limit, 0, 0).0 + more, t1)
  {
  }

  lemma FollowFound(g: Graph, alias: map<NodeId, NodeId>, t: Table, p: Point, counter: nat, session: NodeId, fuel: nat)
    requires EnoughFuel(g, fuel)
    ensures var (more, t1) := Follow(g, alias, Table(t.points + [p], counter), p.ident, session, fuel);
      if Ends(g, alias, FoundPoint(t, p))
      then more == Rest(g, alias, FoundPoint(t, p)) && t1.points == WithoutAt(t.points + [p], FirstAt(t.points + [p], p.ident))
      else more == [] && |t1.points| == |t.points| + 1
  {
    FoundInSum(t, p);
    FollowFirst(g, alias, t.points + [p], p.ident, counter, session, fuel);
  }

  /** Following an identifier is following the first point that has it. */
  lemma FollowFirst(g: Graph, alias: map<NodeId, NodeId>, points: seq<Point>, id: Ident, counter: nat, session: NodeId, fuel: nat)
    requires EnoughFuel(g, fuel) && FirstAt(points, id) < |points|
    ensures var i := FirstAt(points, id);
      var (more, t1) := Follow(g, alias, Table(points, counter), id, session, fuel);
      if Ends(g, alias, points[i]) then more == Rest(g, alias, points[i]) && t1.points == WithoutAt(points, i)
      else more == [] && |t1.points| == |points|
  {
    var i := FirstAt(points, id);
    var e, before, after := points[i], points[..i], points[i + 1..];
    assert points == before + [e] + after;
    assert forall b :: b in before ==> b.ident != id;
    if Ends(g, alias, e) {
      FollowCollects(g, alias, before, e, after, counter, session, fuel);
    } else {
      FollowIsStuck(g, alias, before, e, after, counter, session, fuel);
    }
  }

  lemma FoundInSum(t: Table, p: Point)
    ensures var points, i := t.points + [p], FirstAt(t.points + [p], p.ident);
      && i < |points| && points[i] == FoundPoint(t, p)
      && i == FirstAt(t.points, p.ident)
      && forall b :: b in points[..i] ==> b.ident != p.ident
  {
    var points := t.points + [p];
    assert points[|t.points|] == p;
    assert forall j :: 0 <= j < |t.points| ==> points[j] == t.points[j];
  }

  // ----- When paging is whole -----

  /** The place of match number `n` from place `i` on, counted from zero, if there are so many. */
  ghost function MatchPlace(g: Graph, q: Request, refs: seq<Ref>, i: nat, n: nat): (place: Option<nat>)
    ensures place.Some? <==> |Matching(g, q, refs, i)| > n
    ensures place.Some? ==> i <= place.value < |refs| && Matches(g, q, refs[place.value])
    decreases |refs| - i
  {
    if i >= |refs| then None
    else if !Matches(g, q, refs[i]) then MatchPlace(g, q, refs, i + 1, n)
    else if n == 0 then Some(i)
    else MatchPlace(g, q, refs, i + 1, n - 1)
  }

  /** A page stops at the first match that it has no room for. */
  lemma {:induction false} PageStopsAt(g: Graph, q: Request, refs: seq<Ref>, limit: int, i: nat, count: nat)
    requires 0 <= count <= limit && limit > 0
    ensures Page(g, q, refs, limit, i, count).1 == MatchPlace(g, q, refs, i, limit - count)
    decreases |refs| - i
  {
    if i < |refs| {
      if !Matches(g, q, refs[i]) {
        PageStopsAt(g, q, refs, limit, i + 1, count);
      } else if count < limit {
        PageStopsAt(g, q, refs, limit, i + 1, count + 1);
      }
    }
  }

  /** From the first match that the first page has no room for, nothing passes without the type filter only. */
  ghost predicate NothingSlipsIn(g: Graph, q: Request, refs: seq<Ref>, limit: nat) {
    var cut := MatchPlace(g, q, refs, 0, limit);
    cut.Some? ==> forall j :: cut.value <= j < |refs| && Matches(g, q.(refType := NULL_ID), refs[j]) ==> Matches(g, q, refs[j])
  }

  lemma {:induction false} ClearedMatching(g: Graph, q: Request, refs: seq<Ref>, i: nat)
    ensures |Matching(g, q, refs, i)| <= |Matching(g, q.(refType := NULL_ID), refs, i)|
    ensures Matching(g, q, refs, i) == Matching(g, q.(refType := NULL_ID), refs, i) <==>
      forall j :: i <= j < |refs| && Matches(g, q.(refType := NULL_ID), refs[j]) ==> Matches(g, q, refs[j])
    decreases |refs| - i
  {
    if i < |refs| {
      ClearedMatching(g, q, refs, i + 1);
      var q0 := q.(refType := NULL_ID);
      assert Matches(g, q, refs[i]) ==> Matches(g, q0, refs[i]);
      if Matches(g, q, refs[i]) {
        var a, b := Matching(g, q, refs, i + 1), Matching(g, q0, refs, i + 1);
        assert ([refs[i]] + a)[1..] == a && ([refs[i]] + b)[1..] == b;
      }
    }
  }

  /** Matching does not look at the node to browse. */
  lemma {:induction false} MatchingIgnoresNode(g: Graph, q: Request, node: NodeId, refs: seq<Ref>, i: nat)
    ensures Matching(g, q.(node := node), refs, i) == Matching(g, q, refs, i)
    decreases |refs| - i
  {
    if i < |refs| {
      MatchingIgnoresNode(g, q, node, refs, i + 1);
    }
  }

  /** What the client's own point yields is the rest of the answer exactly when nothing slips in. */
  lemma OwnRestIff(g: Graph, alias: map<NodeId, NodeId>, t: Table, q: Request, limit: int, session: NodeId)
    requires Browsable(g, alias, q) && limit > 0
    requires Page(g, q, g[Resolve(alias, q.node)].refs, limit, 0, 0).1.Some?
    ensures var refs := g[Resolve(alias, q.node)].refs;
      var (page, cut) := Page(g, q, refs, limit, 0, 0);
      var p := NewPoint(alias, t, q, limit, session, cut.value);
      && Ends(g, alias, p)
      && (page + Rest(g, alias, p) == Matching(g, q, refs, 0) <==> NothingSlipsIn(g, q, refs, limit))
  {
    var refs := g[Resolve(alias, q.node)].refs;
    PageStopsAt(g, q, refs, limit, 0, 0);
    PageIsPrefix(g, q, refs, limit, 0, 0);
    var (page, cut) := Page(g, q, refs, limit, 0, 0);
    MatchingIgnoresNode(g, q.(refType := NULL_ID), Resolve(alias, q.node), refs, cut.value);
    ClearedMatching(g, q, refs, cut.value);
    SameTail(page, Matching(g, q, refs, cut.value), Matching(g, q.(refType := NULL_ID), refs, cut.value));
  }

  /** No outstanding point has the identifier of `p`, except that the table may end with points that are
      `p` in every respect. */
  ghost predicate Unshared(points: seq<Point>, p: Point) {
    forall j, k :: 0 <= j <= k < |points| && points[j].ident == p.ident ==> points[k] == p
  }

  lemma UnsharedGivesBack(points: seq<Point>, p: Point)
    requires Unshared(points, p)
    ensures var all := points + [p];
      WithoutAt(all, FirstAt(all, p.ident)) == points
  {
    FoundInSum(Table(points, 0), p);
    var all, i := points + [p], FirstAt(points, p.ident);
    forall k | 0 <= k < |points|
      ensures WithoutAt(all, i)[k] == points[k]
    {
      assert i <= k ==> points[k] == p && all[k + 1] == p;
    }
  }

  lemma GivenBackIsUnshared(points: seq<Point>, p: Point)
    requires var all := points + [p];
      WithoutAt(all, FirstAt(all, p.ident)) == points
    ensures Unshared(points, p)
  {
    FoundInSum(Table(points, 0), p);
    var all, i := points + [p], FirstAt(points, p.ident);
    forall k | i <= k < |points|
      ensures SameAsNext(points, p, k)
    {
      assert WithoutAt(all, i)[k] == all[k + 1];
    }
    AllEqual(points, p, i);
  }

  /** The point at `k` is the same as the next one, or as `p` when it is the last. */
  predicate SameAsNext(points: seq<Point>, p: Point, k: nat)
    requires k < |points|
  {
    points[k] == if k + 1 < |points| then points[k + 1] else p
  }

  lemma {:induction false} AllEqual(points: seq<Point>, p: Point, i: nat)
    requires i <= |points| && forall k :: i <= k < |points| ==> SameAsNext(points, p, k)
    ensures forall k :: i <= k < |points| ==> points[k] == p
    decreases |points| - i
  {
    if i < |points| {
      AllEqual(points, p, i + 1);
      assert SameAsNext(points, p, i);
    }
  }

  /** Giving back the first point with the identifier of `p` leaves the old table exactly when that
      identifier is not shared. */
  lemma GivenBackIff(points: seq<Point>, p: Point)
    ensures var all := points + [p];
      WithoutAt(all, FirstAt(all, p.ident)) == points <==> Unshared(points, p)
  {
    if Unshared(points, p) {
      UnsharedGivesBack(points, p);
    }
    var all := points + [p];
    if WithoutAt(all, FirstAt(all, p.ident)) == points {
      GivenBackIsUnshared(points, p);
    }
  }

  /** The pages of a request together are the unpaged answer and leave the table as it was, exactly when
      the first page holds all, or its identifier is not shared and no reference behind the first page
      passes without the type filter only. */
  lemma PagesAreWholeIff(g: Graph, alias: map<NodeId, NodeId>, t: Table, q: Request, limit: int, session: NodeId, fuel: nat)
    requires Browsable(g, alias, q) && limit > 0 && EnoughFuel(g, fuel)
    ensures var (all, t1) := BrowseAll(g, alias, t, q, limit, session, fuel);
      var refs := g[Resolve(alias, q.node)].refs;
      var cut := MatchPlace(g, q, refs, 0, limit);
      all == Matching(g, q, refs, 0) && t1.points == t.points <==>
        cut.None? || (NothingSlipsIn(g, q, refs, limit) && Unshared(t.points, NewPoint(alias, t, q, limit, session, cut.value)))
  {
    var refs := g[Resolve(alias, q.node)].refs;
    PageStopsAt(g, q, refs, limit, 0, 0);
    var cut := Page(g, q, refs, limit, 0, 0).1;
    if cut.Some? {
      CutPagesAreWholeIff(g, alias, t, q, limit, session, fuel, cut.value);
    } else {
      OnePageIsWhole(g, alias, t, q, limit, session, fuel);
    }
  }

  lemma OnePageIsWhole(g: Graph, alias: map<NodeId, NodeId>, t: Table, q: Request, limit: int, session: NodeId, fuel: nat)
    requires Browsable(g, alias, q) && limit > 0 && EnoughFuel(g, fuel)
    requires Page(g, q, g[Resolve(alias, q.node)].refs, limit, 0, 0).1 == None
    ensures BrowseAll(g, alias, t, q, limit, session, fuel) == (Matching(g, q, g[Resolve(alias, q.node)].refs, 0), t)
  {
    PageIsPrefix(g, q, g[Resolve(alias, q.node)].refs, limit, 0, 0);
    ClientGets(g, alias, t, q, limit, session, fuel);
  }

  lemma CutPagesAreWholeIff(g: Graph, alias: map<NodeId, NodeId>, t: Table, q: Request, limit: int, session: NodeId, fuel: nat, cut: nat)
    requires Browsable(g, alias, q) && limit > 0 && EnoughFuel(g, fuel)
    requires Page(g, q, g[Resolve(alias, q.node)].refs, limit, 0, 0).1 == Some(cut)
    ensures var (all, t1) := BrowseAll(g, alias, t, q, limit, session, fuel);
      var refs := g[Resolve(alias, q.node)].refs;
      all == Matching(g, q, refs, 0) && t1.points == t.points <==>
        NothingSlipsIn(g, q, refs, limit) && Unshared(t.points, NewPoint(alias, t, q, limit, session, cut))
  {
    var p := NewPoint(alias, t, q, limit, session, cut);
    ClientGets(g, alias, t, q, limit, session, fuel);
    OwnRestIff(g, alias, t, q, limit, session);
    GivenBackIff(t.points, p);
    UnsharedFindsOwn(t, p);
  }

  lemma UnsharedFindsOwn(t: Table, p: Point)
    ensures Unshared(t.points, p) ==> FoundPoint(t, p) == p
  {
  }

  /** Without a type filter paging is whole exactly when everything fits on one page or the new
      identifier is not shared. */
  lemma UntypedPagesAreWholeIff(g: Graph, alias: map<NodeId, NodeId>, t: Table, q: Request, limit: int, session: NodeId, fuel: nat)
    requires Browsable(g, alias, q) && limit > 0 && EnoughFuel(g, fuel) && q.refType == NULL_ID
    ensures var (all, t1) := BrowseAll(g, alias, t, q, limit, session, fuel);
      var refs := g[Resolve(alias, q.node)].refs;
      var cut := MatchPlace(g, q, refs, 0, limit);
      all == Matching(g, q, refs, 0) && t1.points == t.points <==>
        cut.None? || Unshared(t.points, NewPoint(alias, t, q, limit, session, cut.value))
  {
    PagesAreWholeIff(g, alias, t, q, limit, session, fuel);
    assert q.(refType := NULL_ID) == q;
  }

  /** The identifiers in the table come from these values of the counter. */
  ghost predicate Numbered(t: Table, counters: seq<nat>) {
    && |counters| == |t.points| && t.counter < UINT32
    && forall j :: 0 <= j < |counters| ==> counters[j] < UINT32 && t.points[j].ident == IdentOf(counters[j])
  }

  /** In terms of the numbers: the new identifier is shared exactly when an outstanding point's number has
      the same shape as the new one. */
  lemma SharedIff(t: Table, counters: seq<nat>)
    requires Numbered(t, counters)
    ensures FirstAt(t.points, IdentOf(t.counter)) < |t.points| <==>
      exists j :: 0 <= j < |counters| && SameShape(NumberOf(counters[j]), NumberOf(t.counter))
  {
    forall j | 0 <= j < |counters|
      ensures t.points[j].ident == IdentOf(t.counter) <==> SameShape(NumberOf(counters[j]), NumberOf(t.counter))
    {
      SameIdentIff(counters[j], t.counter);
    }
    var i := FirstAt(t.points, IdentOf(t.counter));
    if i < |t.points| {
      assert SameShape(NumberOf(counters[i]), NumberOf(t.counter));
    }
  }

  // ----- The failing cases -----

  /** Two references of one type, one of another and one reference a page: the second page returns the
      one that the type filter excludes. */
  lemma TypedPagesCanLeak()
    ensures exists g: Graph, q, other :: SlipsIn(g, q, other)
  {
    var n, ty := NodeId(1, 1), ORGANIZES;
    var a, b := Ref(ty, false, n), Ref(HAS_COMPONENT, false, n);
    var g := map[n := NodeRec(Object, Class(Object), QName(0, None), [a, a, b]),
                 ty := NodeRec(ReferenceType, Class(ReferenceType), QName(0, None), [])];
    var q, t := Request(n, 0, ty, false, 0), Table([], 0);
    assert ty != HAS_COMPONENT && ty != NULL_ID && Browsable(g, map[], q) && EnoughFuel(g, 3);
    FirstPageFull(g, q, a, b);
    var p := NewPoint(map[], t, q, 1, n, 1);
    SecondPageLeaks(g, p, a, b);
    LeakArrives(g, q, [a], [a, b], b);
    assert SlipsIn(g, q, b);
  }

  lemma LeakArrives(g: Graph, q: Request, page: seq<Ref>, rest: seq<Ref>, b: Ref)
    requires Browsable(g, map[], q) && EnoughFuel(g, 3) && Page(g, q, g[q.node].refs, 1, 0, 0) == (page, Some(1))
    requires Rest(g, map[], NewPoint(map[], Table([], 0), q, 1, q.node, 1)) == rest && b in rest
    ensures b in BrowseAll(g, map[], Table([], 0), q, 1, q.node, 3).0
  {
    var t, p := Table([], 0), NewPoint(map[], Table([], 0), q, 1, q.node, 1);
    ClientGets(g, map[], t, q, 1, q.node, 3);
    assert FoundPoint(t, p) == p;
    assert b in page + rest;
  }

  lemma FirstPageFull(g: Graph, q: Request, a: Ref, b: Ref)
    requires q.node in g && g[q.node].refs == [a, a, b] && Matches(g, q, a)
    ensures Page(g, q, g[q.node].refs, 1, 0, 0) == ([a], Some(1))
  {
    var refs := g[q.node].refs;
    assert Page(g, q, refs, 1, 1, 1) == ([], Some(1));
    assert [a] + [] == [a];
  }

  lemma SecondPageLeaks(g: Graph, p: Point, a: Ref, b: Ref)
    requires p.request.refType == NULL_ID && p.request.direction == 0 && p.request.mask == 0 && p.offset == 1
    requires p.request.node in g && g[p.request.node].refs == [a, a, b] && !a.inverse && !b.inverse
    ensures Rest(g, map[], p) == [a, b]
  {
    var refs := g[p.request.node].refs;
    assert Matches(g, p.request, refs[1]) && Matches(g, p.request, refs[2]);
    assert Matching(g, p.request, refs, 3) == [];
    assert Matching(g, p.request, refs, 2) == [b] + [];
    assert [a] + [b] == [a, b];
  }

  /** The pages of `q` hold a reference of its node that its type filter excludes. */
  ghost predicate SlipsIn(g: Graph, q: Request, other: Ref) {
    && Browsable(g, map[], q) && EnoughFuel(g, 3)
    && other in BrowseAll(g, map[], Table([], 0), q, 1, q.node, 3).0 && other in g[q.node].refs && !Matches(g, q, other)
  }

  /** While the tenth point of a table is outstanding, the client of the eleventh gets what the tenth one
      has left: a reference of another node, browsed by another session. */
  lemma SharedPagesLeak()
    ensures exists g: Graph, t, q, other :: LeaksTo(g, t, q, other)
  {
    var a, b := NodeId(1, 1), NodeId(1, 2);
    var ra, rb := Ref(ORGANIZES, false, a), Ref(ORGANIZES, false, b);
    var g := map[a := NodeRec(Object, Class(Object), QName(0, None), [ra, ra]),
                 b := NodeRec(Object, Class(Object), QName(0, None), [rb, rb])];
    var qa, q := Request(a, 0, NULL_ID, false, 0), Request(b, 0, NULL_ID, false, 0);
    var e := Point(IdentOf(9), qa, a, 1, 1);
    var t := Table([e], 10);
    TenthAndEleventhCollide();
    assert Matches(g, q, rb) && Matches(g, qa, ra);
    assert Page(g, q, g[b].refs, 1, 1, 1) == ([], Some(1));
    assert [rb] + [] == [rb];
    assert Page(g, q, g[b].refs, 1, 0, 0) == ([rb], Some(1));
    assert Matching(g, qa, g[a].refs, 2) == [];
    assert Rest(g, map[], e) == [ra];
    ClientGets(g, map[], t, q, 1, b, 2);
    assert FirstAt(t.points, IdentOf(10)) == 0;
    assert [rb] + [ra] == [rb, ra];
    assert ra in BrowseAll(g, map[], t, q, 1, b, 2).0;
    assert LeaksTo(g, t, q, ra);
  }

  /** The pages of `q` hold a reference that its node does not have. */
  ghost predicate LeaksTo(g: Graph, t: Table, q: Request, other: Ref) {
    && Browsable(g, map[], q) && EnoughFuel(g, 2) && q.refType == NULL_ID
    && other in BrowseAll(g, map[], t, q, 1, q.node, 2).0 && other !in g[q.node].refs
  }

  // ----- On the address space -----

  method TypePasses(space: AddressSpace, filter: NodeId, subtypes: bool, refType: NodeId, ghost rank: map<NodeId, nat>) returns (pass: bool)
    requires space.Valid() && space.FastLive() && Tiered(space.graph, rank)
    ensures pass <==> TypeAdmits(space.graph, filter, subtypes, refType)
  {
    if filter == NULL_ID || refType == filter {
      return true;
    }
    pass := false;
    if subtypes {
      ghost var fuel := if refType in rank then rank[refType] else 0;
      TieredEnds(space.graph, rank, refType, filter);
      pass := IsTypeASubtypeOf(space, refType, filter, fuel);
    }
  }

  /** The tests of one reference, in the order of the loop. */
  method ReferencePasses(space: AddressSpace, q: Request, r: Ref, ghost rank: map<NodeId, nat>) returns (pass: bool)
    requires space.Valid() && space.FastLive() && Tiered(space.graph, rank) && r.target in space.graph
    ensures pass <==> Matches(space.graph, q, r)
  {
    if q.direction == 2 || (r.inverse && q.direction == 1) || (!r.inverse && q.direction == 0) {
      var typed := TypePasses(space, q.refType, q.subtypes, r.refType, rank);
      if typed {
        var target := space.GetNode(r.target);
        return q.mask == 0 || MaskHas(q.mask, target.nodeClass);
      }
    }
    return false;
  }

  /** The loop over the references from `start` on. */
  method CollectPage(space: AddressSpace, q: Request, node: Node, limit: int, start: nat, ghost rank: map<NodeId, nat>)
    returns (page: seq<Ref>, next: Option<nat>)
    requires space.Valid() && space.FastLive() && Tiered(space.graph, rank) && Anchored(space.graph)
    requires node in space.live
    ensures (page, next) == Page(space.graph, q, node.refs, limit, start, 0)
  {
    page := [];
    ghost var goal := Page(space.graph, q, node.refs, limit, start, 0);
    var r := start;
    assert page + goal.0 == goal.0;
    while r < |node.refs|
      invariant start <= r
      invariant var (rest, next) := Page(space.graph, q, node.refs, limit, r, |page|);
        goal == (page + rest, next)
    {
      assert space.graph[node.id] == node.Rec() && node.refs[r] in node.Rec().refs;
      var pass := ReferencePasses(space, q, node.refs[r], rank);
      if pass {
        if |page| >= limit && limit != 0 {
          assert page + [] == page;
          return page, Some(r);
        }
        ghost var rest := Page(space.graph, q, node.refs, limit, r + 1, |page| + 1).0;
        assert page + ([node.refs[r]] + rest) == (page + [node.refs[r]]) + rest;
        page := page + [node.refs[r]];
      }
      r := r + 1;
    }
    assert page + [] == page;
    return page, None;
  }

  method BrowseNode(space: AddressSpace, table: Continuer, alias: map<NodeId, NodeId>, q: Request, limit: int,
                    session: NodeId, at: Option<nat>, ghost rank: map<NodeId, nat>)
    returns (response: Response)
    requires space.Valid() && space.FastLive() && Tiered(space.graph, rank) && Anchored(space.graph)
    requires table.Valid() && (at.Some? ==> at.value < |table.points|)
    modifies table
    ensures table.Valid()
    ensures (response, table.State()) == BrowseAt(space.graph, alias, old(table.State()), q, limit, session, at)
  {
    var id := q.node;
    if id in alias {
      id := alias[id];
    }
    var node := space.GetNode(id);
    if node == null {
      return Response(BadNodeIdUnknown, [], None);
    }
    var page, next := CollectPage(space, q, node, limit, if at.Some? then table.points[at.value].offset else 0, rank);
    response := SettlePage(table, alias, q, limit, session, at, page, next);
  }

  method SettlePage(table: Continuer, alias: map<NodeId, NodeId>, q: Request, limit: int, session: NodeId, at: Option<nat>,
                    page: seq<Ref>, next: Option<nat>)
    returns (response: Response)
    requires table.Valid() && (at.Some? ==> at.value < |table.points|)
    modifies table
    ensures table.Valid()
    ensures (response, table.State()) == Settle(alias, old(table.State()), q, limit, session, at, page, next)
  {
    if next.Some? {
      if at.Some? {
        response := Response(Good, page, Some(table.points[at.value].ident));
        table.Advance(at.value, next.value);
      } else {
        var ident := table.AddContinuationPoint(alias, q, session, limit, next.value);
        response := Response(Good, page, Some(ident));
      }
    } else {
      if at.Some? {
        table.RemoveContinuationPoint(table.points[at.value].ident);
      }
      response := Response(Good, page, None);
    }
  }

  method Browse(space: AddressSpace, table: Continuer, alias: map<NodeId, NodeId>, q: Request, limit: int,
                session: NodeId, ghost rank: map<NodeId, nat>)
    returns (response: Response)
    requires space.Valid() && space.FastLive() && Tiered(space.graph, rank) && Anchored(space.graph) && table.Valid()
    modifies table
    ensures table.Valid()
    ensures (response, table.State()) == ServeBrowse(space.graph, alias, old(table.State()), q, limit, session)
  {
    if q.direction != 2 && q.direction != 0 && q.direction != 1 {
      return Response(BadBrowseDirectionInvalid, [], None);
    }
    if q.refType != NULL_ID {
      var ty := space.GetNode(q.refType);
      if ty == null || ty.nodeClass != Class(ReferenceType) {
        return Response(BadReferenceTypeIdInvalid, [], None);
      }
    }
    response := BrowseNode(space, table, alias, q, limit, session, None, rank);
  }

  method BrowseNext(space: AddressSpace, table: Continuer, alias: map<NodeId, NodeId>, id: Ident,
                    session: NodeId, release: bool, ghost rank: map<NodeId, nat>)
    returns (response: Response)
    requires space.Valid() && space.FastLive() && Tiered(space.graph, rank) && Anchored(space.graph) && table.Valid()
    modifies table
    ensures table.Valid()
    ensures (response, table.State()) == ServeNext(space.graph, alias, old(table.State()), id, session, release)
  {
    var i := table.GetContinuationPoint(id);
    if i == |table.points| {
      response := Response(BadContinuationPointInvalid, [], None);
    } else if release {
      table.RemoveContinuationPoint(table.points[i].ident);
      response := Response(Good, [], None);
    } else {
      response := BrowseNode(space, table, alias, table.points[i].request, table.points[i].batch, session, Some(i), rank);
    }
  }
}
