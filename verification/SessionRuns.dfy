/** Sessions over whole runs: tokens and identifiers stay distinct, every live session owns exactly one
    object node, removed ones own none, and the timer is patient. */
module SessionRuns {
  import opened OpcTypes
  import opened Indexing
  import opened Graphs
  import opened Cloning
  import opened Continuing
  import opened GraphRuns
  import opened Sessions

  /** A world with its history: the time since each token's last accepted contact, and the session
      identifiers ever given. */
  datatype Record = Record(w: Server, since: map<NodeId, nat>, given: set<NodeId>)

  datatype Call =
    | DoCreate(stamp: bool, channel: nat, name: Option<string>, checks: bool)
    | DoActivate(token: NodeId, channel: nat, policy: bool, transfer: bool, stamp: bool, identity: bool)
    | DoGate(token: NodeId, channel: nat, stamp: bool)
    | DoClose(token: NodeId, channel: nat, stamp: bool)
    | DoTick(elapsed: nat)
    | GrowSpace(g: Graph, ix: Index)
    | ChangePoints(points: seq<Point>)

  // ----- Who owns what -----

  /** The part of a session that never changes: its token and its identifier. */
  function Key(s: Session): (NodeId, NodeId) {
    (s.token, s.id)
  }

  function Keys(sessions: seq<Session>): (keys: seq<(NodeId, NodeId)>)
    ensures |keys| == |sessions| && forall i :: 0 <= i < |sessions| ==> keys[i] == Key(sessions[i])
  {
    seq(|sessions|, i requires 0 <= i < |sessions| => Key(sessions[i]))
  }

  ghost predicate IsSpentId(ix: Index, id: NodeId) {
    id.ns == SERVER_NAMESPACE && Spent(ix, id.num)
  }

  /** The session with this key has an identifier given to it and the object node of that name. */
  ghost predicate OwnsNode(key: (NodeId, NodeId), g: Graph, ix: Index, given: set<NodeId>) {
    IsSpentId(ix, key.0) && key.1 in given && key.1 in g && g[key.1].kind == Object
  }

  /** Tokens are distinct, identifiers are distinct. */
  ghost predicate Differ(a: (NodeId, NodeId), b: (NodeId, NodeId)) {
    a.0 != b.0 && a.1 != b.1
  }

  ghost predicate Owned(keys: seq<(NodeId, NodeId)>, g: Graph, ix: Index, given: set<NodeId>) {
    && NonDangling(g) && IdsSpent(g, ix) && NULL_ID !in g
    && (forall i, j :: 0 <= i < j < |keys| ==> Differ(keys[i], keys[j]))
    && (forall i :: 0 <= i < |keys| ==> OwnsNode(keys[i], g, ix, given))
    && (forall id :: id in given ==> IsSpentId(ix, id))
    && forall id :: id in given && id in g ==> exists i :: 0 <= i < |keys| && keys[i].1 == id
  }

  lemma OwnedMeansDistinct(sessions: seq<Session>, g: Graph, ix: Index, given: set<NodeId>)
    requires Owned(Keys(sessions), g, ix, given)
    ensures DistinctTokens(sessions)
  {
    forall i, j | 0 <= i < j < |sessions|
      ensures sessions[i].token != sessions[j].token
    {
      assert Differ(Keys(sessions)[i], Keys(sessions)[j]);
    }
  }

  lemma SameKeys(sessions: seq<Session>, i: nat, s: Session)
    requires i < |sessions| && Key(s) == Key(sessions[i])
    ensures Keys(sessions[i := s]) == Keys(sessions)
  {
  }

  lemma KeysWithout(sessions: seq<Session>, i: nat)
    requires i < |sessions|
    ensures Keys(sessions[..i] + sessions[i + 1..]) == Keys(sessions)[..i] + Keys(sessions)[i + 1..]
  {
  }

  lemma WithoutKeepsOwned(keys: seq<(NodeId, NodeId)>, i: nat, g: Graph, ix: Index, given: set<NodeId>)
    requires Owned(keys, g, ix, given) && i < |keys|
    ensures Owned(keys[..i] + keys[i + 1..], RemoveNode(g, keys[i].1), ix, given)
  {
    RemoveNodeLeavesNoDangling(g, keys[i].1);
    WithoutStaysApart(keys, i);
    OthersKeepNodes(keys, i, g, ix, given);
    OthersStayNamed(keys, i, g, given);
  }

  lemma OthersKeepNodes(keys: seq<(NodeId, NodeId)>, i: nat, g: Graph, ix: Index, given: set<NodeId>)
    requires i < |keys| && NULL_ID !in g && forall j, k :: 0 <= j < k < |keys| ==> Differ(keys[j], keys[k])
    requires forall j :: 0 <= j < |keys| ==> OwnsNode(keys[j], g, ix, given)
    ensures var keys1, g1 := keys[..i] + keys[i + 1..], RemoveNode(g, keys[i].1);
      forall j :: 0 <= j < |keys1| ==> OwnsNode(keys1[j], g1, ix, given)
  {
    var keys1, g1 := keys[..i] + keys[i + 1..], RemoveNode(g, keys[i].1);
    forall j | 0 <= j < |keys1|
      ensures OwnsNode(keys1[j], g1, ix, given)
    {
      var k := if j < i then j else j + 1;
      assert keys1[j] == keys[k] && OwnsNode(keys[k], g, ix, given);
      assert k < i ==> Differ(keys[k], keys[i]);
      assert k > i ==> Differ(keys[i], keys[k]);
    }
  }

  lemma OthersStayNamed(keys: seq<(NodeId, NodeId)>, i: nat, g: Graph, given: set<NodeId>)
    requires i < |keys| && NULL_ID !in g
    requires forall id :: id in given && id in g ==> exists j :: 0 <= j < |keys| && keys[j].1 == id
    ensures var keys1, g1 := keys[..i] + keys[i + 1..], RemoveNode(g, keys[i].1);
      forall id :: id in given && id in g1 ==> exists j :: 0 <= j < |keys1| && keys1[j].1 == id
  {
    var keys1, g1 := keys[..i] + keys[i + 1..], RemoveNode(g, keys[i].1);
    forall id | id in given && id in g1
      ensures exists j :: 0 <= j < |keys1| && keys1[j].1 == id
    {
      var j :| 0 <= j < |keys| && keys[j].1 == id;
      assert keys1[if j < i then j else j - 1] == keys[j];
    }
  }

  lemma WithoutStaysApart(keys: seq<(NodeId, NodeId)>, i: nat)
    requires i < |keys| && forall j, k :: 0 <= j < k < |keys| ==> Differ(keys[j], keys[k])
    ensures var keys1 := keys[..i] + keys[i + 1..];
      forall j, k :: 0 <= j < k < |keys1| ==> Differ(keys1[j], keys1[k])
  {
    var keys1 := keys[..i] + keys[i + 1..];
    forall j, k | 0 <= j < k < |keys1|
      ensures Differ(keys1[j], keys1[k])
    {
      assert Differ(keys[if j < i then j else j + 1], keys[if k < i then k else k + 1]);
    }
  }

  /** A removal takes the session's node with it, and no other. */
  lemma RemoveKeepsOwned(w: Server, given: set<NodeId>, token: NodeId)
    requires Owned(Keys(w.sessions), w.g, w.ix, given)
    ensures var w1 := RemoveSession(w, token);
      Owned(Keys(w1.sessions), w1.g, w1.ix, given)
  {
    var i := First(w.sessions, token);
    if i < |w.sessions| {
      KeysWithout(w.sessions, i);
      WithoutKeepsOwned(Keys(w.sessions), i, w.g, w.ix, given);
    }
  }

  /** The two identifiers of a new session are unused, and so is its node. */
  lemma AddKeepsOwned(keys: seq<(NodeId, NodeId)>, g: Graph, ix: Index, given: set<NodeId>, name: Option<string>)
    requires Owned(keys, g, ix, given)
    ensures var (t, ix1) := Issue(ix);
      var (u, ix2) := Issue(ix1);
      Owned(keys + [(ServerId(t), ServerId(u))], g[ServerId(u) := SessionNode(name)], ix2, given + {ServerId(u)})
  {
    var (t, ix1) := Issue(ix);
    var (u, ix2) := Issue(ix1);
    IssueIsFresh(ix);
    IssueIsFresh(ix1);
    var keys1, g1, given1 := keys + [(ServerId(t), ServerId(u))], g[ServerId(u) := SessionNode(name)], given + {ServerId(u)};
    forall i | 0 <= i < |keys|
      ensures OwnsNode(keys[i], g1, ix2, given1) && Differ(keys[i], keys1[|keys|])
    {
      assert OwnsNode(keys[i], g, ix, given) && IsSpentId(ix, keys[i].1);
    }
    assert OwnsNode(keys1[|keys|], g1, ix2, given1);
    forall id | id in given1 && id in g1
      ensures exists j :: 0 <= j < |keys1| && keys1[j].1 == id
    {
      if id == ServerId(u) {
        assert keys1[|keys|].1 == id;
      } else {
        var j :| 0 <= j < |keys| && keys[j].1 == id;
        assert keys1[j].1 == id;
      }
    }
  }

  lemma {:induction false} TickKeepsOwned(w: Server, given: set<NodeId>, i: nat, elapsed: nat)
    requires Owned(Keys(w.sessions), w.g, w.ix, given)
    ensures var w1 := TickFrom(w, i, elapsed);
      Owned(Keys(w1.sessions), w1.g, w1.ix, given)
    decreases |w.sessions| - i
  {
    if i < |w.sessions| {
      TickAtKeepsOwned(w, given, i, elapsed);
      TickKeepsOwned(TickAt(w, i, elapsed), given, i + 1, elapsed);
    }
  }

  lemma TickAtKeepsOwned(w: Server, given: set<NodeId>, i: nat, elapsed: nat)
    requires Owned(Keys(w.sessions), w.g, w.ix, given) && i < |w.sessions|
    ensures var w1 := TickAt(w, i, elapsed);
      Owned(Keys(w1.sessions), w1.g, w1.ix, given)
  {
    var s1 := w.sessions[i].(idle := w.sessions[i].idle + elapsed + w.accumulated, busy := true);
    TickAtCases(w, i, elapsed, s1);
    ReplacedOwned(w, TickAt(w, i, elapsed), given, i, s1);
  }

  lemma TickAtCases(w: Server, i: nat, elapsed: nat, s1: Session)
    requires i < |w.sessions| && s1 == w.sessions[i].(idle := w.sessions[i].idle + elapsed + w.accumulated, busy := true)
    ensures var w1 := TickAt(w, i, elapsed);
      || (w1.g == w.g && w1.ix == w.ix && Keys(w1.sessions) == Keys(w.sessions))
      || w1 == RemoveSession(w.(sessions := w.sessions[i := s1]), s1.token)
  {
    SameKeys(w.sessions, i, s1.(busy := w.sessions[i].busy));
  }

  /** What one place of the timer's loop may do to the ownership: nothing, or remove the session. */
  lemma ReplacedOwned(w: Server, w1: Server, given: set<NodeId>, i: nat, s1: Session)
    requires Owned(Keys(w.sessions), w.g, w.ix, given) && i < |w.sessions| && Key(s1) == Key(w.sessions[i])
    requires || (w1.g == w.g && w1.ix == w.ix && Keys(w1.sessions) == Keys(w.sessions))
             || w1 == RemoveSession(w.(sessions := w.sessions[i := s1]), s1.token)
    ensures Owned(Keys(w1.sessions), w1.g, w1.ix, given)
  {
    SameKeys(w.sessions, i, s1);
    RemoveKeepsOwned(w.(sessions := w.sessions[i := s1]), given, s1.token);
  }

  // ----- How long ago -----

  /** Every session has the standard timeout and has idled no longer than since its last contact. */
  ghost predicate Timed(sessions: seq<Session>, since: map<NodeId, nat>) {
    forall i :: 0 <= i < |sessions| ==>
      sessions[i].timeout == SESSION_TIMEOUT && sessions[i].token in since && sessions[i].idle <= since[sessions[i].token]
  }

  /** The token whose contact is accepted: its idle time is set to zero. */
  function Contact(w: Server, c: Call): Option<NodeId> {
    match c
    case DoGate(token, channel, _) => if IsValid(w, token, channel, false).0 then Some(token) else None
    case DoClose(token, channel, _) => if IsValid(w, token, channel, false).0 then Some(token) else None
    case DoActivate(token, channel, policy, transfer, stamp, _) =>
      var i := FindLive(w.sessions, token);
      if !policy || i == |w.sessions| then None
      else if w.sessions[i].activated then
        if w.sessions[i].channel != channel && transfer then Some(token) else None
      else if stamp && IsValid(w, token, channel, true).0 then Some(token)
      else None
    case DoCreate(stamp, _, _, _) => if stamp then Some(ServerId(Issue(w.ix).0)) else None
    case _ => None
  }

  // ----- Runs -----

  ghost predicate Healthy(r: Record) {
    Owned(Keys(r.w.sessions), r.w.g, r.w.ix, r.given) && AtRest(r.w) && Timed(r.w.sessions, r.since)
  }

  /** Whatever else the server does to the address space keeps its nodes and reuses no session's
      identifier. The browse services leave points of live sessions, or change points that are there. */
  ghost predicate Possible(r: Record, c: Call) {
    match c
    case GrowSpace(g, ix) =>
      && KeepsAll(r.w.g, g) && NonDangling(g) && IdsSpent(g, ix) && Later(r.w.ix, ix) && NULL_ID !in g
      && forall k :: k in g && k !in r.w.g ==> k !in r.given
    case ChangePoints(points) =>
      forall p :: p in points ==> HasPoint(r.w, p.session) || First(r.w.sessions, p.session) < |r.w.sessions|
    case _ => true
  }

  /** A continuation point of the session with the token is outstanding. */
  ghost predicate HasPoint(w: Server, token: NodeId) {
    exists p :: p in w.points && p.session == token
  }

  function After(w: Server, c: Call): Server {
    match c
    case DoCreate(stamp, channel, name, checks) => CreateSession(w, stamp, channel, name, checks).1
    case DoActivate(token, channel, policy, transfer, stamp, identity) =>
      ActivateSession(w, token, channel, policy, transfer, stamp, identity).1
    case DoGate(token, channel, stamp) => Gate(w, token, channel, stamp).1
    case DoClose(token, channel, stamp) => CloseSession(w, token, channel, stamp).1
    case DoTick(elapsed) => Tick(w, elapsed)
    case GrowSpace(g, ix) => w.(g := g, ix := ix)
    case ChangePoints(points) => w.(points := points)
  }

  function Step(r: Record, c: Call): Record {
    var contact := Contact(r.w, c);
    var aged := if c.DoTick? then map t | t in r.since :: r.since[t] + c.elapsed else r.since;
    Record(After(r.w, c),
           if contact.Some? then aged[contact.value := 0] else aged,
           if c.DoCreate? && c.stamp then r.given + {ServerId(Issue(Issue(r.w.ix).1).0)} else r.given)
  }

  lemma CreateKeeps(r: Record, channel: nat, name: Option<string>, checks: bool)
    requires Healthy(r)
    ensures Healthy(Step(r, DoCreate(true, channel, name, checks)))
  {
    NewToken(r);
    if checks {
      CreatedIsOwned(r.w, r.given, channel, name);
      CreatedIsTimed(r, channel, name);
    } else {
      FailedIsOwned(r.w, r.given, channel, name);
      FailedIsGone(r, channel, name);
    }
  }

  lemma AddedIsOwned(w: Server, given: set<NodeId>, channel: nat, name: Option<string>)
    requires Owned(Keys(w.sessions), w.g, w.ix, given)
    ensures var w1 := AddSession(w, channel, name);
      Owned(Keys(w1.sessions), w1.g, w1.ix, given + {ServerId(Issue(Issue(w.ix).1).0)})
  {
    AddKeepsOwned(Keys(w.sessions), w.g, w.ix, given, name);
    var w1 := AddSession(w, channel, name);
    assert Keys(w1.sessions) == Keys(w.sessions) + [Key(w1.sessions[|w.sessions|])];
  }

  lemma CreatedIsOwned(w: Server, given: set<NodeId>, channel: nat, name: Option<string>)
    requires Owned(Keys(w.sessions), w.g, w.ix, given)
    ensures var w1 := CreateSession(w, true, channel, name, true).1;
      Owned(Keys(w1.sessions), w1.g, w1.ix, given + {ServerId(Issue(Issue(w.ix).1).0)})
  {
    AddedIsOwned(w, given, channel, name);
    var w1, n := AddSession(w, channel, name), |w.sessions|;
    var s := w1.sessions[n].(timeout := SESSION_TIMEOUT);
    SameKeys(w1.sessions, n, s);
    SameKeys(w1.sessions[n := s], n, s.(busy := false));
  }

  lemma FailedIsOwned(w: Server, given: set<NodeId>, channel: nat, name: Option<string>)
    requires Owned(Keys(w.sessions), w.g, w.ix, given)
    ensures var w1 := CreateSession(w, true, channel, name, false).1;
      Owned(Keys(w1.sessions), w1.g, w1.ix, given + {ServerId(Issue(Issue(w.ix).1).0)})
  {
    AddedIsOwned(w, given, channel, name);
    var w1, n := AddSession(w, channel, name), |w.sessions|;
    var s := w1.sessions[n].(timeout := SESSION_TIMEOUT);
    SameKeys(w1.sessions, n, s);
    RemoveKeepsOwned(w1.(sessions := w1.sessions[n := s]), given + {ServerId(Issue(Issue(w.ix).1).0)}, s.token);
  }

  lemma NewToken(r: Record)
    requires Healthy(r)
    ensures forall i :: 0 <= i < |r.w.sessions| ==> r.w.sessions[i].token != ServerId(Issue(r.w.ix).0)
  {
    IssueIsFresh(r.w.ix);
    forall i | 0 <= i < |r.w.sessions|
      ensures IsSpentId(r.w.ix, r.w.sessions[i].token)
    {
      assert OwnsNode(Keys(r.w.sessions)[i], r.w.g, r.w.ix, r.given);
    }
  }

  lemma CreatedIsTimed(r: Record, channel: nat, name: Option<string>)
    requires Timed(r.w.sessions, r.since) && AtRest(r.w)
    requires forall i :: 0 <= i < |r.w.sessions| ==> r.w.sessions[i].token != ServerId(Issue(r.w.ix).0)
    ensures var w1 := CreateSession(r.w, true, channel, name, true).1;
      AtRest(w1) && Timed(w1.sessions, r.since[ServerId(Issue(r.w.ix).0) := 0])
  {
  }

  lemma FailedIsGone(r: Record, channel: nat, name: Option<string>)
    requires forall i :: 0 <= i < |r.w.sessions| ==> r.w.sessions[i].token != ServerId(Issue(r.w.ix).0)
    requires AtRest(r.w) && Timed(r.w.sessions, r.since)
    ensures var w1 := CreateSession(r.w, true, channel, name, false).1;
      && w1.sessions == r.w.sessions && AtRest(w1)
      && Timed(w1.sessions, r.since[ServerId(Issue(r.w.ix).0) := 0])
  {
    var w1, n := AddSession(r.w, channel, name), |r.w.sessions|;
    var sessions := w1.sessions[n := w1.sessions[n].(timeout := SESSION_TIMEOUT)];
    assert sessions == r.w.sessions + [sessions[n]];
    FirstIsLast(r.w.sessions, sessions[n]);
  }

  lemma FirstIsLast(sessions: seq<Session>, s: Session)
    requires forall i :: 0 <= i < |sessions| ==> sessions[i].token != s.token
    ensures var all := sessions + [s];
      First(all, s.token) == |sessions| && all[..|sessions|] + all[|sessions| + 1..] == sessions
  {
    var all := sessions + [s];
    assert forall i :: 0 <= i < |sessions| ==> all[i] == sessions[i];
    assert all[|sessions|].token == s.token;
  }

  /** Setting fields of the session with the token, with or without a contact. */
  lemma UpdateKeeps(r: Record, i: nat, s: Session, contact: bool)
    requires Healthy(r) && i < |r.w.sessions| && Key(s) == Key(r.w.sessions[i])
    requires !s.busy && s.timeout == SESSION_TIMEOUT && s.idle <= if contact then 0 else r.since[s.token]
    requires s.token in r.since
    ensures Healthy(Record(r.w.(sessions := r.w.sessions[i := s]), if contact then r.since[s.token := 0] else r.since, r.given))
  {
    SameKeys(r.w.sessions, i, s);
    OwnedMeansDistinct(r.w.sessions, r.w.g, r.w.ix, r.given);
    assert forall j :: 0 <= j < |r.w.sessions| && j != i ==> r.w.sessions[j].token != s.token;
  }

  lemma ValidKeeps(r: Record, token: NodeId, channel: nat, override: bool)
    requires Healthy(r)
    ensures var (valid, w1) := IsValid(r.w, token, channel, override);
      Healthy(Record(w1, if valid then r.since[token := 0] else r.since, r.given))
  {
    var i := FindLive(r.w.sessions, token);
    if i < |r.w.sessions| {
      UpdateKeeps(r, i, r.w.sessions[i].(idle := 0), true);
    }
  }

  lemma RemovalKeeps(r: Record, token: NodeId, points: seq<Point>)
    requires Healthy(r)
    ensures Healthy(r.(w := RemoveSession(r.w.(points := points), token)))
  {
    RemoveKeepsOwned(r.w.(points := points), r.given, token);
    var i := First(r.w.sessions, token);
    if i < |r.w.sessions| {
      RestIsTimed(r.w.sessions, i, r.since);
    }
  }

  lemma RestIsTimed(sessions: seq<Session>, i: nat, since: map<NodeId, nat>)
    requires i < |sessions| && Timed(sessions, since) && forall j :: 0 <= j < |sessions| ==> !sessions[j].busy
    ensures var rest := sessions[..i] + sessions[i + 1..];
      Timed(rest, since) && forall j :: 0 <= j < |rest| ==> !rest[j].busy
  {
  }

  lemma ActivateKeeps(r: Record, c: Call)
    requires Healthy(r) && c.DoActivate?
    ensures Healthy(Step(r, c))
  {
    var i := FindLive(r.w.sessions, c.token);
    if i < |r.w.sessions| && c.policy {
      var s := r.w.sessions[i];
      if s.activated {
        UpdateKeeps(r, i, s.(channel := c.channel, idle := 0), true);
      } else {
        ValidKeeps(r, c.token, c.channel, true);
        var (valid, w1) := IsValid(r.w, c.token, c.channel, true);
        UpdateKeeps(Record(w1, if valid then r.since[c.token := 0] else r.since, r.given), i, w1.sessions[i].(activated := true), false);
      }
    }
  }

  lemma TickKeeps(r: Record, elapsed: nat)
    requires Healthy(r)
    ensures Healthy(Step(r, DoTick(elapsed)))
  {
    TickKeepsOwned(r.w, r.given, 0, elapsed);
    OwnedMeansDistinct(r.w.sessions, r.w.g, r.w.ix, r.given);
    TickIsTimed(r.w, elapsed, r.since);
  }

  lemma TickIsTimed(w: Server, elapsed: nat, since: map<NodeId, nat>)
    requires AtRest(w) && DistinctTokens(w.sessions) && Timed(w.sessions, since)
    ensures AtRest(Tick(w, elapsed)) && Timed(Tick(w, elapsed).sessions, map t | t in since :: since[t] + elapsed)
  {
    TickPasses(w, elapsed);
    var after := Tick(w, elapsed).sessions;
    forall i | 0 <= i < |after|
      ensures after[i].timeout == SESSION_TIMEOUT && after[i].token in since && after[i].idle <= since[after[i].token] + elapsed
    {
      PassedExactly(w.sessions, elapsed, false, after[i].token);
      assert after[i] in after;
      var k: nat :| IsAfter(w.sessions, elapsed, false, k, after[i]);
    }
  }

  lemma StepKeeps(r: Record, c: Call)
    requires Healthy(r) && Possible(r, c)
    ensures Healthy(Step(r, c))
  {
    match c
    case DoCreate(stamp, channel, name, checks) =>
      if stamp {
        CreateKeeps(r, channel, name, checks);
      }
    case DoActivate(_, _, _, _, _, _) => ActivateKeeps(r, c);
    case DoGate(token, channel, stamp) => GateKeeps(r, token, channel, stamp);
    case DoClose(token, channel, stamp) => CloseKeeps(r, token, channel, stamp);
    case DoTick(elapsed) => TickKeeps(r, elapsed);
    case GrowSpace(g, ix) => GrowKeeps(r, g, ix);
    case ChangePoints(points) =>
  }

  lemma PassKeeps(r: Record, token: NodeId, channel: nat)
    requires Healthy(r)
    ensures var (valid, w1) := IsValid(r.w, token, channel, false);
      var since := if valid then r.since[token := 0] else r.since;
      && Healthy(Record(w1, since, r.given))
      && Healthy(Record(RemoveSession(w1.(points := Purge(w1.points, token, |w1.points|)), token), since, r.given))
  {
    ValidKeeps(r, token, channel, false);
    var (valid, w1) := IsValid(r.w, token, channel, false);
    RemovalKeeps(Record(w1, if valid then r.since[token := 0] else r.since, r.given), token, Purge(w1.points, token, |w1.points|));
  }

  lemma GateKeeps(r: Record, token: NodeId, channel: nat, stamp: bool)
    requires Healthy(r)
    ensures Healthy(Step(r, DoGate(token, channel, stamp)))
  {
    PassKeeps(r, token, channel);
  }

  lemma CloseKeeps(r: Record, token: NodeId, channel: nat, stamp: bool)
    requires Healthy(r)
    ensures Healthy(Step(r, DoClose(token, channel, stamp)))
  {
    PassKeeps(r, token, channel);
  }

  lemma GrowKeeps(r: Record, g: Graph, ix: Index)
    requires Healthy(r) && Possible(r, GrowSpace(g, ix))
    ensures Healthy(r.(w := r.w.(g := g, ix := ix)))
  {
    var keys := Keys(r.w.sessions);
    forall i | 0 <= i < |keys|
      ensures OwnsNode(keys[i], g, ix, r.given)
    {
      assert OwnsNode(keys[i], r.w.g, r.w.ix, r.given);
      assert Kept(r.w.g[keys[i].1], g[keys[i].1]);
    }
  }

  ghost predicate Run(records: seq<Record>, calls: seq<Call>) {
    && |records| == |calls| + 1 && Healthy(records[0])
    && forall i :: 0 <= i < |calls| ==> Possible(records[i], calls[i]) && records[i + 1] == Step(records[i], calls[i])
  }

  /** A server without sessions on any address space that is in order is a start. */
  lemma StartIsHealthy(s: State, points: seq<Point>)
    requires Sane(s)
    ensures Healthy(Record(Server([], false, 0, s.ix, s.g, points), map[], {}))
  {
  }

  /** Over every run: live sessions have distinct tokens and identifiers, each owns an object node of
      its own, no identifier of a session that is gone names a node, and no session has idled longer
      than since its last accepted contact. */
  lemma {:induction false} RunsStayHealthy(records: seq<Record>, calls: seq<Call>, i: nat)
    requires Run(records, calls) && i < |records|
    ensures Healthy(records[i])
  {
    if i > 0 {
      RunsStayHealthy(records, calls, i - 1);
      StepKeeps(records[i - 1], calls[i - 1]);
    }
  }

  /** A session disappears at a tick only when more than the timeout has passed since its last accepted
      contact. */
  lemma TimerIsPatient(records: seq<Record>, calls: seq<Call>, i: nat, k: nat)
    requires Run(records, calls) && i < |calls| && calls[i].DoTick?
    requires k < |records[i].w.sessions|
    requires forall t :: t in records[i + 1].w.sessions ==> t.token != records[i].w.sessions[k].token
    ensures var token := records[i].w.sessions[k].token;
      token in records[i + 1].since && records[i + 1].since[token] > SESSION_TIMEOUT
  {
    RunsStayHealthy(records, calls, i);
    OwnedMeansDistinct(records[i].w.sessions, records[i].w.g, records[i].w.ix, records[i].given);
    TickExactly(records[i].w, calls[i].elapsed, k);
  }

  // ----- When idle times are exact -----

  /** The idle time of the session with the token. */
  function IdleOf(sessions: seq<Session>, token: NodeId): Option<nat> {
    var i := First(sessions, token);
    if i < |sessions| then Some(sessions[i].idle) else None
  }

  lemma IdleIs(sessions: seq<Session>, i: nat)
    requires i < |sessions| && DistinctTokens(sessions)
    ensures IdleOf(sessions, sessions[i].token) == Some(sessions[i].idle)
  {
    FirstIs(sessions, i);
  }

  lemma IdleIsNone(sessions: seq<Session>, token: NodeId)
    requires forall i :: 0 <= i < |sessions| ==> sessions[i].token != token
    ensures IdleOf(sessions, token) == None
  {
  }

  lemma IdleAfterUpdate(sessions: seq<Session>, i: nat, s: Session, token: NodeId)
    requires i < |sessions| && DistinctTokens(sessions) && s.token == sessions[i].token
    ensures IdleOf(sessions[i := s], token) == if token == s.token then Some(s.idle) else IdleOf(sessions, token)
  {
    var after := sessions[i := s];
    if token == s.token {
      IdleIs(after, i);
    } else if k :| 0 <= k < |sessions| && sessions[k].token == token {
      IdleIs(sessions, k);
      IdleIs(after, k);
    } else {
      IdleIsNone(after, token);
    }
  }

  lemma IdleAfterRemoval(sessions: seq<Session>, i: nat, token: NodeId)
    requires i < |sessions| && DistinctTokens(sessions)
    ensures var after := sessions[..i] + sessions[i + 1..];
      IdleOf(after, token) == if token == sessions[i].token then None else IdleOf(sessions, token)
  {
    var after := sessions[..i] + sessions[i + 1..];
    RestDiffers(sessions, i);
    assert forall j :: 0 <= j < |after| ==> after[j] == sessions[if j < i then j else j + 1];
    if token == sessions[i].token {
      IdleIsNone(after, token);
    } else if k :| 0 <= k < |sessions| && sessions[k].token == token {
      IdleIs(sessions, k);
      IdleIs(after, if k < i then k else k - 1);
    } else {
      IdleIsNone(after, token);
    }
  }

  lemma IdleAfterRemove(w: Server, gone: NodeId, token: NodeId)
    requires DistinctTokens(w.sessions)
    ensures IdleOf(RemoveSession(w, gone).sessions, token) == if token == gone then None else IdleOf(w.sessions, token)
  {
    var i := First(w.sessions, gone);
    if i < |w.sessions| {
      IdleAfterRemoval(w.sessions, i, token);
    }
  }

  lemma IdleAfterValid(w: Server, called: NodeId, channel: nat, override: bool, token: NodeId)
    requires DistinctTokens(w.sessions)
    ensures var (valid, w1) := IsValid(w, called, channel, override);
      DistinctTokens(w1.sessions) && IdleOf(w1.sessions, token) == if valid && token == called then Some(0) else IdleOf(w.sessions, token)
  {
    var i := FindLive(w.sessions, called);
    if i < |w.sessions| {
      IdleAfterUpdate(w.sessions, i, w.sessions[i].(idle := 0), token);
    }
  }

  lemma IdleAfterActivate(w: Server, c: Call, token: NodeId)
    requires DistinctTokens(w.sessions) && c.DoActivate?
    ensures IdleOf(After(w, c).sessions, token) == if Contact(w, c) == Some(token) then Some(0) else IdleOf(w.sessions, token)
  {
    var i := FindLive(w.sessions, c.token);
    if i < |w.sessions| && c.policy {
      var s := w.sessions[i];
      if s.activated {
        IdleAfterUpdate(w.sessions, i, s.(channel := c.channel, idle := 0), token);
      } else {
        IdleAfterValid(w, c.token, c.channel, true, token);
        var w1 := IsValid(w, c.token, c.channel, true).1;
        IdleAfterUpdate(w1.sessions, i, w1.sessions[i].(activated := true), token);
        IdleIs(w1.sessions, i);
      }
    }
  }

  lemma IdleAfterCreate(r: Record, channel: nat, name: Option<string>, checks: bool, token: NodeId)
    requires Healthy(r) && token != ServerId(Issue(r.w.ix).0)
    ensures IdleOf(CreateSession(r.w, true, channel, name, checks).1.sessions, token) == IdleOf(r.w.sessions, token)
  {
    NewToken(r);
    OwnedMeansDistinct(r.w.sessions, r.w.g, r.w.ix, r.given);
    if checks {
      IdleAfterAppend(r.w.sessions, CreateSession(r.w, true, channel, name, true).1.sessions[|r.w.sessions|], token);
      var after := CreateSession(r.w, true, channel, name, true).1.sessions;
      assert after == r.w.sessions + [after[|r.w.sessions|]];
    } else {
      FailedIsGone(r, channel, name);
    }
  }

  lemma {:induction false} IdleAfterAppend(sessions: seq<Session>, s: Session, token: NodeId)
    requires s.token != token
    ensures IdleOf(sessions + [s], token) == IdleOf(sessions, token)
  {
    var all := sessions + [s];
    var i := First(sessions, token);
    assert forall j :: 0 <= j < |sessions| ==> all[j] == sessions[j];
    if i < |sessions| {
      assert First(all, token) == i;
    } else {
      assert First(all, token) == |all|;
    }
  }

  /** A step other than a tick removes the session, or sets its idle time to zero exactly when its
      contact is accepted. */
  lemma IdleAfterCall(r: Record, c: Call, token: NodeId)
    requires Healthy(r) && Possible(r, c) && !c.DoTick? && IdleOf(r.w.sessions, token).Some?
    ensures var after := IdleOf(Step(r, c).w.sessions, token);
      after == None || after == if Contact(r.w, c) == Some(token) then Some(0) else IdleOf(r.w.sessions, token)
  {
    OwnedMeansDistinct(r.w.sessions, r.w.g, r.w.ix, r.given);
    match c
    case DoCreate(stamp, channel, name, checks) =>
      NewToken(r);
      if stamp {
        IdleAfterCreate(r, channel, name, checks, token);
      }
    case DoActivate(_, _, _, _, _, _) => IdleAfterActivate(r.w, c, token);
    case DoGate(called, channel, _) => IdleAfterPass(r.w, called, channel, token);
    case DoClose(called, channel, _) => IdleAfterPass(r.w, called, channel, token);
    case GrowSpace(g, ix) =>
    case ChangePoints(points) =>
  }

  lemma IdleAfterPass(w: Server, called: NodeId, channel: nat, token: NodeId)
    requires DistinctTokens(w.sessions)
    ensures var (valid, w1) := IsValid(w, called, channel, false);
      var idle := if valid && token == called then Some(0) else IdleOf(w.sessions, token);
      && IdleOf(w1.sessions, token) == idle
      && IdleOf(RemoveSession(w1.(points := Purge(w1.points, called, |w1.points|)), called).sessions, token)
         == if token == called then None else idle
  {
    IdleAfterValid(w, called, channel, false, token);
    var w1 := IsValid(w, called, channel, false).1;
    IdleAfterRemove(w1.(points := Purge(w1.points, called, |w1.points|)), called, token);
  }

  /** A tick ages the session unless it is skipped, or removes it. */
  lemma IdleAfterTick(w: Server, elapsed: nat, token: NodeId)
    requires AtRest(w) && DistinctTokens(w.sessions) && DistinctTokens(Tick(w, elapsed).sessions)
    requires IdleOf(w.sessions, token).Some?
    ensures var k, after := First(w.sessions, token), IdleOf(Tick(w, elapsed).sessions, token);
      after == None || after == Some(w.sessions[k].idle + if Skipped(w.sessions, elapsed, k) then 0 else elapsed)
  {
    var k, after := First(w.sessions, token), Tick(w, elapsed).sessions;
    TickExactly(w, elapsed, k);
    var s := w.sessions[k];
    var t := if Skipped(w.sessions, elapsed, k) then s else s.(idle := s.idle + elapsed);
    if t in after {
      var i :| 0 <= i < |after| && after[i] == t;
      IdleIs(after, i);
    } else {
      IdleIsNone(after, token);
    }
  }

  /** The idle time is the time since the last accepted contact. */
  predicate Exact(r: Record, token: NodeId) {
    token in r.since && IdleOf(r.w.sessions, token) == Some(r.since[token])
  }

  /** The call is a tick that passes the session over. */
  predicate PassesOver(r: Record, c: Call, token: NodeId) {
    && c.DoTick? && c.elapsed > 0
    && First(r.w.sessions, token) < |r.w.sessions|
    && Skipped(r.w.sessions, c.elapsed, First(r.w.sessions, token))
  }

  /** As long as a session lives, its idle time is exact after a step exactly when the step is an
      accepted contact, or it was exact and the step does not pass the session over. */
  lemma ExactAfterIff(r: Record, c: Call, token: NodeId)
    requires Healthy(r) && Possible(r, c)
    requires IdleOf(r.w.sessions, token).Some? && IdleOf(Step(r, c).w.sessions, token).Some?
    ensures Exact(Step(r, c), token) <==> Contact(r.w, c) == Some(token) || (Exact(r, token) && !PassesOver(r, c, token))
  {
    var k := First(r.w.sessions, token);
    assert r.w.sessions[k].token in r.since && r.w.sessions[k].idle <= r.since[token];
    if c.DoTick? {
      OwnedMeansDistinct(r.w.sessions, r.w.g, r.w.ix, r.given);
      StaysDistinct(r, c);
      ExactAfterTickIff(r, c, token);
    } else {
      IdleAfterCall(r, c, token);
      ExactAfterCallIff(r, c, token);
    }
  }

  lemma ExactAfterTickIff(r: Record, c: Call, token: NodeId)
    requires c.DoTick? && AtRest(r.w) && DistinctTokens(r.w.sessions) && DistinctTokens(After(r.w, c).sessions)
    requires IdleOf(r.w.sessions, token).Some? && IdleOf(After(r.w, c).sessions, token).Some?
    requires token in r.since && IdleOf(r.w.sessions, token).value <= r.since[token]
    ensures Exact(Step(r, c), token) <==> Exact(r, token) && !PassesOver(r, c, token)
  {
    IdleAfterTick(r.w, c.elapsed, token);
  }

  lemma ExactAfterCallIff(r: Record, c: Call, token: NodeId)
    requires !c.DoTick? && token in r.since && IdleOf(r.w.sessions, token).Some?
    requires IdleOf(After(r.w, c).sessions, token)
      == if Contact(r.w, c) == Some(token) then Some(0) else IdleOf(r.w.sessions, token)
    ensures Exact(Step(r, c), token) <==> Contact(r.w, c) == Some(token) || Exact(r, token)
  {
  }

  lemma StaysDistinct(r: Record, c: Call)
    requires Healthy(r) && Possible(r, c)
    ensures DistinctTokens(After(r.w, c).sessions)
  {
    StepKeeps(r, c);
    var r1 := Step(r, c);
    OwnedMeansDistinct(r1.w.sessions, r1.w.g, r1.w.ix, r1.given);
  }

  /** Every session starts exact. */
  lemma CreatedIsExact(r: Record, channel: nat, name: Option<string>)
    requires Healthy(r)
    ensures Exact(Step(r, DoCreate(true, channel, name, true)), ServerId(Issue(r.w.ix).0))
  {
    NewToken(r);
    var after := CreateSession(r.w, true, channel, name, true).1.sessions;
    assert after == r.w.sessions + [after[|r.w.sessions|]];
    FirstIsLast(r.w.sessions, after[|r.w.sessions|]);
  }

  /** Passed over, and no contact accepted since. */
  predicate Behind(records: seq<Record>, calls: seq<Call>, token: NodeId, start: nat, j: nat)
    requires start <= j <= |calls| && |records| == |calls| + 1
    decreases j
  {
    start < j && Contact(records[j - 1].w, calls[j - 1]) != Some(token)
    && (PassesOver(records[j - 1], calls[j - 1], token) || Behind(records, calls, token, start, j - 1))
  }

  /** What a call does to exactness. */
  ghost predicate StepsExactly(records: seq<Record>, calls: seq<Call>, token: NodeId, m: nat)
    requires m < |calls| && |records| == |calls| + 1
  {
    Exact(records[m + 1], token) <==>
      Contact(records[m].w, calls[m]) == Some(token) || (Exact(records[m], token) && !PassesOver(records[m], calls[m], token))
  }

  lemma {:induction false} ExactIffNotBehind(records: seq<Record>, calls: seq<Call>, token: NodeId, start: nat, j: nat)
    requires start <= j <= |calls| && |records| == |calls| + 1 && Exact(records[start], token)
    requires forall m :: start <= m < j ==> StepsExactly(records, calls, token, m)
    ensures Exact(records[j], token) <==> !Behind(records, calls, token, start, j)
    decreases j
  {
    if start < j {
      assert StepsExactly(records, calls, token, j - 1);
      ExactIffNotBehind(records, calls, token, start, j - 1);
    }
  }

  lemma {:induction false} CaughtUpIffNotBehind(records: seq<Record>, calls: seq<Call>, token: NodeId, start: nat, j: nat)
    requires start <= j <= |calls| && |records| == |calls| + 1
    ensures CaughtUp(records, calls, token, start, j) <==> !Behind(records, calls, token, start, j)
    decreases j
  {
    if start < j {
      CaughtUpIffNotBehind(records, calls, token, start, j - 1);
      CaughtUpStep(records, calls, token, start, j - 1);
    }
  }

  /** Over any stretch of a run through which a session lives, its idle time is exact at the end exactly
      when every tick that passed it over was followed by an accepted contact. */
  lemma ExactIffNotPassedOver(records: seq<Record>, calls: seq<Call>, token: NodeId, start: nat, j: nat)
    requires Run(records, calls) && start <= j < |records| && Exact(records[start], token)
    requires forall m :: start <= m <= j ==> IdleOf(records[m].w.sessions, token).Some?
    ensures Exact(records[j], token) <==> CaughtUp(records, calls, token, start, j)
  {
    forall m | start <= m < j
      ensures StepsExactly(records, calls, token, m)
    {
      ExactInRun(records, calls, token, m);
    }
    ExactIffNotBehind(records, calls, token, start, j);
    CaughtUpIffNotBehind(records, calls, token, start, j);
  }

  lemma ExactInRun(records: seq<Record>, calls: seq<Call>, token: NodeId, j: nat)
    requires Run(records, calls) && j < |calls|
    requires IdleOf(records[j].w.sessions, token).Some? && IdleOf(records[j + 1].w.sessions, token).Some?
    ensures StepsExactly(records, calls, token, j)
  {
    RunsStayHealthy(records, calls, j);
    ExactAfterIff(records[j], calls[j], token);
  }

  ghost predicate CaughtUp(records: seq<Record>, calls: seq<Call>, token: NodeId, start: nat, j: nat)
    requires start <= j <= |calls| && |records| == |calls| + 1
  {
    forall m :: start <= m < j && PassesOver(records[m], calls[m], token) ==>
      exists n :: m < n < j && Contact(records[n].w, calls[n]) == Some(token)
  }

  lemma CaughtUpStep(records: seq<Record>, calls: seq<Call>, token: NodeId, start: nat, j: nat)
    requires start <= j < |calls| && |records| == |calls| + 1
    ensures CaughtUp(records, calls, token, start, j + 1) <==>
      Contact(records[j].w, calls[j]) == Some(token)
      || (CaughtUp(records, calls, token, start, j) && !PassesOver(records[j], calls[j], token))
  {
    if Contact(records[j].w, calls[j]) != Some(token) && CaughtUp(records, calls, token, start, j + 1) {
      forall m | start <= m < j && PassesOver(records[m], calls[m], token)
        ensures exists n :: m < n < j && Contact(records[n].w, calls[n]) == Some(token)
      {
        var n :| m < n < j + 1 && Contact(records[n].w, calls[n]) == Some(token);
      }
    }
  }

  // ----- The life of a session -----

  lemma {:induction false} WithoutNone(refs: seq<Ref>, id: NodeId)
    requires forall i :: 0 <= i < |refs| ==> refs[i].target != id
    ensures Without(refs, id) == refs
  {
    if refs != [] {
      var init, last := refs[..|refs| - 1], refs[|refs| - 1];
      assert refs == init + [last];
      WithoutNone(init, id);
      WithoutLast(init, last, id);
      WithoutOne(last, id);
    }
  }

  ghost predicate NoRuleNames(g: Graph, id: NodeId) {
    forall k, r :: k in g && r in g[k].refs && r.refType == HAS_MODELLING_RULE ==> r.target != id
  }

  /** Removing a node that was just added restores the graph exactly when no modelling rule named its
      identifier before. */
  lemma RemoveUndoesAddIff(g: Graph, id: NodeId, rec: NodeRec)
    requires NonDangling(g) && NULL_ID !in g && id !in g && id != NULL_ID
    ensures RemoveNode(g[id := rec], id) == g <==> NoRuleNames(g, id)
  {
    if NoRuleNames(g, id) {
      forall k | k in g
        ensures g[k].(refs := Without(g[k].refs, id)) == g[k]
      {
        assert forall i :: 0 <= i < |g[k].refs| ==> g[k].refs[i] in g[k].refs;
        WithoutNone(g[k].refs, id);
      }
    } else {
      var k, r :| k in g && r in g[k].refs && r.refType == HAS_MODELLING_RULE && r.target == id;
      assert r !in Without(g[k].refs, id);
    }
  }

  /** A new session passes the gate only once it is activated, and then on its channel. */
  lemma ActivationOpensGate(r: Record, channel: nat, name: Option<string>, other: nat)
    requires Healthy(r)
    ensures var w1 := CreateSession(r.w, true, channel, name, true).1;
      var token := ServerId(Issue(r.w.ix).0);
      var (status, w2) := ActivateSession(w1, token, other, true, true, true, true);
      && Gate(w1, token, channel, true).0 == BadSessionNotActivated
      && status == Good && Gate(w2, token, channel, true).0 == Good
      && (other != channel ==> Gate(w2, token, other, true).0 == BadSecureChannelIdInvalid)
  {
    NewToken(r);
    var w1, n := CreateSession(r.w, true, channel, name, true).1, |r.w.sessions|;
    LastIsFound(w1.sessions, ServerId(Issue(r.w.ix).0));
    var w2 := ActivateSession(w1, ServerId(Issue(r.w.ix).0), other, true, true, true, true).1;
    LastIsFound(w2.sessions, ServerId(Issue(r.w.ix).0));
  }

  lemma LastIsFound(sessions: seq<Session>, token: NodeId)
    requires sessions != []
    ensures var s := sessions[|sessions| - 1];
      s.token == token && s.idle <= s.timeout ==> FindLive(sessions, token) == |sessions| - 1
  {
  }

  /** A session that is created, activated and closed leaves no trace: the table is as before, its token
      opens nothing any more, and the address space is as before unless a modelling rule happened to name
      the session's identifier. */
  lemma ClosedSessionLeavesNoTrace(r: Record, channel: nat, name: Option<string>)
    requires Healthy(r)
    ensures var w1 := CreateSession(r.w, true, channel, name, true).1;
      var token := ServerId(Issue(r.w.ix).0);
      var w2 := ActivateSession(w1, token, channel, true, true, true, true).1;
      var (status, w3) := CloseSession(w2, token, channel, true);
      && status == Good && w3.sessions == r.w.sessions
      && (w3.g == r.w.g <==> NoRuleNames(r.w.g, ServerId(Issue(Issue(r.w.ix).1).0)))
      && Gate(w3, token, channel, true).0 == BadSessionIdInvalid
  {
    NewToken(r);
    var token, n := ServerId(Issue(r.w.ix).0), |r.w.sessions|;
    var w1 := CreateSession(r.w, true, channel, name, true).1;
    LastIsFound(w1.sessions, token);
    var w2 := ActivateSession(w1, token, channel, true, true, true, true).1;
    assert w2.sessions == r.w.sessions + [w2.sessions[n]];
    LastIsFound(w2.sessions, token);
    var w3 := IsValid(w2, token, channel, false).1;
    assert w3.sessions == r.w.sessions + [w3.sessions[n]];
    FirstIsLast(r.w.sessions, w3.sessions[n]);
    IssueIsFresh(r.w.ix);
    IssueIsFresh(Issue(r.w.ix).1);
    RemoveUndoesAddIff(r.w.g, ServerId(Issue(Issue(r.w.ix).1).0), SessionNode(name));
  }
}
