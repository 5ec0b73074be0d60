/** The session manager and the session services on their tables (SessionManager.c, Session.c and the
    gate of ExposedFunctions.h). The methods compute the functions of `Sessions`. */
module SessionManagers {
  import opened OpcTypes
  import opened Indexing
  import opened Graphs
  import opened Cloning
  import opened GraphRuns
  import opened AddressSpaces
  import opened Continuing
  import opened Sessions

  class ClientSession {
    const token: NodeId
    const id: NodeId
    var channel: nat
    var timeout: nat
    var idle: nat
    var activated: bool
    var busy: bool

    function Val(): Session
      reads this
    {
      Session(token, id, channel, timeout, idle, activated, busy)
    }

    constructor (token: NodeId, id: NodeId, channel: nat)
      ensures Val() == Session(token, id, channel, 0, 0, false, true)
    {
      this.token, this.id, this.channel := token, id, channel;
      timeout, idle, activated, busy := 0, 0, false, true;
    }
  }

  /** `view` is what the sessions of the table hold, in order. */
  class SessionManager {
    var sessions: seq<ClientSession>
    var capacity: nat
    var mutating: bool
    var accumulated: nat
    ghost var view: seq<Session>
    ghost var objects: set<ClientSession>

    ghost predicate Valid()
      reads this, objects
    {
      && |sessions| <= capacity && |view| == |sessions|
      && (forall i :: 0 <= i < |sessions| ==> sessions[i] in objects && sessions[i].Val() == view[i])
      && forall i, j :: 0 <= i < j < |sessions| ==> sessions[i] != sessions[j]
    }

    constructor ()
      ensures Valid() && view == [] && !mutating && accumulated == 0
    {
      sessions, capacity, mutating, accumulated := [], 10, false, 0;
      view, objects := [], {};
    }

    /** Sets the changeable fields of one session. */
    method Update(i: nat, s: Session)
      requires Valid() && i < |sessions| && s.token == view[i].token && s.id == view[i].id
      modifies `view, objects
      ensures Valid() && view == old(view)[i := s]
    {
      var target := sessions[i];
      target.channel, target.timeout, target.idle := s.channel, s.timeout, s.idle;
      target.activated, target.busy := s.activated, s.busy;
      view := view[i := s];
    }

    /** The last session with the token that has not idled too long. */
    method GetSession(token: NodeId) returns (found: nat)
      requires Valid()
      ensures found == FindLive(view, token)
    {
      found := |sessions|;
      var i := 0;
      while i < |sessions|
        invariant 0 <= i <= |sessions| && (found < i || found == |sessions|)
        invariant found < i ==> view[found].token == token && view[found].idle <= view[found].timeout
        invariant forall j :: 0 <= j < i && (found == |sessions| || found < j) && view[j].token == token ==>
          view[j].idle > view[j].timeout
      {
        var s := sessions[i];
        assert s.Val() == view[i];
        if s.token == token && s.idle <= s.timeout {
          found := i;
        }
        i := i + 1;
      }
    }

    method FirstWith(token: NodeId) returns (i: nat)
      requires Valid()
      ensures i == First(view, token)
    {
      i := 0;
      while i < |sessions|
        invariant i <= |sessions| && forall j :: 0 <= j < i ==> view[j].token != token
      {
        assert sessions[i].Val() == view[i];
        if sessions[i].token == token {
          return;
        }
        i := i + 1;
      }
    }

    /** Shifts the later sessions down. */
    method Shift(at: nat)
      requires at < |sessions|
      modifies `sessions
      ensures sessions == old(sessions)[..at] + old(sessions)[at + 1..]
    {
      ghost var was := sessions;
      var j := at + 1;
      while j < |sessions|
        invariant at < j <= |sessions| == |was|
        invariant forall k :: 0 <= k < at ==> sessions[k] == was[k]
        invariant forall k :: at <= k < j - 1 ==> sessions[k] == was[k + 1]
        invariant forall k :: j - 1 <= k < |was| ==> sessions[k] == was[k]
      {
        sessions := sessions[j - 1 := sessions[j]];
        j := j + 1;
      }
      sessions := sessions[..|sessions| - 1];
      assert sessions == was[..at] + was[at + 1..];
    }

    method CloseGap(at: nat)
      requires Valid() && at < |sessions|
      modifies `sessions, `view
      ensures Valid() && view == old(view)[..at] + old(view)[at + 1..]
    {
      ghost var was := sessions;
      Shift(at);
      view := view[..at] + view[at + 1..];
      assert forall k :: 0 <= k < |sessions| ==> sessions[k] == was[if k < at then k else k + 1];
    }

    /** Makes room and appends. */
    method Append(s: ClientSession)
      requires Valid() && s !in objects
      modifies `sessions, `capacity, `view, `objects
      ensures Valid() && view == old(view) + [s.Val()] && objects == old(objects) + {s}
    {
      if |sessions| >= capacity {
        capacity := capacity + 10;
      }
      sessions, view, objects := sessions + [s], view + [s.Val()], objects + {s};
    }
  }

  // ----- The state that the services work on -----

  ghost predicate Ready(m: SessionManager, space: AddressSpace, ix: Indexer, table: Continuer)
    reads m, m.objects, space, space.live, ix, table
  {
    m.Valid() && HasRoom(space) && ix.Valid() && table.Valid()
  }

  ghost predicate HasRoom(space: AddressSpace)
    reads space, space.live
  {
    space.Valid() && Small(space.graph) && |space.nodes| < UINT32
  }

  ghost predicate Small(g: Graph) {
    forall id :: id in g ==> |g[id].refs| < UINT32
  }

  ghost function StateOf(m: SessionManager, space: AddressSpace, ix: Indexer, table: Continuer): Server
    reads m, space, ix, table
  {
    Server(m.view, m.mutating, m.accumulated, ix.State(), space.graph, table.points)
  }

  lemma {:induction false} WithoutIsShorter(refs: seq<Ref>, id: NodeId)
    ensures |Without(refs, id)| <= |refs|
  {
    if refs != [] {
      WithoutIsShorter(refs[..|refs| - 1], id);
    }
  }

  lemma RemoveKeepsSmall(g: Graph, id: NodeId)
    requires Small(g)
    ensures Small(Graphs.RemoveNode(g, id))
  {
    forall k | k in Graphs.RemoveNode(g, id)
      ensures |Graphs.RemoveNode(g, id)[k].refs| < UINT32
    {
      WithoutIsShorter(g[k].refs, id);
    }
  }

  // ----- The session manager -----

  /** The node goes first, then the place in the table. */
  method RemoveSession(m: SessionManager, space: AddressSpace, ix: Indexer, table: Continuer, token: NodeId)
    requires Ready(m, space, ix, table)
    modifies m`sessions, m`view, m`mutating, space, space.live
    ensures Ready(m, space, ix, table) && fresh(space.live - old(space.live))
    ensures StateOf(m, space, ix, table) == Sessions.RemoveSession(old(StateOf(m, space, ix, table)), token)
  {
    m.mutating := true;
    TakeOutFirst(m, space, token);
    m.mutating := false;
  }

  method TakeOutFirst(m: SessionManager, space: AddressSpace, token: NodeId)
    requires m.Valid() && HasRoom(space)
    modifies m`sessions, m`view, space, space.live
    ensures m.Valid() && HasRoom(space) && fresh(space.live - old(space.live))
    ensures var i := First(old(m.view), token);
      if i == |old(m.view)| then m.view == old(m.view) && space.graph == old(space.graph)
      else m.view == old(m.view)[..i] + old(m.view)[i + 1..] && space.graph == Graphs.RemoveNode(old(space.graph), old(m.view)[i].id)
  {
    var i := m.FirstWith(token);
    if i < |m.sessions| {
      TakeOut(m, space, i);
    }
  }

  method TakeOut(m: SessionManager, space: AddressSpace, i: nat)
    requires m.Valid() && HasRoom(space) && i < |m.sessions|
    modifies m`sessions, m`view, space, space.live
    ensures m.Valid() && HasRoom(space) && fresh(space.live - old(space.live))
    ensures m.view == old(m.view)[..i] + old(m.view)[i + 1..]
    ensures space.graph == Graphs.RemoveNode(old(space.graph), old(m.view)[i].id)
  {
    assert m.sessions[i].Val() == m.view[i];
    RemoveSessionNode(space, m.sessions[i].id);
    m.CloseGap(i);
  }

  method RemoveSessionNode(space: AddressSpace, id: NodeId)
    requires HasRoom(space)
    modifies space, space.live
    ensures HasRoom(space) && fresh(space.live - old(space.live))
    ensures space.graph == Graphs.RemoveNode(old(space.graph), id)
  {
    RemoveKeepsSmall(space.graph, id);
    assert forall n :: n in space.live ==> n.Rec().refs == n.refs;
    space.RemoveNode(id);
  }

  /** A success resets the idle time. */
  method IsSessionValid(m: SessionManager, token: NodeId, channel: nat, override: bool, ghost w: Server) returns (valid: bool)
    requires m.Valid() && w.sessions == m.view
    modifies m`view, m.objects
    ensures m.Valid() && (valid, w.(sessions := m.view)) == IsValid(w, token, channel, override)
  {
    var i := m.GetSession(token);
    if i == |m.sessions| {
      return false;
    }
    var s := m.sessions[i];
    assert s.Val() == m.view[i];
    if s.busy {
      return false;
    }
    if !override && !s.activated {
      return false;
    }
    if s.channel == channel {
      m.Update(i, s.Val().(idle := 0));
      return true;
    }
    return false;
  }

  /** The token is drawn before the session's identifier. */
  method DrawIds(ix: Indexer) returns (token: nat, id: nat)
    requires ix.Valid() && Issue(ix.State()).1.next < UINT32 && Issue(Issue(ix.State()).1).1.next < UINT32
    modifies ix
    ensures ix.Valid() && token == Issue(old(ix.State())).0
    ensures (id, ix.State()) == Issue(Issue(old(ix.State())).1)
  {
    token := ix.GetNextIndex(NextFree(ix.nextIndex, ix.reserved));
    id := ix.GetNextIndex(NextFree(ix.nextIndex, ix.reserved));
  }

  method AddSessionNode(space: AddressSpace, id: NodeId, name: Option<string>)
    requires HasRoom(space) && id !in space.graph && |space.nodes| + 1 < UINT32
    modifies space
    ensures HasRoom(space) && fresh(space.live - old(space.live))
    ensures space.graph == old(space.graph)[id := SessionNode(name)]
  {
    var browse := if name.Some? then name.value else "Unknown_UACLIENT";
    var node := space.AddNode(Object, Class(Object), QName(SERVER_NAMESPACE, Some(browse)), id);
  }

  method AddSession(m: SessionManager, space: AddressSpace, ix: Indexer, table: Continuer, channel: nat, name: Option<string>)
    requires Ready(m, space, ix, table) && IdsSpent(space.graph, ix.State()) && |space.nodes| + 1 < UINT32
    requires Issue(Issue(ix.State()).1).1.next < UINT32
    modifies m, space, ix
    ensures Ready(m, space, ix, table) && fresh(m.objects - old(m.objects)) && fresh(space.live - old(space.live))
    ensures StateOf(m, space, ix, table) == Sessions.AddSession(old(StateOf(m, space, ix, table)), channel, name)
  {
    FreshPair(space.graph, ix.State());
    var token, id := DrawIds(ix);
    AddSessionNode(space, ServerId(id), name);
    var session := new ClientSession(ServerId(token), ServerId(id), channel);
    m.Append(session);
  }

  lemma FreshPair(g: Graph, ix: Index)
    requires IdsSpent(g, ix)
    ensures ServerId(Issue(Issue(ix).1).0) !in g && Issue(ix).1.next <= Issue(Issue(ix).1).1.next
  {
    IssueIsFresh(ix);
    IssueIsFresh(Issue(ix).1);
  }

  /** One place of the timer's loop. */
  method AgeAt(m: SessionManager, space: AddressSpace, ix: Indexer, table: Continuer, i: nat, elapsed: nat)
    requires Ready(m, space, ix, table) && i < |m.sessions|
    modifies m`sessions, m`view, m`mutating, m.objects, space, space.live
    ensures Ready(m, space, ix, table) && fresh(space.live - old(space.live))
    ensures StateOf(m, space, ix, table) == TickAt(old(StateOf(m, space, ix, table)), i, elapsed)
  {
    var s := m.sessions[i];
    assert s.Val() == m.view[i];
    if !s.busy {
      var idle := s.idle + elapsed + m.accumulated;
      Judge(m, space, ix, table, i, idle, idle > s.timeout && !m.mutating);
    }
  }

  method Judge(m: SessionManager, space: AddressSpace, ix: Indexer, table: Continuer, i: nat, idle: nat, expired: bool)
    requires Ready(m, space, ix, table) && i < |m.sessions|
    modifies m`sessions, m`view, m`mutating, m.objects, space, space.live
    ensures Ready(m, space, ix, table) && fresh(space.live - old(space.live))
    ensures var w, s := old(StateOf(m, space, ix, table)), old(m.view)[i];
      StateOf(m, space, ix, table)
      == if expired then Sessions.RemoveSession(w.(sessions := w.sessions[i := s.(idle := idle, busy := true)]), s.token)
         else w.(sessions := w.sessions[i := s.(idle := idle)])
  {
    if expired {
      Expire(m, space, ix, table, i, idle);
    } else {
      Age(m, space, ix, table, i, idle);
    }
  }

  method Age(m: SessionManager, space: AddressSpace, ix: Indexer, table: Continuer, i: nat, idle: nat)
    requires Ready(m, space, ix, table) && i < |m.sessions|
    modifies m`view, m.objects
    ensures Ready(m, space, ix, table)
    ensures var w := old(StateOf(m, space, ix, table));
      StateOf(m, space, ix, table) == w.(sessions := w.sessions[i := w.sessions[i].(idle := idle)])
  {
    assert m.sessions[i].Val() == m.view[i];
    m.Update(i, m.sessions[i].Val().(idle := idle));
  }

  /** Marks the session so that nothing validates it any more, and removes it. */
  method Expire(m: SessionManager, space: AddressSpace, ix: Indexer, table: Continuer, i: nat, idle: nat)
    requires Ready(m, space, ix, table) && i < |m.sessions|
    modifies m`sessions, m`view, m`mutating, m.objects, space, space.live
    ensures Ready(m, space, ix, table) && fresh(space.live - old(space.live))
    ensures var w, s := old(StateOf(m, space, ix, table)), old(m.view)[i];
      StateOf(m, space, ix, table)
      == Sessions.RemoveSession(w.(sessions := w.sessions[i := s.(idle := idle, busy := true)]), s.token)
  {
    assert m.sessions[i].Val() == m.view[i];
    m.Update(i, m.sessions[i].Val().(idle := idle, busy := true));
    RemoveSession(m, space, ix, table, m.sessions[i].token);
  }

  method ValidateSessionLifetime(m: SessionManager, space: AddressSpace, ix: Indexer, table: Continuer, elapsed: nat)
    requires Ready(m, space, ix, table)
    modifies m`sessions, m`view, m`mutating, m`accumulated, m.objects, space, space.live
    ensures Ready(m, space, ix, table)
    ensures StateOf(m, space, ix, table) == Tick(old(StateOf(m, space, ix, table)), elapsed)
  {
    if m.mutating {
      m.accumulated := m.accumulated + elapsed;
      return;
    }
    ghost var goal := TickFrom(StateOf(m, space, ix, table), 0, elapsed);
    var i := 0;
    while i < |m.sessions|
      invariant 0 <= i && Ready(m, space, ix, table) && fresh(space.live - old(space.live))
      invariant TickFrom(StateOf(m, space, ix, table), i, elapsed) == goal
      decreases |m.sessions| - i
    {
      AgeAt(m, space, ix, table, i, elapsed);
      i := i + 1;
    }
    m.accumulated := 0;
  }

  // ----- The services -----

  method CreateSession(m: SessionManager, space: AddressSpace, ix: Indexer, table: Continuer,
                       stamp: bool, channel: nat, name: Option<string>, checks: bool)
    returns (status: Status)
    requires Ready(m, space, ix, table) && IdsSpent(space.graph, ix.State()) && |space.nodes| + 1 < UINT32
    requires Issue(Issue(ix.State()).1).1.next < UINT32
    modifies m, m.objects, space, space.live, ix
    ensures Ready(m, space, ix, table)
    ensures (status, StateOf(m, space, ix, table))
      == Sessions.CreateSession(old(StateOf(m, space, ix, table)), stamp, channel, name, checks)
  {
    if !stamp {
      return BadInvalidTimestamp;
    }
    AddSession(m, space, ix, table, channel, name);
    status := Settle(m, space, ix, table, checks);
  }

  /** The new session gets its timeout, and is then released or removed. */
  method Settle(m: SessionManager, space: AddressSpace, ix: Indexer, table: Continuer, checks: bool) returns (status: Status)
    requires Ready(m, space, ix, table) && |m.sessions| > 0
    modifies m`sessions, m`view, m`mutating, m.objects, space, space.live
    ensures Ready(m, space, ix, table)
    ensures var w, i := old(StateOf(m, space, ix, table)), |old(m.view)| - 1;
      var w1 := w.(sessions := w.sessions[i := w.sessions[i].(timeout := SESSION_TIMEOUT)]);
      (status, StateOf(m, space, ix, table))
        == if checks then (Good, w1.(sessions := w1.sessions[i := w1.sessions[i].(busy := false)]))
           else (BadRejected, Sessions.RemoveSession(w1, w1.sessions[i].token))
  {
    var i := |m.sessions| - 1;
    assert m.sessions[i].Val() == m.view[i];
    m.Update(i, m.sessions[i].Val().(timeout := SESSION_TIMEOUT));
    assert m.sessions[i].Val() == m.view[i];
    if !checks {
      RemoveSession(m, space, ix, table, m.sessions[i].token);
      return BadRejected;
    }
    m.Update(i, m.sessions[i].Val().(busy := false));
    return Good;
  }

  method ActivateSession(m: SessionManager, token: NodeId, channel: nat, policy: bool, transfer: bool, stamp: bool, identity: bool, ghost w: Server)
    returns (status: Status)
    requires m.Valid() && w.sessions == m.view
    modifies m`view, m.objects
    ensures m.Valid()
    ensures (status, w.(sessions := m.view)) == Sessions.ActivateSession(w, token, channel, policy, transfer, stamp, identity)
  {
    if !policy {
      return BadSecurityPolicyRejected;
    }
    var i := m.GetSession(token);
    if i == |m.sessions| {
      return BadSessionIdInvalid;
    }
    assert m.sessions[i].Val() == m.view[i];
    if m.sessions[i].activated {
      if m.sessions[i].channel == channel {
        return BadIdentityChangeNotSupported;
      }
      if !transfer {
        return BadUserAccessDenied;
      }
      m.Update(i, m.sessions[i].Val().(channel := channel, idle := 0));
      return Good;
    }
    if !stamp {
      return BadInvalidTimestamp;
    }
    var valid := IsSessionValid(m, token, channel, true, w);
    if !identity {
      return BadIdentityRejected;
    }
    m.Update(i, m.sessions[i].Val().(activated := true));
    return Good;
  }

  method CloseSession(m: SessionManager, space: AddressSpace, ix: Indexer, table: Continuer, token: NodeId, channel: nat, stamp: bool)
    returns (status: Status)
    requires Ready(m, space, ix, table)
    modifies m, m.objects, space, space.live, table
    ensures Ready(m, space, ix, table)
    ensures (status, StateOf(m, space, ix, table)) == Sessions.CloseSession(old(StateOf(m, space, ix, table)), token, channel, stamp)
  {
    var i := m.GetSession(token);
    if i == |m.sessions| {
      return BadSessionIdInvalid;
    }
    var valid := IsSessionValid(m, token, channel, false, StateOf(m, space, ix, table));
    if !valid {
      return BadSessionNotActivated;
    }
    if !stamp {
      return BadInvalidTimestamp;
    }
    Evict(m, space, ix, table, token);
    return Good;
  }

  /** The session goes, and its continuation points before it. */
  method Evict(m: SessionManager, space: AddressSpace, ix: Indexer, table: Continuer, token: NodeId)
    requires Ready(m, space, ix, table)
    modifies m`sessions, m`view, m`mutating, space, space.live, table
    ensures Ready(m, space, ix, table)
    ensures var w := old(StateOf(m, space, ix, table));
      StateOf(m, space, ix, table) == Sessions.RemoveSession(w.(points := Purge(w.points, token, |w.points|)), token)
  {
    table.RemoveBySession(token);
    RemoveSession(m, space, ix, table, token);
  }

  /** The gate in front of the other services. */
  method CheckSession(m: SessionManager, space: AddressSpace, ix: Indexer, table: Continuer, token: NodeId, channel: nat, stamp: bool)
    returns (status: Status)
    requires Ready(m, space, ix, table)
    modifies m, m.objects, space, space.live, table
    ensures Ready(m, space, ix, table)
    ensures (status, StateOf(m, space, ix, table)) == Gate(old(StateOf(m, space, ix, table)), token, channel, stamp)
  {
    var i := m.GetSession(token);
    if i == |m.sessions| {
      return BadSessionIdInvalid;
    }
    assert m.sessions[i].Val() == m.view[i];
    if m.sessions[i].channel != channel {
      return BadSecureChannelIdInvalid;
    }
    var valid := IsSessionValid(m, token, channel, false, StateOf(m, space, ix, table));
    if !valid {
      Evict(m, space, ix, table, token);
      return BadSessionNotActivated;
    }
    if !stamp {
      return BadInvalidTimestamp;
    }
    return Good;
  }
}
