/** Sessions as a state machine (SessionManager.c, Session.c and the gate of ExposedFunctions.h):
    creating, activating, using, closing and timing out. Outcomes of the cryptographic checks are
    inputs; each service call is one step. */
module Sessions {
  import opened OpcTypes
  import opened Indexing
  import opened Graphs
  import opened Cloning
  import opened Continuing
  import opened GraphRuns

  const SESSION_TIMEOUT := 120000

  datatype Session = Session(token: NodeId, id: NodeId, channel: nat, timeout: nat, idle: nat, activated: bool, busy: bool)

  /** The session table with its two timer fields, and the parts of the server it works on. */
  datatype Server = Server(sessions: seq<Session>, mutating: bool, accumulated: nat, ix: Index, g: Graph, points: seq<Point>)

  datatype Status =
    | Good | BadSessionIdInvalid | BadSecureChannelIdInvalid | BadSessionNotActivated | BadInvalidTimestamp
    | BadSecurityPolicyRejected | BadUserAccessDenied | BadIdentityChangeNotSupported | BadIdentityRejected | BadRejected

  // ----- The table -----

  /** The last session with the token that has not idled too long, or the length. */
  function FindLive(sessions: seq<Session>, token: NodeId): (i: nat)
    ensures i <= |sessions| && (i < |sessions| ==> sessions[i].token == token && sessions[i].idle <= sessions[i].timeout)
    ensures i == |sessions| ==> forall j :: 0 <= j < |sessions| && sessions[j].token == token ==> sessions[j].idle > sessions[j].timeout
    ensures forall j :: i < j < |sessions| && sessions[j].token == token ==> sessions[j].idle > sessions[j].timeout
  {
    if sessions == [] then 0
    else
      var last := |sessions| - 1;
      if sessions[last].token == token && sessions[last].idle <= sessions[last].timeout then last
      else
        var i := FindLive(sessions[..last], token);
        if i == last then |sessions| else i
  }

  /** The first session with the token, or the length. */
  function First(sessions: seq<Session>, token: NodeId): (i: nat)
    ensures i <= |sessions| && (i < |sessions| ==> sessions[i].token == token)
    ensures forall j :: 0 <= j < i ==> sessions[j].token != token
  {
    if sessions == [] || sessions[0].token == token then 0 else 1 + First(sessions[1..], token)
  }

  function ServerId(num: nat): NodeId {
    NodeId(SERVER_NAMESPACE, num)
  }

  function SessionNode(name: Option<string>): NodeRec {
    NodeRec(Object, Class(Object), QName(SERVER_NAMESPACE, if name.Some? then name else Some("Unknown_UACLIENT")), [])
  }

  /** AddSession: two fresh indexes, one for the token and one for the session and its node. */
  function AddSession(w: Server, channel: nat, name: Option<string>): Server {
    var (t, ix1) := Issue(w.ix);
    var (u, ix2) := Issue(ix1);
    w.(sessions := w.sessions + [Session(ServerId(t), ServerId(u), channel, 0, 0, false, true)],
       ix := ix2, g := w.g[ServerId(u) := SessionNode(name)])
  }

  function RemoveSession(w: Server, token: NodeId): Server {
    var i := First(w.sessions, token);
    if i == |w.sessions| then w.(mutating := false)
    else w.(sessions := w.sessions[..i] + w.sessions[i + 1..], mutating := false, g := RemoveNode(w.g, w.sessions[i].id))
  }

  /** IsSessionValid: success resets the idle time. */
  function IsValid(w: Server, token: NodeId, channel: nat, override: bool): (bool, Server) {
    var i := FindLive(w.sessions, token);
    if i == |w.sessions| then (false, w)
    else
      var s := w.sessions[i];
      if s.busy || (!override && !s.activated) || s.channel != channel then (false, w)
      else (true, w.(sessions := w.sessions[i := s.(idle := 0)]))
  }

  /** One place of the timer's loop, and the loop from there on: after a removal the next session
      slides into the place that is left behind. */
  function TickFrom(w: Server, i: nat, elapsed: nat): Server
    decreases |w.sessions| - i
  {
    if i >= |w.sessions| then w else TickFrom(TickAt(w, i, elapsed), i + 1, elapsed)
  }

  function TickAt(w: Server, i: nat, elapsed: nat): (w1: Server)
    requires i < |w.sessions|
    ensures |w1.sessions| <= |w.sessions|
  {
    var s := w.sessions[i];
    if s.busy then w
    else
      var idle := s.idle + elapsed + w.accumulated;
      if idle > s.timeout && !w.mutating then
        RemoveSession(w.(sessions := w.sessions[i := s.(idle := idle, busy := true)]), s.token)
      else w.(sessions := w.sessions[i := s.(idle := idle)])
  }

  function Tick(w: Server, elapsed: nat): Server {
    if w.mutating then w.(accumulated := w.accumulated + elapsed)
    else TickFrom(w, 0, elapsed).(accumulated := 0)
  }

  // ----- The services -----

  /** CreateSession: a session that fails a check is removed again. */
  function CreateSession(w: Server, stamp: bool, channel: nat, name: Option<string>, checks: bool): (Status, Server) {
    if !stamp then (BadInvalidTimestamp, w)
    else
      var w1 := AddSession(w, channel, name);
      var i := |w.sessions|;
      var w2 := w1.(sessions := w1.sessions[i := w1.sessions[i].(timeout := SESSION_TIMEOUT)]);
      if checks then (Good, w2.(sessions := w2.sessions[i := w2.sessions[i].(busy := false)]))
      else (BadRejected, RemoveSession(w2, w2.sessions[i].token))
  }

  /** ActivateSession. For an activated session it can only move to another channel; the outcome of
      the validity test is not looked at otherwise. */
  function ActivateSession(w: Server, token: NodeId, channel: nat, policy: bool, transfer: bool, stamp: bool, identity: bool): (Status, Server) {
    var i := FindLive(w.sessions, token);
    if !policy then (BadSecurityPolicyRejected, w)
    else if i == |w.sessions| then (BadSessionIdInvalid, w)
    else if w.sessions[i].activated then
      if w.sessions[i].channel == channel then (BadIdentityChangeNotSupported, w)
      else if !transfer then (BadUserAccessDenied, w)
      else (Good, w.(sessions := w.sessions[i := w.sessions[i].(channel := channel, idle := 0)]))
    else if !stamp then (BadInvalidTimestamp, w)
    else
      var w1 := IsValid(w, token, channel, true).1;
      if !identity then (BadIdentityRejected, w1)
      else (Good, w1.(sessions := w1.sessions[i := w1.sessions[i].(activated := true)]))
  }

  function CloseSession(w: Server, token: NodeId, channel: nat, stamp: bool): (Status, Server) {
    if FindLive(w.sessions, token) == |w.sessions| then (BadSessionIdInvalid, w)
    else
      var (valid, w1) := IsValid(w, token, channel, false);
      if !valid then (BadSessionNotActivated, w1)
      else if !stamp then (BadInvalidTimestamp, w1)
      else (Good, RemoveSession(w1.(points := Purge(w1.points, token, |w1.points|)), token))
  }

  /** The gate that every other service passes first. */
  function Gate(w: Server, token: NodeId, channel: nat, stamp: bool): (Status, Server) {
    var i := FindLive(w.sessions, token);
    if i == |w.sessions| then (BadSessionIdInvalid, w)
    else if w.sessions[i].channel != channel then (BadSecureChannelIdInvalid, w)
    else
      var (valid, w1) := IsValid(w, token, channel, false);
      if !valid then
        (BadSessionNotActivated, RemoveSession(w1.(points := Purge(w1.points, token, |w1.points|)), token))
      else if !stamp then (BadInvalidTimestamp, w1)
      else (Good, w1)
  }

  // ----- What the gate means -----

  ghost predicate DistinctTokens(sessions: seq<Session>) {
    forall i, j :: 0 <= i < j < |sessions| ==> sessions[i].token != sessions[j].token
  }

  /** The gate opens exactly for a live, activated session with this token on this channel that has
      not idled beyond its timeout, when the request has a time stamp; its idle time is then zero and
      nothing else has changed. */
  lemma GateOpensIff(w: Server, token: NodeId, channel: nat, stamp: bool)
    requires DistinctTokens(w.sessions)
    ensures var (status, w1) := Gate(w, token, channel, stamp);
      status == Good <==> stamp && exists i: nat :: MayPass(w, i, token, channel)
    ensures var (status, w1) := Gate(w, token, channel, stamp);
      status == Good ==> exists i: nat :: MayPass(w, i, token, channel) && w1 == w.(sessions := w.sessions[i := w.sessions[i].(idle := 0)])
  {
    var i := FindLive(w.sessions, token);
    if j: nat :| MayPass(w, j, token, channel) {
      assert i == j;
    }
    if Gate(w, token, channel, stamp).0 == Good {
      assert MayPass(w, i, token, channel);
    }
  }

  ghost predicate MayPass(w: Server, i: nat, token: NodeId, channel: nat) {
    && i < |w.sessions|
    && var s := w.sessions[i];
       s.token == token && s.channel == channel && s.activated && !s.busy && s.idle <= s.timeout
  }

  /** A session that is not activated loses its place at the gate, and its continuation points go,
      exactly these if and only if none is shadowed by a foreign one with the same identifier. */
  lemma GateEvicts(w: Server, token: NodeId, channel: nat, stamp: bool)
    requires DistinctTokens(w.sessions)
    ensures var (status, w1) := Gate(w, token, channel, stamp);
      status == BadSessionNotActivated ==>
        && (forall i :: 0 <= i < |w1.sessions| ==> w1.sessions[i].token != token)
        && w1.points == Purge(w.points, token, |w.points|)
        && (w1.points == Others(w.points, token) <==> Unshadowed(w.points, token))
  {
    PurgeIffUnshadowed(w.points, token);
  }

  // ----- The timer -----

  /** What a pass does to the list, with `skip` for a session that slid into a removed place. */
  function Passed(sessions: seq<Session>, elapsed: nat, skip: bool): seq<Session> {
    if sessions == [] then []
    else
      var s := sessions[0];
      if skip then [s] + Passed(sessions[1..], elapsed, false)
      else if s.idle + elapsed > s.timeout then Passed(sessions[1..], elapsed, true)
      else [s.(idle := s.idle + elapsed)] + Passed(sessions[1..], elapsed, false)
  }

  /** A session is skipped exactly when the one before it is removed in the same pass. */
  predicate Skipped(sessions: seq<Session>, elapsed: nat, k: nat)
    requires k < |sessions|
    decreases k, 0
  {
    k > 0 && Removed(sessions, elapsed, k - 1)
  }

  predicate Removed(sessions: seq<Session>, elapsed: nat, k: nat)
    requires k < |sessions|
    decreases k, 1
  {
    !Skipped(sessions, elapsed, k) && sessions[k].idle + elapsed > sessions[k].timeout
  }

  /** Sessions between two calls: no removal under way, nothing accumulated, none half-made. */
  ghost predicate AtRest(w: Server) {
    !w.mutating && w.accumulated == 0 && forall i :: 0 <= i < |w.sessions| ==> !w.sessions[i].busy
  }

  /** Time that ran while the table was being changed is not lost: the next tick adds it. */
  lemma TickCatchesUp(w: Server, early: nat, late: nat)
    requires w.mutating
    ensures Tick(w, early) == w.(accumulated := w.accumulated + early)
    ensures Tick(Tick(w, early).(mutating := false), late) == Tick(w.(mutating := false, accumulated := 0), w.accumulated + early + late)
  {
    AccumulatedCounts(w.(mutating := false, accumulated := w.accumulated + early), 0, late);
  }

  lemma {:induction false} AccumulatedCounts(w: Server, i: nat, elapsed: nat)
    ensures TickFrom(w, i, elapsed).(accumulated := 0)
      == TickFrom(w.(accumulated := 0), i, elapsed + w.accumulated).(accumulated := 0)
    decreases |w.sessions| - i
  {
    if i < |w.sessions| {
      AccumulatedAt(w, i, elapsed);
      AccumulatedCounts(TickAt(w, i, elapsed), i + 1, elapsed);
    }
  }

  lemma AccumulatedAt(w: Server, i: nat, elapsed: nat)
    requires i < |w.sessions|
    ensures TickAt(w, i, elapsed).(accumulated := 0) == TickAt(w.(accumulated := 0), i, elapsed + w.accumulated)
    ensures TickAt(w, i, elapsed).accumulated == w.accumulated
  {
  }

  /** A session that is still being made or already being removed does not age. */
  lemma {:induction false} BusyStays(w: Server, i: nat, elapsed: nat, k: nat)
    requires DistinctTokens(w.sessions) && k < |w.sessions| && w.sessions[k].busy
    ensures w.sessions[k] in TickFrom(w, i, elapsed).sessions
    decreases |w.sessions| - i
  {
    if i < |w.sessions| {
      var k1 := BusyStaysAt(w, i, elapsed, k);
      BusyStays(TickAt(w, i, elapsed), i + 1, elapsed, k1);
    }
  }

  /** The session at `k` stands at `k1` afterwards. */
  ghost predicate Moved(sessions: seq<Session>, after: seq<Session>, k: nat, k1: nat) {
    DistinctTokens(after) && k < |sessions| && k1 < |after| && after[k1] == sessions[k]
  }

  lemma BusyStaysAt(w: Server, i: nat, elapsed: nat, k: nat) returns (k1: nat)
    requires DistinctTokens(w.sessions) && k < |w.sessions| && w.sessions[k].busy && i < |w.sessions|
    ensures Moved(w.sessions, TickAt(w, i, elapsed).sessions, k, k1)
  {
    var s := w.sessions[i];
    var s1 := s.(idle := s.idle + elapsed + w.accumulated);
    k1 := k;
    if s.busy {
      assert TickAt(w, i, elapsed) == w;
    } else if s1.idle > s.timeout && !w.mutating {
      k1 := RemovedStays(w, i, s1.(busy := true), k);
      assert TickAt(w, i, elapsed) == RemoveSession(w.(sessions := w.sessions[i := s1.(busy := true)]), s.token);
    } else {
      UpdatedStays(w.sessions, i, s1, k);
      assert TickAt(w, i, elapsed) == w.(sessions := w.sessions[i := s1]);
    }
  }

  lemma UpdatedStays(sessions: seq<Session>, i: nat, s: Session, k: nat)
    requires DistinctTokens(sessions) && i < |sessions| && k < |sessions| && k != i && s.token == sessions[i].token
    ensures Moved(sessions, sessions[i := s], k, k)
  {
  }

  lemma RemovedStays(w: Server, i: nat, s: Session, k: nat) returns (k1: nat)
    requires DistinctTokens(w.sessions) && i < |w.sessions| && k < |w.sessions| && k != i && s.token == w.sessions[i].token
    ensures Moved(w.sessions, RemoveSession(w.(sessions := w.sessions[i := s]), s.token).sessions, k, k1)
  {
    var sessions := w.sessions[i := s];
    UpdatedStays(w.sessions, i, s, k);
    RemovesThere(w.(sessions := sessions), i);
    RestDiffers(sessions, i);
    StaysThere(sessions, i, k);
    k1 := if k < i then k else k - 1;
  }

  lemma RemovesThere(w: Server, i: nat)
    requires DistinctTokens(w.sessions) && i < |w.sessions|
    ensures RemoveSession(w, w.sessions[i].token).sessions == w.sessions[..i] + w.sessions[i + 1..]
  {
    FirstIs(w.sessions, i);
  }

  lemma StaysThere(sessions: seq<Session>, i: nat, k: nat)
    requires i < |sessions| && k < |sessions| && k != i
    ensures var rest, k1 := sessions[..i] + sessions[i + 1..], if k < i then k else k - 1;
      k1 < |rest| && rest[k1] == sessions[k]
  {
  }

  lemma {:induction false} TickFromPasses(w: Server, i: nat, elapsed: nat)
    requires AtRest(w) && DistinctTokens(w.sessions) && i <= |w.sessions|
    ensures TickFrom(w, i, elapsed).sessions == w.sessions[..i] + Passed(w.sessions[i..], elapsed, false)
    ensures AtRest(TickFrom(w, i, elapsed))
    decreases |w.sessions| - i
  {
    if i == |w.sessions| {
      assert w.sessions[..i] + [] == w.sessions;
    } else {
      TickAtPasses(w, i, elapsed);
      var w1 := TickAt(w, i, elapsed);
      if i < |w1.sessions| {
        TickFromPasses(w1, i + 1, elapsed);
      }
    }
  }

  /** One place of the loop leaves the rest of the pass to the places behind it. */
  lemma TickAtPasses(w: Server, i: nat, elapsed: nat)
    requires AtRest(w) && DistinctTokens(w.sessions) && i < |w.sessions|
    ensures var w1 := TickAt(w, i, elapsed);
      && AtRest(w1) && DistinctTokens(w1.sessions) && i <= |w1.sessions|
      && w.sessions[..i] + Passed(w.sessions[i..], elapsed, false)
         == if i < |w1.sessions| then w1.sessions[..i + 1] + Passed(w1.sessions[i + 1..], elapsed, false) else w1.sessions
  {
    if w.sessions[i].idle + elapsed > w.sessions[i].timeout {
      RemovesAt(w, i, elapsed);
      PassedRemoved(w.sessions, i, elapsed);
    } else {
      AgesAt(w, i, elapsed);
      PassedAged(w.sessions, i, elapsed);
    }
  }

  lemma PassedRemoved(sessions: seq<Session>, i: nat, elapsed: nat)
    requires i < |sessions| && sessions[i].idle + elapsed > sessions[i].timeout
    ensures var rest := sessions[..i] + sessions[i + 1..];
      sessions[..i] + Passed(sessions[i..], elapsed, false)
      == if i < |rest| then rest[..i + 1] + Passed(rest[i + 1..], elapsed, false) else rest
  {
    assert sessions[i..][1..] == sessions[i + 1..];
    var rest := sessions[..i] + sessions[i + 1..];
    if i < |rest| {
      assert rest[..i + 1] == sessions[..i] + [sessions[i + 1]];
      assert rest[i + 1..] == sessions[i + 1..][1..];
      Regrouped(sessions[..i], [sessions[i + 1]], Passed(rest[i + 1..], elapsed, false));
    }
  }

  lemma PassedAged(sessions: seq<Session>, i: nat, elapsed: nat)
    requires i < |sessions| && sessions[i].idle + elapsed <= sessions[i].timeout
    ensures var aged := sessions[i := sessions[i].(idle := sessions[i].idle + elapsed)];
      sessions[..i] + Passed(sessions[i..], elapsed, false) == aged[..i + 1] + Passed(aged[i + 1..], elapsed, false)
  {
    var s := sessions[i].(idle := sessions[i].idle + elapsed);
    assert sessions[i..][1..] == sessions[i + 1..];
    assert sessions[i := s][..i + 1] == sessions[..i] + [s] && sessions[i := s][i + 1..] == sessions[i + 1..];
    Regrouped(sessions[..i], [s], Passed(sessions[i + 1..], elapsed, false));
  }

  lemma RemovesAt(w: Server, i: nat, elapsed: nat)
    requires AtRest(w) && DistinctTokens(w.sessions) && i < |w.sessions|
    requires w.sessions[i].idle + elapsed > w.sessions[i].timeout
    ensures TickAt(w, i, elapsed) == w.(sessions := w.sessions[..i] + w.sessions[i + 1..], g := RemoveNode(w.g, w.sessions[i].id))
    ensures AtRest(TickAt(w, i, elapsed)) && DistinctTokens(TickAt(w, i, elapsed).sessions)
  {
    var s := w.sessions[i];
    var sessions := w.sessions[i := s.(idle := s.idle + elapsed, busy := true)];
    FirstIs(sessions, i);
    RestDiffers(w.sessions, i);
    assert sessions[..i] == w.sessions[..i] && sessions[i + 1..] == w.sessions[i + 1..];
  }

  lemma FirstIs(sessions: seq<Session>, i: nat)
    requires i < |sessions| && DistinctTokens(sessions)
    ensures First(sessions, sessions[i].token) == i
  {
  }

  lemma RestDiffers(sessions: seq<Session>, i: nat)
    requires i < |sessions| && DistinctTokens(sessions)
    ensures DistinctTokens(sessions[..i] + sessions[i + 1..])
    ensures (forall j :: 0 <= j < |sessions| ==> !sessions[j].busy) ==>
      forall s :: s in sessions[..i] + sessions[i + 1..] ==> !s.busy
  {
  }

  lemma AgesAt(w: Server, i: nat, elapsed: nat)
    requires AtRest(w) && DistinctTokens(w.sessions) && i < |w.sessions|
    requires w.sessions[i].idle + elapsed <= w.sessions[i].timeout
    ensures TickAt(w, i, elapsed) == w.(sessions := w.sessions[i := w.sessions[i].(idle := w.sessions[i].idle + elapsed)])
    ensures AtRest(TickAt(w, i, elapsed)) && DistinctTokens(TickAt(w, i, elapsed).sessions)
  {
  }

  /** After a pass a session is there exactly when it was not removed; it has aged by the elapsed
      time exactly when it was not skipped. */
  lemma {:induction false} PassedExactly(sessions: seq<Session>, elapsed: nat, skip: bool, token: NodeId)
    ensures forall t :: t in Passed(sessions, elapsed, skip) && t.token == token ==>
      exists k: nat :: IsAfter(sessions, elapsed, skip, k, t)
    ensures forall k: nat, t :: IsAfter(sessions, elapsed, skip, k, t) ==> t in Passed(sessions, elapsed, skip)
  {
    if sessions != [] {
      var s, rest := sessions[0], sessions[1..];
      var skip1 := !skip && s.idle + elapsed > s.timeout;
      PassedExactly(rest, elapsed, skip1, token);
      assert Passed(sessions, elapsed, skip)
        == (if skip1 then [] else [if skip then s else s.(idle := s.idle + elapsed)]) + Passed(rest, elapsed, skip1);
      forall k: nat, t | IsAfter(sessions, elapsed, skip, k, t)
        ensures t in Passed(sessions, elapsed, skip)
      {
        if k > 0 {
          LateShift(sessions, elapsed, skip, k);
          assert IsAfter(rest, elapsed, skip1, k - 1, t);
        }
      }
      forall t | t in Passed(sessions, elapsed, skip) && t.token == token
        ensures exists k: nat :: IsAfter(sessions, elapsed, skip, k, t)
      {
        if t in Passed(rest, elapsed, skip1) {
          var k: nat :| IsAfter(rest, elapsed, skip1, k, t);
          LateShift(sessions, elapsed, skip, k + 1);
          assert IsAfter(sessions, elapsed, skip, k + 1, t);
        } else {
          assert IsAfter(sessions, elapsed, skip, 0, t);
        }
      }
    }
  }

  /** `t` is what a pass that starts with `skip` makes of session `k`. */
  ghost predicate IsAfter(sessions: seq<Session>, elapsed: nat, skip: bool, k: nat, t: Session) {
    && k < |sessions|
    && (Late(sessions, elapsed, skip, k) || sessions[k].idle + elapsed <= sessions[k].timeout)
    && t == if Late(sessions, elapsed, skip, k) then sessions[k] else sessions[k].(idle := sessions[k].idle + elapsed)
  }

  /** Like `Skipped`, for a pass that may start by skipping. */
  predicate Late(sessions: seq<Session>, elapsed: nat, skip: bool, k: nat)
    requires k < |sessions|
    decreases k
  {
    if k == 0 then skip
    else !Late(sessions, elapsed, skip, k - 1) && sessions[k - 1].idle + elapsed > sessions[k - 1].timeout
  }

  lemma {:induction false} LateShift(sessions: seq<Session>, elapsed: nat, skip: bool, k: nat)
    requires 0 < k < |sessions|
    ensures Late(sessions, elapsed, skip, k)
      == Late(sessions[1..], elapsed, !skip && sessions[0].idle + elapsed > sessions[0].timeout, k - 1)
    decreases k
  {
    if k > 1 {
      LateShift(sessions, elapsed, skip, k - 1);
    }
  }

  lemma {:induction false} LateIsSkipped(sessions: seq<Session>, elapsed: nat, k: nat)
    requires k < |sessions|
    ensures Late(sessions, elapsed, false, k) == Skipped(sessions, elapsed, k)
    decreases k
  {
    if k > 0 {
      LateIsSkipped(sessions, elapsed, k - 1);
    }
  }

  lemma TickPasses(w: Server, elapsed: nat)
    requires AtRest(w) && DistinctTokens(w.sessions)
    ensures Tick(w, elapsed).sessions == Passed(w.sessions, elapsed, false) && AtRest(Tick(w, elapsed))
  {
    TickFromPasses(w, 0, elapsed);
    assert w.sessions[0..] == w.sessions;
    assert w.sessions[..0] + Passed(w.sessions, elapsed, false) == Passed(w.sessions, elapsed, false);
  }

  lemma PassedAt(sessions: seq<Session>, elapsed: nat, k: nat)
    requires DistinctTokens(sessions) && k < |sessions|
    ensures var s, after := sessions[k], Passed(sessions, elapsed, false);
      if Skipped(sessions, elapsed, k) then s in after
      else if s.idle + elapsed <= s.timeout then s.(idle := s.idle + elapsed) in after
      else forall t :: t in after ==> t.token != s.token
  {
    var s := sessions[k];
    PassedExactly(sessions, elapsed, false, s.token);
    LateIsSkipped(sessions, elapsed, k);
    if Skipped(sessions, elapsed, k) {
      assert IsAfter(sessions, elapsed, false, k, s);
    } else if s.idle + elapsed <= s.timeout {
      assert IsAfter(sessions, elapsed, false, k, s.(idle := s.idle + elapsed));
    }
  }

  /** The timer, place by place: session `k` survives a tick exactly when it was skipped or is still
      within its timeout, and it ages exactly when it was not skipped. */
  lemma TickExactly(w: Server, elapsed: nat, k: nat)
    requires AtRest(w) && DistinctTokens(w.sessions) && k < |w.sessions|
    ensures var s, after := w.sessions[k], Tick(w, elapsed).sessions;
      if Skipped(w.sessions, elapsed, k) then s in after
      else if s.idle + elapsed <= s.timeout then s.(idle := s.idle + elapsed) in after
      else forall t :: t in after ==> t.token != s.token
  {
    TickPasses(w, elapsed);
    PassedAt(w.sessions, elapsed, k);
  }
}
