/** What the session services answer (Session.c and the gate of ExposedFunctions.h), case by case, and which
    channel a session is on and when it is activated, over whole runs. */
module SessionAnswers {
  import opened OpcTypes
  import opened Indexing
  import opened Graphs
  import opened Continuing
  import opened Sessions
  import opened Runs = SessionRuns

  /** The session at this place is the one that the token finds. */
  ghost predicate Found(w: Server, i: nat, token: NodeId) {
    && DistinctTokens(w.sessions) && i < |w.sessions|
    && w.sessions[i].token == token && w.sessions[i].idle <= w.sessions[i].timeout
  }

  /** No session that has not idled too long has the token. */
  ghost predicate Unknown(w: Server, token: NodeId) {
    forall i :: 0 <= i < |w.sessions| && w.sessions[i].token == token ==> w.sessions[i].idle > w.sessions[i].timeout
  }

  lemma FoundIs(w: Server, i: nat, token: NodeId)
    requires Found(w, i, token)
    ensures FindLive(w.sessions, token) == i && First(w.sessions, token) == i
  {
  }

  // ----- The gate -----

  lemma GateAnswers(w: Server, i: nat, token: NodeId, channel: nat, stamp: bool)
    requires Found(w, i, token)
    ensures var s := w.sessions[i];
      var (status, w1) := Gate(w, token, channel, stamp);
      if s.channel != channel then status == BadSecureChannelIdInvalid && w1 == w
      else if s.busy || !s.activated then
        && status == BadSessionNotActivated && w1.sessions == w.sessions[..i] + w.sessions[i + 1..]
        && w1.g == RemoveNode(w.g, s.id) && w1.ix == w.ix
      else
        && status == (if stamp then Good else BadInvalidTimestamp)
        && w1 == w.(sessions := w.sessions[i := s.(idle := 0)])
  {
    FoundIs(w, i, token);
    var s := w.sessions[i];
    if s.channel == channel && !s.busy && s.activated {
      assert IsValid(w, token, channel, false) == (true, w.(sessions := w.sessions[i := s.(idle := 0)]));
    } else if s.channel == channel {
      assert IsValid(w, token, channel, false) == (false, w);
    }
  }

  lemma UnknownIsRefused(w: Server, token: NodeId, channel: nat, stamp: bool, transfer: bool, identity: bool)
    requires Unknown(w, token)
    ensures Gate(w, token, channel, stamp) == (BadSessionIdInvalid, w)
    ensures CloseSession(w, token, channel, stamp) == (BadSessionIdInvalid, w)
    ensures ActivateSession(w, token, channel, true, transfer, stamp, identity) == (BadSessionIdInvalid, w)
  {
    assert FindLive(w.sessions, token) == |w.sessions|;
  }

  // ----- Closing -----

  lemma CloseAnswers(w: Server, i: nat, token: NodeId, channel: nat, stamp: bool)
    requires Found(w, i, token)
    ensures var s := w.sessions[i];
      var (status, w1) := CloseSession(w, token, channel, stamp);
      if s.busy || !s.activated || s.channel != channel then status == BadSessionNotActivated && w1 == w
      else if !stamp then status == BadInvalidTimestamp && w1 == w.(sessions := w.sessions[i := s.(idle := 0)])
      else
        && status == Good && w1.sessions == w.sessions[..i] + w.sessions[i + 1..]
        && w1.g == RemoveNode(w.g, s.id) && w1.ix == w.ix && w1.points == Purge(w.points, token, |w.points|)
  {
    FoundIs(w, i, token);
    var sessions := w.sessions[i := w.sessions[i].(idle := 0)];
    FirstIs(sessions, i);
    assert sessions[..i] == w.sessions[..i] && sessions[i + 1..] == w.sessions[i + 1..];
  }

  // ----- Activating -----

  /** An activated session moves exactly when the policy and the transfer are accepted and the call comes from
      another channel; only its channel and its idle time change. */
  lemma TransferAnswers(w: Server, i: nat, token: NodeId, channel: nat, policy: bool, transfer: bool, stamp: bool, identity: bool)
    requires Found(w, i, token) && w.sessions[i].activated
    ensures var s := w.sessions[i];
      var (status, w1) := ActivateSession(w, token, channel, policy, transfer, stamp, identity);
      && (status == Good <==> policy && transfer && channel != s.channel)
      && (status == Good ==> w1 == w.(sessions := w.sessions[i := s.(channel := channel, idle := 0)]))
      && (status != Good ==> w1 == w)
      && (status == BadSecurityPolicyRejected <==> !policy)
      && (status == BadIdentityChangeNotSupported <==> policy && channel == s.channel)
      && (status == BadUserAccessDenied <==> policy && channel != s.channel && !transfer)
  {
    FoundIs(w, i, token);
  }

  /** A session that is not activated becomes so exactly when policy, time stamp and identity are accepted; its
      channel stays, and its idle time is reset exactly when the call comes from it. */
  lemma ActivationAnswers(w: Server, i: nat, token: NodeId, channel: nat, policy: bool, transfer: bool, stamp: bool, identity: bool)
    requires Found(w, i, token) && !w.sessions[i].activated
    ensures var s := w.sessions[i];
      var (status, w1) := ActivateSession(w, token, channel, policy, transfer, stamp, identity);
      var idle := if policy && stamp && !s.busy && channel == s.channel then 0 else s.idle;
      && w1 == w.(sessions := w.sessions[i := s.(activated := policy && stamp && identity, idle := idle)])
      && (status == Good <==> policy && stamp && identity)
      && (status == BadSecurityPolicyRejected <==> !policy)
      && (status == BadInvalidTimestamp <==> policy && !stamp)
      && (status == BadIdentityRejected <==> policy && stamp && !identity)
  {
    FoundIs(w, i, token);
    var s := w.sessions[i];
    assert w.sessions[i := s] == w.sessions;
  }

  /** After a transfer the gate opens on the new channel and is shut on the old one. */
  lemma TransferMovesGate(w: Server, i: nat, token: NodeId, channel: nat, stamp: bool, identity: bool)
    requires Found(w, i, token) && w.sessions[i].activated && !w.sessions[i].busy
    ensures var (status, w1) := ActivateSession(w, token, channel, true, true, stamp, identity);
      status == Good ==>
        && Gate(w1, token, channel, true).0 == Good
        && Gate(w1, token, w.sessions[i].channel, true) == (BadSecureChannelIdInvalid, w1)
  {
    TransferAnswers(w, i, token, channel, true, true, stamp, identity);
    var (status, w1) := ActivateSession(w, token, channel, true, true, stamp, identity);
    if status == Good {
      GateAnswers(w1, i, token, channel, true);
      GateAnswers(w1, i, token, w.sessions[i].channel, true);
    }
  }

  // ----- Creating -----

  /** A new session stands at the end of the table, on the calling channel, not activated, with the standard
      timeout, two new identifiers and an object node of its name; without a time stamp or when a check fails
      the table stays as it was. */
  lemma CreateAnswers(w: Server, stamp: bool, channel: nat, name: Option<string>, checks: bool)
    requires forall i :: 0 <= i < |w.sessions| ==> w.sessions[i].token != ServerId(Issue(w.ix).0)
    ensures var (status, w1) := CreateSession(w, stamp, channel, name, checks);
      && (status == Good <==> stamp && checks) && (status == BadInvalidTimestamp <==> !stamp)
      && (!stamp ==> w1 == w)
      && (status != Good ==> w1.sessions == w.sessions)
      && w1.points == w.points
      && (status == Good ==>
            var token, id := NodeId(SERVER_NAMESPACE, Issue(w.ix).0), NodeId(SERVER_NAMESPACE, Issue(Issue(w.ix).1).0);
            && w1.sessions == w.sessions + [Session(token, id, channel, 120000, 0, false, false)]
            && id in w1.g && w1.g[id].kind == Object && w1.g[id].refs == []
            && w1.g[id].browse == QName(SERVER_NAMESPACE, Some(if name.Some? then name.value else "Unknown_UACLIENT"))
            && forall k :: k in w.g && k != id ==> k in w1.g && w1.g[k] == w.g[k])
  {
    if stamp {
      var w1, n := AddSession(w, channel, name), |w.sessions|;
      var s := w1.sessions[n].(timeout := SESSION_TIMEOUT);
      assert w1.sessions[n := s] == w.sessions + [s];
      assert w1.sessions[n := s][n := s.(busy := false)] == w.sessions + [s.(busy := false)];
      FirstIsLast(w.sessions, s);
    }
  }

  // ----- Channel and activation over runs -----

  /** The channel of the session with the token and whether it is activated. */
  function FaceOf(sessions: seq<Session>, token: NodeId): Option<(nat, bool)> {
    var i := First(sessions, token);
    if i < |sessions| then Some((sessions[i].channel, sessions[i].activated)) else None
  }

  lemma FaceIs(sessions: seq<Session>, i: nat)
    requires i < |sessions| && DistinctTokens(sessions)
    ensures FaceOf(sessions, sessions[i].token) == Some((sessions[i].channel, sessions[i].activated))
  {
    FirstIs(sessions, i);
  }

  lemma FaceIsNone(sessions: seq<Session>, token: NodeId)
    requires forall i :: 0 <= i < |sessions| ==> sessions[i].token != token
    ensures FaceOf(sessions, token) == None
  {
  }

  lemma FaceAfterUpdate(sessions: seq<Session>, i: nat, s: Session, token: NodeId)
    requires i < |sessions| && DistinctTokens(sessions) && s.token == sessions[i].token
    ensures FaceOf(sessions[i := s], token) == if token == s.token then Some((s.channel, s.activated)) else FaceOf(sessions, token)
  {
    var after := sessions[i := s];
    if token == s.token {
      FaceIs(after, i);
    } else if k :| 0 <= k < |sessions| && sessions[k].token == token {
      FaceIs(sessions, k);
      FaceIs(after, k);
    } else {
      FaceIsNone(after, token);
    }
  }

  lemma FaceAfterRemove(w: Server, gone: NodeId, token: NodeId)
    requires DistinctTokens(w.sessions)
    ensures FaceOf(RemoveSession(w, gone).sessions, token) == if token == gone then None else FaceOf(w.sessions, token)
  {
    var i := First(w.sessions, gone);
    if i < |w.sessions| {
      FaceAfterRemoval(w.sessions, i, token);
    }
  }

  lemma FaceAfterRemoval(sessions: seq<Session>, i: nat, token: NodeId)
    requires i < |sessions| && DistinctTokens(sessions)
    ensures var after := sessions[..i] + sessions[i + 1..];
      FaceOf(after, token) == if token == sessions[i].token then None else FaceOf(sessions, token)
  {
    var after := sessions[..i] + sessions[i + 1..];
    RestDiffers(sessions, i);
    assert forall j :: 0 <= j < |after| ==> after[j] == sessions[if j < i then j else j + 1];
    if token == sessions[i].token {
      FaceIsNone(after, token);
    } else if k :| 0 <= k < |sessions| && sessions[k].token == token {
      FaceIs(sessions, k);
      FaceIs(after, if k < i then k else k - 1);
    } else {
      FaceIsNone(after, token);
    }
  }

  lemma FaceAfterValid(w: Server, called: NodeId, channel: nat, override: bool, token: NodeId)
    requires DistinctTokens(w.sessions)
    ensures var w1 := IsValid(w, called, channel, override).1;
      DistinctTokens(w1.sessions) && FaceOf(w1.sessions, token) == FaceOf(w.sessions, token)
  {
    var i := FindLive(w.sessions, called);
    if i < |w.sessions| {
      FaceAfterUpdate(w.sessions, i, w.sessions[i].(idle := 0), token);
      FaceIs(w.sessions, i);
    }
  }

  /** The call moves the session to the calling channel. */
  predicate Transfers(w: Server, c: Call, token: NodeId) {
    && c.DoActivate? && c.token == token && c.policy && c.transfer
    && var i := First(w.sessions, token);
       i < |w.sessions| && w.sessions[i].idle <= w.sessions[i].timeout && w.sessions[i].activated && w.sessions[i].channel != c.channel
  }

  /** The call activates the session. */
  predicate Activates(w: Server, c: Call, token: NodeId) {
    && c.DoActivate? && c.token == token && c.policy && c.stamp && c.identity
    && var i := First(w.sessions, token);
       i < |w.sessions| && w.sessions[i].idle <= w.sessions[i].timeout && !w.sessions[i].activated
  }

  lemma FaceAfterActivate(w: Server, c: Call, token: NodeId)
    requires DistinctTokens(w.sessions) && c.DoActivate?
    ensures var (before, after) := (FaceOf(w.sessions, token), FaceOf(After(w, c).sessions, token));
      (before.Some? <==> after.Some?) && (before.Some? ==>
        && after.value.0 == (if Transfers(w, c, token) then c.channel else before.value.0)
        && after.value.1 == (before.value.1 || Activates(w, c, token)))
  {
    var i := FindLive(w.sessions, c.token);
    if i == |w.sessions| {
      NoneIsDone(w, c, token);
    } else {
      assert Found(w, i, c.token);
      FoundIs(w, i, c.token);
      FaceIs(w.sessions, i);
      if w.sessions[i].activated {
        TransferAnswers(w, i, c.token, c.channel, c.policy, c.transfer, c.stamp, c.identity);
        FaceAfterUpdate(w.sessions, i, w.sessions[i].(channel := c.channel, idle := 0), token);
      } else {
        ActivationAnswers(w, i, c.token, c.channel, c.policy, c.transfer, c.stamp, c.identity);
        FaceAfterUpdate(w.sessions, i, After(w, c).sessions[i], token);
      }
    }
  }

  lemma NoneIsDone(w: Server, c: Call, token: NodeId)
    requires c.DoActivate? && FindLive(w.sessions, c.token) == |w.sessions|
    ensures After(w, c) == w && !Transfers(w, c, token) && !Activates(w, c, token)
  {
  }

  lemma FaceAfterTick(w: Server, elapsed: nat, token: NodeId)
    requires AtRest(w) && DistinctTokens(w.sessions) && DistinctTokens(Tick(w, elapsed).sessions)
    requires FaceOf(w.sessions, token).Some?
    ensures var after := FaceOf(Tick(w, elapsed).sessions, token); after == None || after == FaceOf(w.sessions, token)
  {
    var k, after := First(w.sessions, token), Tick(w, elapsed).sessions;
    TickExactly(w, elapsed, k);
    var s := w.sessions[k];
    var t := if Skipped(w.sessions, elapsed, k) then s else s.(idle := s.idle + elapsed);
    if t in after {
      var i :| 0 <= i < |after| && after[i] == t;
      FaceIs(after, i);
    } else {
      FaceIsNone(after, token);
    }
  }

  lemma FaceAfterCreate(r: Record, channel: nat, name: Option<string>, checks: bool, token: NodeId)
    requires Healthy(r) && FaceOf(r.w.sessions, token).Some?
    ensures FaceOf(CreateSession(r.w, true, channel, name, checks).1.sessions, token) == FaceOf(r.w.sessions, token)
  {
    NewToken(r);
    OwnedMeansDistinct(r.w.sessions, r.w.g, r.w.ix, r.given);
    CreateAnswers(r.w, true, channel, name, checks);
    FaceIsFirst(r.w.sessions, CreateSession(r.w, true, channel, name, checks).1.sessions, token);
  }

  lemma FaceIsFirst(sessions: seq<Session>, all: seq<Session>, token: NodeId)
    requires sessions <= all && FaceOf(sessions, token).Some?
    ensures FaceOf(all, token) == FaceOf(sessions, token)
  {
    var i := First(sessions, token);
    assert forall j :: 0 <= j < |sessions| ==> all[j] == sessions[j];
    assert First(all, token) == i;
  }

  /** What a call makes of a session's channel and activation, as long as the session lives. */
  ghost predicate StepsFace(w: Server, c: Call, w1: Server, token: NodeId) {
    FaceOf(w.sessions, token).Some? && FaceOf(w1.sessions, token).Some? ==>
      var (before, after) := (FaceOf(w.sessions, token).value, FaceOf(w1.sessions, token).value);
      && after.0 == (if Transfers(w, c, token) then c.channel else before.0)
      && after.1 == (before.1 || Activates(w, c, token))
  }

  /** A call changes the channel exactly when it transfers the session, and makes it activated exactly when it
      activates it. */
  lemma FaceAfterCall(r: Record, c: Call, token: NodeId)
    requires Healthy(r) && Possible(r, c)
    ensures StepsFace(r.w, c, After(r.w, c), token)
  {
    OwnedMeansDistinct(r.w.sessions, r.w.g, r.w.ix, r.given);
    if FaceOf(r.w.sessions, token).Some? {
      if c.DoCreate? {
        if c.stamp {
          FaceAfterCreate(r, c.channel, c.name, c.checks, token);
        }
      } else if c.DoTick? {
        StaysDistinct(r, c);
        FaceAfterTick(r.w, c.elapsed, token);
      } else {
        FaceAfterOther(r.w, c, token);
      }
    }
  }

  lemma FaceAfterOther(w: Server, c: Call, token: NodeId)
    requires DistinctTokens(w.sessions) && !c.DoCreate? && !c.DoTick?
    ensures StepsFace(w, c, After(w, c), token)
  {
    match c
    case DoActivate(_, _, _, _, _, _) => FaceAfterActivate(w, c, token);
    case DoGate(called, channel, stamp) => FaceAfterServed(w, c, token);
    case DoClose(called, channel, stamp) => FaceAfterServed(w, c, token);
    case GrowSpace(_, _) =>
    case ChangePoints(_) =>
  }

  lemma FaceAfterServed(w: Server, c: Call, token: NodeId)
    requires DistinctTokens(w.sessions) && (c.DoGate? || c.DoClose?)
    ensures FaceOf(After(w, c).sessions, token) == None || FaceOf(After(w, c).sessions, token) == FaceOf(w.sessions, token)
  {
    FaceAfterPass(w, c.token, c.channel, token);
  }

  lemma FaceAfterPass(w: Server, called: NodeId, channel: nat, token: NodeId)
    requires DistinctTokens(w.sessions)
    ensures var w1 := IsValid(w, called, channel, false).1;
      && FaceOf(w1.sessions, token) == FaceOf(w.sessions, token)
      && FaceOf(RemoveSession(w1.(points := Purge(w1.points, called, |w1.points|)), called).sessions, token)
         == if token == called then None else FaceOf(w.sessions, token)
  {
    FaceAfterValid(w, called, channel, false, token);
    var w1 := IsValid(w, called, channel, false).1;
    FaceAfterRemove(w1.(points := Purge(w1.points, called, |w1.points|)), called, token);
  }

  /** The last transfer between two places of a run. */
  ghost predicate LastTransfer(records: seq<Record>, calls: seq<Call>, token: NodeId, start: nat, j: nat, m: nat)
    requires j <= |calls| < |records|
  {
    && start <= m < j && Transfers(records[m].w, calls[m], token)
    && forall n :: m < n < j ==> !Transfers(records[n].w, calls[n], token)
  }

  /** Over any stretch of a run through which a session lives it is on the channel of its last transfer, or on the
      one where it was when there was none; and it is activated exactly when it was or some call activated it. */
  lemma FaceOverRun(records: seq<Record>, calls: seq<Call>, token: NodeId, start: nat, j: nat)
    requires Runs.Run(records, calls) && start <= j < |records|
    requires forall m :: start <= m <= j ==> FaceOf(records[m].w.sessions, token).Some?
    ensures var (first, last) := (FaceOf(records[start].w.sessions, token).value, FaceOf(records[j].w.sessions, token).value);
      && (forall m: nat :: LastTransfer(records, calls, token, start, j, m) ==> last.0 == calls[m].channel)
      && ((forall m :: start <= m < j ==> !Transfers(records[m].w, calls[m], token)) ==> last.0 == first.0)
      && (last.1 <==> first.1 || exists m :: start <= m < j && Activates(records[m].w, calls[m], token))
  {
    forall m | start <= m < j
      ensures StepsFace(records[m].w, calls[m], records[m + 1].w, token)
    {
      RunsStayHealthy(records, calls, m);
      FaceAfterCall(records[m], calls[m], token);
    }
    ChannelOverSteps(records, calls, token, start, j);
    ActivatedOverSteps(records, calls, token, start, j);
  }

  lemma {:induction false} ChannelOverSteps(records: seq<Record>, calls: seq<Call>, token: NodeId, start: nat, j: nat)
    requires start <= j <= |calls| && |records| == |calls| + 1
    requires forall m :: start <= m <= j ==> FaceOf(records[m].w.sessions, token).Some?
    requires forall m :: start <= m < j ==> StepsFace(records[m].w, calls[m], records[m + 1].w, token)
    ensures var (first, last) := (FaceOf(records[start].w.sessions, token).value, FaceOf(records[j].w.sessions, token).value);
      && (forall m: nat :: LastTransfer(records, calls, token, start, j, m) ==> last.0 == calls[m].channel)
      && ((forall m :: start <= m < j ==> !Transfers(records[m].w, calls[m], token)) ==> last.0 == first.0)
    decreases j
  {
    if start < j {
      ChannelOverSteps(records, calls, token, start, j - 1);
      assert StepsFace(records[j - 1].w, calls[j - 1], records[j].w, token);
      forall m: nat | LastTransfer(records, calls, token, start, j, m)
        ensures FaceOf(records[j].w.sessions, token).value.0 == calls[m].channel
      {
        assert m < j - 1 ==> LastTransfer(records, calls, token, start, j - 1, m);
      }
    }
  }

  lemma {:induction false} ActivatedOverSteps(records: seq<Record>, calls: seq<Call>, token: NodeId, start: nat, j: nat)
    requires start <= j <= |calls| && |records| == |calls| + 1
    requires forall m :: start <= m <= j ==> FaceOf(records[m].w.sessions, token).Some?
    requires forall m :: start <= m < j ==> StepsFace(records[m].w, calls[m], records[m + 1].w, token)
    ensures FaceOf(records[j].w.sessions, token).value.1 <==>
      || FaceOf(records[start].w.sessions, token).value.1
      || exists m :: start <= m < j && Activates(records[m].w, calls[m], token)
    decreases j
  {
    if start < j {
      ActivatedOverSteps(records, calls, token, start, j - 1);
      assert StepsFace(records[j - 1].w, calls[j - 1], records[j].w, token);
    }
  }

  /** A session starts on the channel of its creation, not activated. */
  lemma CreatedFace(r: Record, channel: nat, name: Option<string>)
    requires Healthy(r)
    ensures FaceOf(After(r.w, DoCreate(true, channel, name, true)).sessions, ServerId(Issue(r.w.ix).0)) == Some((channel, false))
  {
    NewToken(r);
    CreateAnswers(r.w, true, channel, name, true);
    var after := CreateSession(r.w, true, channel, name, true).1.sessions;
    FirstIsLast(r.w.sessions, after[|r.w.sessions|]);
  }
}
