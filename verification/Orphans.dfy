/** Continuation points whose session is gone: the timer removes sessions without their points
    (SessionManager.c), and nothing else leaves any behind. */
module Orphans {
  import opened OpcTypes
  import opened Indexing
  import opened Continuing
  import opened GraphRuns
  import opened Sessions
  import opened Runs = SessionRuns

  predicate Live(w: Server, token: NodeId) {
    IdleOf(w.sessions, token).Some?
  }

  lemma LiveIff(w: Server, token: NodeId)
    ensures Live(w, token) <==> exists i :: 0 <= i < |w.sessions| && w.sessions[i].token == token
  {
    if !Live(w, token) {
      assert First(w.sessions, token) == |w.sessions|;
    }
  }

  /** The call is a tick that removes the session. */
  predicate TimesOut(w: Server, c: Call, token: NodeId) {
    && c.DoTick?
    && First(w.sessions, token) < |w.sessions|
    && Removed(w.sessions, c.elapsed, First(w.sessions, token))
  }

  // ----- One call -----

  lemma {:induction false} TickFromKeepsPoints(w: Server, i: nat, elapsed: nat)
    ensures TickFrom(w, i, elapsed).points == w.points
    decreases |w.sessions| - i
  {
    if i < |w.sessions| {
      TickFromKeepsPoints(TickAt(w, i, elapsed), i + 1, elapsed);
    }
  }

  lemma TickRemovesIff(w: Server, elapsed: nat, token: NodeId)
    requires AtRest(w) && DistinctTokens(w.sessions)
    ensures var w1 := Tick(w, elapsed);
      w1.points == w.points && (Live(w1, token) <==> Live(w, token) && !TimesOut(w, DoTick(elapsed), token))
  {
    var w1 := Tick(w, elapsed);
    TickFromKeepsPoints(w, 0, elapsed);
    LiveIff(w1, token);
    if Live(w, token) {
      var k := First(w.sessions, token);
      TickExactly(w, elapsed, k);
      if !TimesOut(w, DoTick(elapsed), token) {
        assert exists t :: t in w1.sessions && t.token == token;
      }
    } else {
      TickPasses(w, elapsed);
      LiveIff(w, token);
      forall i | 0 <= i < |w1.sessions|
        ensures w1.sessions[i].token != token
      {
        var k := CameFrom(w.sessions, elapsed, w1.sessions[i]);
      }
    }
  }

  lemma CameFrom(sessions: seq<Session>, elapsed: nat, t: Session) returns (k: nat)
    requires t in Passed(sessions, elapsed, false)
    ensures k < |sessions| && sessions[k].token == t.token
  {
    PassedExactly(sessions, elapsed, false, t.token);
    k :| IsAfter(sessions, elapsed, false, k, t);
  }

  lemma PassOrphans(w: Server, called: NodeId, channel: nat, token: NodeId)
    requires DistinctTokens(w.sessions)
    ensures var w1 := IsValid(w, called, channel, false).1;
      var w2 := RemoveSession(w1.(points := Purge(w1.points, called, |w1.points|)), called);
      && w1.points == w.points && (Live(w1, token) <==> Live(w, token))
      && (Live(w2, token) <==> Live(w, token) && token != called)
      && forall p :: p in w2.points ==> p in w.points && p.session != called
  {
    IdleAfterPass(w, called, channel, token);
    PurgeLeavesNone(w.points, called, |w.points|);
  }

  /** What a call makes of the sessions and points of a token that was given out before. */
  ghost predicate Leaves(w: Server, c: Call, w1: Server, token: NodeId) {
    && (Live(w1, token) ==> Live(w, token))
    && (c.DoTick? ==> w1.points == w.points && (Live(w1, token) <==> Live(w, token) && !TimesOut(w, c, token)))
    && (!c.DoTick? && Live(w, token) && !Live(w1, token) ==> !HasPoint(w1, token))
    && (HasPoint(w1, token) ==> HasPoint(w, token) || Live(w, token))
  }

  lemma CreateOrphans(r: Record, c: Call, token: NodeId)
    requires Healthy(r) && c.DoCreate? && IsSpentId(r.w.ix, token)
    ensures Leaves(r.w, c, After(r.w, c), token)
  {
    if c.stamp {
      IssueIsFresh(r.w.ix);
      IdleAfterCreate(r, c.channel, c.name, c.checks, token);
      CreateKeepsPoints(r.w, c.channel, c.name, c.checks);
    }
  }

  lemma CreateKeepsPoints(w: Server, channel: nat, name: Option<string>, checks: bool)
    ensures CreateSession(w, true, channel, name, checks).1.points == w.points
  {
  }

  lemma ActivateOrphans(w: Server, c: Call, token: NodeId)
    requires DistinctTokens(w.sessions) && c.DoActivate?
    ensures Leaves(w, c, After(w, c), token)
  {
    IdleAfterActivate(w, c, token);
    ActivateKeepsPoints(w, c);
  }

  lemma ActivateKeepsPoints(w: Server, c: Call)
    requires c.DoActivate?
    ensures After(w, c).points == w.points
  {
  }

  lemma ServedOrphans(w: Server, c: Call, token: NodeId)
    requires DistinctTokens(w.sessions) && (c.DoGate? || c.DoClose?)
    ensures Leaves(w, c, After(w, c), token)
  {
    PassOrphans(w, c.token, c.channel, token);
  }

  lemma OtherOrphans(r: Record, c: Call, token: NodeId)
    requires Possible(r, c) && (c.GrowSpace? || c.ChangePoints?)
    ensures Leaves(r.w, c, After(r.w, c), token)
  {
  }

  /** A call brings no gone session back and gives no points to it, only a tick leaves points of a session
      that it removes, and it leaves them all. */
  lemma StepOrphans(r: Record, c: Call, token: NodeId)
    requires Healthy(r) && Possible(r, c) && IsSpentId(r.w.ix, token)
    ensures Leaves(r.w, c, Runs.Step(r, c).w, token)
  {
    OwnedMeansDistinct(r.w.sessions, r.w.g, r.w.ix, r.given);
    match c
    case DoCreate(_, _, _, _) => CreateOrphans(r, c, token);
    case DoActivate(_, _, _, _, _, _) => ActivateOrphans(r.w, c, token);
    case DoGate(_, _, _) => ServedOrphans(r.w, c, token);
    case DoClose(_, _, _) => ServedOrphans(r.w, c, token);
    case DoTick(elapsed) => TickRemovesIff(r.w, elapsed, token);
    case GrowSpace(_, _) => OtherOrphans(r, c, token);
    case ChangePoints(_) => OtherOrphans(r, c, token);
  }

  /** Points come from sessions that live, or were there before. */
  lemma StepPoints(r: Record, c: Call, token: NodeId)
    requires Healthy(r) && Possible(r, c) && HasPoint(Runs.Step(r, c).w, token)
    ensures HasPoint(r.w, token) || Live(r.w, token)
  {
    OwnedMeansDistinct(r.w.sessions, r.w.g, r.w.ix, r.given);
    match c
    case DoCreate(stamp, channel, name, checks) =>
      if stamp {
        CreateKeepsPoints(r.w, channel, name, checks);
      }
    case DoActivate(_, _, _, _, _, _) => ActivateKeepsPoints(r.w, c);
    case DoGate(_, _, _) => ServedOrphans(r.w, c, token);
    case DoClose(_, _, _) => ServedOrphans(r.w, c, token);
    case DoTick(elapsed) => TickRemovesIff(r.w, elapsed, token);
    case GrowSpace(_, _) => OtherOrphans(r, c, token);
    case ChangePoints(_) => OtherOrphans(r, c, token);
  }

  lemma LiveIsSpent(r: Record, token: NodeId)
    requires Healthy(r) && Live(r.w, token)
    ensures IsSpentId(r.w.ix, token)
  {
    var i := First(r.w.sessions, token);
    assert OwnsNode(Keys(r.w.sessions)[i], r.w.g, r.w.ix, r.given);
  }

  lemma SpentStays(r: Record, c: Call, token: NodeId)
    requires Healthy(r) && Possible(r, c) && IsSpentId(r.w.ix, token)
    ensures IsSpentId(Runs.Step(r, c).w.ix, token)
  {
    if c.DoCreate? && c.stamp {
      IssueIsFresh(r.w.ix);
      IssueIsFresh(Issue(r.w.ix).1);
      CreateTakesTwo(r.w, c.channel, c.name, c.checks);
    } else if !c.GrowSpace? {
      OthersTakeNone(r.w, c);
    }
  }

  lemma CreateTakesTwo(w: Server, channel: nat, name: Option<string>, checks: bool)
    ensures CreateSession(w, true, channel, name, checks).1.ix == Issue(Issue(w.ix).1).1
  {
  }

  lemma OthersTakeNone(w: Server, c: Call)
    requires !c.GrowSpace? && (c.DoCreate? ==> !c.stamp)
    ensures After(w, c).ix == w.ix
  {
    if c.DoTick? {
      TickFromKeepsIndex(w, 0, c.elapsed);
    }
  }

  lemma {:induction false} TickFromKeepsIndex(w: Server, i: nat, elapsed: nat)
    ensures TickFrom(w, i, elapsed).ix == w.ix
    decreases |w.sessions| - i
  {
    if i < |w.sessions| {
      TickFromKeepsIndex(TickAt(w, i, elapsed), i + 1, elapsed);
    }
  }

  // ----- Runs -----

  ghost predicate TimedOut(records: seq<Record>, calls: seq<Call>, n: nat, token: NodeId)
    requires n <= |calls| <= |records|
  {
    exists i :: 0 <= i < n && TimesOut(records[i].w, calls[i], token)
  }

  /** Who has points has or had a session; it is gone only when a tick removed it, and then for good. */
  ghost predicate Billed(w: Server, token: NodeId, timedOut: bool) {
    && (HasPoint(w, token) ==> IsSpentId(w.ix, token) && (Live(w, token) || timedOut))
    && (timedOut ==> IsSpentId(w.ix, token) && !Live(w, token))
  }

  lemma StepKeepsBilled(r: Record, c: Call, token: NodeId, timedOut: bool)
    requires Healthy(r) && Possible(r, c) && Billed(r.w, token, timedOut)
    ensures Billed(Runs.Step(r, c).w, token, timedOut || TimesOut(r.w, c, token))
  {
    if Live(r.w, token) {
      LiveIsSpent(r, token);
    }
    if IsSpentId(r.w.ix, token) {
      SpentStays(r, c, token);
      StepOrphans(r, c, token);
      LeavesBilled(r.w, c, Runs.Step(r, c).w, token, timedOut);
    } else if HasPoint(Runs.Step(r, c).w, token) {
      StepPoints(r, c, token);
    }
  }

  lemma LeavesBilled(w: Server, c: Call, w1: Server, token: NodeId, timedOut: bool)
    requires Leaves(w, c, w1, token) && Billed(w, token, timedOut) && IsSpentId(w1.ix, token)
    ensures Billed(w1, token, timedOut || TimesOut(w, c, token))
  {
  }

  lemma {:induction false} RunsStayBilled(records: seq<Record>, calls: seq<Call>, n: nat, token: NodeId)
    requires Runs.Run(records, calls) && n < |records| && records[0].w.points == []
    ensures Billed(records[n].w, token, TimedOut(records, calls, n, token))
    decreases n
  {
    if n > 0 {
      RunsStayBilled(records, calls, n - 1, token);
      RunsStayHealthy(records, calls, n - 1);
      StepKeepsBilled(records[n - 1], calls[n - 1], token, TimedOut(records, calls, n - 1, token));
      assert TimedOut(records, calls, n, token)
        <==> TimedOut(records, calls, n - 1, token) || TimesOut(records[n - 1].w, calls[n - 1], token);
    }
  }

  /** In every run that starts without points, an outstanding point has outlived its session if and only if
      a tick has removed the session. Closing and evicting a session leave none of its points. */
  lemma OrphanedIff(records: seq<Record>, calls: seq<Call>, n: nat, p: Point)
    requires Runs.Run(records, calls) && n < |records| && records[0].w.points == [] && p in records[n].w.points
    ensures !Live(records[n].w, p.session) <==> TimedOut(records, calls, n, p.session)
  {
    RunsStayBilled(records, calls, n, p.session);
  }
}
