/** What each database call leaves of a session's statements and of the driver's handles, told from the
    state before it. */
module OdbcAnswers {
  import opened OpcTypes
  import opened OdbcSessions

  /** The driver has taken the handle back, or refused to. */
  predicate GoneOrRefused(d: Driver, bad: set<nat>, h: nat) {
    h !in d.live || (h in bad && h in d.forgotten)
  }

  /** All handles but these are out exactly as before, and of the same kind. */
  ghost predicate OthersLive(before: Driver, after: Driver, but: set<nat>) {
    forall h :: h !in but ==> (h in before.live <==> h in after.live) && (h in before.live ==> before.live[h] == after.live[h])
  }

  function HandleSet(handle: Option<nat>): set<nat> {
    if handle.Some? then {handle.value} else {}
  }

  /** The session's connection is as before. */
  predicate SameConnection(db: Db, db1: Db) {
    db1.env == db.env && db1.conn == db.conn && db1.connected == db.connected
  }

  // ----- Statements -----

  /** What is true of the statement at place `i` after a handle was asked for, and of its former handle. */
  ghost predicate GivenAt(db: Db, db1: Db, i: nat, id: nat, ok: bool, bad: set<nat>, old_: Option<nat>) {
    && i < |db1.statements| && db1.statements[i].id == id
    && (forall j :: i < j < |db1.statements| ==> db1.statements[j].id != id)
    && (forall j :: 0 <= j < |db.statements| && j != i ==> j < |db1.statements| && db1.statements[j] == db.statements[j])
    && (db1.statements[i].handle.Some? <==> ok)
    && (ok ==>
          var h := db1.statements[i].handle.value;
          h !in db.driver.live && IsLive(db1.driver, h, StatementKind))
    && (old_.Some? ==> GoneOrRefused(db1.driver, bad, old_.value))
    && OthersLive(db.driver, db1.driver, HandleSet(old_) + HandleSet(db1.statements[i].handle))
  }

  /** For every identifier, old or new, the statement found under it afterwards holds a new live handle exactly
      when the driver gave one; its former handle is gone or refused, and every other statement and handle stays. */
  lemma AllocAnswers(db: Db, id: nat, ok: bool, bad: set<nat>)
    requires Sound(db) && db.env.Some? && db.conn.Some? && db.connected
    ensures var db1 := AllocHandle(db, true, id, ok, bad);
      && SameConnection(db, db1)
      && if exists i: nat :: IsAt(db, i, id)
         then exists i: nat :: IsAt(db, i, id) && |db1.statements| == |db.statements| && GivenAt(db, db1, i, id, ok, bad, db.statements[i].handle)
         else |db1.statements| == |db.statements| + 1 && GivenAt(db, db1, |db.statements|, id, ok, bad, None)
  {
    var i := Find(db.statements, id);
    if i < |db.statements| {
      assert IsAt(db, i, id);
      KnownIsGiven(db, i, id, ok, bad);
    } else {
      NewIsGiven(db, id, ok, bad);
    }
  }

  /** The statement with the identifier. */
  predicate IsAt(db: Db, i: nat, id: nat) {
    i < |db.statements| && db.statements[i].id == id
  }

  lemma KnownIsGiven(db: Db, i: nat, id: nat, ok: bool, bad: set<nat>)
    requires Sound(db) && Initialized(db) && i < |db.statements| && Find(db.statements, id) == i
    ensures var db1 := AllocHandle(db, true, id, ok, bad);
      SameConnection(db, db1) && |db1.statements| == |db.statements| && GivenAt(db, db1, i, id, ok, bad, db.statements[i].handle)
  {
    var s := db.statements[i];
    DropAnswers(db.driver, s.handle, bad);
    AllocatedIsNew(Drop(db.driver, s.handle, bad), ok);
  }

  lemma NewIsGiven(db: Db, id: nat, ok: bool, bad: set<nat>)
    requires Sound(db) && Initialized(db) && Find(db.statements, id) == |db.statements|
    ensures var db1 := AllocHandle(db, true, id, ok, bad);
      SameConnection(db, db1) && |db1.statements| == |db.statements| + 1 && GivenAt(db, db1, |db.statements|, id, ok, bad, None)
  {
    AllocatedIsNew(db.driver, ok);
  }

  lemma DropAnswers(d: Driver, h: Option<nat>, bad: set<nat>)
    ensures var d1 := Drop(d, h, bad);
      && d1.next == d.next && d1.live.Keys <= d.live.Keys && OthersLive(d, d1, HandleSet(h))
      && d1.forgotten <= d.forgotten + HandleSet(h) && d1.lost == d.lost
      && (h.Some? ==> GoneOrRefused(d1, bad, h.value))
  {
  }

  lemma AllocatedIsNew(d: Driver, ok: bool)
    requires (forall h :: h in d.live ==> h < d.next)
    ensures var (handle, d1) := Alloc(d, StatementKind, ok);
      && (handle.Some? <==> ok) && OthersLive(d, d1, HandleSet(handle)) && d1.forgotten == d.forgotten && d1.lost == d.lost
      && (ok ==> handle.value == d.next && d.next in d1.live && d1.live[d.next] == StatementKind)
  {
  }

  /** Freeing takes the statement out, the later ones move down, and its handle is gone or refused. */
  lemma FreeAnswers(db: Db, i: nat, id: nat, bad: set<nat>)
    requires Sound(db) && db.env.Some? && db.conn.Some? && db.connected && IsAt(db, i, id)
    ensures var db1 := FreeHandle(db, true, id, bad);
      && SameConnection(db, db1) && db1.statements == db.statements[..i] + db.statements[i + 1..]
      && (db.statements[i].handle.Some? ==> GoneOrRefused(db1.driver, bad, db.statements[i].handle.value))
      && OthersLive(db.driver, db1.driver, HandleSet(db.statements[i].handle))
  {
    assert Find(db.statements, id) == i;
    DropAnswers(db.driver, db.statements[i].handle, bad);
  }

  /** Binding leaves the statement with buffers, resetting leaves it without unless the driver refuses; nothing
      else changes but the record of a double free. */
  lemma BindAnswers(db: Db, i: nat, id: nat, ok: bool)
    requires Sound(db) && db.env.Some? && db.conn.Some? && db.connected && IsAt(db, i, id)
    ensures var db1 := Bind(db, true, id);
      db1 == db.(statements := db.statements[i := db.statements[i].(buffers := Owned)], corrupted := db1.corrupted)
    ensures var db1 := ResetParams(db, true, id, ok);
      db1 == if ok then db.(statements := db.statements[i := db.statements[i].(buffers := NoBuffers)], corrupted := db1.corrupted) else db
  {
    assert Find(db.statements, id) == i;
  }

  /** Without an activated session, a connection, or the statement, nothing happens. */
  lemma NothingHappens(db: Db, activated: bool, id: nat, ok: bool, bad: set<nat>)
    requires Sound(db)
    ensures !activated || !db.connected ==> AllocHandle(db, activated, id, ok, bad) == db
    ensures !activated || !db.connected || (forall i: nat :: !IsAt(db, i, id)) ==>
      && FreeHandle(db, activated, id, bad) == db && Bind(db, activated, id) == db && ResetParams(db, activated, id, ok) == db
      && Delete(db, activated, id, true, ok) == db
    ensures !activated ==> Disconnect(db, activated, ok, bad) == db
  {
    var i := Find(db.statements, id);
    if i < |db.statements| {
      assert IsAt(db, i, id);
    }
  }

  // ----- The connection -----

  /** Freeing all statements takes all their handles back but the refused ones, and no other. */
  lemma {:induction false} FreeAllAnswers(db: Db, bad: set<nat>)
    ensures var d1 := FreeAll(db, bad).driver;
      && d1.live.Keys <= db.driver.live.Keys && (forall h :: h in d1.live ==> d1.live[h] == db.driver.live[h])
      && (forall h :: h in db.driver.live && h !in d1.live ==> HasHandle(db.statements, h) && h !in bad)
      && (forall h :: HasHandle(db.statements, h) && h !in bad ==> h !in d1.live)
    decreases |db.statements|
  {
    if db.statements != [] {
      var db1 := FreeStatement(db, db.statements[0], bad).(statements := db.statements[1..]);
      FreeAllAnswers(db1, bad);
      forall h: nat
        ensures HasHandle(db.statements, h) <==> db.statements[0].handle == Some(h) || HasHandle(db1.statements, h)
      {
        if HasHandle(db.statements, h) {
          var j :| 0 <= j < |db.statements| && db.statements[j].handle == Some(h);
          assert j > 0 ==> db1.statements[j - 1] == db.statements[j];
        }
      }
    }
  }

  ghost predicate HasHandle(statements: seq<Statement>, h: nat) {
    exists j :: 0 <= j < |statements| && statements[j].handle == Some(h)
  }

  /** Disconnecting a connected session, whatever statements it has: these are gone from the table in any case.
      When the driver disconnects, no statement is out any more; the connection goes unless it is refused, and then
      the environment unless it is. */
  lemma DisconnectAnswers(db: Db, linkOk: bool, bad: set<nat>)
    requires Sound(db) && db.connected
    ensures var db1 := Disconnect(db, true, linkOk, bad);
      && db1.statements == [] && (db1.connected <==> !linkOk)
      && (forall h :: HasHandle(db.statements, h) ==> GoneOrRefused(db1.driver, bad, h))
      && (linkOk ==> forall h :: h in db1.driver.live ==> db1.driver.live[h] != StatementKind)
      && db1.conn == (if linkOk && db.conn.value !in bad then None else db.conn)
      && db1.env == (if linkOk && db.conn.value !in bad && db.env.value !in bad then None else db.env)
      && (db1.conn.None? ==> db.conn.value !in db1.driver.live) && (db1.env.None? ==> db.env.value !in db1.driver.live)
  {
    FreeAllKeeps(db, bad);
    KeepsHandles(db, bad);
    RefusedIsForgotten(db, bad);
    DisconnectKeeps(db, true, linkOk, bad);
  }

  lemma {:induction false} RefusedIsForgotten(db: Db, bad: set<nat>)
    ensures var d1 := FreeAll(db, bad).driver;
      && db.driver.forgotten <= d1.forgotten
      && forall h :: HasHandle(db.statements, h) ==> GoneOrRefused(d1, bad, h)
    decreases |db.statements|
  {
    FreeAllAnswers(db, bad);
    if db.statements != [] {
      var db1 := FreeStatement(db, db.statements[0], bad).(statements := db.statements[1..]);
      RefusedIsForgotten(db1, bad);
      forall h: nat | HasHandle(db.statements, h)
        ensures GoneOrRefused(FreeAll(db, bad).driver, bad, h)
      {
        var j :| 0 <= j < |db.statements| && db.statements[j].handle == Some(h);
        if j > 0 {
          assert db1.statements[j - 1].handle == Some(h);
        }
      }
    }
  }

  /** A session with nothing of a connection is afterwards either connected, with a new environment and a new
      connection, or has nothing again, and what the driver had given meanwhile is gone or refused. */
  lemma ConnectAnswers(db: Db, envOk: bool, connOk: bool, linkOk: bool, bad: set<nat>)
    requires Sound(db) && db.env.None? && db.conn.None?
    ensures var db1 := Connect(db, true, envOk, connOk, linkOk, bad);
      && db1.statements == [] && (db1.connected <==> envOk && connOk && linkOk)
      && (db1.connected ==>
            && db1.env.Some? && IsLive(db1.driver, db1.env.value, Environment) && db1.env.value !in db.driver.live
            && db1.conn.Some? && IsLive(db1.driver, db1.conn.value, Connection) && db1.conn.value !in db.driver.live)
      && (!db1.connected ==> db1.env.None? && db1.conn.None?)
      && forall h :: h in db1.driver.live && h !in db.driver.live ==> db1.connected || h in db1.driver.forgotten
  {
  }

  /** A session that holds something of a connection without being connected gives it all up when it tries to
      connect; a connected one stays as it is. */
  lemma ConnectAgainAnswers(db: Db, activated: bool, envOk: bool, connOk: bool, linkOk: bool, bad: set<nat>)
    requires Sound(db) && (db.env.Some? || !activated)
    ensures var db1 := Connect(db, activated, envOk, connOk, linkOk, bad);
      if db.connected then db1 == db
      else
        && db1.env.None? && db1.conn.None? && !db1.connected && db1.statements == db.statements
        && (db.conn.Some? ==> GoneOrRefused(db1.driver, bad, db.conn.value))
        && (db.env.Some? ==> GoneOrRefused(db1.driver, bad, db.env.value))
        && OthersLive(db.driver, db1.driver, HandleSet(db.conn) + HandleSet(db.env))
  {
  }
}
