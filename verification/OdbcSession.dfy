/** The database connection of a session (UASQLFunctions.c, the handle in DML_SQLVariant.c, the scratch
    handles in UASQLInternal.c and the teardown in SessionManager.c): environment, connection and
    statement handles, for every outcome of every driver call. */
module OdbcSessions {
  import opened OpcTypes

  // ----- The driver -----

  datatype Kind = Environment | Connection | StatementKind

  /** What the driver has handed out and not taken back. A handle is forgotten when the session drops
      it although the driver refused to free it, and lost when the session never kept it; `ordered`
      tells whether every handle was freed only after those below it were freed or refused. */
  datatype Driver = Driver(next: nat, live: map<nat, Kind>, forgotten: set<nat>, lost: set<nat>, ordered: bool)

  /** SQLAllocHandle: a null handle on failure. */
  function Alloc(d: Driver, kind: Kind, ok: bool): (Option<nat>, Driver) {
    if ok then (Some(d.next), d.(next := d.next + 1, live := d.live[d.next := kind])) else (None, d)
  }

  predicate HasNone(d: Driver, kind: Kind) {
    forall h :: h in d.live && d.live[h] == kind ==> h in d.forgotten
  }

  /** Not even a refused statement is out. */
  predicate NoneLeft(d: Driver) {
    forall h :: h in d.live ==> d.live[h] != StatementKind
  }

  /** Nothing hangs below the handle but what the driver refused to free. */
  predicate Freeable(d: Driver, h: nat) {
    h in d.live ==>
      match d.live[h]
      case Environment => HasNone(d, Connection) && HasNone(d, StatementKind)
      case Connection => HasNone(d, StatementKind)
      case StatementKind => true
  }

  /** SQLFreeHandle: the driver refuses the handles in `bad`. */
  function Free(d: Driver, h: nat, bad: set<nat>): Driver {
    d.(live := if h in bad then d.live else d.live - {h}, ordered := d.ordered && Freeable(d, h))
  }

  /** Freeing without looking at the outcome. */
  function Drop(d: Driver, h: Option<nat>, bad: set<nat>): Driver {
    if h.None? then d
    else
      var d1 := Free(d, h.value, bad);
      if h.value in bad then d1.(forgotten := d1.forgotten + {h.value}) else d1
  }

  /** SQLDisconnect: with the connection go all statements below it. */
  function Unlink(d: Driver): Driver {
    d.(live := map h | h in d.live && d.live[h] != StatementKind :: d.live[h],
       forgotten := (set h | h in d.forgotten && h in d.live && d.live[h] != StatementKind),
       lost := {})
  }

  // ----- The session's part -----

  /** A statement's parameter buffers; they dangle when they were freed but not reset. */
  datatype Buffers = NoBuffers | Owned | Dangling

  datatype Statement = Statement(id: nat, handle: Option<nat>, buffers: Buffers)

  datatype Db = Db(env: Option<nat>, conn: Option<nat>, connected: bool, statements: seq<Statement>, driver: Driver, corrupted: bool)

  predicate Initialized(db: Db) {
    db.env.Some? && db.conn.Some? && db.connected
  }

  /** The last statement with the identifier, or the length of the table. */
  function Find(statements: seq<Statement>, id: nat): (i: nat)
    ensures i <= |statements| && (i < |statements| ==> statements[i].id == id)
    ensures forall j :: 0 <= j < |statements| && (i == |statements| || i < j) ==> statements[j].id != id
  {
    if statements == [] then 0
    else
      var last := |statements| - 1;
      if statements[last].id == id then last
      else
        var i := Find(statements[..last], id);
        if i == last then |statements| else i
  }

  /** ID_PreparedStatement_Free: the handle goes, and with it the buffers, for a second time when
      they dangle. */
  function FreeStatement(db: Db, s: Statement, bad: set<nat>): Db {
    db.(driver := Drop(db.driver, s.handle, bad), corrupted := db.corrupted || s.buffers == Dangling)
  }

  function FreeAll(db: Db, bad: set<nat>): Db
    decreases |db.statements|
  {
    if db.statements == [] then db
    else FreeAll(FreeStatement(db, db.statements[0], bad).(statements := db.statements[1..]), bad)
  }

  lemma {:induction false} KeepsHandles(db: Db, bad: set<nat>)
    ensures var db1 := FreeAll(db, bad);
      && db1.env == db.env && db1.conn == db.conn && db1.connected == db.connected && db1.statements == []
      && db1.driver.lost == db.driver.lost
    decreases |db.statements|
  {
    if db.statements != [] {
      KeepsHandles(FreeStatement(db, db.statements[0], bad).(statements := db.statements[1..]), bad);
    }
  }

  /** Both handles go without a look at the outcomes. */
  function DropHandles(db: Db, bad: set<nat>): Db {
    db.(driver := Drop(Drop(db.driver, db.conn, bad), db.env, bad), conn := None, env := None)
  }

  function Connect(db: Db, activated: bool, envOk: bool, connOk: bool, linkOk: bool, bad: set<nat>): Db {
    if !activated || db.conn.Some? || db.env.Some? then
      if db.connected then db else DropHandles(db, bad)
    else
      var (env, d1) := Alloc(db.driver, Environment, envOk);
      if env.None? then DropHandles(db.(driver := d1), bad)
      else
        var (conn, d2) := Alloc(d1, Connection, connOk);
        var db2 := db.(env := env, conn := conn, driver := d2);
        if conn.None? || !linkOk then DropHandles(db2, bad) else db2.(connected := true)
  }

  /** The handles in the order of teardown, each step only after the one before succeeded. */
  function CloseHandles(db: Db, bad: set<nat>): Db {
    var db1 :=
      if db.conn.None? then db
      else if db.conn.value in bad then db.(driver := Free(db.driver, db.conn.value, bad))
      else db.(driver := Free(db.driver, db.conn.value, bad), conn := None);
    if db1.conn.Some? || db1.env.None? then db1
    else if db1.env.value in bad then db1.(driver := Free(db1.driver, db1.env.value, bad))
    else db1.(driver := Free(db1.driver, db1.env.value, bad), env := None)
  }

  function Disconnect(db: Db, activated: bool, linkOk: bool, bad: set<nat>): Db {
    if !activated then db
    else if db.conn.Some? && db.connected then
      var db1 := FreeAll(db, bad);
      if linkOk then CloseHandles(db1.(driver := Unlink(db1.driver), connected := false), bad) else db1
    else CloseHandles(db, bad)
  }

  function AllocHandle(db: Db, activated: bool, id: nat, ok: bool, bad: set<nat>): Db {
    if !activated || !Initialized(db) then db
    else
      var i := Find(db.statements, id);
      if i < |db.statements| then
        var s := db.statements[i];
        var db1 := FreeStatement(db, s, bad);
        var (handle, d) := Alloc(db1.driver, StatementKind, ok);
        var reused := Statement(id, handle, if s.buffers == NoBuffers then NoBuffers else Dangling);
        db1.(driver := d, statements := db.statements[i := reused])
      else
        var (handle, d) := Alloc(db.driver, StatementKind, ok);
        db.(driver := d, statements := db.statements + [Statement(id, handle, NoBuffers)])
  }

  function FreeHandle(db: Db, activated: bool, id: nat, bad: set<nat>): Db {
    var i := Find(db.statements, id);
    if !activated || !Initialized(db) || i == |db.statements| then db
    else FreeStatement(db, db.statements[i], bad).(statements := db.statements[..i] + db.statements[i + 1..])
  }

  /** Binding a parameter grows the buffers, dangling or not. */
  function Bind(db: Db, activated: bool, id: nat): Db {
    var i := Find(db.statements, id);
    if !activated || !Initialized(db) || i == |db.statements| then db
    else
      var s := db.statements[i];
      db.(statements := db.statements[i := s.(buffers := Owned)], corrupted := db.corrupted || s.buffers == Dangling)
  }

  /** Resetting the parameters frees the buffers and forgets them. */
  function ResetParams(db: Db, activated: bool, id: nat, ok: bool): Db {
    var i := Find(db.statements, id);
    if !activated || !Initialized(db) || i == |db.statements| || !ok then db
    else
      var s := db.statements[i];
      db.(statements := db.statements[i := s.(buffers := NoBuffers)], corrupted := db.corrupted || s.buffers == Dangling)
  }

  /** UASQLDelete: the handle is kept by nobody. It is asked for when the request can be read. */
  function Delete(db: Db, activated: bool, id: nat, parsed: bool, ok: bool): Db {
    if !activated || !Initialized(db) || Find(db.statements, id) == |db.statements| || !parsed then db
    else
      var (handle, d) := Alloc(db.driver, StatementKind, ok);
      db.(driver := if handle.Some? then d.(lost := d.lost + {handle.value}) else d)
  }

  /** Describing a column, or checking the columns of an insert or update, takes a statement of its own
      and frees it. */
  function Inspect(db: Db, activated: bool, id: nat, ok: bool, bad: set<nat>): Db {
    if !activated || !Initialized(db) || Find(db.statements, id) == |db.statements| then db
    else
      var (handle, d) := Alloc(db.driver, StatementKind, ok);
      db.(driver := Drop(d, handle, bad))
  }

  /** What removing the session does with its connection, without a look at the outcomes. */
  function Teardown(db: Db, linkOk: bool, bad: set<nat>): Db {
    var db1 := FreeAll(db, bad);
    DropHandles(if db1.conn.Some? && linkOk then db1.(driver := Unlink(db1.driver)) else db1, bad).(connected := false)
  }

  // ----- The invariant -----

  /** Every handle that the driver has out is held by the session in its place, forgotten or lost. */
  ghost predicate Accounted(db: Db) {
    var d := db.driver;
    && d.forgotten <= d.live.Keys
    && (forall h :: h in d.live ==> h < d.next)
    && (forall h :: h in d.lost ==> h in d.live && d.live[h] == StatementKind && h !in d.forgotten)
    && (forall h :: h in d.live && h !in d.forgotten && h !in d.lost ==> Holds(db, h, d.live[h]))
    && (db.env.Some? ==> IsLive(d, db.env.value, Environment))
    && (db.conn.Some? ==> IsLive(d, db.conn.value, Connection))
    && forall i :: 0 <= i < |db.statements| && db.statements[i].handle.Some? ==>
         IsLive(d, db.statements[i].handle.value, StatementKind)
  }

  predicate IsLive(d: Driver, h: nat, kind: Kind) {
    h in d.live && d.live[h] == kind && h !in d.forgotten && h !in d.lost
  }

  ghost predicate Holds(db: Db, h: nat, kind: Kind) {
    match kind
    case Environment => db.env == Some(h)
    case Connection => db.conn == Some(h)
    case StatementKind => exists i :: 0 <= i < |db.statements| && db.statements[i].handle == Some(h)
  }

  ghost predicate DistinctStatements(statements: seq<Statement>) {
    forall i, j :: 0 <= i < j < |statements| ==>
      statements[i].id != statements[j].id && (statements[i].handle == statements[j].handle ==> statements[i].handle.None?)
  }

  ghost predicate Sound(db: Db) {
    && (db.connected ==> db.env.Some? && db.conn.Some?)
    && (db.conn.Some? ==> db.env.Some?)
    && (db.statements != [] ==> db.connected)
    && (!db.connected ==> NoneLeft(db.driver))
    && DistinctStatements(db.statements)
    && db.driver.ordered && Accounted(db)
  }

  /** Every handle that the driver has out is held by the session or was refused when it was freed. */
  ghost predicate HeldOrRefused(db: Db) {
    forall h :: h in db.driver.live ==> h in db.driver.forgotten || Holds(db, h, db.driver.live[h])
  }

  lemma HeldOrRefusedIff(db: Db)
    requires Sound(db)
    ensures HeldOrRefused(db) <==> db.driver.lost == {}
  {
    if h :| h in db.driver.lost {
      assert !Holds(db, h, StatementKind);
    }
  }

  const START := Db(None, None, false, [], Driver(0, map[], {}, {}, true), false)

  lemma StartIsSound()
    ensures Sound(START)
  {
  }

  /** Once the statements are gone, both handles go. */
  lemma DropHandlesReleases(db: Db, bad: set<nat>)
    requires Accounted(db) && db.driver.ordered && db.statements == [] && (db.conn.Some? ==> db.env.Some?)
    ensures var d1 := DropHandles(db, bad).driver;
      && d1.forgotten <= db.driver.forgotten + bad && d1.lost == db.driver.lost
      && d1.live.Keys == d1.forgotten + d1.lost
      && (d1.ordered <==> db.env.None? || d1.lost == {})
  {
  }

  lemma DropHandlesKeeps(db: Db, bad: set<nat>)
    requires Sound(db) && !db.connected
    ensures Sound(DropHandles(db, bad)) && DropHandles(db, bad).driver.forgotten <= db.driver.forgotten + bad
    ensures DropHandles(db, bad).driver.lost == {}
  {
    assert db.statements == [];
  }

  lemma CloseHandlesKeeps(db: Db, bad: set<nat>)
    requires Sound(db) && !db.connected
    ensures Sound(CloseHandles(db, bad)) && CloseHandles(db, bad).driver.forgotten == db.driver.forgotten
    ensures CloseHandles(db, bad).driver.lost == {}
  {
    assert db.statements == [];
  }

  lemma FirstDropped(db: Db, bad: set<nat>)
    requires Sound(db) && db.statements != []
    ensures var db1 := FreeStatement(db, db.statements[0], bad).(statements := db.statements[1..]);
      Sound(db1) && db1.driver.forgotten <= db.driver.forgotten + bad && db1.driver.lost == db.driver.lost
  {
    assert db.statements[..0] + db.statements[0 + 1..] == db.statements[1..];
    RemovedKeeps(db, 0, bad);
  }

  lemma RemovedKeeps(db: Db, i: nat, bad: set<nat>)
    requires Sound(db) && i < |db.statements|
    ensures var db1 := FreeStatement(db, db.statements[i], bad).(statements := db.statements[..i] + db.statements[i + 1..]);
      Sound(db1) && db1.driver.forgotten <= db.driver.forgotten + bad && db1.driver.lost == db.driver.lost
  {
    var rest := db.statements[..i] + db.statements[i + 1..];
    var db1 := FreeStatement(db, db.statements[i], bad).(statements := rest);
    RemovedAreOthers(db.statements, i);
    forall h | h in db1.driver.live && h !in db1.driver.forgotten && h !in db1.driver.lost
      ensures Holds(db1, h, db1.driver.live[h])
    {
      assert Holds(db, h, db.driver.live[h]);
      if db.driver.live[h] == StatementKind {
        var k :| 0 <= k < |db.statements| && db.statements[k].handle == Some(h);
        assert k != i;
        assert rest[if k < i then k else k - 1] == db.statements[k];
      }
    }
  }

  /** The statements left after one has gone are distinct, and none has its handle. */
  lemma RemovedAreOthers(statements: seq<Statement>, i: nat)
    requires DistinctStatements(statements) && i < |statements|
    ensures var rest := statements[..i] + statements[i + 1..];
      && DistinctStatements(rest)
      && forall j :: 0 <= j < |rest| ==>
           && rest[j] == statements[if j < i then j else j + 1]
           && (rest[j].handle.Some? ==> rest[j].handle != statements[i].handle)
  {
  }

  lemma {:induction false} FreeAllKeeps(db: Db, bad: set<nat>)
    requires Sound(db)
    ensures var db1 := FreeAll(db, bad);
      && Sound(db1) && db1.statements == [] && db1.driver.forgotten <= db.driver.forgotten + bad
      && db1.driver.lost == db.driver.lost
      && db1.env == db.env && db1.conn == db.conn && db1.connected == db.connected
    decreases |db.statements|
  {
    if db.statements != [] {
      FirstDropped(db, bad);
      FreeAllKeeps(FreeStatement(db, db.statements[0], bad).(statements := db.statements[1..]), bad);
    }
  }

  lemma UnlinkKeeps(db: Db)
    requires Sound(db) && db.statements == [] && db.conn.Some?
    ensures var db1 := db.(driver := Unlink(db.driver), connected := false);
      Sound(db1) && db1.driver.forgotten <= db.driver.forgotten && db1.driver.lost == {}
  {
    var db1 := db.(driver := Unlink(db.driver), connected := false);
    forall h | h in db1.driver.live && h !in db1.driver.forgotten
      ensures Holds(db1, h, db1.driver.live[h])
    {
      assert Holds(db, h, db.driver.live[h]);
    }
  }

  lemma ConnectKeeps(db: Db, activated: bool, envOk: bool, connOk: bool, linkOk: bool, bad: set<nat>)
    requires Sound(db)
    ensures var db1 := Connect(db, activated, envOk, connOk, linkOk, bad);
      Sound(db1) && db1.driver.forgotten <= db.driver.forgotten + bad
  {
    if !activated || db.conn.Some? || db.env.Some? {
      if !db.connected {
        DropHandlesKeeps(db, bad);
      }
    } else {
      var (env, d1) := Alloc(db.driver, Environment, envOk);
      if env.None? {
        DropHandlesKeeps(db.(driver := d1), bad);
      } else {
        var (conn, d2) := Alloc(d1, Connection, connOk);
        DropHandlesKeeps(db.(env := env, conn := conn, driver := d2), bad);
      }
    }
  }

  lemma DisconnectKeeps(db: Db, activated: bool, linkOk: bool, bad: set<nat>)
    requires Sound(db)
    ensures var db1 := Disconnect(db, activated, linkOk, bad);
      Sound(db1) && db1.driver.forgotten <= db.driver.forgotten + bad
  {
    FreeAllKeeps(db, bad);
    if activated {
      if db.conn.Some? && db.connected {
        var db1 := FreeAll(db, bad);
        UnlinkKeeps(db1);
        CloseHandlesKeeps(db1.(driver := Unlink(db1.driver), connected := false), bad);
      } else {
        CloseHandlesKeeps(db, bad);
      }
    }
  }

  /** A place of the table after its statement was freed gets a new handle, or a null one. */
  lemma ReplacedKeeps(db: Db, i: nat, ok: bool, bad: set<nat>, buffers: Buffers)
    requires Sound(db) && i < |db.statements|
    ensures var db1 := FreeStatement(db, db.statements[i], bad);
      var (handle, d) := Alloc(db1.driver, StatementKind, ok);
      var db2 := db1.(driver := d, statements := db.statements[i := Statement(db.statements[i].id, handle, buffers)]);
      Sound(db2) && db2.driver.forgotten <= db.driver.forgotten + bad
  {
    var db1 := FreeStatement(db, db.statements[i], bad);
    var s := Statement(db.statements[i].id, None, buffers);
    EmptiedKeeps(db, i, bad, s);
    RefilledKeeps(db1.(statements := db.statements[i := s]), i, ok);
    var handle := Alloc(db1.driver, StatementKind, ok).0;
    assert db.statements[i := s][i := s.(handle := handle)] == db.statements[i := s.(handle := handle)];
  }

  lemma EmptiedKeeps(db: Db, i: nat, bad: set<nat>, s: Statement)
    requires Sound(db) && i < |db.statements| && s.id == db.statements[i].id && s.handle.None?
    ensures var db1 := FreeStatement(db, db.statements[i], bad).(statements := db.statements[i := s]);
      Sound(db1) && db1.driver.forgotten <= db.driver.forgotten + bad
  {
    var statements := db.statements[i := s];
    var db1 := FreeStatement(db, db.statements[i], bad).(statements := statements);
    ReplacedAreOthers(db.statements, i, s);
    forall h | h in db1.driver.live && h !in db1.driver.forgotten && h !in db1.driver.lost
      ensures Holds(db1, h, db1.driver.live[h])
    {
      assert Holds(db, h, db.driver.live[h]);
      if db.driver.live[h] == StatementKind {
        var k :| 0 <= k < |db.statements| && db.statements[k].handle == Some(h);
        assert k != i && statements[k] == db.statements[k];
      }
    }
  }

  lemma RefilledKeeps(db: Db, i: nat, ok: bool)
    requires Sound(db) && i < |db.statements| && db.statements[i].handle.None?
    ensures var (handle, d) := Alloc(db.driver, StatementKind, ok);
      Sound(db.(driver := d, statements := db.statements[i := db.statements[i].(handle := handle)]))
  {
    var (handle, d) := Alloc(db.driver, StatementKind, ok);
    var statements := db.statements[i := db.statements[i].(handle := handle)];
    var db1 := db.(driver := d, statements := statements);
    ReplacedAreOthers(db.statements, i, statements[i]);
    forall h | h in d.live && h !in d.forgotten && h !in d.lost
      ensures Holds(db1, h, d.live[h])
    {
      if Some(h) == handle {
        assert statements[i].handle == Some(h);
      } else {
        assert Holds(db, h, db.driver.live[h]);
        if db.driver.live[h] == StatementKind {
          var k :| 0 <= k < |db.statements| && db.statements[k].handle == Some(h);
          assert statements[k] == db.statements[k];
        }
      }
    }
  }

  lemma ReplacedAreOthers(statements: seq<Statement>, i: nat, s: Statement)
    requires DistinctStatements(statements) && i < |statements| && s.id == statements[i].id
    requires s.handle.Some? ==> forall j :: 0 <= j < |statements| ==> statements[j].handle != s.handle
    ensures DistinctStatements(statements[i := s])
    ensures forall j :: 0 <= j < |statements| && j != i && statements[j].handle.Some? ==>
      statements[j].handle != statements[i].handle
  {
  }

  lemma AppendedKeeps(db: Db, id: nat, ok: bool)
    requires Sound(db) && Initialized(db) && Find(db.statements, id) == |db.statements|
    ensures var (handle, d) := Alloc(db.driver, StatementKind, ok);
      Sound(db.(driver := d, statements := db.statements + [Statement(id, handle, NoBuffers)]))
  {
    var (handle, d) := Alloc(db.driver, StatementKind, ok);
    var statements := db.statements + [Statement(id, handle, NoBuffers)];
    var db1 := db.(driver := d, statements := statements);
    forall h | h in d.live && h !in d.forgotten && h !in d.lost
      ensures Holds(db1, h, d.live[h])
    {
      if Some(h) == handle {
        assert statements[|db.statements|].handle == Some(h);
      } else {
        assert Holds(db, h, db.driver.live[h]);
        if db.driver.live[h] == StatementKind {
          var k :| 0 <= k < |db.statements| && db.statements[k].handle == Some(h);
          assert statements[k] == db.statements[k];
        }
      }
    }
  }

  /** A statement that the driver gives out leaves what the session holds alone. */
  lemma LostKeeps(db: Db)
    requires Sound(db) && db.connected
    ensures var (handle, d) := Alloc(db.driver, StatementKind, true);
      Sound(db.(driver := d.(lost := d.lost + {handle.value})))
  {
    var (handle, d) := Alloc(db.driver, StatementKind, true);
    var db1 := db.(driver := d.(lost := d.lost + {handle.value}));
    forall h | h in db1.driver.live && h !in db1.driver.forgotten && h !in db1.driver.lost
      ensures Holds(db1, h, db1.driver.live[h])
    {
      assert Holds(db, h, db.driver.live[h]);
    }
  }

  lemma InspectKeeps(db: Db, activated: bool, id: nat, ok: bool, bad: set<nat>)
    requires Sound(db)
    ensures var db1 := Inspect(db, activated, id, ok, bad);
      && Sound(db1) && db1.driver.forgotten <= db.driver.forgotten + bad && db1.driver.lost == db.driver.lost
  {
    var db1 := Inspect(db, activated, id, ok, bad);
    forall h | h in db1.driver.live && h !in db1.driver.forgotten && h !in db1.driver.lost
      ensures Holds(db1, h, db1.driver.live[h])
    {
      assert Holds(db, h, db.driver.live[h]);
    }
  }

  lemma BuffersKeep(db: Db, i: nat, buffers: Buffers, corrupted: bool)
    requires Sound(db) && i < |db.statements|
    ensures Sound(db.(statements := db.statements[i := db.statements[i].(buffers := buffers)], corrupted := corrupted))
  {
    var statements := db.statements[i := db.statements[i].(buffers := buffers)];
    var db1 := db.(statements := statements, corrupted := corrupted);
    forall h | h in db.driver.live && h !in db.driver.forgotten && h !in db.driver.lost
      ensures Holds(db1, h, db.driver.live[h])
    {
      assert Holds(db, h, db.driver.live[h]);
      if db.driver.live[h] == StatementKind {
        var k :| 0 <= k < |db.statements| && db.statements[k].handle == Some(h);
        assert statements[k].handle == Some(h);
      }
    }
  }

  // ----- Runs -----

  datatype Event =
    | DoConnect(activated: bool, envOk: bool, connOk: bool, linkOk: bool)
    | DoDisconnect(activated: bool, linkOk: bool)
    | DoAllocHandle(activated: bool, id: nat, ok: bool)
    | DoFreeHandle(activated: bool, id: nat)
    | DoBind(activated: bool, id: nat)
    | DoResetParams(activated: bool, id: nat, ok: bool)
    | DoDelete(activated: bool, id: nat, parsed: bool, ok: bool)
    | DoInspect(activated: bool, id: nat, ok: bool)

  function Step(db: Db, e: Event, bad: set<nat>): Db {
    match e
    case DoConnect(activated, envOk, connOk, linkOk) => Connect(db, activated, envOk, connOk, linkOk, bad)
    case DoDisconnect(activated, linkOk) => Disconnect(db, activated, linkOk, bad)
    case DoAllocHandle(activated, id, ok) => AllocHandle(db, activated, id, ok, bad)
    case DoFreeHandle(activated, id) => FreeHandle(db, activated, id, bad)
    case DoBind(activated, id) => Bind(db, activated, id)
    case DoResetParams(activated, id, ok) => ResetParams(db, activated, id, ok)
    case DoDelete(activated, id, parsed, ok) => Delete(db, activated, id, parsed, ok)
    case DoInspect(activated, id, ok) => Inspect(db, activated, id, ok, bad)
  }

  lemma StepKeeps(db: Db, e: Event, bad: set<nat>)
    requires Sound(db)
    ensures Sound(Step(db, e, bad)) && Step(db, e, bad).driver.forgotten <= db.driver.forgotten + bad
  {
    match e
    case DoConnect(activated, envOk, connOk, linkOk) => ConnectKeeps(db, activated, envOk, connOk, linkOk, bad);
    case DoDisconnect(activated, linkOk) => DisconnectKeeps(db, activated, linkOk, bad);
    case DoAllocHandle(activated, id, ok) =>
      var i := Find(db.statements, id);
      if activated && Initialized(db) {
        if i < |db.statements| {
          ReplacedKeeps(db, i, ok, bad, if db.statements[i].buffers == NoBuffers then NoBuffers else Dangling);
        } else {
          AppendedKeeps(db, id, ok);
        }
      }
    case DoFreeHandle(activated, id) =>
      var i := Find(db.statements, id);
      if i < |db.statements| {
        RemovedKeeps(db, i, bad);
      }
    case DoBind(activated, id) =>
      var i := Find(db.statements, id);
      if i < |db.statements| {
        BuffersKeep(db, i, Owned, db.corrupted || db.statements[i].buffers == Dangling);
      }
    case DoResetParams(activated, id, ok) =>
      var i := Find(db.statements, id);
      if i < |db.statements| {
        BuffersKeep(db, i, NoBuffers, db.corrupted || db.statements[i].buffers == Dangling);
      }
    case DoDelete(activated, id, parsed, ok) =>
      if Initialized(db) {
        LostKeeps(db);
      }
    case DoInspect(activated, id, ok) => InspectKeeps(db, activated, id, ok, bad);
  }

  ghost predicate Run(states: seq<Db>, events: seq<Event>, bads: seq<set<nat>>) {
    && |states| == |events| + 1 && |bads| == |events| && states[0] == START
    && forall i :: 0 <= i < |events| ==> states[i + 1] == Step(states[i], events[i], bads[i])
  }

  /** Whatever the driver answers, every reachable state is sound: a connection handle is never held
      without an environment, statements never without a connection, identifiers stay distinct, no
      handle is freed before those below it, and the driver has no handle out that is neither held
      nor forgotten after a refused free nor lost by a delete. */
  lemma {:induction false} RunsStaySound(states: seq<Db>, events: seq<Event>, bads: seq<set<nat>>, i: nat)
    requires Run(states, events, bads) && i < |states|
    ensures Sound(states[i])
    ensures (forall j :: 0 <= j < i ==> bads[j] == {}) ==> states[i].driver.forgotten == {}
  {
    if i == 0 {
      StartIsSound();
    } else {
      RunsStaySound(states, events, bads, i - 1);
      StepKeeps(states[i - 1], events[i - 1], bads[i - 1]);
    }
  }

  /** The event is a delete that gets its handle. */
  predicate LosesOne(db: Db, e: Event) {
    && e.DoDelete? && e.activated && Initialized(db) && Find(db.statements, e.id) < |db.statements|
    && e.parsed && e.ok
  }

  lemma StepLoses(db: Db, e: Event, bad: set<nat>)
    requires Sound(db)
    ensures var db1 := Step(db, e, bad);
      db1.driver.lost ==
        if LosesOne(db, e) then db.driver.lost + {db.driver.next} else if db1.connected then db.driver.lost else {}
    ensures LosesOne(db, e) ==> Step(db, e, bad).connected
  {
    LosesWhileConnected(db, e, bad);
    if !Step(db, e, bad).connected {
      StepKeeps(db, e, bad);
      NothingLost(Step(db, e, bad));
    }
  }

  lemma LosesWhileConnected(db: Db, e: Event, bad: set<nat>)
    ensures var db1 := Step(db, e, bad);
      db1.connected ==> db1.driver.lost == if LosesOne(db, e) then db.driver.lost + {db.driver.next} else db.driver.lost
    ensures LosesOne(db, e) ==> Step(db, e, bad).connected
  {
    match e
    case DoConnect(activated, envOk, connOk, linkOk) => ConnectLoses(db, activated, envOk, connOk, linkOk, bad);
    case DoDisconnect(activated, linkOk) => DisconnectLoses(db, activated, linkOk, bad);
    case DoAllocHandle(activated, id, ok) => AllocLoses(db, activated, id, ok, bad);
    case DoFreeHandle(activated, id) =>
    case DoBind(activated, id) =>
    case DoResetParams(activated, id, ok) =>
    case DoDelete(activated, id, parsed, ok) =>
    case DoInspect(activated, id, ok) => InspectLoses(db, activated, id, ok, bad);
  }

  lemma ConnectLoses(db: Db, activated: bool, envOk: bool, connOk: bool, linkOk: bool, bad: set<nat>)
    ensures Connect(db, activated, envOk, connOk, linkOk, bad).driver.lost == db.driver.lost
  {
  }

  lemma DisconnectLoses(db: Db, activated: bool, linkOk: bool, bad: set<nat>)
    ensures var db1 := Disconnect(db, activated, linkOk, bad); db1.connected ==> db1.driver.lost == db.driver.lost
  {
    KeepsHandles(db, bad);
  }

  lemma AllocLoses(db: Db, activated: bool, id: nat, ok: bool, bad: set<nat>)
    ensures AllocHandle(db, activated, id, ok, bad).driver.lost == db.driver.lost
  {
  }

  lemma InspectLoses(db: Db, activated: bool, id: nat, ok: bool, bad: set<nat>)
    ensures Inspect(db, activated, id, ok, bad).driver.lost == db.driver.lost
  {
  }

  lemma NothingLost(db: Db)
    requires Sound(db) && !db.connected
    ensures db.driver.lost == {}
  {
  }

  /** The connection was closed after the event with index `k` and at the latest before the one with index `n`. */
  ghost predicate ClosedSince(states: seq<Db>, k: nat, n: nat)
    requires n < |states|
  {
    exists j :: k < j <= n && !states[j].connected
  }

  /** In every run every handle that the driver has out is held by the session or was refused when it was
      freed if and only if the connection was closed after each delete that got its handle. */
  lemma HeldOrRefusedAfterIff(states: seq<Db>, events: seq<Event>, bads: seq<set<nat>>, n: nat)
    requires Run(states, events, bads) && n < |states|
    ensures HeldOrRefused(states[n]) <==>
      forall k :: 0 <= k < n && LosesOne(states[k], events[k]) ==> ClosedSince(states, k, n)
  {
    RunsStaySound(states, events, bads, n);
    HeldOrRefusedIff(states[n]);
    LostAfterIff(states, events, bads, n);
  }

  lemma {:induction false} LostAfterIff(states: seq<Db>, events: seq<Event>, bads: seq<set<nat>>, n: nat)
    requires Run(states, events, bads) && n < |states|
    ensures states[n].driver.lost == {} <==>
      forall k :: 0 <= k < n && LosesOne(states[k], events[k]) ==> ClosedSince(states, k, n)
  {
    if n > 0 {
      LostAfterIff(states, events, bads, n - 1);
      RunsStaySound(states, events, bads, n - 1);
      StepLoses(states[n - 1], events[n - 1], bads[n - 1]);
      if states[n].connected {
        assert forall k :: 0 <= k < n - 1 ==> (ClosedSince(states, k, n) <==> ClosedSince(states, k, n - 1));
        assert !ClosedSince(states, n - 1, n);
      } else {
        assert forall k :: 0 <= k < n ==> ClosedSince(states, k, n);
      }
    }
  }

  /** A connection, a statement and a delete, all with success: the delete's handle is out and nobody has it. */
  lemma DeleteLosesItsHandle() returns (states: seq<Db>, events: seq<Event>, bads: seq<set<nat>>)
    ensures Run(states, events, bads) && forall i :: 0 <= i < |bads| ==> bads[i] == {}
    ensures states[|events|].driver.forgotten == {} && !HeldOrRefused(states[|events|])
  {
    events := [DoConnect(true, true, true, true), DoAllocHandle(true, 1, true), DoDelete(true, 1, true, true)];
    var db3 := Step(PREPARED, events[2], {});
    states, bads := [START, CONNECTED, PREPARED, db3], [{}, {}, {}];
    FirstSteps();
    assert 3 in db3.driver.live && db3.driver.live[3] == StatementKind && !Holds(db3, 3, StatementKind);
  }

  const CONNECTED := Db(Some(0), Some(1), true, [], Driver(2, map[0 := Environment, 1 := Connection], {}, {}, true), false)

  const PREPARED := Db(Some(0), Some(1), true, [Statement(1, Some(2), NoBuffers)],
    Driver(3, map[0 := Environment, 1 := Connection, 2 := StatementKind], {}, {}, true), false)

  lemma FirstSteps()
    ensures Step(START, DoConnect(true, true, true, true), {}) == CONNECTED
    ensures Step(CONNECTED, DoAllocHandle(true, 1, true), {}) == PREPARED
  {
  }

  /** Removing the session gives everything back but what the driver refused to free, and what deletes
      have lost when the driver does not disconnect. */
  lemma TeardownReleases(db: Db, linkOk: bool, bad: set<nat>)
    requires Sound(db)
    ensures var db1 := Teardown(db, linkOk, bad);
      && db1.driver.live.Keys == db1.driver.forgotten + db1.driver.lost
      && db1.driver.forgotten <= db.driver.forgotten + bad
      && db1.driver.lost == (if linkOk then {} else db.driver.lost)
      && (db1.driver.ordered <==> db1.driver.lost == {})
      && db1.statements == [] && db1.conn == None && db1.env == None && !db1.connected
  {
    FreeAllKeeps(db, bad);
    var db1 := FreeAll(db, bad);
    if db1.conn.Some? && linkOk {
      UnlinkKeeps(db1);
      DropHandlesReleases(db1.(driver := Unlink(db1.driver)), bad);
    } else {
      DropHandlesReleases(db1, bad);
    }
  }

  /** A session gets connected exactly when nothing of a connection is there and every call succeeds. */
  lemma ConnectsIff(db: Db, activated: bool, envOk: bool, connOk: bool, linkOk: bool, bad: set<nat>)
    requires Sound(db)
    ensures Connect(db, activated, envOk, connOk, linkOk, bad).connected <==>
      db.connected || (activated && db.conn.None? && db.env.None? && envOk && connOk && linkOk)
  {
  }

  /** Connecting and disconnecting without a refusal leaves nothing behind. */
  lemma DisconnectUndoesConnect(db: Db)
    requires Sound(db) && db.conn.None? && db.env.None?
    ensures var db1 := Disconnect(Connect(db, true, true, true, true, {}), true, true, {});
      db1 == db.(driver := db.driver.(next := db.driver.next + 2))
  {
    var n, live := db.driver.next, db.driver.live;
    assert !db.connected && db.statements == [];
    assert live[n := Environment][n + 1 := Connection] - {n + 1} == live[n := Environment];
    assert live[n := Environment] - {n} == live;
  }

  /** Freeing a statement that was allocated under a new identifier gives the table back. */
  lemma FreeUndoesAlloc(db: Db, id: nat)
    requires Sound(db) && Initialized(db) && Find(db.statements, id) == |db.statements|
    ensures var db1 := AllocHandle(db, true, id, true, {});
      && Find(db1.statements, id) == |db.statements| && db1.statements[|db.statements|].handle == Some(db.driver.next)
      && FreeHandle(db1, true, id, {}) == db.(driver := db.driver.(next := db.driver.next + 1))
  {
    var s := Statement(id, Some(db.driver.next), NoBuffers);
    NewStatement(db, id);
    AppendedIsFound(db.statements, s);
    GivenAndFreed(db.driver);
    var db1 := AllocHandle(db, true, id, true, {});
    assert FreeHandle(db1, true, id, {}) == FreeStatement(db1, s, {}).(statements := db.statements);
  }

  lemma NewStatement(db: Db, id: nat)
    requires Initialized(db) && Find(db.statements, id) == |db.statements|
    ensures AllocHandle(db, true, id, true, {}) == db.(driver := Alloc(db.driver, StatementKind, true).1,
      statements := db.statements + [Statement(id, Some(db.driver.next), NoBuffers)])
  {
  }

  lemma GivenAndFreed(d: Driver)
    requires d.next !in d.live
    ensures Drop(Alloc(d, StatementKind, true).1, Some(d.next), {}) == d.(next := d.next + 1)
  {
    assert d.live[d.next := StatementKind] - {d.next} == d.live;
  }

  lemma AppendedIsFound(statements: seq<Statement>, s: Statement)
    ensures var all := statements + [s];
      Find(all, s.id) == |statements| && all[..|statements|] + all[|statements| + 1..] == statements
  {
  }

  // ----- Buffers -----

  predicate NoneDangles(db: Db) {
    !db.corrupted && forall i :: 0 <= i < |db.statements| ==> db.statements[i].buffers != Dangling
  }

  lemma {:induction false} FreeAllIsClean(db: Db, bad: set<nat>)
    requires NoneDangles(db)
    ensures NoneDangles(FreeAll(db, bad))
    decreases |db.statements|
  {
    if db.statements != [] {
      FreeAllIsClean(FreeStatement(db, db.statements[0], bad).(statements := db.statements[1..]), bad);
    }
  }

  /** The event allocates a handle for a statement that has parameters bound. */
  predicate ReusesBound(db: Db, e: Event) {
    && e.DoAllocHandle? && e.activated && Initialized(db)
    && var i := Find(db.statements, e.id); i < |db.statements| && db.statements[i].buffers != NoBuffers
  }

  /** Buffers come to dangle exactly when a handle is given again for a statement with bound
      parameters; no other call leaves dangling buffers or frees any twice. */
  lemma StaysCleanIff(db: Db, e: Event, bad: set<nat>)
    requires NoneDangles(db)
    ensures NoneDangles(Step(db, e, bad)) <==> !ReusesBound(db, e)
  {
    if ReusesBound(db, e) {
      var i := Find(db.statements, e.id);
      assert Step(db, e, bad).statements[i].buffers == Dangling;
    } else {
      OthersStayClean(db, e, bad);
    }
  }

  /** Dangling buffers either stay or are freed again. */
  lemma DirtyStays(db: Db, e: Event, bad: set<nat>)
    requires !NoneDangles(db)
    ensures !NoneDangles(Step(db, e, bad))
  {
    match e
    case DoConnect(activated, envOk, connOk, linkOk) => ConnectIsClean(db, activated, envOk, connOk, linkOk, bad);
    case DoDisconnect(activated, linkOk) => FreeAllIsDirty(db, bad);
    case DoAllocHandle(activated, id, ok) => ChangedIsDirty(db, Step(db, e, bad), Find(db.statements, id));
    case DoFreeHandle(activated, id) => RemovedIsDirty(db, activated, id, bad);
    case DoBind(activated, id) => ChangedIsDirty(db, Step(db, e, bad), Find(db.statements, id));
    case DoResetParams(activated, id, ok) => ChangedIsDirty(db, Step(db, e, bad), Find(db.statements, id));
    case DoDelete(activated, id, parsed, ok) =>
    case DoInspect(activated, id, ok) =>
  }

  lemma {:induction false} FreeAllIsDirty(db: Db, bad: set<nat>)
    requires !NoneDangles(db)
    ensures FreeAll(db, bad).corrupted
    decreases |db.statements|
  {
    if db.statements != [] {
      var db1 := FreeStatement(db, db.statements[0], bad).(statements := db.statements[1..]);
      if !db1.corrupted {
        var i :| 0 <= i < |db.statements| && db.statements[i].buffers == Dangling;
        assert db1.statements[i - 1] == db.statements[i];
      }
      FreeAllIsDirty(db1, bad);
    }
  }

  /** A change of the statement at `i` that frees its dangling buffers or leaves them leaves the others alone. */
  lemma ChangedIsDirty(db: Db, db1: Db, i: nat)
    requires !NoneDangles(db) && (db.corrupted ==> db1.corrupted) && |db.statements| <= |db1.statements|
    requires forall j :: 0 <= j < |db.statements| && j != i ==> db1.statements[j] == db.statements[j]
    requires i < |db.statements| && db.statements[i].buffers == Dangling ==>
      db1.corrupted || db1.statements[i].buffers == Dangling
    ensures !NoneDangles(db1)
  {
    if !db.corrupted {
      var j :| 0 <= j < |db.statements| && db.statements[j].buffers == Dangling;
      assert j != i ==> db1.statements[j] == db.statements[j];
    }
  }

  lemma RemovedIsDirty(db: Db, activated: bool, id: nat, bad: set<nat>)
    requires !NoneDangles(db)
    ensures !NoneDangles(FreeHandle(db, activated, id, bad))
  {
    var i, db1 := Find(db.statements, id), FreeHandle(db, activated, id, bad);
    if !db1.corrupted && db1 != db {
      var j :| 0 <= j < |db.statements| && db.statements[j].buffers == Dangling;
      assert db1.statements[if j < i then j else j - 1] == db.statements[j];
    }
  }

  /** In every run buffers dangle or were freed twice if and only if some allocation of a handle met a
      statement with bound parameters. */
  lemma {:induction false} StaysCleanAfterIff(states: seq<Db>, events: seq<Event>, bads: seq<set<nat>>, n: nat)
    requires Run(states, events, bads) && n < |states|
    ensures NoneDangles(states[n]) <==> forall k :: 0 <= k < n ==> !ReusesBound(states[k], events[k])
  {
    if n > 0 {
      StaysCleanAfterIff(states, events, bads, n - 1);
      if NoneDangles(states[n - 1]) {
        StaysCleanIff(states[n - 1], events[n - 1], bads[n - 1]);
      } else {
        DirtyStays(states[n - 1], events[n - 1], bads[n - 1]);
      }
    }
  }

  /** A connection, a statement, a bound parameter and the same statement once more. */
  lemma ReallocationLeavesDangling() returns (states: seq<Db>, events: seq<Event>, bads: seq<set<nat>>)
    ensures Run(states, events, bads) && forall i :: 0 <= i < |bads| ==> bads[i] == {}
    ensures !NoneDangles(states[|events|])
  {
    events := [DoConnect(true, true, true, true), DoAllocHandle(true, 1, true), DoBind(true, 1), DoAllocHandle(true, 1, true)];
    var db3 := PREPARED.(statements := [Statement(1, Some(2), Owned)]);
    var db4 := Step(db3, events[3], {});
    states, bads := [START, CONNECTED, PREPARED, db3, db4], [{}, {}, {}, {}];
    FirstSteps();
    assert Step(PREPARED, events[2], {}) == db3;
    assert db4.statements[0].buffers == Dangling;
  }

  lemma OthersStayClean(db: Db, e: Event, bad: set<nat>)
    requires NoneDangles(db) && !ReusesBound(db, e)
    ensures NoneDangles(Step(db, e, bad))
  {
    match e
    case DoConnect(activated, envOk, connOk, linkOk) => ConnectIsClean(db, activated, envOk, connOk, linkOk, bad);
    case DoDisconnect(activated, linkOk) => DisconnectIsClean(db, activated, linkOk, bad);
    case DoAllocHandle(activated, id, ok) => AllocIsClean(db, activated, id, ok, bad);
    case DoFreeHandle(activated, id) =>
      if Find(db.statements, id) < |db.statements| {
        RemovedIsClean(db.statements, Find(db.statements, id));
      }
    case DoBind(activated, id) =>
    case DoResetParams(activated, id, ok) =>
    case DoDelete(activated, id, parsed, ok) =>
    case DoInspect(activated, id, ok) =>
  }

  lemma ConnectIsClean(db: Db, activated: bool, envOk: bool, connOk: bool, linkOk: bool, bad: set<nat>)
    ensures Connect(db, activated, envOk, connOk, linkOk, bad).statements == db.statements
    ensures Connect(db, activated, envOk, connOk, linkOk, bad).corrupted == db.corrupted
  {
  }

  lemma DisconnectIsClean(db: Db, activated: bool, linkOk: bool, bad: set<nat>)
    requires NoneDangles(db)
    ensures NoneDangles(Disconnect(db, activated, linkOk, bad))
  {
    FreeAllIsClean(db, bad);
  }

  lemma AllocIsClean(db: Db, activated: bool, id: nat, ok: bool, bad: set<nat>)
    requires NoneDangles(db) && !ReusesBound(db, DoAllocHandle(activated, id, ok))
    ensures NoneDangles(AllocHandle(db, activated, id, ok, bad))
  {
  }

  lemma RemovedIsClean(statements: seq<Statement>, i: nat)
    requires i < |statements| && forall j :: 0 <= j < |statements| ==> statements[j].buffers != Dangling
    ensures var rest := statements[..i] + statements[i + 1..];
      forall j :: 0 <= j < |rest| ==> rest[j].buffers != Dangling
  {
  }

  // ----- The session's fields -----

  class DbSession {
    var env: Option<nat>
    var conn: Option<nat>
    var connected: bool
    var statements: seq<Statement>
    var driver: Driver
    var corrupted: bool

    function State(): Db
      reads this
    {
      Db(env, conn, connected, statements, driver, corrupted)
    }

    constructor ()
      ensures State() == START
    {
      env, conn, connected, statements := None, None, false, [];
      driver, corrupted := Driver(0, map[], {}, {}, true), false;
    }

    method FreePrepared(s: Statement, bad: set<nat>)
      modifies `driver, `corrupted
      ensures State() == FreeStatement(old(State()), s, bad)
    {
      driver := Drop(driver, s.handle, bad);
      if s.buffers == Dangling {
        corrupted := true;
      }
    }

    /** Frees the statements from the first to the last, then the table. */
    method FreeAllPrepared(bad: set<nat>)
      modifies this
      ensures State() == FreeAll(old(State()), bad)
    {
      ghost var goal := FreeAll(State(), bad);
      var i := 0;
      while i < |statements|
        invariant 0 <= i <= |statements|
        invariant FreeAll(State().(statements := statements[i..]), bad) == goal
      {
        assert statements[i..][1..] == statements[i + 1..];
        FreePrepared(statements[i], bad);
        i := i + 1;
      }
      statements := [];
    }

    method DropBoth(bad: set<nat>)
      modifies this
      ensures State() == DropHandles(old(State()), bad)
    {
      if conn.Some? {
        driver := Drop(driver, conn, bad);
        conn := None;
      }
      if env.Some? {
        driver := Drop(driver, env, bad);
        env := None;
      }
    }

    method DoConnect(activated: bool, envOk: bool, connOk: bool, linkOk: bool, bad: set<nat>)
      requires !connected || (conn.Some? && env.Some?)
      modifies this
      ensures State() == Connect(old(State()), activated, envOk, connOk, linkOk, bad)
    {
      if activated && conn.None? && env.None? {
        var given := Alloc(driver, Environment, envOk);
        env, driver := given.0, given.1;
        if env.Some? {
          given := Alloc(driver, Connection, connOk);
          conn, driver := given.0, given.1;
          if conn.Some? && linkOk {
            connected := true;
          }
        }
      }
      if !connected {
        DropBoth(bad);
      }
    }

    method DoDisconnect(activated: bool, linkOk: bool, bad: set<nat>)
      modifies this
      ensures State() == Disconnect(old(State()), activated, linkOk, bad)
    {
      if !activated {
        return;
      }
      if conn.Some? {
        if connected {
          FreeAllPrepared(bad);
          KeepsHandles(old(State()), bad);
          if !linkOk {
            return;
          }
          driver := Unlink(driver);
          connected := false;
        }
        driver := Free(driver, conn.value, bad);
        if conn.value in bad {
          return;
        }
        conn := None;
      }
      if env.Some? {
        driver := Free(driver, env.value, bad);
        if env.value in bad {
          return;
        }
        env := None;
      }
    }

    /** The macro that looks a statement up takes the last one with the identifier. */
    method FindPrepared(id: nat) returns (found: nat)
      ensures found == Find(statements, id)
    {
      found := |statements|;
      var i := 0;
      while i < |statements|
        invariant 0 <= i <= |statements|
        invariant found < i || found == |statements|
        invariant found < i ==> statements[found].id == id
        invariant forall j :: 0 <= j < i && (found == |statements| || found < j) ==> statements[j].id != id
      {
        if statements[i].id == id {
          found := i;
        }
        i := i + 1;
      }
    }

    method DoAllocHandle(activated: bool, id: nat, ok: bool, bad: set<nat>)
      modifies this
      ensures State() == AllocHandle(old(State()), activated, id, ok, bad)
    {
      if !activated || env.None? || conn.None? || !connected {
        return;
      }
      var i := FindPrepared(id);
      if i < |statements| {
        var s := statements[i];
        FreePrepared(s, bad);
        statements := statements[i := Statement(id, None, if s.buffers == NoBuffers then NoBuffers else Dangling)];
      } else {
        statements := statements + [Statement(id, None, NoBuffers)];
      }
      var given := Alloc(driver, StatementKind, ok);
      driver := given.1;
      statements := statements[i := statements[i].(handle := given.0)];
    }

    /** UASQLDelete, up to the statement that it takes. */
    method DoDelete(activated: bool, id: nat, parsed: bool, ok: bool)
      modifies `driver
      ensures State() == Delete(old(State()), activated, id, parsed, ok)
    {
      if !activated || env.None? || conn.None? || !connected {
        return;
      }
      var at := FindPrepared(id);
      if at == |statements| || !parsed {
        return;
      }
      var given := Alloc(driver, StatementKind, ok);
      driver := given.1;
      driver := driver.(lost := if given.0.Some? then driver.lost + {given.0.value} else driver.lost);
    }

    method DoFreeHandle(activated: bool, id: nat, bad: set<nat>)
      modifies this
      ensures State() == FreeHandle(old(State()), activated, id, bad)
    {
      if !activated || env.None? || conn.None? || !connected {
        return;
      }
      var at := FindPrepared(id);
      if at == |statements| {
        return;
      }
      FreePrepared(statements[at], bad);
      CloseGap(at);
    }

    /** Shifts the later statements down over the freed one. */
    method CloseGap(at: nat)
      requires at < |statements|
      modifies `statements
      ensures statements == old(statements)[..at] + old(statements)[at + 1..]
    {
      ghost var was := statements;
      var i := at + 1;
      while i < |statements|
        invariant at < i <= |statements| == |was|
        invariant statements == was[..at] + was[at + 1..i] + was[i - 1..]
      {
        assert was[at + 1..i + 1] == was[at + 1..i] + [was[i]];
        statements := statements[i - 1 := statements[i]];
        i := i + 1;
      }
      statements := statements[..|statements| - 1];
    }

    /** The session's part of RemoveSession. */
    method TearDown(linkOk: bool, bad: set<nat>)
      modifies this
      ensures State() == Teardown(old(State()), linkOk, bad)
    {
      FreeAllPrepared(bad);
      KeepsHandles(old(State()), bad);
      if conn.Some? && linkOk {
        driver := Unlink(driver);
      }
      DropBoth(bad);
      connected := false;
    }
  }
}
