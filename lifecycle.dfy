/** Resource lifecycle of connections and statements, stated over a value
    `State`: SQLite's connections and statements, the table of statement
    peers (`statement_peer` records, by handle), the weak persistent handles
    whose finalizers are still armed, the process-wide `warned` flag, the
    warnings written to stderr, and the history of peers released.
    Each function gives the state after one bridge operation. */
module Lifecycle {
  import opened Wrappers
  import opened Sqlite
  import opened Errors

  /** The handle the host holds for a statement peer. */
  type Handle = nat

  /** A `statement_peer`: the connection and the statement that a host
      Statement object stands for. Its weak persistent handle is identified
      with the peer's own handle. `stmtLive` turns false when `Close`
      finalizes the statement while the peer is still in use. */
  datatype Peer = Peer(db: DbId, stmt: StmtId, stmtLive: bool)

  /** The two warnings the bridge writes to stderr. */
  datatype Warning = StatementsStillOpen(count: nat) | NotClosedBeforeGc

  datatype State = State(
    engine: Engine,
    peers: map<Handle, Peer>,
    armed: set<Handle>,
    warned: bool,
    warnings: seq<Warning>,
    freed: seq<Handle>,
    next: Handle)

  ghost predicate AtMostOneGcWarning(w: seq<Warning>) {
    forall i, j :: 0 <= i < j < |w| && w[i] == NotClosedBeforeGc ==> w[j] != NotClosedBeforeGc
  }

  /** The lifecycle invariant: the engine is consistent, and so are the
      peers, the release history and the warnings. */
  ghost predicate Valid(s: State) {
    Sqlite.Valid(s.engine) && PeersValid(s) && FreedValid(s) && WarningsValid(s)
  }

  /** A finalizer is armed exactly for the peers still allocated; a peer
      whose statement is live points at an unfinalized statement of its own
      connection; no two peers share a statement. */
  ghost predicate PeersValid(s: State) {
    && s.armed == s.peers.Keys
    && (forall h :: h in s.peers ==> h < s.next && s.peers[h].stmt < s.engine.nextId)
    && (forall h :: h in s.peers && s.peers[h].stmtLive ==>
          s.peers[h].stmt in s.engine.stmts && s.engine.stmts[s.peers[h].stmt].db == s.peers[h].db)
    && (forall h, g :: h in s.peers && g in s.peers && h != g ==> s.peers[h].stmt != s.peers[g].stmt)
  }

  /** A released peer is never released again nor reused. */
  ghost predicate FreedValid(s: State) {
    && (forall i :: 0 <= i < |s.freed| ==> s.freed[i] < s.next && s.freed[i] !in s.peers)
    && NoDup(s.freed)
  }

  /** The `warned` flag records whether the garbage-collection warning was
      written, and it was written at most once. */
  ghost predicate WarningsValid(s: State) {
    (s.warned <==> NotClosedBeforeGc in s.warnings) && AtMostOneGcWarning(s.warnings)
  }

  /** The process at load time: no connection, no peer, nothing warned. */
  function Initial(): (s: State)
    ensures Valid(s) && !s.warned && s.peers == map[] && s.engine.conns == map[]
  {
    State(Engine(map[], map[], 0), map[], {}, false, [], [], 0)
  }

  // ---------------------------------------------------------------- New

  /** `New` with `sqlite3_open` sequenced before the error check: on failure
      the error carries the message of the connection just opened
      (`errmsg(db)`); on success the new connection has no statements. */
  function New(s: State, status: int, errmsg: DbId -> string): (r: (State, Result<DbId, Error>))
    requires Valid(s)
    ensures Valid(r.0)
    ensures r.1.Err? <==> status != 0
    ensures r.1.Err? ==> r.0 == s && r.1.error == SqliteException(errmsg(Open(s.engine).1))
    ensures r.1.Ok? ==> r.1.value !in s.engine.conns && r.0 == s.(engine := Open(s.engine).0)
  {
    var (e, db) := Open(s.engine);
    match CheckSqlError(errmsg(db), status)
    case Fail(err) => (s, Err(err))
    case Pass => (s.(engine := e), Ok(db))
  }

  /** The two orders in which the arguments of
      `CheckSqlError(db, sqlite3_open(cpath, &db))` may be evaluated. */
  datatype ArgOrder = DbFirst | OpenFirst

  /** Line 97 as written: what `CheckSqlError` raises for the status of
      `sqlite3_open`, for each evaluation order. The message is read
      through the `db` argument: the connection opened when the open is
      evaluated first, the uninitialised local (None) when `db` is read
      first. Either way a non-zero status raises. */
  function AsWrittenNewError(order: ArgOrder, newDb: DbId, status: int, errmsg: Option<DbId> -> string): (r: Option<Error>)
    ensures r.Some? <==> status != 0
    ensures order.OpenFirst? && status != 0 ==> r == Some(SqliteException(errmsg(Some(newDb))))
    ensures order.DbFirst? && status != 0 ==> r == Some(SqliteException(errmsg(None)))
  {
    var dbArg := match order
      case DbFirst => None
      case OpenFirst => Some(newDb);
    if status != 0 then Some(SqliteException(errmsg(dbArg))) else None
  }

  /** The failure of line 97: a compiler free to read `db` first raises a
      failed open with a message read through an uninitialised connection,
      so the message depends on the evaluation order, while the corrected
      `New` always reads it through the connection opened. */
  lemma AsWrittenNewReadsUninitializedDb(s: State, status: int, errmsg: Option<DbId> -> string)
    requires Valid(s) && status != 0
    ensures AsWrittenNewError(DbFirst, Open(s.engine).1, status, errmsg) == Some(SqliteException(errmsg(None)))
    ensures New(s, status, (d: DbId) => errmsg(Some(d))).1 == Err(SqliteException(errmsg(Some(Open(s.engine).1))))
    ensures AsWrittenNewError(OpenFirst, Open(s.engine).1, status, errmsg) == Some(New(s, status, (d: DbId) => errmsg(Some(d))).1.error)
    ensures AsWrittenNewError(DbFirst, Open(s.engine).1, status, errmsg) == AsWrittenNewError(OpenFirst, Open(s.engine).1, status, errmsg)
      <==> errmsg(None) == errmsg(Some(Open(s.engine).1))
  {
  }

  // ---------------------------------------------------------------- PrepareStatement

  /** `PrepareStatement` with the leak on a failed weak-handle registration
      closed. A compile failure raises `SqliteSyntaxException` with the
      engine's message and the SQL text and changes nothing. Otherwise a
      peer is allocated; if registering its finalizer fails (`regError`),
      the statement is finalized and the peer freed before raising, so the
      engine and the live peers are as before; if it succeeds the new peer
      is live, armed, and its handle is returned. */
  function PrepareStatement(s: State, db: DbId, sql: string, status: int, shape: Shape, errmsg: string, regError: Option<string>)
    : (r: (State, Result<Handle, Error>))
    requires Valid(s) && db in s.engine.conns
    ensures Valid(r.0)
  {
    if status != 0 then (s, Err(SqliteSyntaxException(errmsg, sql)))
    else match regError
      case Some(msg) => (Discard(s, db, shape), Err(SqliteException(msg)))
      case None => var (s', h) := Allocate(s, db, shape); (s', Ok(h))
  }

  /** A compiled statement of `db` gets a peer under a handle never used
      before, live and with its finalizer armed. */
  function Allocate(s: State, db: DbId, shape: Shape): (r: (State, Handle))
    requires Valid(s) && db in s.engine.conns
    ensures Valid(r.0)
  {
    var (e, t) := Sqlite.Prepare(s.engine, db, shape);
    var h := s.next;
    AllocateKeepsValid(s, db, shape);
    (s.(engine := e, peers := s.peers[h := Peer(db, t, true)], armed := s.armed + {h}, next := h + 1), h)
  }

  /** A compiled statement whose finalizer could not be registered is
      finalized, and the peer allocated for it is freed. */
  function Discard(s: State, db: DbId, shape: Shape): (r: State)
    requires Valid(s) && db in s.engine.conns
    ensures Valid(r)
  {
    var (e, t) := Sqlite.Prepare(s.engine, db, shape);
    DiscardKeepsValid(s, db, shape);
    s.(engine := Finalize(e, t), next := s.next + 1, freed := s.freed + [s.next])
  }

  /** What `PrepareStatement` does: a compile failure raises the syntax
      error and changes nothing; a failed registration raises and leaves the
      engine's connections and statements and the peers as they were; a
      success hands out a handle never used before, for a live, armed peer
      over the statement just compiled. */
  lemma PrepareStatementOutcome(s: State, db: DbId, sql: string, status: int, shape: Shape, errmsg: string, regError: Option<string>)
    requires Valid(s) && db in s.engine.conns
    ensures var r := PrepareStatement(s, db, sql, status, shape, errmsg, regError);
      && (status != 0 ==> r == (s, Err(SqliteSyntaxException(errmsg, sql))))
      && (r.1.Ok? <==> status == 0 && regError.None?)
      && (status == 0 && regError.Some? ==>
            && r.1 == Err(SqliteException(regError.value))
            && r.0.engine.conns == s.engine.conns && r.0.engine.stmts == s.engine.stmts
            && r.0.engine.nextId == Sqlite.Prepare(s.engine, db, shape).0.nextId
            && r.0 == s.(engine := r.0.engine, next := s.next + 1, freed := s.freed + [s.next]))
      && (r.1.Ok? ==>
            var h := r.1.value;
            var (e, t) := Sqlite.Prepare(s.engine, db, shape);
            && h !in s.peers && h !in s.freed && t !in s.engine.stmts
            && r.0 == s.(engine := e, peers := s.peers[h := Peer(db, t, true)], armed := s.armed + {h}, next := h + 1))
  {
    if status == 0 {
      DiscardKeepsValid(s, db, shape);
      assert s.next !in s.peers;
      assert s.next !in s.freed by {
        forall i | 0 <= i < |s.freed| ensures s.freed[i] != s.next {
          assert s.freed[i] < s.next;
        }
      }
    }
  }

  /** Handing out a fresh handle for a new statement of `db` keeps the
      invariant. */
  lemma AllocateKeepsValid(s: State, db: DbId, shape: Shape)
    requires Valid(s) && db in s.engine.conns
    ensures var (e, t) := Sqlite.Prepare(s.engine, db, shape);
      Valid(s.(engine := e, peers := s.peers[s.next := Peer(db, t, true)], armed := s.armed + {s.next}, next := s.next + 1))
  {
    var (e, t) := Sqlite.Prepare(s.engine, db, shape);
    var r := s.(engine := e, peers := s.peers[s.next := Peer(db, t, true)], armed := s.armed + {s.next}, next := s.next + 1);
    forall g | g in s.peers ensures s.peers[g].stmt != t {
      assert s.peers[g].stmt < s.engine.nextId;
    }
    assert PeersValid(r);
    assert s.next !in s.freed by {
      forall i | 0 <= i < |s.freed| ensures s.freed[i] != s.next {
        assert s.freed[i] < s.next;
      }
    }
    assert FreedValid(r);
  }

  /** Finalizing the statement just compiled and recording its handle as
      released leaves the engine as it was and keeps the invariant. */
  lemma DiscardKeepsValid(s: State, db: DbId, shape: Shape)
    requires Valid(s) && db in s.engine.conns
    ensures var (e, t) := Sqlite.Prepare(s.engine, db, shape);
      var e' := Finalize(e, t);
      && e'.conns == s.engine.conns && e'.stmts == s.engine.stmts
      && Valid(s.(engine := e', next := s.next + 1, freed := s.freed + [s.next]))
  {
    var (e, t) := Sqlite.Prepare(s.engine, db, shape);
    var e' := Finalize(e, t);
    assert e'.conns == s.engine.conns by {
      assert t !in s.engine.conns[db];
    }
    assert e'.stmts == s.engine.stmts;
    var r := s.(engine := e', next := s.next + 1, freed := s.freed + [s.next]);
    assert PeersValid(r);
    assert s.next !in s.freed by {
      forall i | 0 <= i < |s.freed| ensures s.freed[i] != s.next {
        assert s.freed[i] < s.next;
      }
    }
    forall i | 0 <= i < |r.freed| ensures r.freed[i] < r.next && r.freed[i] !in r.peers {
      if i < |s.freed| { assert r.freed[i] == s.freed[i]; }
    }
    AppendFresh(s.freed, s.next);
  }

  /** Lines 164-167 as written: the peer is allocated and filled in before
      the finalizer's registration is checked, and a failed check raises
      without finalizing the statement or freeing the peer. */
  function AsWrittenPrepareStatement(s: State, db: DbId, sql: string, status: int, shape: Shape, errmsg: string, regError: Option<string>)
    : (r: (State, Result<Handle, Error>))
    requires Valid(s) && db in s.engine.conns
    ensures status != 0 ==> r == (s, Err(SqliteSyntaxException(errmsg, sql)))
    ensures status == 0 && regError.None? ==> r == PrepareStatement(s, db, sql, status, shape, errmsg, regError)
  {
    if status != 0 then (s, Err(SqliteSyntaxException(errmsg, sql)))
    else
      var (e, t) := Sqlite.Prepare(s.engine, db, shape);
      var h := s.next;
      var peers := s.peers[h := Peer(db, t, true)];
      match regError
      case Some(msg) => (s.(engine := e, peers := peers, next := h + 1), Err(SqliteException(msg)))
      case None => (s.(engine := e, peers := peers, armed := s.armed + {h}, next := h + 1), Ok(h))
  }

  /** The leak of lines 164-167: when registration fails, the call raises
      yet leaves behind a peer that no host object refers to and no
      finalizer will release, and an unfinalized statement; the corrected
      `PrepareStatement` leaves neither. */
  lemma AsWrittenPrepareLeaksPeer(s: State, db: DbId, sql: string, shape: Shape, errmsg: string, msg: string)
    requires Valid(s) && db in s.engine.conns
    ensures var r := AsWrittenPrepareStatement(s, db, sql, 0, shape, errmsg, Some(msg));
      && r.1.Err?
      && s.next in r.0.peers && s.next !in r.0.armed
      && r.0.peers[s.next].stmt in r.0.engine.stmts
      && !Valid(r.0)
    ensures var r := PrepareStatement(s, db, sql, 0, shape, errmsg, Some(msg));
      r.1.Err? && r.0.peers == s.peers && r.0.engine.stmts == s.engine.stmts
  {
  }

  // ---------------------------------------------------------------- Reset

  /** `Reset`: the statement's bindings are cleared, then each of the two
      engine calls raises if it reports a non-zero status. */
  function Reset(s: State, h: Handle, clearStatus: int, resetStatus: int, errmsg: string): (r: (State, Outcome<Error>))
    requires Valid(s) && h in s.peers && s.peers[h].stmtLive
    ensures Valid(r.0)
    ensures r.0 == s.(engine := ClearBindings(s.engine, s.peers[h].stmt))
    ensures r.0.engine.stmts[s.peers[h].stmt].bindings == map[]
    ensures r.1.Pass? <==> clearStatus == 0 && resetStatus == 0
    ensures r.1.Fail? ==> r.1.error == SqliteException(errmsg)
  {
    var s' := s.(engine := ClearBindings(s.engine, s.peers[h].stmt));
    match CheckSqlError(errmsg, clearStatus)
    case Fail(err) => (s', Fail(err))
    case Pass => (s', CheckSqlError(errmsg, resetStatus))
  }

  // ---------------------------------------------------------------- CloseStatement

  /** Releasing peer `h`: its statement is finalized unless `Close` already
      did, its weak handle deleted and the peer freed. No other peer, and
      no statement of another peer, is touched. */
  function Release(s: State, h: Handle): (r: State)
    requires Valid(s) && h in s.peers
    ensures Valid(r)
    ensures h !in r.armed && h !in r.peers && r.freed == s.freed + [h]
    ensures r.peers == s.peers - {h} && r.armed == s.armed - {h}
    ensures r.warned == s.warned && r.warnings == s.warnings && r.next == s.next
    ensures r.engine == if s.peers[h].stmtLive then Finalize(s.engine, s.peers[h].stmt) else s.engine
  {
    var p := s.peers[h];
    var e := if p.stmtLive then Finalize(s.engine, p.stmt) else s.engine;
    var r := s.(engine := e, peers := s.peers - {h}, armed := s.armed - {h}, freed := s.freed + [h]);
    ReleaseKeepsPeersValid(s, h, r);
    ReleaseKeepsFreedValid(s, h, r);
    r
  }

  lemma ReleaseKeepsPeersValid(s: State, h: Handle, r: State)
    requires Valid(s) && h in s.peers
    requires r.peers == s.peers - {h} && r.armed == s.armed - {h} && r.next == s.next
    requires r.engine == if s.peers[h].stmtLive then Finalize(s.engine, s.peers[h].stmt) else s.engine
    ensures PeersValid(r)
  {
    forall g | g in r.peers && r.peers[g].stmtLive
      ensures r.peers[g].stmt in r.engine.stmts && r.engine.stmts[r.peers[g].stmt].db == r.peers[g].db
    {
      assert s.peers[g].stmt != s.peers[h].stmt;
    }
  }

  lemma ReleaseKeepsFreedValid(s: State, h: Handle, r: State)
    requires Valid(s) && h in s.peers
    requires r.peers == s.peers - {h} && r.next == s.next && r.freed == s.freed + [h]
    ensures FreedValid(r)
  {
    assert h !in s.freed by {
      forall i | 0 <= i < |s.freed| ensures s.freed[i] != h {
        assert s.freed[i] !in s.peers;
      }
    }
    forall i | 0 <= i < |r.freed| ensures r.freed[i] < r.next && r.freed[i] !in r.peers {
      if i < |s.freed| { assert r.freed[i] == s.freed[i]; }
    }
    AppendFresh(s.freed, h);
  }

  /** `CloseStatement` with the release made unconditional: the peer is
      released, and only then is a non-zero finalize status raised.
      Afterwards the peer's finalizer can no longer fire. */
  function CloseStatement(s: State, h: Handle, status: int, errmsg: string): (r: (State, Outcome<Error>))
    requires Valid(s) && h in s.peers
    ensures Valid(r.0)
    ensures h !in r.0.armed && h !in r.0.peers && r.0.freed == s.freed + [h]
    ensures r.0.peers == s.peers - {h} && r.0.armed == s.armed - {h}
    ensures r.0.warned == s.warned && r.0.warnings == s.warnings && r.0.next == s.next
    ensures s.peers[h].stmtLive ==>
      r.0.engine == Finalize(s.engine, s.peers[h].stmt) && r.1 == CheckSqlError(errmsg, status)
    ensures !s.peers[h].stmtLive ==> r.0.engine == s.engine && r.1 == Pass
  {
    (Release(s, h), if s.peers[h].stmtLive then CheckSqlError(errmsg, status) else Pass)
  }

  /** Lines 327-329 as written: a non-zero status from `sqlite3_finalize`
      raises before the weak handle is deleted and the peer freed, although
      the engine has destroyed the statement all the same. */
  function AsWrittenCloseStatement(s: State, h: Handle, status: int, errmsg: string): (r: (State, Outcome<Error>))
    requires Valid(s) && h in s.peers && s.peers[h].stmtLive
    ensures status == 0 ==> r == CloseStatement(s, h, status, errmsg)
  {
    var e := Finalize(s.engine, s.peers[h].stmt);
    match CheckSqlError(errmsg, status)
    case Fail(err) => (s.(engine := e), Fail(err))
    case Pass => (s.(engine := e, peers := s.peers - {h}, armed := s.armed - {h}, freed := s.freed + [h]), Pass)
  }

  /** When finalize reports an error (it repeats the error of the last
      step), the as-written close leaves the finalizer armed over a
      destroyed statement, so a later collection finalizes it a second
      time; the corrected close releases the peer regardless. */
  lemma AsWrittenCloseStatementStrandsFinalizer(s: State, h: Handle, status: int, errmsg: string)
    requires Valid(s) && h in s.peers && s.peers[h].stmtLive && status != 0
    ensures var r := AsWrittenCloseStatement(s, h, status, errmsg);
      && r.1.Fail?
      && h in r.0.armed && r.0.peers[h].stmtLive && r.0.peers[h].stmt !in r.0.engine.stmts
      && !Valid(r.0)
    ensures var r := CloseStatement(s, h, status, errmsg);
      r.1.Fail? && h !in r.0.armed && Valid(r.0)
  {
  }

  // ---------------------------------------------------------------- finalize_statement

  /** The weak-handle finalizer, run by the garbage collector for a peer
      whose host object became unreachable: it finalizes the statement
      (unless `Close` already did), writes the warning the first time it
      ever runs in the process, deletes the weak handle and frees the peer.
      The `warned` flag only moves from false to true. */
  function FinalizeStatement(s: State, h: Handle): (r: State)
    requires Valid(s) && h in s.armed
    ensures Valid(r)
    ensures h !in r.armed && h !in r.peers && r.freed == s.freed + [h]
    ensures r.peers == s.peers - {h} && r.armed == s.armed - {h} && r.next == s.next
    ensures r.warned
    ensures r.warnings == if s.warned then s.warnings else s.warnings + [NotClosedBeforeGc]
    ensures r.engine == if s.peers[h].stmtLive then Finalize(s.engine, s.peers[h].stmt) else s.engine
  {
    var warnings := if !s.warned then s.warnings + [NotClosedBeforeGc] else s.warnings;
    var r := Release(s, h).(warned := true, warnings := warnings);
    assert AtMostOneGcWarning(r.warnings) by {
      if !s.warned {
        assert forall i :: 0 <= i < |s.warnings| ==> s.warnings[i] != NotClosedBeforeGc;
      }
    }
    FreedValidFrame(Release(s, h), r);
    r
  }

  /** What reading a field of peer `h` yields: the record while it is
      allocated, nothing once it has been freed. */
  function ReadPeer(s: State, h: Handle): (r: Option<Peer>)
    ensures r.Some? <==> h in s.peers
  {
    if h in s.peers then Some(s.peers[h]) else None
  }

  /** Lines 129-136 as written: the statement is finalized, the warning
      written, the peer freed, and only then is `statement->finalizer` read
      to delete the weak handle. The second component is what that read
      sees; the handle it would delete is not deleted. The finalize is
      skipped for a statement `Close` already finalized, as in the
      corrected `Close`; line 129 itself always finalizes. */
  function AsWrittenFinalizeStatement(s: State, h: Handle): (r: (State, Option<Peer>))
    requires Valid(s) && h in s.armed
    ensures h !in r.0.peers && r.0.freed == s.freed + [h] && h in r.0.armed
    ensures r.1.None?
  {
    var p := s.peers[h];
    var e := if p.stmtLive then Finalize(s.engine, p.stmt) else s.engine;
    var warnings := if !s.warned then s.warnings + [NotClosedBeforeGc] else s.warnings;
    var afterFree := s.(engine := e, warned := true, warnings := warnings,
                        peers := s.peers - {h}, freed := s.freed + [h]);
    (afterFree, ReadPeer(afterFree, h))
  }

  /** The use after free of lines 135-136: the as-written finalizer reads
      the peer after freeing it, so the weak handle it means to delete is
      read from released memory and the handle stays armed over a freed
      peer, breaking the invariant; the corrected order reads it while the
      peer is still allocated and disarms it. */
  lemma AsWrittenFinalizerReadsFreedPeer(s: State, h: Handle)
    requires Valid(s) && h in s.armed
    ensures AsWrittenFinalizeStatement(s, h).1.None?
    ensures !Valid(AsWrittenFinalizeStatement(s, h).0)
    ensures ReadPeer(s, h) == Some(s.peers[h])
    ensures h !in FinalizeStatement(s, h).armed
  {
    var r := AsWrittenFinalizeStatement(s, h).0;
    assert h in r.armed && h !in r.peers;
  }

  // ---------------------------------------------------------------- Close

  /** The peers once `Close` has finalized the statements `ts`: each peer
      over one of them is no longer live, and nothing else changes. */
  function Retire(peers: map<Handle, Peer>, ts: seq<StmtId>): (r: map<Handle, Peer>)
    ensures r.Keys == peers.Keys
    ensures forall h :: h in r ==> r[h].db == peers[h].db && r[h].stmt == peers[h].stmt
    ensures forall h :: h in r ==> r[h].stmtLive == (peers[h].stmtLive && peers[h].stmt !in ts)
  {
    map h | h in peers :: if peers[h].stmt in ts then peers[h].(stmtLive := false) else peers[h]
  }

  /** The statements of `m` that are not in `l`. */
  function Drop(m: map<StmtId, Stmt>, l: seq<StmtId>): map<StmtId, Stmt> {
    map t | t in m && t !in l :: m[t]
  }

  /** The corrected loop of `Close`: `sqlite3_next_stmt(db, NULL)` is asked
      afresh each time, and the statement it names is finalized, until the
      connection has none left. */
  function FinalizeAll(e: Engine, db: DbId): (r: Engine)
    requires Sqlite.Valid(e) && db in e.conns
    decreases |e.conns[db]|
    ensures Sqlite.Valid(r) && r.conns == e.conns[db := []] && r.nextId == e.nextId
    ensures r.stmts == Drop(e.stmts, e.conns[db])
  {
    match NextStmt(e, db, None)
    case None => assert Drop(e.stmts, []) == e.stmts; e
    case Some(t) =>
      var l := e.conns[db];
      assert t == l[0];
      var e' := Finalize(e, t);
      assert e'.conns[db] == l[1..] && e'.stmts == e.stmts - {l[0]};
      assert e'.conns[db := []] == e.conns[db := []];
      DropHead(e.stmts, l);
      FinalizeAll(e', db)
  }

  lemma DropHead(m: map<StmtId, Stmt>, l: seq<StmtId>)
    requires l != []
    ensures Drop(m - {l[0]}, l[1..]) == Drop(m, l)
  {
    forall x ensures x in l <==> x == l[0] || x in l[1..] {
      if x in l {
        var i :| 0 <= i < |l| && l[i] == x;
        if i > 0 { assert l[1..][i - 1] == x; }
      }
    }
  }

  /** `Close` with the peers of the finalized statements retired: every
      statement still open on the connection is finalized and counted, the
      count is reported as a warning exactly when it is positive, and then
      the connection is closed, raising if that fails. Peers of the
      finalized statements stay allocated (their host objects may still be
      reachable) but no longer point at a live statement. */
  function Close(s: State, db: DbId, closeStatus: int, errmsg: string): (r: (State, Outcome<Error>))
    requires Valid(s) && db in s.engine.conns
    ensures Valid(r.0) && r.1 == CheckSqlError(errmsg, closeStatus)
  {
    var list := s.engine.conns[db];
    var e := FinalizeAll(s.engine, db);
    var n := |list|;
    var warnings := if n > 0 then s.warnings + [StatementsStillOpen(n)] else s.warnings;
    var s1 := s.(engine := e, peers := Retire(s.peers, list), warnings := warnings);
    CloseKeepsValid(s, db, s1);
    match CheckSqlError(errmsg, closeStatus)
    case Fail(err) => (s1, Fail(err))
    case Pass =>
      UpdateThenRemove(s.engine.conns, db, []);
      EngineFrame(s1, CloseConn(e, db));
      (s1.(engine := CloseConn(e, db)), Pass)
  }

  /** What `Close` does: every statement still open on the connection is
      finalized and no other; the count is reported as a warning exactly
      when it is positive; the connection is closed when the engine reports
      success and left open without statements otherwise; the peers of the
      finalized statements are retired and nothing else changes. */
  lemma CloseFinalizesStatementsOf(s: State, db: DbId, closeStatus: int, errmsg: string)
    requires Valid(s) && db in s.engine.conns
    ensures var r := Close(s, db, closeStatus, errmsg);
      && (var n := |s.engine.conns[db]|;
          r.0.warnings == if n > 0 then s.warnings + [StatementsStillOpen(n)] else s.warnings)
      && (forall t :: t in s.engine.conns[db] ==> t !in r.0.engine.stmts)
      && (forall t :: t in r.0.engine.stmts <==> t in s.engine.stmts && t !in s.engine.conns[db])
      && (forall t :: t in r.0.engine.stmts ==> r.0.engine.stmts[t] == s.engine.stmts[t])
      && (r.1.Pass? ==> r.0.engine.conns == s.engine.conns - {db})
      && (r.1.Fail? ==> r.0.engine.conns == s.engine.conns[db := []])
      && r.0.peers == Retire(s.peers, s.engine.conns[db])
      && r.0.armed == s.armed && r.0.freed == s.freed && r.0.warned == s.warned && r.0.next == s.next
  {
    var r := Close(s, db, closeStatus, errmsg);
    var l := s.engine.conns[db];
    var e := FinalizeAll(s.engine, db);
    var n := |l|;
    var s1 := s.(engine := e, peers := Retire(s.peers, l),
                 warnings := if n > 0 then s.warnings + [StatementsStillOpen(n)] else s.warnings);
    if CheckSqlError(errmsg, closeStatus).Pass? {
      assert r.0 == s1.(engine := CloseConn(e, db));
      UpdateThenRemove(s.engine.conns, db, []);
    } else {
      assert r.0 == s1;
    }
    assert r.0.engine.stmts == Drop(s.engine.stmts, l);
  }

  /** Removing a key undoes any update of it. */
  lemma UpdateThenRemove<K, V>(m: map<K, V>, k: K, v: V)
    ensures m[k := v] - {k} == m - {k}
  {
  }

  /** Replacing the engine by one with the same statements, each on the
      same connection, keeps the invariant. */
  lemma EngineFrame(s: State, e: Engine)
    requires Valid(s) && Sqlite.Valid(e) && e.nextId == s.engine.nextId
    requires e.stmts.Keys == s.engine.stmts.Keys
    requires forall t :: t in e.stmts ==> e.stmts[t].db == s.engine.stmts[t].db
    ensures Valid(s.(engine := e))
  {
    var s' := s.(engine := e);
    assert PeersValid(s');
    FreedValidFrame(s, s');
  }

  /** The state `Close` reaches before closing the connection satisfies
      the invariant. */
  lemma CloseKeepsValid(s: State, db: DbId, s1: State)
    requires Valid(s) && db in s.engine.conns
    requires var n := |s.engine.conns[db]|;
      s1 == s.(engine := FinalizeAll(s.engine, db), peers := Retire(s.peers, s.engine.conns[db]),
               warnings := if n > 0 then s.warnings + [StatementsStillOpen(n)] else s.warnings)
    ensures Valid(s1)
  {
    RetireKeepsPeersValid(s, db, s1);
    FreedValidFrame(s, s1);
    if |s.engine.conns[db]| > 0 {
      AppendOtherWarning(s.warnings, StatementsStillOpen(|s.engine.conns[db]|));
    }
  }

  /** The release history stays consistent while the set of allocated
      peers and the next handle stay as they were. */
  lemma FreedValidFrame(s: State, s1: State)
    requires FreedValid(s) && s1.freed == s.freed && s1.peers.Keys == s.peers.Keys && s1.next == s.next
    ensures FreedValid(s1)
  {
    forall i | 0 <= i < |s1.freed| ensures s1.freed[i] !in s1.peers {
      assert s.freed[i] !in s.peers.Keys;
    }
  }

  /** Finalizing the statements of `db` and retiring their peers keeps the
      peers consistent with the engine. */
  lemma RetireKeepsPeersValid(s: State, db: DbId, s1: State)
    requires Valid(s) && db in s.engine.conns
    requires s1.engine == FinalizeAll(s.engine, db) && s1.peers == Retire(s.peers, s.engine.conns[db])
    requires s1.armed == s.armed && s1.next == s.next
    ensures PeersValid(s1)
  {
    var list := s.engine.conns[db];
    var e := s1.engine;
    forall h | h in s1.peers && s1.peers[h].stmtLive
      ensures s1.peers[h].stmt in e.stmts && e.stmts[s1.peers[h].stmt].db == s1.peers[h].db
    {
      var t := s.peers[h].stmt;
      assert s.peers[h].stmtLive && t !in list;
      assert t in Drop(s.engine.stmts, list);
    }
  }

  /** Appending a warning other than the collection warning keeps it
      written at most once, and written exactly when it was before. */
  lemma AppendOtherWarning(w: seq<Warning>, x: Warning)
    requires AtMostOneGcWarning(w) && x != NotClosedBeforeGc
    ensures AtMostOneGcWarning(w + [x])
    ensures NotClosedBeforeGc in w + [x] <==> NotClosedBeforeGc in w
  {
    var w' := w + [x];
    forall i, j | 0 <= i < j < |w'| && w'[i] == NotClosedBeforeGc
      ensures w'[j] != NotClosedBeforeGc
    {
      if j < |w| { assert w'[i] == w[i] && w'[j] == w[j]; }
    }
  }

  /** Lines 108-111 as written: the loop passes the statement it has just
      finalized back to `sqlite3_next_stmt`. None when a call receives a
      statement that is no longer live; otherwise the engine after the loop
      and the count. */
  function AsWrittenCloseLoop(e: Engine, db: DbId, prev: Option<StmtId>, count: nat): (r: Option<(Engine, nat)>)
    requires Sqlite.Valid(e) && db in e.conns
    ensures prev.None? ==> (r.Some? <==> e.conns[db] == [])
    ensures prev.None? && r.Some? ==> r.value == (e, count)
    decreases |e.conns[db]|
  {
    if prev.Some? && prev.value !in e.conns[db] then None
    else match NextStmt(e, db, prev)
      case None => Some((e, count))
      case Some(t) => AsWrittenCloseLoop(Finalize(e, t), db, Some(t), count + 1)
  }

  /** The as-written loop is well-defined only on a connection without
      statements: as soon as one statement is open, its second call to
      `sqlite3_next_stmt` receives the statement it finalized. The
      corrected loop always empties the connection. */
  lemma AsWrittenCloseLoopPassesFinalizedStmt(e: Engine, db: DbId)
    requires Sqlite.Valid(e) && db in e.conns
    ensures AsWrittenCloseLoop(e, db, None, 0).None? <==> e.conns[db] != []
    ensures FinalizeAll(e, db).conns[db] == []
  {
    if e.conns[db] != [] {
      var t := e.conns[db][0];
      var e' := Finalize(e, t);
      assert t !in e'.conns[db];
      assert AsWrittenCloseLoop(e, db, None, 0) == AsWrittenCloseLoop(e', db, Some(t), 1);
    }
  }

  /** Lines 102-118 as written (with the loop's finalization done): the
      statements are finalized and counted but the peers that stand for
      them are left as they were. */
  function AsWrittenClose(s: State, db: DbId, closeStatus: int, errmsg: string): (r: (State, Outcome<Error>))
    requires Valid(s) && db in s.engine.conns
    ensures r.0.peers == s.peers && r.0.armed == s.armed && r.0.freed == s.freed
    ensures r.0.engine.stmts == FinalizeAll(s.engine, db).stmts
    ensures r.1.Fail? <==> closeStatus != 0
  {
    var list := s.engine.conns[db];
    var e := FinalizeAll(s.engine, db);
    var n := |list|;
    var warnings := if n > 0 then s.warnings + [StatementsStillOpen(n)] else s.warnings;
    var s1 := s.(engine := e, warnings := warnings);
    match CheckSqlError(errmsg, closeStatus)
    case Fail(err) => (s1, Fail(err))
    case Pass => (s1.(engine := CloseConn(e, db)), Pass)
  }

  /** A statement left open at `Close` keeps its peer armed over a
      finalized statement: when its host object is collected, or closed,
      `sqlite3_finalize` runs on it a second time. The corrected `Close`
      retires the peer instead. */
  lemma AsWrittenCloseStrandsPeers(s: State, db: DbId, h: Handle, closeStatus: int, errmsg: string)
    requires Valid(s) && db in s.engine.conns
    requires h in s.peers && s.peers[h].stmtLive && s.peers[h].db == db
    ensures var r := AsWrittenClose(s, db, closeStatus, errmsg);
      h in r.0.armed && r.0.peers[h].stmtLive && r.0.peers[h].stmt !in r.0.engine.stmts && !Valid(r.0)
    ensures var r := Close(s, db, closeStatus, errmsg);
      h in r.0.armed && !r.0.peers[h].stmtLive && Valid(r.0)
  {
    assert s.peers[h].stmt in s.engine.conns[db];
  }

  // ---------------------------------------------------------------- Bind

  /** What `Bind` does to the lifecycle state: the statement of peer `h`
      holds the bindings `bs`, and nothing else changes. */
  function Rebind(s: State, h: Handle, bs: map<nat, Binding>): (r: State)
    requires Valid(s) && h in s.peers && s.peers[h].stmtLive
    ensures Valid(r)
  {
    var e := WithBindings(s.engine, s.peers[h].stmt, bs);
    EngineFrame(s, e);
    s.(engine := e)
  }

  // ---------------------------------------------------------------- runs

  /** One lifecycle call, with what the engine and the host runtime report
      to it. `Collect(h)` is the garbage collector running the finalizer of
      peer `h`. */
  datatype Event =
    | OpenDb(openStatus: int, openErrmsg: DbId -> string)
    | PrepareStmt(db: DbId, sql: string, prepareStatus: int, shape: Shape, prepareErrmsg: string, regError: Option<string>)
    | ResetStmt(rh: Handle, clearStatus: int, resetStatus: int, resetErrmsg: string)
    | BindStmt(bh: Handle, bindings: map<nat, Binding>)
    | CloseStmt(ch: Handle, finalizeStatus: int, closeErrmsg: string)
    | Collect(gh: Handle)
    | CloseDb(cdb: DbId, closeStatus: int, closeDbErrmsg: string)

  /** Whether the call is one a caller may make: the host only uses live
      connections and statements, and the collector only runs armed
      finalizers. */
  ghost predicate Enabled(s: State, ev: Event) {
    match ev
    case OpenDb(_, _) => true
    case PrepareStmt(db, _, _, _, _, _) => db in s.engine.conns
    case ResetStmt(h, _, _, _) => h in s.peers && s.peers[h].stmtLive
    case BindStmt(h, _) => h in s.peers && s.peers[h].stmtLive
    case CloseStmt(h, _, _) => h in s.peers
    case Collect(h) => h in s.armed
    case CloseDb(db, _, _) => db in s.engine.conns
  }

  ghost function Apply(s: State, ev: Event): (r: State)
    requires Valid(s) && Enabled(s, ev)
    ensures Valid(r)
    ensures s.warned ==> r.warned
    ensures |s.freed| <= |r.freed| && r.freed[..|s.freed|] == s.freed
  {
    match ev
    case OpenDb(status, errmsg) => New(s, status, errmsg).0
    case PrepareStmt(db, sql, status, shape, errmsg, regError) => PrepareStatement(s, db, sql, status, shape, errmsg, regError).0
    case ResetStmt(h, c, rs, errmsg) => Reset(s, h, c, rs, errmsg).0
    case BindStmt(h, bs) => Rebind(s, h, bs)
    case CloseStmt(h, status, errmsg) => CloseStatement(s, h, status, errmsg).0
    case Collect(h) => FinalizeStatement(s, h)
    case CloseDb(db, status, errmsg) => Close(s, db, status, errmsg).0
  }

  /** The state after a sequence of calls, or None if one of them is not
      enabled where it is made. */
  ghost function Run(s: State, evs: seq<Event>): Option<State>
    requires Valid(s)
    decreases |evs|
  {
    if evs == [] then Some(s)
    else if !Enabled(s, evs[0]) then None
    else Run(Apply(s, evs[0]), evs[1..])
  }

  /** Over any run of lifecycle calls: the invariant holds throughout; every
      peer is released at most once, and only after it was allocated; a
      released peer's finalizer is never armed again; the `warned` flag never
      goes back to false and the collection warning is written at most
      once. */
  lemma {:induction false} RunReleasesEachPeerOnce(s: State, evs: seq<Event>)
    requires Valid(s) && Run(s, evs).Some?
    ensures var r := Run(s, evs).value;
      && Valid(r)
      && NoDup(r.freed) && AtMostOneGcWarning(r.warnings)
      && |s.freed| <= |r.freed| && r.freed[..|s.freed|] == s.freed
      && (forall i :: 0 <= i < |r.freed| ==> r.freed[i] !in r.armed)
      && (s.warned ==> r.warned)
    decreases |evs|
  {
    if evs != [] {
      var s' := Apply(s, evs[0]);
      RunReleasesEachPeerOnce(s', evs[1..]);
      var r := Run(s', evs[1..]).value;
      assert r.freed[..|s.freed|] == r.freed[..|s'.freed|][..|s.freed|];
    }
  }
}
