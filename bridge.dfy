/** The native extension as the host sees it: one object holding the state
    of the process (SQLite's connections and statements, the statement
    peers, the armed finalizers and the `warned` flag), and one method per
    exported call, each updating that state in place. Every method that
    changes the lifecycle is proved to reach the state the matching
    function of `Lifecycle` gives; `Bind`, `Step` and `ColumnInfo` are
    specified directly. */
module Extension {
  import opened Wrappers
  import opened CStrings
  import opened Sqlite
  import opened Errors
  import opened Marshal
  import Lifecycle

  /** What `Step` hands back: the number of rows changed when the statement
      is done, or the values of the row it produced. */
  datatype StepResult = Changes(n: int) | Row(values: seq<HostValue>)

  /** A run of `sqlite3_step` answers that eventually stops being BUSY. */
  predicate Settles(statuses: seq<int>) {
    exists i :: 0 <= i < |statuses| && statuses[i] != SQLITE_BUSY
  }

  /** The position of the first answer that is not BUSY: the one `Step`
      acts on after spinning over the BUSY ones. */
  function Settle(statuses: seq<int>): (k: nat)
    requires Settles(statuses)
    ensures k < |statuses| && statuses[k] != SQLITE_BUSY
    ensures forall j :: 0 <= j < k ==> statuses[j] == SQLITE_BUSY
  {
    if statuses[0] != SQLITE_BUSY then 0
    else
      assert Settles(statuses[1..]) by {
        var i :| 0 <= i < |statuses| && statuses[i] != SQLITE_BUSY;
        assert statuses[1..][i - 1] == statuses[i];
      }
      1 + Settle(statuses[1..])
  }

  /** BUSY answers in front of a run do not change the answer `Step` acts
      on. */
  lemma {:induction false} SettleSkipsBusy(busy: nat, statuses: seq<int>)
    requires Settles(statuses)
    ensures Settles(seq(busy, _ => SQLITE_BUSY) + statuses)
    ensures var spun := seq(busy, _ => SQLITE_BUSY) + statuses;
      spun[Settle(spun)] == statuses[Settle(statuses)]
    decreases busy
  {
    var spun := seq(busy, _ => SQLITE_BUSY) + statuses;
    var k := Settle(statuses);
    assert spun[busy + k] == statuses[k];
    forall j | 0 <= j < busy + k ensures spun[j] == SQLITE_BUSY {
      if j >= busy { assert spun[j] == statuses[j - busy]; }
    }
    SettleIsFirst(spun, busy + k);
  }

  /** The first answer that is not BUSY is the one `Settle` finds. */
  lemma {:induction false} SettleIsFirst(statuses: seq<int>, k: nat)
    requires k < |statuses| && statuses[k] != SQLITE_BUSY
    requires forall j :: 0 <= j < k ==> statuses[j] == SQLITE_BUSY
    ensures Settles(statuses) && Settle(statuses) == k
  {
  }

  /** The error `Step` raises for an answer that is neither DONE, ROW nor
      BUSY: the connection's message for an error code, and "Unreachable"
      when the code is SQLITE_OK, which the error check lets through. */
  function StepFailure(status: int, errmsg: string): (r: Error)
    ensures status != SQLITE_OK ==> r == SqliteException(errmsg)
    ensures status == SQLITE_OK ==> r == SqliteException(UnreachableMessage)
  {
    match CheckSqlError(errmsg, status)
    case Fail(err) => err
    case Pass => SqliteException(UnreachableMessage)
  }

  /** The loop of `Close`: finalize the statement `sqlite3_next_stmt(db,
      NULL)` names until there is none, counting them. The engine reached
      is the one `FinalizeAll` describes, and the count is the number of
      statements the connection had open. */
  method FinalizeOpenStatements(e: Engine, db: DbId) returns (r: Engine, count: nat)
    requires Sqlite.Valid(e) && db in e.conns
    ensures r == Lifecycle.FinalizeAll(e, db)
    ensures count == |e.conns[db]|
  {
    r := e;
    count := 0;
    var stmt := NextStmt(r, db, None);
    while stmt.Some?
      invariant Sqlite.Valid(r) && db in r.conns
      invariant stmt == NextStmt(r, db, None)
      invariant count + |r.conns[db]| == |e.conns[db]|
      invariant Lifecycle.FinalizeAll(r, db) == Lifecycle.FinalizeAll(e, db)
      decreases |r.conns[db]|
    {
      r := Finalize(r, stmt.value);
      count := count + 1;
      stmt := NextStmt(r, db, None);
    }
  }

  class Bridge {
    var engine: Engine
    var peers: map<Lifecycle.Handle, Lifecycle.Peer>
    var armed: set<Lifecycle.Handle>
    var warned: bool
    var warnings: seq<Lifecycle.Warning>
    ghost var freed: seq<Lifecycle.Handle>
    var next: Lifecycle.Handle

    ghost function State(): Lifecycle.State
      reads this
    {
      Lifecycle.State(engine, peers, armed, warned, warnings, freed, next)
    }

    ghost predicate Valid()
      reads this
    {
      Lifecycle.Valid(State())
    }

    /** The process when the extension is loaded. */
    constructor()
      ensures State() == Lifecycle.Initial() && Valid()
    {
      engine := Engine(map[], map[], 0);
      peers := map[];
      armed := {};
      warned := false;
      warnings := [];
      freed := [];
      next := 0;
    }

    /** `New`: open a connection; `status` is what `sqlite3_open` returns
        and `errmsg` what `sqlite3_errmsg` reports for each connection. */
    method New(status: int, errmsg: DbId -> string) returns (r: Result<DbId, Error>)
      requires Valid()
      modifies this
      ensures Valid()
      ensures (State(), r) == Lifecycle.New(old(State()), status, errmsg)
    {
      var (e, db) := Sqlite.Open(engine);
      var checked := CheckSqlError(errmsg(db), status);
      if checked.Fail? {
        r := Err(checked.error);
      } else {
        engine := e;
        r := Ok(db);
      }
    }

    /** `Close`: finalize every statement still open on `db`, asking
        `sqlite3_next_stmt(db, NULL)` afresh each time, warn with their
        number, retire their peers, then close the connection. */
    method Close(db: DbId, closeStatus: int, errmsg: string) returns (r: Outcome<Error>)
      requires Valid() && db in engine.conns
      modifies this
      ensures Valid()
      ensures (State(), r) == Lifecycle.Close(old(State()), db, closeStatus, errmsg)
    {
      var list := engine.conns[db];
      var e, count := FinalizeOpenStatements(engine, db);
      var w := if count > 0 then warnings + [Lifecycle.StatementsStillOpen(count)] else warnings;
      r := CheckSqlError(errmsg, closeStatus);
      if r.Pass? {
        e := CloseConn(e, db);
      }
      engine, warnings, peers := e, w, Lifecycle.Retire(peers, list);
      assert (State(), r) == Lifecycle.Close(old(State()), db, closeStatus, errmsg);
    }

    /** `PrepareStatement`: compile `sql` on `db` and hand out a peer for
        the statement; `regError` is the failure, if any, of registering
        the peer's finalizer. */
    method PrepareStatement(db: DbId, sql: string, status: int, shape: Shape, errmsg: string, regError: Option<string>)
      returns (r: Result<Lifecycle.Handle, Error>)
      requires Valid() && db in engine.conns
      modifies this
      ensures Valid()
      ensures (State(), r) == Lifecycle.PrepareStatement(old(State()), db, sql, status, shape, errmsg, regError)
    {
      if status != 0 {
        r := Err(SqliteSyntaxException(errmsg, sql));
        return;
      }
      match regError
      case Some(msg) =>
        Discard(db, shape);
        r := Err(SqliteException(msg));
      case None =>
        var h := Allocate(db, shape);
        r := Ok(h);
    }

    /** Hand out a peer for a statement compiled on `db`. */
    method Allocate(db: DbId, shape: Shape) returns (h: Lifecycle.Handle)
      requires Valid() && db in engine.conns
      modifies this
      ensures Valid()
      ensures (State(), h) == Lifecycle.Allocate(old(State()), db, shape)
    {
      var (e, t) := Sqlite.Prepare(engine, db, shape);
      h := next;
      engine, peers, armed, next := e, peers[h := Lifecycle.Peer(db, t, true)], armed + {h}, h + 1;
      assert (State(), h) == Lifecycle.Allocate(old(State()), db, shape);
    }

    /** Finalize a statement just compiled on `db` and free its peer. */
    method Discard(db: DbId, shape: Shape)
      requires Valid() && db in engine.conns
      modifies this
      ensures Valid()
      ensures State() == Lifecycle.Discard(old(State()), db, shape)
    {
      var (e, t) := Sqlite.Prepare(engine, db, shape);
      engine, next, freed := Finalize(e, t), next + 1, freed + [next];
      assert State() == Lifecycle.Discard(old(State()), db, shape);
    }

    /** `Reset`: clear the statement's bindings and reset it. */
    method Reset(h: Lifecycle.Handle, clearStatus: int, resetStatus: int, errmsg: string) returns (r: Outcome<Error>)
      requires Valid() && h in peers && peers[h].stmtLive
      modifies this
      ensures Valid()
      ensures (State(), r) == Lifecycle.Reset(old(State()), h, clearStatus, resetStatus, errmsg)
    {
      engine := ClearBindings(engine, peers[h].stmt);
      r := CheckSqlError(errmsg, clearStatus);
      if r.Pass? {
        r := CheckSqlError(errmsg, resetStatus);
      }
    }

    /** `Bind`: bind the elements of `args` to the placeholders of the
        statement, element `i` to placeholder `i + 1`. `bindStatus(k)` is
        what the engine answers to the bind call for placeholder `k`. The
        outcome and the number of placeholders bound are those of
        `BindPlan`; each of them now holds what its element binds to, a
        ByteData as a copy in a buffer of its own; nothing else changes. */
    method Bind(h: Lifecycle.Handle, args: Args, bindStatus: nat -> int, errmsg: string) returns (r: Outcome<Error>)
      requires Valid() && h in peers && peers[h].stmtLive
      modifies this
      ensures Valid()
      ensures Bound(old(engine), old(peers[h].stmt), args, bindStatus, errmsg, r, engine)
      ensures State() == Lifecycle.Rebind(old(State()), h, engine.stmts[old(peers[h].stmt)].bindings)
      ensures peers == old(peers) && armed == old(armed) && warned == old(warned)
      ensures warnings == old(warnings) && freed == old(freed) && next == old(next)
    {
      var e;
      r, e := BindAll(engine, peers[h].stmt, args, bindStatus, errmsg);
      Lifecycle.EngineFrame(State(), e);
      engine := e;
    }

    /** `Step`: call `sqlite3_step` until it stops answering BUSY (the
        answers are `statuses`); on DONE return the number of rows changed
        (`changes`, or 0 for a read-only statement), on ROW the converted
        values of `row`, one per result column of the statement, and
        otherwise raise. */
    method Step(h: Lifecycle.Handle, statuses: seq<int>, changes: int, row: seq<Column>, errmsg: string)
      returns (r: Result<StepResult, Error>)
      requires Valid() && h in peers && peers[h].stmtLive
      requires Settles(statuses)
      requires |row| == |engine.stmts[peers[h].stmt].shape.names|
      ensures var status := statuses[Settle(statuses)];
        var readOnly := engine.stmts[peers[h].stmt].shape.readOnly;
        && (status == SQLITE_DONE ==> r == Ok(Changes(if readOnly then 0 else changes)))
        && (status == SQLITE_ROW ==>
              && (r.Ok? <==> forall i :: 0 <= i < |row| ==> KnownType(row[i].typeCode))
              && (r.Ok? ==>
                    && r.value.Row? && |r.value.values| == |engine.stmts[peers[h].stmt].shape.names|
                    && forall i :: 0 <= i < |row| ==> ConvertsTo(row[i], r.value.values[i]))
              && (r.Err? ==> r.error == SqliteException(UnknownResultMessage)))
        && (status != SQLITE_DONE && status != SQLITE_ROW ==> r == Err(StepFailure(status, errmsg)))
    {
      var i := 0;
      while statuses[i] == SQLITE_BUSY
        invariant 0 <= i <= Settle(statuses)
        decreases Settle(statuses) - i
      {
        i := i + 1;
      }
      var status := statuses[i];
      if status == SQLITE_DONE {
        var readOnly := engine.stmts[peers[h].stmt].shape.readOnly;
        r := Ok(Changes(if readOnly then 0 else changes));
      } else if status == SQLITE_ROW {
        var values := GetLastRow(row);
        if values.Ok? {
          r := Ok(Row(values.value));
        } else {
          r := Err(values.error);
        }
      } else {
        r := Err(StepFailure(status, errmsg));
      }
    }

    /** `ColumnInfo`: the name of each result column, read as a C string. */
    method ColumnInfo(h: Lifecycle.Handle) returns (names: seq<string>)
      requires Valid() && h in peers && peers[h].stmtLive
      ensures var columns := engine.stmts[peers[h].stmt].shape.names;
        && |names| == |columns|
        && forall i :: 0 <= i < |names| ==> names[i] == CString(columns[i]) && NUL !in names[i]
    {
      var columns := engine.stmts[peers[h].stmt].shape.names;
      names := [];
      var i := 0;
      while i < |columns|
        invariant 0 <= i <= |columns| && |names| == i
        invariant forall k :: 0 <= k < i ==> names[k] == CString(columns[k]) && NUL !in names[k]
      {
        names := names + [CString(columns[i])];
        i := i + 1;
      }
    }

    /** `CloseStatement`: release the peer, then raise a non-zero finalize
        status. */
    method CloseStatement(h: Lifecycle.Handle, status: int, errmsg: string) returns (r: Outcome<Error>)
      requires Valid() && h in peers
      modifies this
      ensures Valid()
      ensures (State(), r) == Lifecycle.CloseStatement(old(State()), h, status, errmsg)
    {
      var live := peers[h].stmtLive;
      Release(h);
      r := if live then CheckSqlError(errmsg, status) else Pass;
    }

    /** The finalizer the garbage collector runs for an unreachable
        statement object: warn the first time, then release the peer. */
    method FinalizeStatement(h: Lifecycle.Handle)
      requires Valid() && h in armed
      modifies this
      ensures Valid()
      ensures State() == Lifecycle.FinalizeStatement(old(State()), h)
    {
      var warnings' := if warned then warnings else warnings + [Lifecycle.NotClosedBeforeGc];
      Release(h);
      warned := true;
      warnings := warnings';
    }

    /** Release peer `h`: finalize its statement unless `Close` already
        did, delete its weak handle (disarm it) and free it. */
    method Release(h: Lifecycle.Handle)
      requires Valid() && h in peers
      modifies this
      ensures Valid()
      ensures State() == Lifecycle.Release(old(State()), h)
    {
      ghost var target := Lifecycle.Release(State(), h);
      var p := peers[h];
      if p.stmtLive {
        engine := Finalize(engine, p.stmt);
      }
      peers := peers - {h};
      armed := armed - {h};
      freed := freed + [h];
      assert State() == target;
    }
  }
}
