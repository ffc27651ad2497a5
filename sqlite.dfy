/** The SQLite engine as the bridge reaches it through its C API: status and
    storage-class codes, the values it binds and hands back, and the
    connections and prepared statements it owns. The engine's own work
    (parsing, planning, storage, locking) is not modelled; whatever a call
    reports is supplied to the bridge operations as a parameter. */
module Sqlite {
  import opened Wrappers

  newtype int64 = x: int | -0x8000_0000_0000_0000 <= x < 0x8000_0000_0000_0000
  newtype byte = x: int | 0 <= x < 0x100

  // Result codes (sqlite3.h).
  const SQLITE_OK := 0
  const SQLITE_BUSY := 5
  const SQLITE_ROW := 100
  const SQLITE_DONE := 101

  // Storage classes reported by sqlite3_column_type (sqlite3.h).
  const SQLITE_INTEGER := 1
  const SQLITE_FLOAT := 2
  const SQLITE_TEXT := 3
  const SQLITE_BLOB := 4
  const SQLITE_NULL := 5

  type DbId = nat
  type StmtId = nat

  /** A double travels as its bit pattern; the bridge never computes with it. */
  datatype Double = Double(bits: bv64)

  /** The release argument of a text or blob bind: SQLITE_TRANSIENT (the
      engine copies the bytes before the call returns) or `sqlite3_free`
      (the engine owns the buffer and frees it). */
  datatype Destructor = Transient | SqliteFree

  /** A value bound to one placeholder of a statement. */
  datatype Binding =
    | BoundInt64(i: int64)
    | BoundDouble(d: Double)
    | BoundNull
    | BoundText(text: string, n: nat, destructor: Destructor)
    | BoundBlob(buffer: array<byte>, n: nat, destructor: Destructor)

  /** One column of the current result row, as the `sqlite3_column_*`
      accessors report it: the storage class and the value read through each
      accessor. */
  datatype Column = Column(typeCode: int, asInt: int64, asDouble: Double, asText: string, asBlob: seq<byte>)

  /** What compiling a statement fixes: its placeholder count, whether it is
      read-only, and its column names. */
  datatype Shape = Shape(paramCount: nat, readOnly: bool, names: seq<string>)

  /** A prepared statement: its connection, its shape and its bindings by
      placeholder number (1-based). */
  datatype Stmt = Stmt(db: DbId, shape: Shape, bindings: map<nat, Binding>)

  /** Open connections, each with its unfinalized statements in the order
      `sqlite3_next_stmt` visits them, and every unfinalized statement. */
  datatype Engine = Engine(conns: map<DbId, seq<StmtId>>, stmts: map<StmtId, Stmt>, nextId: nat)

  predicate NoDup<T(==)>(s: seq<T>) {
    forall i, j :: 0 <= i < j < |s| ==> s[i] != s[j]
  }

  /** Appending an element not yet present keeps a list free of repeats. */
  lemma AppendFresh<T>(s: seq<T>, x: T)
    requires NoDup(s) && x !in s
    ensures NoDup(s + [x])
  {
    var s' := s + [x];
    forall i, j | 0 <= i < j < |s'| ensures s'[i] != s'[j] {
      assert s'[i] == s[i];
      if j < |s| { assert s'[j] == s[j]; }
    }
  }

  /** The engine's bookkeeping is consistent: every listed statement is known
      and belongs to the connection listing it, every known statement is
      listed by its connection, no list repeats, and identifiers below
      `nextId` are the ones already handed out. */
  ghost predicate Valid(e: Engine) {
    && (forall db, i :: db in e.conns && 0 <= i < |e.conns[db]| ==>
          e.conns[db][i] in e.stmts && e.stmts[e.conns[db][i]].db == db)
    && (forall t :: t in e.stmts ==> e.stmts[t].db in e.conns && t in e.conns[e.stmts[t].db])
    && (forall db :: db in e.conns ==> NoDup(e.conns[db]) && db < e.nextId)
    && (forall t :: t in e.stmts ==> t < e.nextId)
  }

  function Remove(s: seq<StmtId>, t: StmtId): (r: seq<StmtId>)
    ensures forall x :: x in r <==> x in s && x != t
    ensures NoDup(s) ==> NoDup(r)
    ensures |r| <= |s|
    ensures t in s ==> |r| < |s|
    ensures t !in s ==> r == s
    ensures NoDup(s) && |s| > 0 && s[0] == t ==> r == s[1..]
  {
    if s == [] then []
    else
      assert NoDup(s) ==> s[0] !in s[1..] && NoDup(s[1..]) by {
        if NoDup(s) {
          forall i | 0 <= i < |s[1..]| ensures s[1..][i] != s[0] { assert s[1..][i] == s[i + 1]; }
        }
      }
      if s[0] == t then Remove(s[1..], t)
      else [s[0]] + Remove(s[1..], t)
  }

  /** `sqlite3_open`: a new connection with no statements. */
  function Open(e: Engine): (r: (Engine, DbId))
    requires Valid(e)
    ensures Valid(r.0) && r.1 !in e.conns && r.0.conns == e.conns[r.1 := []]
    ensures r.0.stmts == e.stmts && r.0.nextId > e.nextId
  {
    var db := e.nextId;
    (e.(conns := e.conns[db := []], nextId := db + 1), db)
  }

  /** `sqlite3_prepare_v2` that succeeded: a new statement at the head of the
      connection's list. */
  function Prepare(e: Engine, db: DbId, shape: Shape): (r: (Engine, StmtId))
    requires Valid(e) && db in e.conns
    ensures Valid(r.0) && r.1 !in e.stmts && r.1 >= e.nextId && r.0.nextId > r.1
    ensures r.0.stmts == e.stmts[r.1 := Stmt(db, shape, map[])]
    ensures r.0.conns == e.conns[db := [r.1] + e.conns[db]]
  {
    var t := e.nextId;
    var e' := Engine(e.conns[db := [t] + e.conns[db]], e.stmts[t := Stmt(db, shape, map[])], t + 1);
    assert Valid(e') by {
      forall d, i | d in e'.conns && 0 <= i < |e'.conns[d]|
        ensures e'.conns[d][i] in e'.stmts && e'.stmts[e'.conns[d][i]].db == d
      {
        if d == db && i > 0 {
          assert e'.conns[d][i] == e.conns[d][i - 1];
        }
      }
    }
    (e', t)
  }

  /** `sqlite3_finalize`: the statement is destroyed and leaves its
      connection's list. */
  function Finalize(e: Engine, t: StmtId): (r: Engine)
    requires Valid(e) && t in e.stmts
    ensures Valid(r) && r.stmts == e.stmts - {t} && r.nextId == e.nextId
    ensures r.conns.Keys == e.conns.Keys
    ensures var db := e.stmts[t].db;
      r.conns == e.conns[db := Remove(e.conns[db], t)] && |r.conns[db]| < |e.conns[db]|
  {
    var db := e.stmts[t].db;
    var e' := e.(conns := e.conns[db := Remove(e.conns[db], t)], stmts := e.stmts - {t});
    assert Valid(e') by {
      forall d, i | d in e'.conns && 0 <= i < |e'.conns[d]|
        ensures e'.conns[d][i] in e'.stmts && e'.stmts[e'.conns[d][i]].db == d
      {
        var x := e'.conns[d][i];
        if d == db {
          assert x in e.conns[d] && x != t;
          var j :| 0 <= j < |e.conns[d]| && e.conns[d][j] == x;
        } else {
          assert x == e.conns[d][i];
        }
      }
    }
    e'
  }

  /** `sqlite3_close` that succeeded: only a connection without statements
      closes. */
  function CloseConn(e: Engine, db: DbId): (r: Engine)
    requires Valid(e) && db in e.conns && e.conns[db] == []
    ensures Valid(r) && r.conns == e.conns - {db} && r.stmts == e.stmts && r.nextId == e.nextId
  {
    e.(conns := e.conns - {db})
  }

  /** The statement after `prev` in the connection's list, or its first
      statement when `prev` is None: `sqlite3_next_stmt(db, prev)`, which
      needs `prev` to be a live statement of `db`. */
  function NextStmt(e: Engine, db: DbId, prev: Option<StmtId>): (r: Option<StmtId>)
    requires db in e.conns
    requires prev.Some? ==> prev.value in e.conns[db]
    ensures prev.None? ==> (r.None? <==> e.conns[db] == [])
    ensures prev.None? && r.Some? ==> r.value == e.conns[db][0]
    ensures r.Some? ==> r.value in e.conns[db]
  {
    match prev
    case None => if e.conns[db] == [] then None else Some(e.conns[db][0])
    case Some(t) => After(e.conns[db], t)
  }

  function After(s: seq<StmtId>, t: StmtId): (r: Option<StmtId>)
    ensures r.Some? ==> r.value in s
  {
    if |s| < 2 then None
    else if s[0] == t then Some(s[1])
    else After(s[1..], t)
  }

  /** `sqlite3_bind_*` that succeeded: placeholder `k` of `t` now holds `b`. */
  function SetBinding(e: Engine, t: StmtId, k: nat, b: Binding): (r: Engine)
    requires t in e.stmts
    ensures Valid(e) ==> Valid(r)
    ensures r.conns == e.conns && r.nextId == e.nextId && r.stmts.Keys == e.stmts.Keys
    ensures r.stmts == e.stmts[t := e.stmts[t].(bindings := e.stmts[t].bindings[k := b])]
  {
    e.(stmts := e.stmts[t := e.stmts[t].(bindings := e.stmts[t].bindings[k := b])])
  }

  /** `t` with its placeholders holding `bs`; nothing else changes. */
  function WithBindings(e: Engine, t: StmtId, bs: map<nat, Binding>): (r: Engine)
    requires t in e.stmts
    ensures Valid(e) ==> Valid(r)
    ensures r.conns == e.conns && r.nextId == e.nextId && r.stmts.Keys == e.stmts.Keys
    ensures r.stmts[t] == e.stmts[t].(bindings := bs)
    ensures forall u :: u in e.stmts && u != t ==> r.stmts[u] == e.stmts[u]
  {
    e.(stmts := e.stmts[t := e.stmts[t].(bindings := bs)])
  }

  /** Binding one more placeholder of a statement whose bindings are `bs`. */
  lemma SetBindingExtends(e: Engine, t: StmtId, bs: map<nat, Binding>, k: nat, b: Binding)
    requires t in e.stmts
    ensures SetBinding(WithBindings(e, t, bs), t, k, b) == WithBindings(e, t, bs[k := b])
  {
  }

  /** `sqlite3_clear_bindings`: every placeholder of `t` is back to NULL. */
  function ClearBindings(e: Engine, t: StmtId): (r: Engine)
    requires Valid(e) && t in e.stmts
    ensures Valid(r) && r.conns == e.conns && r.nextId == e.nextId
    ensures r.stmts == e.stmts[t := e.stmts[t].(bindings := map[])]
  {
    e.(stmts := e.stmts[t := e.stmts[t].(bindings := map[])])
  }
}
