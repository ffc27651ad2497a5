# dart-sqlite native bridge, modelled in Dafny

The native extension `src/dart_sqlite.cc` connects the Dart VM to SQLite.
Dart code calls nine exported natives by name: `New`, `Close`, `Version`,
`PrepareStatement`, `Reset`, `Bind`, `Step`, `ColumnInfo` and
`CloseStatement`. The bridge converts arguments, calls the SQLite C API,
turns failing status codes into Dart exceptions, and converts result columns
back into Dart values. For each prepared statement it keeps a
`statement_peer` record. It ties that record to the Dart `Statement` object
through a weak persistent handle. When the collector finds a `Statement`
unclosed, the handle's finalizer releases the record. The first time that
happens, the finalizer prints a warning once per process; a static `warned`
flag remembers that it has.

The model has these modules:

- `Sqlite` (sqlite.dfy) is the engine as the bridge sees it. It holds the
  result and storage-class codes, the bound values, and the connections
  with their unfinalized statements, listed in `sqlite3_next_stmt` order.
  Everything the engine reports is a parameter of the operation that asks:
  open, prepare, bind, step, finalize and close statuses, `sqlite3_errmsg`,
  rows, column names, the read-only flag, the change count.
- `Errors` (errors.dfy) covers `Throw` and `CheckSqlError`. A thrown Dart
  exception is a failed result that the caller returns at once.
- `CStrings` (cstrings.dfy) models what `strlen`, `strcmp` and
  `Dart_NewStringFromCString` see: the text before the first NUL.
- `Resolver` (resolver.dfy) is `ResolveName`, the export table.
- `Marshal` (marshal.dfy) covers value conversion. `Bind` dispatches on each
  argument's runtime type and copies a ByteData into an engine-owned blob.
  `get_column_value` and `get_last_row` dispatch on each column's storage
  class. It also holds the round trip from binding a value to reading it
  back.
- `Lifecycle` (lifecycle.dfy) is the resource lifecycle, stated as
  functions over one state value. The state holds the engine, the peer
  table keyed by handle, the armed finalizers, the `warned` latch, the
  warnings written, and the history of released peers. There is one
  function per lifecycle call, one `Valid` invariant that each call
  preserves, and a lemma over any sequence of calls.
- `Extension` (bridge.dfy) is the extension as an object. The class
  `Bridge` holds that state in fields and has one method per native. Each
  state-changing method is proved to reach the state the `Lifecycle`
  function gives. `Step`, `ColumnInfo` and `Bind` are specified directly.
  The loops of `Close`, `Bind`, `Step`, `ColumnInfo`, `get_last_row` and
  the byte copies are `while` loops with their invariants.

Where the bridge's intended design and its code differ, the model follows
the code:

- The code raises only `SqliteException` and `SqliteSyntaxException`, with
  the messages it builds. It has no `UsageError` or `ProtocolError` kinds.
- `Bind` can fail after binding a prefix of the arguments. The bindings
  already made stay.
- A string is passed as its C string, so a NUL inside it cuts it short.

Where the code has one of the seven defects listed under "## Findings", the
operations the rest of the model uses are the corrected forms, and a
separate `AsWritten…` member models the code as written:

- `Marshal.CopyBlob`, and so `Marshal.MakeBinding` and `Bind`, allocate
  the blob copy with the ByteData's length (the finding at line 221; as written:
  `Marshal.CopyBlobInto` with the placeholder count).
- `Lifecycle.FinalizeStatement` reads the peer before freeing it (the finding at
  lines 135-136; as written: `Lifecycle.AsWrittenFinalizeStatement`).
- `Lifecycle.New` reads the error message through the connection opened
  (the finding at line 97; as written: `Lifecycle.AsWrittenNewError`).
- `Lifecycle.PrepareStatement` finalizes the statement and frees the peer
  when the weak-handle registration fails (the finding at lines
  164-167; as written:
  `Lifecycle.AsWrittenPrepareStatement`).
- `Extension.FinalizeOpenStatements` and `Lifecycle.FinalizeAll` ask
  `sqlite3_next_stmt` for the head of the list each time (the finding at
  lines 108-109; as written:
  `Lifecycle.AsWrittenCloseLoop`).
- `Lifecycle.Close` marks the peers over the statements it finalizes as no
  longer live (`Peer.stmtLive`, `Lifecycle.Retire`), and `Release`, and
  with it `CloseStatement` and `FinalizeStatement`, finalizes only a live
  statement (the finding at lines 102-118; as written: `Lifecycle.AsWrittenClose`). The source has
  no such flag: lines 129 and 327 always finalize.
- `Lifecycle.CloseStatement` releases the peer whatever finalize reports
  (the finding at lines 327-329; as written: `Lifecycle.AsWrittenCloseStatement`).

`Step` throws "Unreachable" only for status `SQLITE_OK`, which the error
check lets through. `sqlite3_step` never returns `SQLITE_OK`.

## Model

| member | source | states |
|---|---|---|
| `Errors.Throw` | src/dart_sqlite.cc:58-68 | raises a `SqliteException` whose message is the given text |
| `Errors.CheckSqlError` | src/dart_sqlite.cc:70-72 | raises exactly when the status is non-zero, with the connection's error message |
| `CStrings.CString` | src/dart_sqlite.cc:207-212 | the C view of a string is its longest NUL-free prefix: it stops at the first NUL or at the end |
| `CStrings.CStringOfPlain` | src/dart_sqlite.cc:338-339 | a string without NUL reaches the C side whole |
| `CStrings.CStringIdempotent` | src/dart_sqlite.cc:244-247 | converting text that already went through C once changes nothing |
| `Sqlite.Open` | src/dart_sqlite.cc:97 | `sqlite3_open` yields a connection not open before, with no statements, and keeps the engine consistent |
| `Sqlite.Prepare` | src/dart_sqlite.cc:146 | a compiled statement is new, unbound, belongs to its connection and heads that connection's list |
| `Sqlite.Finalize` | src/dart_sqlite.cc:109 | finalizing removes exactly that statement from the engine and from its connection's list, which gets shorter |
| `Sqlite.CloseConn` | src/dart_sqlite.cc:116 | a successful close removes exactly that connection and keeps every statement |
| `Sqlite.NextStmt` | src/dart_sqlite.cc:108 | `sqlite3_next_stmt(db, NULL)` names the connection's first open statement, and nothing exactly when none is open |
| `Sqlite.SetBinding` | src/dart_sqlite.cc:198-199 | a successful bind sets one placeholder of one statement and changes nothing else |
| `Sqlite.ClearBindings` | src/dart_sqlite.cc:175 | every placeholder of the statement is cleared and nothing else changes |
| `Resolver.ResolveName` | src/dart_sqlite.cc:337-352 | an export is returned only under its own name and arity; null only when no export has both |
| `Resolver.ResolveNameFindsEveryExport` | src/dart_sqlite.cc:342-350 | every export is found under its registered name and arity |
| `Resolver.ResolveNameExactly` | src/dart_sqlite.cc:333-352 | resolution succeeds exactly for the nine registered (name, arity) pairs |
| `Marshal.BindFrom` | src/dart_sqlite.cc:193-231 | the bind loop binds elements in order and stops at the first element of an unknown type ("Invalid parameter type") or the first bind the engine rejects (its message); it passes exactly when every element was bound |
| `Marshal.BindPlan` | src/dart_sqlite.cc:184-191 | a non-list raises "args must be a List" and a length different from the placeholder count raises the count message, both binding nothing; success means every element had a known type and was accepted |
| `Marshal.ArgCountMismatchIgnoresEngine` | src/dart_sqlite.cc:187-191 | with a wrong argument count the outcome is the same whatever the engine would answer, and nothing is bound |
| `Marshal.BindStopsAtFirstFailure` | src/dart_sqlite.cc:193-231 | the outcome depends only on the engine's answers up to where the loop stops |
| `Marshal.CopyBlobInto` | src/dart_sqlite.cc:221-224 | the copy loop over an allocation of a given size: the bytes that fit are copied, and the writes that fall past the end are exactly those at indices `size .. len-1` |
| `Marshal.AsWrittenBlobOverrunExample` | src/dart_sqlite.cc:221-224 | as written, a 3-byte ByteData bound to a statement with one placeholder is copied into a 1-byte allocation, and the writes at indices 1 and 2 fall past its end |
| `Marshal.CopyBlob` | src/dart_sqlite.cc:220-224 | the blob copy is a new buffer of the ByteData's length holding the same bytes, with no write outside it |
| `Marshal.MakeBinding` | src/dart_sqlite.cc:194-227 | each runtime type binds as the code dispatches it: int64, double, NULL, the string's C text with its `strlen` length and SQLITE_TRANSIENT, or a new copy of the ByteData released with `sqlite3_free` |
| `Marshal.BindAll` | src/dart_sqlite.cc:180-233 | `Bind` on one statement: the outcome is `BindPlan`'s; exactly the placeholders bound change, each holding what its element binds to, a ByteData's copy in a buffer that is no argument's ByteData and is shared with no other placeholder; no other statement changes |
| `Marshal.BindItems` | src/dart_sqlite.cc:193-231 | the bind loop reaches the outcome of `BindFrom` and binds exactly the elements `BindFrom` counts, element `i` to placeholder `i + 1` |
| `Marshal.BoundBlobOutlivesHostWrites` | src/dart_sqlite.cc:220-226 | a bound blob keeps the bytes it was bound with after the host overwrites its ByteData |
| `Marshal.NewByteData` | src/dart_sqlite.cc:250-263 | a BLOB column becomes a new ByteData of the column's length holding its bytes |
| `Marshal.GetColumnValue` | src/dart_sqlite.cc:235-272 | a column converts exactly when its storage class is INTEGER, FLOAT, TEXT, BLOB or NULL, into the matching host value; any other class raises "Unknown result type" |
| `Marshal.GetLastRow` | src/dart_sqlite.cc:274-281 | a row converts exactly when every column's class is known, into a list with one converted value per column; otherwise "Unknown result type" is raised |
| `Marshal.RoundTrip` | src/dart_sqlite.cc:239-267 | a value bound and read back through an echo query is the same value: scalars equal, strings up to their first NUL, blobs by content |
| `Lifecycle.Initial` | src/dart_sqlite.cc:127 | at load time there are no connections and no peers, nothing has been warned, and the invariant holds |
| `Lifecycle.New` | src/dart_sqlite.cc:91-100 | `New` fails exactly when the open status is non-zero, reporting the new connection's message and changing nothing; otherwise it returns a connection not open before |
| `Lifecycle.AsWrittenNewError` | src/dart_sqlite.cc:97 | in both evaluation orders a non-zero open status raises and a zero status does not; the message is read through the opened connection when the open is evaluated first, and through the uninitialised `db` otherwise |
| `Lifecycle.AsWrittenNewReadsUninitializedDb` | src/dart_sqlite.cc:94-97 | with `db` evaluated first, a failing open raises a message read through no connection, so the two orders agree only if that message happens to equal the opened connection's; the corrected `New` always reports the opened connection's message |
| `Lifecycle.PrepareStatement` | src/dart_sqlite.cc:139-169 | every outcome of `PrepareStatement` keeps the lifecycle invariant |
| `Lifecycle.Allocate` | src/dart_sqlite.cc:160-167 | a successful prepare with its finalizer registered keeps the lifecycle invariant |
| `Lifecycle.Discard` | src/dart_sqlite.cc:164-167 | finalizing a statement whose registration failed and freeing its peer keeps the invariant |
| `Lifecycle.PrepareStatementOutcome` | src/dart_sqlite.cc:139-169 | a compile failure raises the syntax error with message and SQL text and changes nothing. The call succeeds exactly when compile and registration both succeed. Then the handle is one never used before, for a live, armed peer over the new statement. A failed registration raises and leaves the engine's statements and the peers as they were |
| `Lifecycle.AllocateKeepsValid` | src/dart_sqlite.cc:160-167 | adding the new peer under a fresh handle keeps peers, statements and the release history consistent |
| `Lifecycle.DiscardKeepsValid` | src/dart_sqlite.cc:164-167 | finalizing the statement just compiled restores the engine's connections and statements and keeps the invariant |
| `Lifecycle.AsWrittenPrepareStatement` | src/dart_sqlite.cc:160-168 | as written, a compile failure changes nothing, and a registration that succeeds gives the corrected result |
| `Lifecycle.AsWrittenPrepareLeaksPeer` | src/dart_sqlite.cc:164-167 | as written, a failed registration raises but leaves a peer no finalizer will release and an unfinalized statement, breaking the invariant; the corrected call leaves neither |
| `Lifecycle.Reset` | src/dart_sqlite.cc:171-178 | the statement's bindings are cleared; it passes exactly when both the clear and the reset report zero, otherwise it raises the connection's message |
| `Lifecycle.Release` | src/dart_sqlite.cc:326-329 | releasing a peer finalizes its statement if still live, disarms and frees it, records it released once, and touches no other peer |
| `Lifecycle.CloseStatement` | src/dart_sqlite.cc:323-331 | the peer is released and its finalizer disarmed whatever finalize reports; the finalize status is raised when non-zero |
| `Lifecycle.AsWrittenCloseStatement` | src/dart_sqlite.cc:327-329 | as written, a finalize that reports success gives the corrected result |
| `Lifecycle.AsWrittenCloseStatementStrandsFinalizer` | src/dart_sqlite.cc:327-329 | as written, a finalize error leaves the finalizer armed over a destroyed statement, breaking the invariant; the corrected call disarms it |
| `Lifecycle.FinalizeStatement` | src/dart_sqlite.cc:126-137 | the collector's finalizer releases the peer and deletes its weak handle; it sets `warned` and writes the warning only when `warned` was still false |
| `Lifecycle.AsWrittenFinalizeStatement` | src/dart_sqlite.cc:128-136 | as written, the finalizer frees the peer before reading it: the read finds no peer, and the weak handle stays armed |
| `Lifecycle.ReadPeer` | src/dart_sqlite.cc:135-136 | a peer's fields can be read exactly while it is allocated |
| `Lifecycle.AsWrittenFinalizerReadsFreedPeer` | src/dart_sqlite.cc:128-136 | as written, the weak handle is read from a peer already freed and stays armed over it, breaking the invariant; the corrected order reads it while allocated and disarms the finalizer |
| `Lifecycle.Retire` | src/dart_sqlite.cc:106-111 | exactly the peers over the finalized statements stop being live; no peer is added or removed |
| `Lifecycle.FinalizeAll` | src/dart_sqlite.cc:106-111 | the loop of `Close` leaves the connection with no statements, removes exactly its statements, and keeps the others |
| `Lifecycle.Close` | src/dart_sqlite.cc:102-118 | `Close` keeps the lifecycle invariant and raises exactly when the close status is non-zero |
| `Lifecycle.CloseFinalizesStatementsOf` | src/dart_sqlite.cc:102-118 | every statement still open on the connection is finalized and no other. A warning with their count is written exactly when the count is positive. The connection is closed when the close succeeds and left empty when it fails. Peers are retired, not freed |
| `Lifecycle.AsWrittenCloseLoop` | src/dart_sqlite.cc:108-111 | as written, the loop started from NULL is well-defined exactly when the connection has no open statement, and then changes nothing and counts none |
| `Lifecycle.AsWrittenClose` | src/dart_sqlite.cc:102-118 | as written, `Close` finalizes the connection's statements but leaves every peer, finalizer and the release history as they were; it raises exactly on a non-zero close status |
| `Lifecycle.AsWrittenCloseLoopPassesFinalizedStmt` | src/dart_sqlite.cc:108-109 | as written, the loop passes a finalized statement to `sqlite3_next_stmt` exactly when the connection had a statement open; the corrected loop always empties it |
| `Lifecycle.AsWrittenCloseStrandsPeers` | src/dart_sqlite.cc:102-118 | as written, a statement open at `Close` leaves its peer armed and live over a finalized statement, breaking the invariant; the corrected `Close` keeps it armed but not live |
| `Lifecycle.Rebind` | src/dart_sqlite.cc:180-233 | `Bind` changes only the bindings of the peer's statement, and keeps the invariant |
| `Lifecycle.Apply` | src/dart_sqlite.cc:91-331 | every call that changes state (`New`, `PrepareStatement`, `Reset`, `Bind`, `CloseStatement`, the finalizer, `Close`) keeps the invariant, never clears `warned`, and only appends to the release history |
| `Lifecycle.RunReleasesEachPeerOnce` | src/dart_sqlite.cc:126-137 | over any sequence of those calls, each peer is released at most once and never re-armed, `warned` never goes back to false, and the collection warning is written at most once |
| `Extension.Settle` | src/dart_sqlite.cc:300-305 | `Step` acts on the first answer that is not BUSY, after every BUSY answer before it |
| `Extension.SettleSkipsBusy` | src/dart_sqlite.cc:303-305 | any number of BUSY answers in front of a run do not change the answer `Step` acts on |
| `Extension.StepFailure` | src/dart_sqlite.cc:316-318 | any answer other than DONE, ROW or BUSY raises the connection's message; "Unreachable" only for SQLITE_OK |
| `Extension.FinalizeOpenStatements` | src/dart_sqlite.cc:105-111 | the finalizing loop reaches the engine `FinalizeAll` describes and counts exactly the statements that were open |
| `Extension.Bridge.constructor` | src/dart_sqlite.cc:40-56 | the extension starts in the initial lifecycle state |
| `Extension.Bridge.New` | src/dart_sqlite.cc:91-100 | the object reaches the state and result of `Lifecycle.New` and keeps the invariant |
| `Extension.Bridge.Close` | src/dart_sqlite.cc:102-118 | the object reaches the state and result of `Lifecycle.Close` and keeps the invariant |
| `Extension.Bridge.PrepareStatement` | src/dart_sqlite.cc:139-169 | the object reaches the state and result of `Lifecycle.PrepareStatement` and keeps the invariant |
| `Extension.Bridge.Allocate` | src/dart_sqlite.cc:160-167 | the object reaches the state and handle of `Lifecycle.Allocate` |
| `Extension.Bridge.Discard` | src/dart_sqlite.cc:164-167 | the object reaches the state of `Lifecycle.Discard` |
| `Extension.Bridge.Reset` | src/dart_sqlite.cc:171-178 | the object reaches the state and result of `Lifecycle.Reset` |
| `Extension.Bridge.Bind` | src/dart_sqlite.cc:180-233 | the statement's bindings and the outcome are those `BindAll` gives, and the new state is `Lifecycle.Rebind`'s. The peers, the finalizers and the latch are unchanged, and the invariant holds |
| `Extension.Bridge.Step` | src/dart_sqlite.cc:296-321 | after the BUSY answers, DONE returns the change count, or 0 for a read-only statement. ROW returns the converted row, one value per result column, or "Unknown result type". Anything else raises the engine's error |
| `Extension.Bridge.ColumnInfo` | src/dart_sqlite.cc:283-294 | one name per result column, each the column's name read as a C string |
| `Extension.Bridge.CloseStatement` | src/dart_sqlite.cc:323-331 | the object reaches the state and result of `Lifecycle.CloseStatement` |
| `Extension.Bridge.FinalizeStatement` | src/dart_sqlite.cc:126-137 | the object reaches the state of `Lifecycle.FinalizeStatement` |
| `Extension.Bridge.Release` | src/dart_sqlite.cc:326-329 | the object reaches the state of `Lifecycle.Release` |

## Left out

- `Version` (lines 120-124) only returns the library's version string. It is left out.
- `dart_sqlite_Init`, `g_library` and the exception-type lookup in `Throw`
  are Dart runtime plumbing. A thrown exception is a failed result.
- `CheckDartError` and every failing Dart call are left out: string
  conversions, list and typed-data access, and the allocation of results.
  The exception is the weak-handle registration in `PrepareStatement`,
  which is a parameter.
- `get_db` and `get_statement` cast integers to addresses. Connections and
  peers are keys of tables instead.
- `fprintf` to stderr is recorded as a `Warning` in the state, not written.
- `sqlite3_busy_timeout` (line 98) only configures the engine's own waiting.
- The collector is not modelled. Its finalizer is a call that may happen on
  any armed peer.
- Doubles are opaque 64-bit patterns, since the bridge never computes with them.
- Dart integers outside 64 bits are not modelled. `Dart_IntegerToInt64`
  fails on them and the source ignores that failure.
- Text encoding (UTF-8) is not modelled. Strings are sequences of characters.
- The allocation failures of `sqlite3_malloc` (lines 160-161 and 221) are
  not modelled.
- A failed `sqlite3_open` still allocates a connection handle that the
  source never closes. The model records no connection on failure.
- SQL that compiles to no statement (empty or only a comment) gives a NULL
  statement in the source. The model always creates one.
- `Extension.Bridge.Step`: requires the run of engine answers to contain an
  answer that is not BUSY. The source spins forever on an engine that
  answers BUSY for good.
- `Extension.Bridge.Step`: does not restate that blob values in the row are
  freshly allocated. `Marshal.GetLastRow` states it.
- `Marshal.BindAll`: states that each blob buffer is no argument's
  ByteData and is shared with no other placeholder, but not that it is
  newly allocated, so it is not shown distinct from arrays the arguments
  do not name. `Marshal.MakeBinding` states the allocation.
- `Extension.Bridge.Bind`: the same as `Marshal.BindAll`, whose contract
  it carries.
- `Marshal.BindItems`: reads the engine's answer for a placeholder before
  the value is copied; on a rejected bind the engine frees the copy with
  the destructor it was given. A rejected bind leaves the placeholder at
  its old value in the model.
- `Marshal.BindAll`, `Marshal.BindItems`, `Extension.Bridge.Bind`: a text
  or blob bind that SQLite rejects after clearing the placeholder
  (SQLITE_TOOBIG, a value over its length limit) leaves that placeholder
  NULL in SQLite; the model keeps its old value. Only rejections before
  the clearing (SQLITE_MISUSE, SQLITE_RANGE) leave it as it was. What
  SQLite's bind routines do internally is not part of this model.
- `Peer.stmtLive` and `Lifecycle.Retire` have no counterpart in the
  source. They belong to the corrected `Close` (the finding at lines
  102-118), so that a later
  release does not finalize a statement `Close` already finalized; the
  source's release (lines 129 and 327) always finalizes.
- `Step` and `ColumnInfo` change no state, so the runs of
  `Lifecycle.RunReleasesEachPeerOnce` leave them out.
- `Reset`, `Bind`, `Step` and `ColumnInfo` are modelled only on a peer
  whose statement is live. The same goes for `Close` on an open connection
  and for the finalizer on an armed peer. In the source, calling them after
  `Close` has finalized the statement passes a destroyed statement to
  SQLite, which is undefined behaviour.

## Findings

| source | as written | input that shows it | evidently intended | confidence | as-written member | corrected member |
|---|---|---|---|---|---|---|
| src/dart_sqlite.cc:221 | the blob copy is allocated with `sqlite3_malloc(count)`, the placeholder count, then `len` bytes are written into it | bind a 3-byte ByteData to a statement with one placeholder: 2 bytes are written past the allocation | allocate `len` bytes | not executed; high | `Marshal.AsWrittenBlobOverrunExample` | `Marshal.CopyBlob` |
| src/dart_sqlite.cc:135-136 | the finalizer frees the peer, then reads `statement->finalizer` from it | any `Statement` collected without `close()` | read the weak handle before freeing the peer | not executed; high | `Lifecycle.AsWrittenFinalizerReadsFreedPeer` | `Lifecycle.FinalizeStatement` |
| src/dart_sqlite.cc:97 | `db` is passed in the same call whose other argument, `sqlite3_open(cpath, &db)`, assigns it; argument order is unspecified | a failing open compiled with `db` evaluated first: the message is read through an uninitialised connection | open first, then check the status with the opened connection | not executed; medium | `Lifecycle.AsWrittenNewReadsUninitializedDb` | `Lifecycle.New` |
| src/dart_sqlite.cc:164-167 | a failed weak-handle registration raises with the peer allocated and the statement unfinalized | registration failure after a successful prepare | finalize the statement and free the peer before raising | not executed; high | `Lifecycle.AsWrittenPrepareLeaksPeer` | `Lifecycle.PrepareStatementOutcome` |
| src/dart_sqlite.cc:108-109 | the loop passes the statement it just finalized to `sqlite3_next_stmt` | `close()` on a connection with one statement still open | ask `sqlite3_next_stmt(db, NULL)` each time | not executed; high | `Lifecycle.AsWrittenCloseLoopPassesFinalizedStmt` | `Extension.FinalizeOpenStatements` |
| src/dart_sqlite.cc:102-118 | statements are force-finalized but their peers stay armed over them | close a connection while a `Statement` is open, then close or collect that `Statement`: its statement is finalized a second time | mark the peers' statements finalized so that a later release skips them | not executed; medium | `Lifecycle.AsWrittenCloseStrandsPeers` | `Lifecycle.CloseFinalizesStatementsOf` |
| src/dart_sqlite.cc:327-329 | a non-zero status from `sqlite3_finalize` raises before the weak handle is deleted and the peer freed | `close()` on a statement whose last step failed: finalize repeats the error and the statement is already destroyed | release the peer whatever finalize reports | not executed; medium | `Lifecycle.AsWrittenCloseStatementStrandsFinalizer` | `Lifecycle.CloseStatement` |
