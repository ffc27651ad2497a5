/** Value marshalling between host values and the engine: the dispatch of
    `Bind` on each argument's runtime type, the copy of a byte buffer into an
    engine-owned blob, and the conversion of each result column by its
    storage class (`get_column_value`, `get_last_row`). */
module Marshal {
  import opened Wrappers
  import opened CStrings
  import opened Sqlite
  import opened Errors

  /** A host value, by the runtime type the bridge tests for. A `ByteData`
      owns a byte buffer; every other runtime type is `HOther`. */
  datatype HostValue =
    | HInt(i: int64)
    | HDouble(d: Double)
    | HNull
    | HString(s: string)
    | HByteData(data: array<byte>)
    | HOther

  /** The `args` argument of `Bind`: a list, or any other object. */
  datatype Args = ListArgs(items: seq<HostValue>) | NotAList

  /** The runtime types `Bind` knows how to bind. */
  predicate Bindable(v: HostValue) {
    !v.HOther?
  }

  /** `b` is what `Bind` hands the engine for host value `v`: an int64, a
      double, SQL NULL, the string's C text with its `strlen` length and
      SQLITE_TRANSIENT, or an engine-owned buffer holding a copy of the
      ByteData's bytes, released with `sqlite3_free`. */
  ghost predicate BindsTo(b: Binding, v: HostValue)
    reads (if v.HByteData? then {v.data} else {}), (if b.BoundBlob? then {b.buffer} else {})
  {
    match v
    case HInt(i) => b == BoundInt64(i)
    case HDouble(d) => b == BoundDouble(d)
    case HNull => b == BoundNull
    case HString(s) => b == BoundText(CString(s), |CString(s)|, Transient)
    case HByteData(a) =>
      && b.BoundBlob? && b.n == a.Length && b.destructor == SqliteFree
      && b.buffer.Length == b.n && b.buffer[..] == a[..]
    case HOther => false
  }

  /** The loop of `Bind` from element `i` on: element `i` goes to placeholder
      `i + 1`; the loop stops at the first element of a type it cannot bind
      ("Invalid parameter type") or whose bind call the engine rejects
      (`bindStatus(i + 1)` non-zero, raised with `errmsg`). The second
      component is the number of elements bound. */
  function BindFrom(items: seq<HostValue>, i: nat, bindStatus: nat -> int, errmsg: string): (r: (Outcome<Error>, nat))
    requires i <= |items|
    decreases |items| - i
    ensures i <= r.1 <= |items|
    ensures forall j :: i <= j < r.1 ==> Bindable(items[j]) && bindStatus(j + 1) == 0
    ensures r.0.Pass? <==> r.1 == |items|
    ensures r.0.Fail? && !Bindable(items[r.1]) ==> r.0.error == SqliteException(InvalidParameterMessage)
    ensures r.0.Fail? && Bindable(items[r.1]) ==> bindStatus(r.1 + 1) != 0 && r.0.error == SqliteException(errmsg)
  {
    if i == |items| then (Pass, i)
    else if !Bindable(items[i]) then (Throw(InvalidParameterMessage), i)
    else if bindStatus(i + 1) != 0 then (CheckSqlError(errmsg, bindStatus(i + 1)), i)
    else BindFrom(items, i + 1, bindStatus, errmsg)
  }

  /** What `Bind` does with `args` for a statement with `paramCount`
      placeholders: the outcome and the number of leading elements bound. */
  function BindPlan(args: Args, paramCount: nat, bindStatus: nat -> int, errmsg: string): (r: (Outcome<Error>, nat))
    ensures args.NotAList? ==> r == (Fail(SqliteException(ArgsNotListMessage)), 0)
    ensures args.ListArgs? && |args.items| != paramCount ==> r == (Fail(SqliteException(ArgCountMessage)), 0)
    ensures args.ListArgs? ==> r.1 <= |args.items|
    ensures r.0.Pass? <==>
      args.ListArgs? && |args.items| == paramCount &&
      forall j :: 0 <= j < |args.items| ==> Bindable(args.items[j]) && bindStatus(j + 1) == 0
    ensures r.0.Pass? ==> r.1 == paramCount
  {
    match args
    case NotAList => (Throw(ArgsNotListMessage), 0)
    case ListArgs(items) =>
      if |items| != paramCount then (Throw(ArgCountMessage), 0)
      else BindFrom(items, 0, bindStatus, errmsg)
  }

  /** A mismatched argument list binds nothing and never reaches the
      engine: the outcome does not depend on what the engine would report. */
  lemma {:induction false} ArgCountMismatchIgnoresEngine(items: seq<HostValue>, paramCount: nat, s1: nat -> int, s2: nat -> int, m1: string, m2: string)
    requires |items| != paramCount
    ensures BindPlan(ListArgs(items), paramCount, s1, m1) == BindPlan(ListArgs(items), paramCount, s2, m2)
    ensures BindPlan(ListArgs(items), paramCount, s1, m1).1 == 0
  {
  }

  /** The loop of `Bind` sees the engine only up to where it stops: when
      the loop stops at element `k` under one engine, any engine that
      answers the same for placeholders up to `k + 1` gives the same
      outcome, whatever it answers for the placeholders after. */
  lemma {:induction false} BindStopsAtFirstFailure(items: seq<HostValue>, i: nat, s1: nat -> int, s2: nat -> int, errmsg: string)
    requires i <= |items|
    requires forall j :: i < j <= BindFrom(items, i, s1, errmsg).1 + 1 && j <= |items| ==> s1(j) == s2(j)
    ensures BindFrom(items, i, s1, errmsg) == BindFrom(items, i, s2, errmsg)
    decreases |items| - i
  {
    if i < |items| && Bindable(items[i]) && s1(i + 1) == 0 {
      BindStopsAtFirstFailure(items, i + 1, s1, s2, errmsg);
    }
  }

  /** The copy loop of lines 221-224 into an allocation of `size` bytes:
      the loop runs over all `len` indices of the ByteData; a write inside
      the allocation stores the byte, and the index of each write that
      falls past its end is recorded in `outside` (in C, those writes land
      beyond the buffer). Line 221 as written passes the placeholder count
      as `size`. */
  method CopyBlobInto(src: array<byte>, size: nat) returns (dst: array<byte>, outside: seq<nat>)
    ensures fresh(dst) && dst.Length == size
    ensures forall k :: 0 <= k < size && k < src.Length ==> dst[k] == src[k]
    ensures |outside| == if src.Length > size then src.Length - size else 0
    ensures forall k :: 0 <= k < |outside| ==> outside[k] == size + k
  {
    dst := new byte[size];
    outside := [];
    var j := 0;
    while j < src.Length
      invariant 0 <= j <= src.Length
      invariant forall k :: 0 <= k < j && k < size ==> dst[k] == src[k]
      invariant |outside| == if j > size then j - size else 0
      invariant forall k :: 0 <= k < |outside| ==> outside[k] == size + k
    {
      if j < size {
        dst[j] := src[j];
      } else {
        outside := outside + [j];
      }
      j := j + 1;
    }
  }

  /** Line 221 as written, on binding a 3-byte ByteData to a statement
      with one placeholder: the allocation holds one byte, and the writes
      at indices 1 and 2 fall past its end. */
  method AsWrittenBlobOverrunExample() returns (outside: seq<nat>)
    ensures outside == [1, 2]
  {
    var src := new byte[3];
    var count := 1;
    var dst;
    dst, outside := CopyBlobInto(src, count);
    assert outside[0] == 1 && outside[1] == 2;
  }

  /** The blob copy with the allocation sized by the ByteData's length:
      a fresh engine-owned buffer holding exactly the source bytes; the
      record of writes past the allocation, `outside`, is empty. */
  method CopyBlob(src: array<byte>) returns (dst: array<byte>, outside: seq<nat>)
    ensures fresh(dst) && dst.Length == src.Length && dst[..] == src[..]
    ensures outside == []
  {
    dst, outside := CopyBlobInto(src, src.Length);
    assert dst[..] == src[..];
  }

  /** The binding `Bind` builds for a bindable value; a ByteData is copied
      first. */
  method MakeBinding(v: HostValue) returns (b: Binding)
    requires Bindable(v)
    ensures BindsTo(b, v)
    ensures b.BoundBlob? ==> fresh(b.buffer)
  {
    match v
    case HInt(i) => b := BoundInt64(i);
    case HDouble(d) => b := BoundDouble(d);
    case HNull => b := BoundNull;
    case HString(s) =>
      var text := CString(s);
      b := BoundText(text, |text|, Transient);
    case HByteData(a) =>
      var buf, _ := CopyBlob(a);
      b := BoundBlob(buf, a.Length, SqliteFree);
  }

  /** The elements of an argument list; nothing for a non-list. */
  function ArgItems(args: Args): seq<HostValue> {
    if args.ListArgs? then args.items else []
  }

  /** After binding the first `n` arguments: placeholders 1 to `n` hold
      what those arguments bind to, and every other placeholder is as
      before. A ByteData is bound as a copy in a buffer of its own: no
      blob buffer is the data of any argument, and no two placeholders
      share one. */
  ghost predicate BoundPrefix(before: map<nat, Binding>, after: map<nat, Binding>, items: seq<HostValue>, n: nat)
    reads set i | 0 <= i < |items| && items[i].HByteData? :: items[i].data
    reads set k | k in after && after[k].BoundBlob? :: after[k].buffer
  {
    && n <= |items|
    && (forall k :: k in after <==> k in before || 1 <= k <= n)
    && (forall k :: k in after && !(1 <= k <= n) ==> after[k] == before[k])
    && (forall k :: 1 <= k <= n ==> BindsTo(after[k], items[k - 1]))
    && (forall k, i :: 1 <= k <= n && after[k].BoundBlob? && 0 <= i < |items| && items[i].HByteData? ==>
          after[k].buffer != items[i].data)
    && (forall k, j :: 1 <= k < j <= n && after[k].BoundBlob? && after[j].BoundBlob? ==>
          after[k].buffer != after[j].buffer)
  }

  /** What `Bind` leaves behind on statement `t`: the outcome is that of
      `BindPlan`; only the placeholders of `t` change, and of those exactly
      the ones bound, each to what its argument binds to. */
  ghost predicate Bound(e: Engine, t: StmtId, args: Args, bindStatus: nat -> int, errmsg: string, r: Outcome<Error>, e': Engine)
    requires t in e.stmts
    reads set i | 0 <= i < |ArgItems(args)| && ArgItems(args)[i].HByteData? :: ArgItems(args)[i].data
    reads set k | t in e'.stmts && k in e'.stmts[t].bindings && e'.stmts[t].bindings[k].BoundBlob? :: e'.stmts[t].bindings[k].buffer
  {
    var plan := BindPlan(args, e.stmts[t].shape.paramCount, bindStatus, errmsg);
    && r == plan.0
    && t in e'.stmts
    && e' == WithBindings(e, t, e'.stmts[t].bindings)
    && BoundPrefix(e.stmts[t].bindings, e'.stmts[t].bindings, ArgItems(args), plan.1)
  }

  /** The body of `Bind` on statement `t`: check that `args` is a list with
      one element per placeholder, then bind element `i` to placeholder
      `i + 1` in order, stopping at the first element of a type it cannot
      bind or whose bind call the engine rejects. The outcome and the
      number of placeholders bound are those of `BindPlan`; only the
      bindings of `t` change. */
  method BindAll(e: Engine, t: StmtId, args: Args, bindStatus: nat -> int, errmsg: string) returns (r: Outcome<Error>, e': Engine)
    requires t in e.stmts
    ensures Bound(e, t, args, bindStatus, errmsg, r, e')
  {
    e' := e;
    if args.NotAList? {
      return Throw(ArgsNotListMessage), e';
    }
    var items := args.items;
    if |items| != e.stmts[t].shape.paramCount {
      return Throw(ArgCountMessage), e';
    }
    r, e' := BindItems(e, t, items, bindStatus, errmsg);
  }

  /** The loop of `Bind`: bind element `i` of `items` to placeholder `i + 1`
      of `t`, in order, until an element cannot be bound or the engine
      rejects it. */
  method BindItems(e: Engine, t: StmtId, items: seq<HostValue>, bindStatus: nat -> int, errmsg: string) returns (r: Outcome<Error>, e': Engine)
    requires t in e.stmts
    ensures var plan := BindFrom(items, 0, bindStatus, errmsg);
      && r == plan.0
      && t in e'.stmts
      && e' == WithBindings(e, t, e'.stmts[t].bindings)
      && BoundPrefix(e.stmts[t].bindings, e'.stmts[t].bindings, items, plan.1)
  {
    e' := e;
    var i := 0;
    ghost var bs: map<nat, Binding> := e.stmts[t].bindings;
    assert e' == WithBindings(e, t, bs);
    BoundPrefixEmpty(bs, items);
    while i < |items|
      invariant 0 <= i <= |items|
      invariant BindFrom(items, i, bindStatus, errmsg) == BindFrom(items, 0, bindStatus, errmsg)
      invariant e' == WithBindings(e, t, bs)
      invariant BoundPrefix(e.stmts[t].bindings, bs, items, i)
    {
      if !Bindable(items[i]) {
        return Throw(InvalidParameterMessage), e';
      }
      // The engine's answer does not depend on the value bound; a rejected
      // bind leaves the placeholder as it was and the engine frees the copy
      // with the destructor it was handed, so only an accepted bind keeps one.
      var checked := CheckSqlError(errmsg, bindStatus(i + 1));
      if checked.Fail? {
        return checked, e';
      }
      var b := MakeBinding(items[i]);
      BoundPrefixExtend(e.stmts[t].bindings, bs, items, i, b);
      SetBindingExtends(e, t, bs, i + 1, b);
      e' := SetBinding(e', t, i + 1, b);
      bs := bs[i + 1 := b];
      i := i + 1;
    }
    r := Pass;
  }

  lemma BoundPrefixEmpty(before: map<nat, Binding>, items: seq<HostValue>)
    ensures BoundPrefix(before, before, items, 0)
  {
  }

  /** Binding element `n` to placeholder `n + 1` extends the prefix. */
  lemma BoundPrefixExtend(before: map<nat, Binding>, after: map<nat, Binding>, items: seq<HostValue>, n: nat, b: Binding)
    requires n < |items| && BoundPrefix(before, after, items, n)
    requires BindsTo(b, items[n])
    requires b.BoundBlob? ==> forall i :: 0 <= i < |items| && items[i].HByteData? ==> b.buffer != items[i].data
    requires b.BoundBlob? ==> forall k :: 1 <= k <= n && after[k].BoundBlob? ==> after[k].buffer != b.buffer
    ensures BoundPrefix(before, after[n + 1 := b], items, n + 1)
  {
  }

  /** Copy independence: once bound, the blob does not change when the host
      overwrites its ByteData. */
  method BoundBlobOutlivesHostWrites(a: array<byte>, x: byte) returns (b: Binding)
    requires a.Length > 0
    modifies a
    ensures b.BoundBlob? && b.buffer[..] == old(a[..]) && a[0] == x
  {
    b := MakeBinding(HByteData(a));
    a[0] := x;
  }

  /** The storage classes `get_column_value` converts. */
  predicate KnownType(code: int) {
    code == SQLITE_INTEGER || code == SQLITE_FLOAT || code == SQLITE_TEXT || code == SQLITE_BLOB || code == SQLITE_NULL
  }

  /** `v` is the host value for column `c`: INTEGER to int, FLOAT to double,
      TEXT to a string read as a C string, BLOB to a ByteData holding the
      column's bytes, NULL to null. */
  ghost predicate ConvertsTo(c: Column, v: HostValue)
    reads if v.HByteData? then {v.data} else {}
  {
    if c.typeCode == SQLITE_INTEGER then v == HInt(c.asInt)
    else if c.typeCode == SQLITE_FLOAT then v == HDouble(c.asDouble)
    else if c.typeCode == SQLITE_TEXT then v == HString(CString(c.asText))
    else if c.typeCode == SQLITE_BLOB then v.HByteData? && v.data[..] == c.asBlob
    else if c.typeCode == SQLITE_NULL then v == HNull
    else false
  }

  /** A new host ByteData of `|src|` bytes filled from the engine's column
      buffer, which is only valid until the next step. */
  method NewByteData(src: seq<byte>) returns (a: array<byte>)
    ensures fresh(a) && a[..] == src
  {
    a := new byte[|src|];
    var i := 0;
    while i < |src|
      invariant 0 <= i <= |src|
      invariant forall k :: 0 <= k < i ==> a[k] == src[k]
    {
      a[i] := src[i];
      i := i + 1;
    }
  }

  /** `get_column_value`: dispatch on the column's storage class. */
  method GetColumnValue(c: Column) returns (r: Result<HostValue, Error>)
    ensures r.Ok? <==> KnownType(c.typeCode)
    ensures r.Ok? ==> ConvertsTo(c, r.value) && (r.value.HByteData? ==> fresh(r.value.data))
    ensures r.Err? ==> r.error == SqliteException(UnknownResultMessage)
  {
    if c.typeCode == SQLITE_INTEGER {
      r := Ok(HInt(c.asInt));
    } else if c.typeCode == SQLITE_FLOAT {
      r := Ok(HDouble(c.asDouble));
    } else if c.typeCode == SQLITE_TEXT {
      r := Ok(HString(CString(c.asText)));
    } else if c.typeCode == SQLITE_BLOB {
      var a := NewByteData(c.asBlob);
      r := Ok(HByteData(a));
    } else if c.typeCode == SQLITE_NULL {
      r := Ok(HNull);
    } else {
      r := Err(SqliteException(UnknownResultMessage));
    }
  }

  /** `get_last_row`: a list with one converted value per column, or the
      error of the first column of unknown type. */
  method GetLastRow(row: seq<Column>) returns (r: Result<seq<HostValue>, Error>)
    ensures r.Ok? <==> forall i :: 0 <= i < |row| ==> KnownType(row[i].typeCode)
    ensures r.Ok? ==> |r.value| == |row|
    ensures r.Ok? ==> forall i :: 0 <= i < |row| ==>
      ConvertsTo(row[i], r.value[i]) && (r.value[i].HByteData? ==> fresh(r.value[i].data))
    ensures r.Err? ==> r.error == SqliteException(UnknownResultMessage)
  {
    var values: seq<HostValue> := [];
    var i := 0;
    while i < |row|
      invariant 0 <= i <= |row| && |values| == i
      invariant forall k :: 0 <= k < i ==> KnownType(row[k].typeCode)
      invariant forall k :: 0 <= k < i ==>
        ConvertsTo(row[k], values[k]) && (values[k].HByteData? ==> fresh(values[k].data))
    {
      var v := GetColumnValue(row[i]);
      if v.Err? {
        return Err(v.error);
      }
      values := values + [v.value];
      i := i + 1;
    }
    r := Ok(values);
  }

  /** The column an echo query (`SELECT ?`) reports for a bound value. */
  ghost function Echo(b: Binding): Column
    reads if b.BoundBlob? then {b.buffer} else {}
  {
    match b
    case BoundInt64(i) => Column(SQLITE_INTEGER, i, Double(0), "", [])
    case BoundDouble(d) => Column(SQLITE_FLOAT, 0, d, "", [])
    case BoundNull => Column(SQLITE_NULL, 0, Double(0), "", [])
    case BoundText(t, n, _) => Column(SQLITE_TEXT, 0, Double(0), if n <= |t| then t[..n] else t, [])
    case BoundBlob(a, n, _) => Column(SQLITE_BLOB, 0, Double(0), "", if n <= a.Length then a[..n] else a[..])
  }

  /** `w` reads back as `v`: equal scalars, a string cut at its first NUL,
      a ByteData with equal contents. */
  ghost predicate SameValue(v: HostValue, w: HostValue)
    reads (if v.HByteData? then {v.data} else {}), (if w.HByteData? then {w.data} else {})
  {
    match v
    case HString(s) => w == HString(CString(s))
    case HByteData(a) => w.HByteData? && w.data[..] == a[..]
    case _ => w == v
  }

  /** Round trip: binding a value and reading it back through an echo query
      yields the same value (blobs by content, strings up to a NUL). */
  lemma RoundTrip(v: HostValue, b: Binding, w: HostValue)
    requires BindsTo(b, v) && ConvertsTo(Echo(b), w)
    ensures SameValue(v, w)
  {
    if v.HString? {
      CStringIdempotent(v.s);
    }
  }
}
