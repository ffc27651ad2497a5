/** The native resolver: the host runtime asks for a native function by name
    and argument count, and the bridge answers from a fixed table of nine
    exports, or with null. */
module Resolver {
  import opened Wrappers
  import opened CStrings

  /** The bridge's native entry points. */
  datatype Export =
    | New | Close | Version | PrepareStatement | Reset | Bind | Step | ColumnInfo | CloseStatement

  /** The name each export is registered under. */
  function Name(e: Export): string {
    match e
    case New => "New"
    case Close => "Close"
    case Version => "Version"
    case PrepareStatement => "PrepareStatement"
    case Reset => "Reset"
    case Bind => "Bind"
    case Step => "Step"
    case ColumnInfo => "ColumnInfo"
    case CloseStatement => "CloseStatement"
  }

  /** The argument count each export is registered with. */
  function Arity(e: Export): int {
    match e
    case Version => 0
    case Bind => 2
    case PrepareStatement => 3
    case _ => 1
  }

  /** `EXPORT(func, args)`: the export, when the C name equals its name and
      the count equals its arity. */
  function Match(e: Export, cname: string, argc: int): Option<Export> {
    if cname == Name(e) && argc == Arity(e) then Some(e) else None
  }

  /** `ResolveName`: the exports are tried in the order they are listed and
      the first match wins; `NULL` (None) when none matches. The host name is
      compared as the C string `Dart_StringToCString` yields. */
  function ResolveName(name: string, argc: int): (r: Option<Export>)
    ensures r.Some? ==> Name(r.value) == CString(name) && Arity(r.value) == argc
    ensures r.None? ==> forall e: Export :: Name(e) != CString(name) || Arity(e) != argc
  {
    var cname := CString(name);
    if Match(New, cname, argc).Some? then Some(New)
    else if Match(Close, cname, argc).Some? then Some(Close)
    else if Match(Version, cname, argc).Some? then Some(Version)
    else if Match(PrepareStatement, cname, argc).Some? then Some(PrepareStatement)
    else if Match(Reset, cname, argc).Some? then Some(Reset)
    else if Match(Bind, cname, argc).Some? then Some(Bind)
    else if Match(Step, cname, argc).Some? then Some(Step)
    else if Match(ColumnInfo, cname, argc).Some? then Some(ColumnInfo)
    else if Match(CloseStatement, cname, argc).Some? then Some(CloseStatement)
    else None
  }

  /** Every export is found under its own name and arity. */
  lemma ResolveNameFindsEveryExport(e: Export)
    ensures ResolveName(Name(e), Arity(e)) == Some(e)
  {
    CStringOfPlain(Name(e));
    var r := ResolveName(Name(e), Arity(e));
    assert r.Some?;
    NamesDiffer(r.value, e);
  }

  /** No two exports share a name. */
  lemma NamesDiffer(a: Export, b: Export)
    requires Name(a) == Name(b)
    ensures a == b
  {
  }

  /** The (name, arity) pairs the bridge registers. */
  const Registered: set<(string, int)> :=
    {("New", 1), ("Close", 1), ("Version", 0), ("PrepareStatement", 3), ("Reset", 1),
     ("Bind", 2), ("Step", 1), ("ColumnInfo", 1), ("CloseStatement", 1)}

  /** Resolution succeeds exactly for the nine registered (name, arity)
      pairs and returns null for every other pair. */
  lemma ResolveNameExactly(name: string, argc: int)
    requires NUL !in name
    ensures ResolveName(name, argc).Some? <==> (name, argc) in Registered
  {
    CStringOfPlain(name);
    var r := ResolveName(name, argc);
    if r.Some? {
      assert (name, argc) == (Name(r.value), Arity(r.value));
      match r.value
      case New => assert (name, argc) == ("New", 1);
      case Close => assert (name, argc) == ("Close", 1);
      case Version => assert (name, argc) == ("Version", 0);
      case PrepareStatement => assert (name, argc) == ("PrepareStatement", 3);
      case Reset => assert (name, argc) == ("Reset", 1);
      case Bind => assert (name, argc) == ("Bind", 2);
      case Step => assert (name, argc) == ("Step", 1);
      case ColumnInfo => assert (name, argc) == ("ColumnInfo", 1);
      case CloseStatement => assert (name, argc) == ("CloseStatement", 1);
    } else if (name, argc) in Registered {
      var e: Export :|
        (name, argc) == (Name(e), Arity(e)) by {
        if (name, argc) == ("New", 1) { assert (name, argc) == (Name(New), Arity(New)); }
        else if (name, argc) == ("Close", 1) { assert (name, argc) == (Name(Close), Arity(Close)); }
        else if (name, argc) == ("Version", 0) { assert (name, argc) == (Name(Version), Arity(Version)); }
        else if (name, argc) == ("PrepareStatement", 3) { assert (name, argc) == (Name(PrepareStatement), Arity(PrepareStatement)); }
        else if (name, argc) == ("Reset", 1) { assert (name, argc) == (Name(Reset), Arity(Reset)); }
        else if (name, argc) == ("Bind", 2) { assert (name, argc) == (Name(Bind), Arity(Bind)); }
        else if (name, argc) == ("Step", 1) { assert (name, argc) == (Name(Step), Arity(Step)); }
        else if (name, argc) == ("ColumnInfo", 1) { assert (name, argc) == (Name(ColumnInfo), Arity(ColumnInfo)); }
        else { assert (name, argc) == (Name(CloseStatement), Arity(CloseStatement)); }
      }
      assert false;
    }
  }
}
