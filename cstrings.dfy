/** NUL-terminated strings as the C side sees them. Converting a host string
    with `Dart_StringToCString` and measuring it with `strlen`, comparing it
    with `strcmp`, or turning an engine string back into a host string with
    `Dart_NewStringFromCString` all stop at the first NUL character. */
module CStrings {
  const NUL: char := '\0'

  /** The part of `s` that C code sees: everything before the first NUL. */
  function CString(s: string): (r: string)
    ensures |r| <= |s| && r == s[..|r|]
    ensures NUL !in r
    ensures |r| == |s| || s[|r|] == NUL
  {
    if s == [] || s[0] == NUL then [] else [s[0]] + CString(s[1..])
  }

  /** A string without NUL reaches C code whole. */
  lemma {:induction false} CStringOfPlain(s: string)
    requires NUL !in s
    ensures CString(s) == s
  {
    if s != [] {
      assert s[0] != NUL;
      assert NUL !in s[1..] by {
        forall i | 0 <= i < |s[1..]| ensures s[1..][i] != NUL {
          assert s[1..][i] == s[i + 1];
        }
      }
      CStringOfPlain(s[1..]);
    }
  }

  /** Converting twice is converting once. */
  lemma CStringIdempotent(s: string)
    ensures CString(CString(s)) == CString(s)
  {
    CStringOfPlain(CString(s));
  }
}
