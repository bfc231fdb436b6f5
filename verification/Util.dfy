/** Definitions shared by the component models. */
module Util {

  datatype Option<+T> = None | Some(value: T) {
    function GetOr(default: T): T {
      match this
      case None => default
      case Some(v) => v
    }
  }

  /** What a C string function sees of `s`: everything before the first NUL. */
  function CStr(s: string): (r: string)
    ensures '\0' !in r && r <= s
    ensures '\0' !in s ==> r == s
  {
    if s == "" || s[0] == '\0' then ""
    else
      assert s == [s[0]] + s[1..];
      [s[0]] + CStr(s[1..])
  }

  /** A string without NULs. */
  type CString = s: string | '\0' !in s

  function Concat(ps: seq<string>): string {
    if ps == [] then "" else ps[0] + Concat(ps[1..])
  }
}
