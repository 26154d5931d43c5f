/** C strings: what precedes the first terminator. */
module Strings {

  function CString<T(==)>(s: seq<T>, nul: T): seq<T> {
    if s == [] || s[0] == nul then [] else [s[0]] + CString(s[1..], nul)
  }

  /** A string stored with its terminator reads back, whatever follows it. */
  lemma {:induction false} CStringOf<T>(name: seq<T>, nul: T, rest: seq<T>)
    requires forall i :: 0 <= i < |name| ==> name[i] != nul
    ensures CString(name + [nul] + rest, nul) == name
  {
    var s := name + [nul] + rest;
    if name != [] {
      assert s[1..] == name[1..] + [nul] + rest;
      CStringOf(name[1..], nul, rest);
    }
  }
}
