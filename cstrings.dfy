/** NUL-terminated C strings, seen as the bytes of the memory they occupy.
    A `const char *` argument is modelled as a sequence of bytes that contains
    a NUL somewhere; the string proper is what comes before the first NUL. */
module CStrings {

  /** True if no byte of `m` is the terminator. */
  predicate NoNul(m: seq<bv8>) {
    forall i :: 0 <= i < |m| ==> m[i] != 0
  }

  /** True if reading `p` from its start reaches a terminator. */
  predicate Terminated(p: seq<bv8>) {
    exists i :: 0 <= i < |p| && p[i] == 0
  }

  /** The bytes before the first NUL of `p` (all of `p` if it has none). */
  function CString(p: seq<bv8>): (m: seq<bv8>)
    ensures NoNul(m)
    ensures m <= p
    ensures |m| < |p| ==> p[|m|] == 0
  {
    if p == [] || p[0] == 0 then [] else [p[0]] + CString(p[1..])
  }

  /** A string followed by its terminator reads back as that string,
      whatever lies in memory after the terminator. */
  lemma {:induction false} CStringOfTerminated(m: seq<bv8>, rest: seq<bv8>)
    requires NoNul(m)
    ensures CString(m + [0] + rest) == m
  {
    if m != [] {
      assert (m + [0] + rest)[1..] == m[1..] + [0] + rest;
      CStringOfTerminated(m[1..], rest);
    }
  }

  /** Splitting memory at the first NUL: the part before it is the string. */
  lemma CStringAt(p: seq<bv8>, i: nat)
    requires i < |p| && p[i] == 0 && NoNul(p[..i])
    ensures CString(p) == p[..i]
  {
    assert p == p[..i] + [0] + p[i + 1..];
    CStringOfTerminated(p[..i], p[i + 1..]);
  }
}
