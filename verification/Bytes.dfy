/** Byte strings as the C code sees them: sequences of unsigned chars, and NUL-terminated strings. */
module Bytes {
  type byte = n: int | 0 <= n < 256

  type bytes = seq<byte>

  datatype Option<+T> = None | Some(value: T) {
    function GetOr(default: T): T {
      if Some? then value else default
    }
  }

  const NUL: byte := 0x00

  /** The bytes `t` stand in `c` at position `o`. */
  predicate At(c: bytes, o: nat, t: bytes) {
    o + |t| <= |c| && c[o..o + |t|] == t
  }

  predicate NulFree(s: bytes) {
    forall i :: 0 <= i < |s| ==> s[i] != NUL
  }

  /** What a C string function sees of a buffer: everything before the first NUL. */
  function CString(s: bytes): (r: bytes)
    ensures r <= s && NulFree(r)
    ensures |r| < |s| ==> s[|r|] == NUL
  {
    if s == [] || s[0] == NUL then [] else [s[0]] + CString(s[1..])
  }

  lemma CStringOfNulFree(s: bytes)
    requires NulFree(s)
    ensures CString(s) == s
  {}

  lemma AtConcat(c: bytes, o: nat, a: bytes, b: bytes)
    ensures At(c, o, a + b) <==> At(c, o, a) && At(c, o + |a|, b)
  {
    if o + |a| + |b| <= |c| {
      assert c[o..o + |a + b|] == c[o..o + |a|] + c[o + |a|..o + |a| + |b|];
      if At(c, o, a + b) {
        assert c[o..o + |a|] == (a + b)[..|a|] == a;
        assert c[o + |a|..o + |a| + |b|] == (a + b)[|a|..] == b;
      }
    }
  }

  /** A text that stands at `o` is read back byte by byte. */
  lemma AtIndex(c: bytes, o: nat, t: bytes, k: nat)
    requires At(c, o, t) && k < |t|
    ensures o + k < |c| && c[o + k] == t[k]
  {
    assert c[o + k] == c[o..o + |t|][k];
  }
}
