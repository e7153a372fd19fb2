/** Bytes and C string buffers, shared by every module of the model. */
module Bytes {

  /** An `unsigned char` / `uint8_t`. */
  type Byte = b: int | 0 <= b < 256 witness 0

  const TWO32 := 0x1_0000_0000

  function Power2(n: nat): nat { if n == 0 then 1 else 2 * Power2(n - 1) }

  datatype Option<+T> = None | Some(value: T)

  ghost predicate NulFree(s: seq<Byte>) {
    forall i :: 0 <= i < |s| ==> s[i] != 0
  }

  /** A buffer read as a C string: everything before its first NUL. */
  function UpToNul(s: seq<Byte>): (r: seq<Byte>)
    ensures r <= s && NulFree(r) && (|r| < |s| ==> s[|r|] == 0)
  {
    if s == [] || s[0] == 0 then [] else [s[0]] + UpToNul(s[1..])
  }

  lemma {:induction false} UpToNulIs(s: seq<Byte>, n: nat)
    requires n <= |s| && NulFree(s[..n]) && (n < |s| ==> s[n] == 0)
    ensures UpToNul(s) == s[..n]
  {
    var r := UpToNul(s);
    assert forall i :: 0 <= i < |r| ==> r[i] == s[i];
    assert forall i :: 0 <= i < n ==> s[..n][i] == s[i];
  }
}
