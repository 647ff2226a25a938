/** Byte-level vocabulary shared by the firmware model and the UF2 encoder. */
module Bytes {

  /** An octet, as `uint8_t` in C and an element of `bytes` in Python. */
  type byte = bv8

  /** `n` zero bytes, as `b"\x00" * n`. */
  function Zeros(n: nat): (z: seq<byte>)
    ensures |z| == n
    ensures forall i :: 0 <= i < n ==> z[i] == 0
  {
    seq(n, _ => 0)
  }

  /** The bytes of a string whose characters are all 8-bit (ASCII text written by `sprintf`). */
  function AsciiBytes(s: string): (b: seq<byte>)
    requires forall i :: 0 <= i < |s| ==> s[i] as int < 256
    ensures |b| == |s|
  {
    seq(|s|, i requires 0 <= i < |s| => (s[i] as int) as byte)
  }

  /** Converting a concatenation converts each part: `AsciiBytes` works character by character. */
  lemma AsciiBytesAppend(s: string, t: string)
    requires forall i :: 0 <= i < |s| ==> s[i] as int < 256
    requires forall i :: 0 <= i < |t| ==> t[i] as int < 256
    ensures AsciiBytes(s + t) == AsciiBytes(s) + AsciiBytes(t)
  {
    var st := s + t;
    assert forall i :: 0 <= i < |s| ==> st[i] == s[i];
    assert forall i :: |s| <= i < |st| ==> st[i] == t[i - |s|];
  }
}
