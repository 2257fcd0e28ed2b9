/** Bytes and the ASCII view of Java strings shared by the envelope and
    fingerprint routines: every string the routines turn into bytes is taken
    to be ASCII, so `getBytes()` yields one byte per character and
    `String.length()` is the byte length. */
module Ascii {

  /** A Java `byte`, read as its unsigned value. The routines only compare
      bytes for equality and split them into nibbles, both of which see the
      same bit pattern whether the byte is read signed or unsigned. */
  newtype byte = x: int | 0 <= x < 256

  /** Every character has a code below 128. */
  predicate IsAscii(s: string) {
    forall i :: 0 <= i < |s| ==> s[i] as int < 128
  }

  /** `String.getBytes()` on an ASCII string: one byte per character,
      holding the character's code. */
  function GetBytes(s: string): (b: seq<byte>)
    requires IsAscii(s)
    ensures |b| == |s|
    ensures forall i :: 0 <= i < |s| ==> b[i] as int == s[i] as int
  {
    seq(|s|, i requires 0 <= i < |s| => s[i] as int as byte)
  }

  /** Two ASCII strings are equal exactly when their bytes are, which is why
      `keySplitter.equals(new String(window))` can be read as a comparison of
      the window with the splitter's bytes. */
  lemma GetBytesInjective(s: string, t: string)
    requires IsAscii(s) && IsAscii(t)
    ensures GetBytes(s) == GetBytes(t) <==> s == t
  {
  }
}
