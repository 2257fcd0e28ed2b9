/** The key fingerprint of `CryptoUtil.computeFingerPrint`: hash the key
    bytes, with the metadata's bytes appended when there is metadata, write
    the digest in lower-case hex and put a colon between consecutive pairs.
    The hash (`HMACUtils.generateHash`) and the emptiness test
    (`EmptyCheckUtils.isNullEmpty`) live outside this code and are passed in
    as functions about which nothing is assumed beyond what is stated. */
module Fingerprint {
  import opened Ascii

  /** A Java reference that may be null. */
  datatype Option<T> = None | Some(value: T)

  // ----- hex encoding (Commons Codec `Hex.encodeHexString`, lower case) -----

  predicate IsLowerHex(c: char) {
    '0' <= c <= '9' || 'a' <= c <= 'f'
  }

  /** The lower-case digit for a nibble. */
  function HexDigit(n: int): (c: char)
    requires 0 <= n < 16
    ensures IsLowerHex(c)
  {
    if n < 10 then ('0' as int + n) as char else ('a' as int + n - 10) as char
  }

  /** The nibble a lower-case hex digit stands for; nothing for any other
      character. */
  function HexValue(c: char): (v: Option<int>)
    ensures v.Some? <==> IsLowerHex(c)
    ensures v.Some? ==> 0 <= v.value < 16 && HexDigit(v.value) == c
  {
    if '0' <= c <= '9' then Some(c as int - '0' as int)
    else if 'a' <= c <= 'f' then Some(c as int - 'a' as int + 10)
    else None
  }

  /** Two digits per byte, high nibble first, all lower-case hex. */
  function HexEncode(b: seq<byte>): (h: string)
    ensures |h| == 2 * |b|
    ensures forall i :: 0 <= i < |h| ==> IsLowerHex(h[i])
  {
    if b == [] then []
    else [HexDigit(b[0] as int / 16), HexDigit(b[0] as int % 16)] + HexEncode(b[1..])
  }

  /** Reads pairs of lower-case hex digits back into bytes. */
  function HexDecode(h: string): Option<seq<byte>>
  {
    if |h| == 0 then Some([])
    else if |h| == 1 then None
    else match (HexValue(h[0]), HexValue(h[1]), HexDecode(h[2..]))
      case (Some(hi), Some(lo), Some(rest)) => Some([(hi * 16 + lo) as byte] + rest)
      case _ => None
  }

  /** The digits of byte `k` sit at positions `2k` and `2k + 1`. */
  lemma {:induction false} HexEncodeAt(b: seq<byte>, k: nat)
    requires k < |b|
    ensures HexEncode(b)[2 * k] == HexDigit(b[k] as int / 16)
    ensures HexEncode(b)[2 * k + 1] == HexDigit(b[k] as int % 16)
  {
    if k > 0 {
      HexEncodeAt(b[1..], k - 1);
    }
  }

  /** Hex encoding loses nothing: decoding gives the bytes back. */
  lemma {:induction false} HexRoundTrip(b: seq<byte>)
    ensures HexDecode(HexEncode(b)) == Some(b)
  {
    if b != [] {
      var h := HexEncode(b);
      var x := b[0] as int;
      assert h[2..] == HexEncode(b[1..]);
      HexRoundTrip(b[1..]);
      assert HexValue(h[0]) == Some(x / 16);
      assert HexValue(h[1]) == Some(x % 16);
      assert (x / 16 * 16 + x % 16) as byte == b[0];
      assert [b[0]] + b[1..] == b;
    }
  }

  // ----- the colons: `replaceAll("..(?!$)", "$0:")` -----

  /** The characters that `.` does not match and before which a final `$`
      may also match in a Java regular expression. */
  predicate NoLineTerminator(s: string) {
    forall i :: 0 <= i < |s| ==>
      s[i] != '\n' && s[i] != '\r' && s[i] as int != 0x85 && s[i] as int != 0x2028 && s[i] as int != 0x2029
  }

  /** `s.replaceAll("..(?!$)", "$0:")`: scanning from the left, every two
      characters that are not the last two of the string are followed by a
      colon; the match resumes after them. Once two or fewer characters
      remain, nothing more matches. */
  function InsertColons(s: string): (r: string)
    requires NoLineTerminator(s)
    ensures |r| == |s| + (if |s| == 0 then 0 else (|s| - 1) / 2)
  {
    if |s| <= 2 then s else s[..2] + ":" + InsertColons(s[2..])
  }

  function RemoveColons(s: string): string
  {
    if s == [] then []
    else (if s[0] == ':' then [] else [s[0]]) + RemoveColons(s[1..])
  }

  lemma {:induction false} RemoveColonsAppend(a: string, b: string)
    ensures RemoveColons(a + b) == RemoveColons(a) + RemoveColons(b)
  {
    if a != [] {
      var head := if a[0] == ':' then [] else [a[0]];
      assert (a + b)[0] == a[0] && (a + b)[1..] == a[1..] + b;
      RemoveColonsAppend(a[1..], b);
      calc {
        RemoveColons(a + b);
        head + RemoveColons(a[1..] + b);
        head + (RemoveColons(a[1..]) + RemoveColons(b));
        (head + RemoveColons(a[1..])) + RemoveColons(b);
      }
    } else {
      assert a + b == b;
    }
  }

  /** On a string without colons the inserted colons are all there is to
      remove. */
  lemma {:induction false} RemoveInsertColons(s: string)
    requires NoLineTerminator(s)
    requires forall i :: 0 <= i < |s| ==> s[i] != ':'
    ensures RemoveColons(InsertColons(s)) == s
  {
    if |s| <= 2 {
      if |s| > 0 {
        assert s == [s[0]] + s[1..];
        RemoveColonsAppend([s[0]], s[1..]);
        if |s| == 2 {
          assert s[1..] == [s[1]] + [];
          RemoveColonsAppend([s[1]], []);
        }
      }
    } else {
      RemoveInsertColons(s[2..]);
      RemoveColonsAppend(s[..2] + ":", InsertColons(s[2..]));
      RemoveColonsAppend(s[..2], ":");
      assert s[..2] == [s[0]] + [s[1]];
      RemoveColonsAppend([s[0]], [s[1]]);
      assert RemoveColons([s[1]]) == [s[1]] by {
        assert [s[1]][1..] == [];
      }
      assert s[..2] + s[2..] == s;
    }
  }

  /** On an even-length string the pair at `2k` lands at `3k`, followed by a
      colon unless it is the last pair. */
  lemma {:induction false} InsertColonsAt(s: string, k: nat)
    requires NoLineTerminator(s)
    requires |s| % 2 == 0 && k < |s| / 2
    ensures var r := InsertColons(s);
      r[3 * k] == s[2 * k] && r[3 * k + 1] == s[2 * k + 1] &&
      (k < |s| / 2 - 1 ==> r[3 * k + 2] == ':')
  {
    if |s| > 2 {
      var r := InsertColons(s);
      assert r == s[..2] + ":" + InsertColons(s[2..]);
      if k > 0 {
        InsertColonsAt(s[2..], k - 1);
        assert r[3 * k] == InsertColons(s[2..])[3 * (k - 1)];
        assert r[3 * k + 1] == InsertColons(s[2..])[3 * (k - 1) + 1];
        if k < |s| / 2 - 1 {
          assert r[3 * k + 2] == InsertColons(s[2..])[3 * (k - 1) + 2];
        }
      }
    }
  }

  // ----- the fingerprint -----

  /** The printable form of a digest. */
  function FormatDigest(digest: seq<byte>): (fp: string)
    ensures |fp| == if digest == [] then 0 else 3 * |digest| - 1
  {
    InsertColons(HexEncode(digest))
  }

  /** Reads a fingerprint back into a digest: drop the colons, decode hex. */
  function ParseFingerprint(fp: string): Option<seq<byte>>
  {
    HexDecode(RemoveColons(fp))
  }

  /** The printed digest parses back, so distinct digests print differently. */
  lemma ParseFormat(digest: seq<byte>)
    ensures RemoveColons(FormatDigest(digest)) == HexEncode(digest)
    ensures ParseFingerprint(FormatDigest(digest)) == Some(digest)
  {
    RemoveInsertColons(HexEncode(digest));
    HexRoundTrip(digest);
  }

  lemma FormatInjective(d1: seq<byte>, d2: seq<byte>)
    ensures FormatDigest(d1) == FormatDigest(d2) ==> d1 == d2
  {
    ParseFormat(d1);
    ParseFormat(d2);
  }

  /** The shape of a fingerprint of `n >= 1` bytes: `3n - 1` characters,
      byte `k`'s two lower-case digits at `3k` and `3k + 1`, a colon at
      `3k + 2` between pairs, and no colon at the end. */
  lemma FormatDigestShape(digest: seq<byte>, k: nat)
    requires k < |digest|
    ensures var fp := FormatDigest(digest);
      |fp| == 3 * |digest| - 1 &&
      fp[3 * k..3 * k + 2] == HexEncode([digest[k]]) &&
      (k < |digest| - 1 ==> fp[3 * k + 2] == ':') &&
      fp[|fp| - 1] != ':'
  {
    var h := HexEncode(digest);
    var fp := FormatDigest(digest);
    InsertColonsAt(h, k);
    HexEncodeAt(digest, k);
    assert fp[3 * k..3 * k + 2] == [h[2 * k], h[2 * k + 1]];
    InsertColonsAt(h, |digest| - 1);
    assert fp[|fp| - 1] == h[2 * (|digest| - 1) + 1];
  }

  /** The hash input: the data alone when the emptiness test says the
      metadata is absent or empty, the data followed by the metadata's bytes
      otherwise. The data always comes first and unchanged. */
  function HashInput(data: seq<byte>, metaData: Option<string>, isNullEmpty: Option<string> -> bool): (input: seq<byte>)
    requires isNullEmpty(None)
    requires metaData.Some? ==> IsAscii(metaData.value)
    ensures |data| <= |input| && input[..|data|] == data
    ensures isNullEmpty(metaData) ==> |input| == |data|
    ensures !isNullEmpty(metaData) ==> input[|data|..] == GetBytes(metaData.value)
  {
    if isNullEmpty(metaData) then data else data + GetBytes(metaData.value)
  }

  /** For any emptiness test that holds of null and of `""`, skipping the
      concatenation is the same as appending nothing; any other metadata
      the test rejects is appended in full. */
  lemma HashInputMetadata(data: seq<byte>, metaData: Option<string>, isNullEmpty: Option<string> -> bool)
    requires isNullEmpty(None) && isNullEmpty(Some(""))
    requires metaData.Some? ==> IsAscii(metaData.value)
    ensures HashInput(data, None, isNullEmpty) == data
    ensures HashInput(data, Some(""), isNullEmpty) == data + GetBytes("")
    ensures !isNullEmpty(metaData) ==>
              var input := HashInput(data, metaData, isNullEmpty);
              input[..|data|] == data && input[|data|..] == GetBytes(metaData.value)
  {
  }

  /** `computeFingerPrint(byte[] data, String metaData)`. */
  function ComputeFingerPrint(data: seq<byte>, metaData: Option<string>,
                              hash: seq<byte> -> seq<byte>, isNullEmpty: Option<string> -> bool): (fp: string)
    requires isNullEmpty(None)
    requires metaData.Some? ==> IsAscii(metaData.value)
    ensures ParseFingerprint(fp) == Some(hash(HashInput(data, metaData, isNullEmpty)))
    ensures var n := |hash(HashInput(data, metaData, isNullEmpty))|;
              |fp| == if n == 0 then 0 else 3 * n - 1
  {
    var digest := hash(HashInput(data, metaData, isNullEmpty));
    ParseFormat(digest);
    FormatDigest(digest)
  }

  /** `computeFingerPrint(String data, String metaData)`: the key string's
      bytes are what is hashed. */
  function ComputeFingerPrintOfString(data: string, metaData: Option<string>,
                                      hash: seq<byte> -> seq<byte>, isNullEmpty: Option<string> -> bool): (fp: string)
    requires IsAscii(data)
    requires isNullEmpty(None)
    requires metaData.Some? ==> IsAscii(metaData.value)
    ensures ParseFingerprint(fp) == Some(hash(HashInput(GetBytes(data), metaData, isNullEmpty)))
    ensures var n := |hash(HashInput(GetBytes(data), metaData, isNullEmpty))|;
              |fp| == if n == 0 then 0 else 3 * n - 1
  {
    ComputeFingerPrint(GetBytes(data), metaData, hash, isNullEmpty)
  }
}
