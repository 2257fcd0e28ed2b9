# CryptoUtil envelope and fingerprint, in Dafny

A Dafny model of the byte- and string-level routines of MOSIP's kernel
`CryptoUtil`, with proofs about them:

- **Envelope packing** (`combineByteArray`). One new array is built as
  `key ‖ splitter bytes ‖ data`, with no length prefix and no escaping.
  `data` is the first parameter but is placed last. The three
  `System.arraycopy` calls are modelled as a loop over the fresh array
  (`Envelope.ArrayCopy`).
- **Boundary scan** (`getSplitterIndex`). This is a for-each loop over the
  buffer. At every byte equal to the splitter's first byte, it opens a
  `copyOfRange` window of splitter length at the running index. The window
  is zero-padded past the end of the buffer. The loop stops at the first
  window equal to the splitter, and otherwise returns `start + |buffer|`.
  The loop tests byte `i` but opens the window at `start + i`. The model
  keeps that general loop, including its exceptions (`Outcome.Thrown`):
  - an empty splitter makes `getBytes()[0]` throw;
  - a window that would start outside the buffer makes `copyOfRange` throw.

  The clean contracts are proved for `start == 0`, which is how the
  routine is called: the scan is then a first-occurrence search with the
  sentinel `|buffer|`.
- **Fingerprint** (`computeFingerPrint`, both overloads). The hash input is
  the data when the metadata is null or empty, and the data followed by the
  metadata's bytes otherwise. The digest is written in lower-case hex (the
  default of Commons Codec `Hex.encodeHexString`). Then
  `replaceAll("..(?!$)", "$0:")` puts a colon after every pair of
  characters except the last two.

Strings are ASCII throughout, so `getBytes()` gives one byte per character
and `String.length()` is the byte length (`Ascii.GetBytes`). Java bytes are
read as unsigned values. The code only compares them for equality and
splits them into nibbles, which gives the same answer either way. The
window test `keySplitter.equals(new String(window))` is modelled as a plain
byte comparison `window == GetBytes(keySplitter)`. For an ASCII splitter,
any byte of 128 or more decodes to a non-ASCII character, so such a window
can never equal the splitter. `Ascii.GetBytesInjective` covers the rest.

Unseen collaborators are passed in as function-valued parameters, and
nothing about them is assumed. There are two of them:
- `HMACUtils.generateHash` becomes `hash: seq<byte> -> seq<byte>`.
- `EmptyCheckUtils.isNullEmpty` becomes
  `isNullEmpty: Option<string> -> bool`. It is required to hold for null:
  otherwise `metaData.getBytes()` would dereference null. The lemma about
  the empty string also requires it to hold for `""`.

Three consequences of the code are worth stating outright:
- The envelope is key first, then data, although `data` is the first
  parameter: data `[1,2]`, key `[3,4,5]` and splitter `"|"` give
  `[3,4,5,'|',1,2]`, with the splitter at index 3
  (`Envelope.ConcreteEnvelope`).
- The scan has no not-found failure: it returns the sentinel
  `start + |buffer|`.
- A key that does not contain the splitter does not guarantee the round
  trip, because a splitter can straddle the end of the key
  (`Envelope.StraddlingSplitterMisparsed`). `Envelope.RoundTripExactly`
  gives the exact condition: no full occurrence of the splitter may start
  inside the key.

## Model

All source paths are `kernel/kernel-core/src/main/java/io/mosip/kernel/core/util/CryptoUtil.java`.

| member | source | states |
|---|---|---|
| `Ascii.GetBytes` | kernel/kernel-core/src/main/java/io/mosip/kernel/core/util/CryptoUtil.java:34 | `getBytes()` of an ASCII string has one byte per character, each holding that character's code |
| `Ascii.GetBytesInjective` | kernel/kernel-core/src/main/java/io/mosip/kernel/core/util/CryptoUtil.java:55-57 | two ASCII strings are equal exactly when their `getBytes()` are, so the string comparison of the window is a byte comparison |
| `Envelope.ArrayCopy` | kernel/kernel-core/src/main/java/io/mosip/kernel/core/util/CryptoUtil.java:36-38 | `System.arraycopy` between distinct arrays: the target range holds the source range, and every other element of the target is unchanged |
| `Envelope.CombineByteArray` | kernel/kernel-core/src/main/java/io/mosip/kernel/core/util/CryptoUtil.java:33-40 | returns a fresh array of length `|key| + |splitter| + |data|` holding key, then splitter bytes, then data; no input array is written |
| `Envelope.Combine` | kernel/kernel-core/src/main/java/io/mosip/kernel/core/util/CryptoUtil.java:35-38 | the envelope layout: its length is the sum of the parts, and slicing at `|key|` and `|key| + |splitter|` gives key, splitter and data |
| `Envelope.CopyOfRange` | kernel/kernel-core/src/main/java/io/mosip/kernel/core/util/CryptoUtil.java:55-56 | the `copyOfRange` window has length `to - from`, holds the buffer's bytes where they exist and zero past the end |
| `Envelope.ScanFrom` | kernel/kernel-core/src/main/java/io/mosip/kernel/core/util/CryptoUtil.java:53-62 | for any start: a returned index lies in `[start, start + |buf|]`; below the sentinel it is a hit (first byte tested at `i`, window at `start + i` equal to the splitter); no earlier position is a hit; a throw means the first byte matched at a running index outside the buffer |
| `Envelope.SplitterIndex` | kernel/kernel-core/src/main/java/io/mosip/kernel/core/util/CryptoUtil.java:50-63 | the whole scan: it throws on an empty splitter (`getBytes()[0]` at line 51); a returned index lies in `[start, start + |buf|]`, and below the sentinel it is where the loop's test first succeeded |
| `Envelope.GetSplitterIndex` | kernel/kernel-core/src/main/java/io/mosip/kernel/core/util/CryptoUtil.java:50-63 | the for-each loop with its running index and `break` returns exactly what the scan specification does, throwing on an empty splitter and on a window outside the buffer |
| `Envelope.ScanFromZero` | kernel/kernel-core/src/main/java/io/mosip/kernel/core/util/CryptoUtil.java:50-63 | from index 0 with a non-empty splitter the scan never throws, returns an index in `[0, |buf|]` that is the first position whose zero-padded window equals the splitter, or `|buf|` |
| `Envelope.HitIsOccurrence` | kernel/kernel-core/src/main/java/io/mosip/kernel/core/util/CryptoUtil.java:55-57 | for a splitter without a zero byte, a window running off the end never matches, so a hit is exactly a full occurrence of the splitter |
| `Envelope.FirstOccurrence` | kernel/kernel-core/src/main/java/io/mosip/kernel/core/util/CryptoUtil.java:50-63 | from index 0, for a splitter without a zero byte: result `r` in `[0, |buf|]`; `r < |buf|` implies `buf[r..r+|s|] == s`; no earlier full occurrence; `r == |buf|` if and only if there is no full occurrence at all |
| `Envelope.PaddedTailMatchesWithNul` | kernel/kernel-core/src/main/java/io/mosip/kernel/core/util/CryptoUtil.java:55-57 | with a zero byte in the splitter the padding completes a match: `[7]` with splitter `[7, 0]` gives index 0 without a full occurrence |
| `Envelope.RoundTripExactly` | kernel/kernel-core/src/main/java/io/mosip/kernel/core/util/CryptoUtil.java:50-63 | scanning a combined envelope from 0 returns `|key|` if and only if no full occurrence of the splitter starts inside the key |
| `Envelope.RoundTrip` | kernel/kernel-core/src/main/java/io/mosip/kernel/core/util/CryptoUtil.java:50-63 | when no key byte equals the splitter's first byte, scanning the envelope from 0 returns `|key|`, and slicing there and past the splitter recovers key and data |
| `Envelope.SplitterInKeyFoundFirst` | kernel/kernel-core/src/main/java/io/mosip/kernel/core/util/CryptoUtil.java:53-59 | a splitter occurring at `p` inside the key is found first: the scan returns at most `p`, short of the key's length |
| `Envelope.StraddlingSplitterMisparsed` | kernel/kernel-core/src/main/java/io/mosip/kernel/core/util/CryptoUtil.java:53-59 | key `[1, 2]` does not contain splitter `[1, 2, 1]`, yet the envelope's boundary is found at 0 |
| `Envelope.ConcreteEnvelope` | kernel/kernel-core/src/main/java/io/mosip/kernel/core/util/CryptoUtil.java:33-40 | data `[1, 2]`, key `[3, 4, 5]`, splitter `"\|"` give `[3, 4, 5, 124, 1, 2]`, and the scan finds the splitter at 3 |
| `Envelope.NonZeroStartMayThrow` | kernel/kernel-core/src/main/java/io/mosip/kernel/core/util/CryptoUtil.java:53-56 | from a non-zero start the tested byte and the window are apart: a splitter at 0 can be missed, and a start inside the buffer (start 2 in `[0, 0, 124]`) can still throw |
| `Fingerprint.HexEncode` | kernel/kernel-core/src/main/java/io/mosip/kernel/core/util/CryptoUtil.java:121 | the hex text has two characters per digest byte, all lower-case hex digits |
| `Fingerprint.HexEncodeAt` | kernel/kernel-core/src/main/java/io/mosip/kernel/core/util/CryptoUtil.java:121 | byte `k`'s high nibble is at `2k` and its low nibble at `2k + 1` |
| `Fingerprint.HexRoundTrip` | kernel/kernel-core/src/main/java/io/mosip/kernel/core/util/CryptoUtil.java:121 | decoding the hex text gives the digest back |
| `Fingerprint.InsertColons` | kernel/kernel-core/src/main/java/io/mosip/kernel/core/util/CryptoUtil.java:121 | the regex replacement adds `(n - 1) / 2` colons to a string of `n >= 1` characters and none to the empty string |
| `Fingerprint.RemoveInsertColons` | kernel/kernel-core/src/main/java/io/mosip/kernel/core/util/CryptoUtil.java:121 | on a string without colons, removing the colons undoes the replacement |
| `Fingerprint.InsertColonsAt` | kernel/kernel-core/src/main/java/io/mosip/kernel/core/util/CryptoUtil.java:121 | on an even-length string pair `k` lands at `3k`, followed by a colon unless it is the last pair |
| `Fingerprint.FormatDigest` | kernel/kernel-core/src/main/java/io/mosip/kernel/core/util/CryptoUtil.java:121 | a digest of `n >= 1` bytes prints as `3n - 1` characters, the empty digest as the empty string |
| `Fingerprint.ParseFormat` | kernel/kernel-core/src/main/java/io/mosip/kernel/core/util/CryptoUtil.java:121 | removing the colons from a fingerprint gives the digest's hex encoding, which parses back to the digest |
| `Fingerprint.FormatInjective` | kernel/kernel-core/src/main/java/io/mosip/kernel/core/util/CryptoUtil.java:121 | distinct digests give distinct fingerprints |
| `Fingerprint.FormatDigestShape` | kernel/kernel-core/src/main/java/io/mosip/kernel/core/util/CryptoUtil.java:121 | for `n >= 1` bytes: length `3n - 1`; characters `3k`, `3k + 1` are byte `k`'s hex pair; a single colon at `3k + 2` between pairs; no trailing colon |
| `Fingerprint.HashInput` | kernel/kernel-core/src/main/java/io/mosip/kernel/core/util/CryptoUtil.java:115-120 | the hash input starts with the data unchanged; it is the data alone when the emptiness test holds, and otherwise the metadata's bytes follow the data |
| `Fingerprint.HashInputMetadata` | kernel/kernel-core/src/main/java/io/mosip/kernel/core/util/CryptoUtil.java:115-120 | null or `""` metadata hashes the data alone, the same as appending nothing; metadata the emptiness test rejects is appended in full after the data |
| `Fingerprint.ComputeFingerPrint` | kernel/kernel-core/src/main/java/io/mosip/kernel/core/util/CryptoUtil.java:114-122 | the fingerprint parses back to the hash of the selected input, with length `3n - 1` for an `n`-byte digest (0 for an empty one) |
| `Fingerprint.ComputeFingerPrintOfString` | kernel/kernel-core/src/main/java/io/mosip/kernel/core/util/CryptoUtil.java:103-105 | the string overload's fingerprint parses back to the hash of the key string's bytes with the same metadata rule, with length `3n - 1` for an `n`-byte digest (0 for an empty one) |

## Left out

- `encodeBase64`, `encodeBase64String`, `decodeBase64`: each is a one-line call into Apache Commons Codec, whose code is not part of this model.
- `CryptoCoreSpec`: an interface with no method bodies. Its encryption, hashing, signing and random semantics live in providers that are not part of this model.
- `FoundationalTrustProviderServiceImpl`: persistence and record plumbing that only calls into this core.
- `HMACUtils.generateHash` and `EmptyCheckUtils.isNullEmpty` are not part of this model. They are uninterpreted function parameters.
- Character sets: every string that is turned into bytes is required to be ASCII. The model does not cover platform-charset effects of `getBytes()` and `new String(...)` on other text.
- Null arguments: a null `key` or `data` in `combineByteArray`, a null `keySplitter` or `encryptedData` in `getSplitterIndex`, and a null `data` in the String overload of `computeFingerPrint` (`data.getBytes()`) throw `NullPointerException` in Java. The model has no null arrays or strings for these. In the byte overload of `computeFingerPrint`, `ArrayUtils.addAll` accepts a null `data` and treats it as an empty array, so a null `data` is hashed as the empty sequence, which the model covers. The metadata is nullable (`Option`).
- 32-bit `int`: the running index and `start + splitterLength` are unbounded integers. Java would wrap them only for a start within `|buffer| + |splitter|` of `Integer.MAX_VALUE`.
- `Envelope.ArrayCopy`: requires distinct source and target arrays, which is how `combineByteArray` calls it. The overlapping copy that `System.arraycopy` also supports is not modelled.
- `Fingerprint.InsertColons`: models the regex replacement only on text without line terminators. There `.` matches every character and `$` matches only at the end, and hex output always qualifies.
- The random, time-dependent and I/O-performing parts of the surrounding system do not occur in these routines.
