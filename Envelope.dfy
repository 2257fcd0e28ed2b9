/** The envelope that carries an encrypted key and encrypted data in one flat
    buffer, `key ‖ splitter ‖ data`, and the scan that finds the splitter
    again (`CryptoUtil.combineByteArray` and `CryptoUtil.getSplitterIndex`). */
module Envelope {
  import opened Ascii

  /** The only exception the scan can raise: `getBytes()[0]` on an empty
      splitter, or `copyOfRange` asked to start outside the buffer. */
  datatype Exception = ArrayIndexOutOfBounds

  /** What a Java call does: return a value or throw. */
  datatype Outcome = Returned(index: int) | Thrown(exception: Exception)

  // ----- packing -----

  /** The envelope layout. `data` is the first parameter but goes last: the
      length is the sum of the parts, and slicing at the key's length and at
      that plus the splitter's length gives the three parts back. */
  function Combine(data: seq<byte>, key: seq<byte>, splitter: seq<byte>): (b: seq<byte>)
    ensures |b| == |key| + |splitter| + |data|
    ensures b[..|key|] == key
    ensures b[|key|..|key| + |splitter|] == splitter
    ensures b[|key| + |splitter|..] == data
  {
    key + splitter + data
  }

  /** `System.arraycopy(src, srcPos, dest, destPos, length)` for two distinct
      arrays and an in-range copy, which is how `combineByteArray` calls it. */
  method ArrayCopy(src: array<byte>, srcPos: nat, dest: array<byte>, destPos: nat, length: nat)
    requires src != dest
    requires srcPos + length <= src.Length && destPos + length <= dest.Length
    modifies dest
    ensures forall j :: 0 <= j < dest.Length ==>
              dest[j] == if destPos <= j < destPos + length then src[srcPos + j - destPos] else old(dest[j])
  {
    var k := 0;
    while k < length
      invariant 0 <= k <= length
      invariant forall j :: 0 <= j < dest.Length ==>
                  dest[j] == if destPos <= j < destPos + k then src[srcPos + j - destPos] else old(dest[j])
    {
      dest[destPos + k] := src[srcPos + k];
      k := k + 1;
    }
  }

  /** `combineByteArray(data, key, keySplitter)`: a new array holding the
      key, then the splitter's bytes, then the data. Neither input array is
      written (the method modifies nothing that existed before the call). */
  method CombineByteArray(data: array<byte>, key: array<byte>, keySplitter: string)
    returns (combined: array<byte>)
    requires IsAscii(keySplitter)
    ensures fresh(combined)
    ensures combined.Length == key.Length + |keySplitter| + data.Length
    ensures combined[..] == Combine(data[..], key[..], GetBytes(keySplitter))
  {
    var sb := GetBytes(keySplitter);
    var keySplitterBytes := new byte[|sb|](i requires 0 <= i < |sb| => sb[i]);
    combined := new byte[key.Length + keySplitterBytes.Length + data.Length];
    ArrayCopy(key, 0, combined, 0, key.Length);
    ArrayCopy(keySplitterBytes, 0, combined, key.Length, keySplitterBytes.Length);
    ArrayCopy(data, 0, combined, key.Length + keySplitterBytes.Length, data.Length);
    ghost var want := Combine(data[..], key[..], sb);
    assert |want| == combined.Length;
    forall j | 0 <= j < combined.Length
      ensures combined[j] == want[j]
    {
      if j < key.Length {
      } else if j < key.Length + |sb| {
        assert want[j] == sb[j - key.Length];
      } else {
        assert want[j] == data[j - key.Length - |sb|];
      }
    }
    assert combined[..] == want;
  }

  // ----- scanning -----

  /** `java.util.Arrays.copyOfRange(original, from, to)` for a start inside
      the array (or at its end) and `from <= to`: the elements from `from`,
      padded with zero bytes where `to` runs past the end. */
  function CopyOfRange(original: seq<byte>, from: nat, to: nat): (r: seq<byte>)
    requires from <= |original| && from <= to
    ensures |r| == to - from
    ensures forall j :: 0 <= j < |r| ==>
              r[j] == if from + j < |original| then original[from + j] else 0
  {
    if to <= |original| then original[from..to]
    else original[from..] + seq(to - |original|, _ => 0)
  }

  /** The loop body's test succeeds at for-each position `i`: the byte there
      is the splitter's first byte, and the window that `copyOfRange` opens
      at the running index `start + i` holds the splitter. */
  predicate Hit(buf: seq<byte>, start: int, splitter: seq<byte>, i: nat)
    requires 1 <= |splitter| && i < |buf|
  {
    buf[i] == splitter[0] && 0 <= start + i <= |buf|
    && CopyOfRange(buf, start + i, start + i + |splitter|) == splitter
  }

  /** A full occurrence of the splitter starts at `p`. */
  predicate OccursAt(buf: seq<byte>, splitter: seq<byte>, p: nat) {
    p + |splitter| <= |buf| && buf[p..p + |splitter|] == splitter
  }

  /** The for-each loop from position `i` on, with the running index equal
      to `start + i`: it returns the running index at the first hit or at the
      end of the buffer, and throws when the byte test succeeds at a running
      index outside the buffer. */
  function ScanFrom(buf: seq<byte>, start: int, splitter: seq<byte>, i: nat): (r: Outcome)
    requires 1 <= |splitter| && i <= |buf|
    ensures r.Returned? ==> start + i <= r.index <= start + |buf|
    ensures r.Returned? && r.index < start + |buf| ==> Hit(buf, start, splitter, r.index - start)
    ensures r.Returned? ==>
              forall j :: i <= j < r.index - start && j < |buf| ==> !Hit(buf, start, splitter, j)
    ensures r.Thrown? ==>
              exists j :: i <= j < |buf| && buf[j] == splitter[0] && !(0 <= start + j <= |buf|)
    decreases |buf| - i
  {
    if i == |buf| then Returned(start + i)
    else if buf[i] == splitter[0] then
      if !(0 <= start + i <= |buf|) then Thrown(ArrayIndexOutOfBounds)
      else if CopyOfRange(buf, start + i, start + i + |splitter|) == splitter then Returned(start + i)
      else ScanFrom(buf, start, splitter, i + 1)
    else ScanFrom(buf, start, splitter, i + 1)
  }

  /** `getSplitterIndex(encryptedData, start, keySplitter)` on the splitter's
      bytes, throwing first of all when the splitter is empty. A returned
      index lies between the start and the sentinel `start + |buf|`; below
      the sentinel it is where the loop's test first succeeded. */
  function SplitterIndex(buf: seq<byte>, start: int, splitter: seq<byte>): (r: Outcome)
    ensures |splitter| == 0 ==> r == Thrown(ArrayIndexOutOfBounds)
    ensures r.Returned? ==> start <= r.index <= start + |buf|
    ensures r.Returned? && r.index < start + |buf| ==>
              1 <= |splitter| && Hit(buf, start, splitter, r.index - start)
  {
    if |splitter| == 0 then Thrown(ArrayIndexOutOfBounds)
    else ScanFrom(buf, start, splitter, 0)
  }

  /** The scan as the source writes it: a for-each loop over the buffer that
      tests the loop's own byte but opens the window at the running index,
      and leaves the loop on the first full match. */
  method GetSplitterIndex(encryptedData: array<byte>, keyDelimiterIndex: int, keySplitter: string)
    returns (r: Outcome)
    requires IsAscii(keySplitter)
    ensures r == SplitterIndex(encryptedData[..], keyDelimiterIndex, GetBytes(keySplitter))
  {
    var splitterBytes := GetBytes(keySplitter);
    if |splitterBytes| == 0 {
      return Thrown(ArrayIndexOutOfBounds);
    }
    var keySplitterFirstByte := splitterBytes[0];
    var keySplitterLength := |keySplitter|;
    ghost var buf := encryptedData[..];
    var index := keyDelimiterIndex;
    var i := 0;
    while i < encryptedData.Length
      invariant 0 <= i <= encryptedData.Length
      invariant index == keyDelimiterIndex + i
      invariant ScanFrom(buf, keyDelimiterIndex, splitterBytes, i)
                == SplitterIndex(buf, keyDelimiterIndex, splitterBytes)
    {
      if encryptedData[i] == keySplitterFirstByte {
        if !(0 <= index <= encryptedData.Length) {
          return Thrown(ArrayIndexOutOfBounds);
        }
        var keySplit := CopyOfRange(encryptedData[..], index, index + keySplitterLength);
        if keySplit == splitterBytes {
          break;
        }
      }
      index := index + 1;
      i := i + 1;
    }
    return Returned(index);
  }

  // ----- the scan as it is meant to be called, from index 0 -----

  /** From index 0 the scan never throws on a non-empty splitter, returns an
      index in `[0, |buf|]`, and that index is the first position whose
      zero-padded window holds the splitter, or `|buf|` when there is none. */
  lemma ScanFromZero(buf: seq<byte>, splitter: seq<byte>)
    requires 1 <= |splitter|
    ensures SplitterIndex(buf, 0, splitter).Returned?
    ensures var r := SplitterIndex(buf, 0, splitter).index;
      0 <= r <= |buf| &&
      (r < |buf| ==> Hit(buf, 0, splitter, r)) &&
      (forall p :: 0 <= p < r ==> !Hit(buf, 0, splitter, p))
  {
  }

  /** A splitter with no zero byte cannot match a window that runs off the
      end of the buffer, since the window's last byte is padding; inside the
      buffer a hit is exactly a full occurrence. */
  lemma HitIsOccurrence(buf: seq<byte>, splitter: seq<byte>, p: nat)
    requires 1 <= |splitter| && p < |buf|
    requires forall j :: 0 <= j < |splitter| ==> splitter[j] != 0
    ensures Hit(buf, 0, splitter, p) <==> OccursAt(buf, splitter, p)
  {
    var w := CopyOfRange(buf, p, p + |splitter|);
    if p + |splitter| <= |buf| {
      assert w == buf[p..p + |splitter|];
      if OccursAt(buf, splitter, p) {
        assert buf[p] == w[0];
      }
    } else {
      assert w[|splitter| - 1] == 0;
      assert w != splitter;
    }
  }

  /** The scan from index 0 is a first-occurrence search with `|buf|` as
      its not-found sentinel, for a splitter with no zero byte. */
  lemma FirstOccurrence(buf: seq<byte>, splitter: seq<byte>)
    requires 1 <= |splitter|
    requires forall j :: 0 <= j < |splitter| ==> splitter[j] != 0
    ensures SplitterIndex(buf, 0, splitter).Returned?
    ensures var r := SplitterIndex(buf, 0, splitter).index;
      0 <= r <= |buf| &&
      (r < |buf| ==> OccursAt(buf, splitter, r)) &&
      (forall p :: 0 <= p < r ==> !OccursAt(buf, splitter, p)) &&
      (r == |buf| <==> forall p :: 0 <= p < |buf| ==> !OccursAt(buf, splitter, p))
  {
    ScanFromZero(buf, splitter);
    var r := SplitterIndex(buf, 0, splitter).index;
    if r < |buf| {
      HitIsOccurrence(buf, splitter, r);
    }
    forall p | 0 <= p < r
      ensures !OccursAt(buf, splitter, p)
    {
      HitIsOccurrence(buf, splitter, p);
    }
  }

  /** With a zero byte in the splitter the padding can complete a match:
      a one-byte buffer holding the splitter's first byte is reported as
      holding the whole two-byte splitter. */
  lemma PaddedTailMatchesWithNul()
    ensures SplitterIndex([7], 0, [7, 0]) == Returned(0)
    ensures !OccursAt([7], [7, 0], 0)
  {
  }

  // ----- round trip -----

  /** Scanning an envelope from 0 returns the key's length exactly when no
      full occurrence of the splitter starts inside the key. */
  lemma {:induction false} RoundTripExactly(data: seq<byte>, key: seq<byte>, splitter: seq<byte>)
    requires 1 <= |splitter|
    ensures SplitterIndex(Combine(data, key, splitter), 0, splitter) == Returned(|key|)
            <==> forall p :: 0 <= p < |key| ==> !OccursAt(Combine(data, key, splitter), splitter, p)
  {
    var b := Combine(data, key, splitter);
    ScanFromZero(b, splitter);
    var r := SplitterIndex(b, 0, splitter).index;
    // Inside the key and at the boundary every window lies within the buffer,
    // so a hit there is a full occurrence and the reverse.
    forall p | 0 <= p <= |key|
      ensures Hit(b, 0, splitter, p) <==> OccursAt(b, splitter, p)
    {
      var w := CopyOfRange(b, p, p + |splitter|);
      assert w == b[p..p + |splitter|];
      if OccursAt(b, splitter, p) {
        assert b[p] == w[0];
      }
    }
    assert OccursAt(b, splitter, |key|);
    if forall p :: 0 <= p < |key| ==> !OccursAt(b, splitter, p) {
      // The boundary is a hit, so the scan stops there or earlier; where it
      // stops is a hit, hence an occurrence, hence not inside the key.
      assert Hit(b, 0, splitter, |key|);
      assert r <= |key|;
      assert Hit(b, 0, splitter, r);
      assert OccursAt(b, splitter, r);
    } else {
      var p :| 0 <= p < |key| && OccursAt(b, splitter, p);
      assert Hit(b, 0, splitter, p);
      assert r <= p;
    }
  }

  /** The caller's recovery: when no byte of the key equals the splitter's
      first byte, the scan returns the key's length, and slicing there and
      past the splitter yields the key and the data. */
  lemma RoundTrip(data: seq<byte>, key: seq<byte>, splitter: seq<byte>)
    requires 1 <= |splitter|
    requires forall j :: 0 <= j < |key| ==> key[j] != splitter[0]
    ensures var b := Combine(data, key, splitter);
      SplitterIndex(b, 0, splitter) == Returned(|key|) &&
      b[..|key|] == key && b[|key| + |splitter|..] == data
  {
    var b := Combine(data, key, splitter);
    ScanFromZero(b, splitter);
    var r := SplitterIndex(b, 0, splitter).index;
    // The boundary is a hit, so the scan stops there or earlier, and it can
    // only stop on the splitter's first byte, which the key does not hold.
    assert CopyOfRange(b, |key|, |key| + |splitter|) == splitter;
    assert Hit(b, 0, splitter, |key|);
    assert b[r] == splitter[0];
  }

  /** The ambiguity hazard: a splitter inside the key is found first, so the
      boundary comes out short of the key's length. */
  lemma SplitterInKeyFoundFirst(data: seq<byte>, key: seq<byte>, splitter: seq<byte>, p: nat)
    requires 1 <= |splitter|
    requires OccursAt(key, splitter, p)
    ensures SplitterIndex(Combine(data, key, splitter), 0, splitter).Returned?
    ensures SplitterIndex(Combine(data, key, splitter), 0, splitter).index <= p < |key|
  {
    var b := Combine(data, key, splitter);
    ScanFromZero(b, splitter);
    assert b[p..p + |splitter|] == key[p..p + |splitter|];
    assert CopyOfRange(b, p, p + |splitter|) == b[p..p + |splitter|];
    assert Hit(b, 0, splitter, p);
  }

  /** A key that does not contain the splitter can still be cut short when
      the splitter straddles the end of the key: key `[1, 2]` and splitter
      `[1, 2, 1]` give the boundary 0. */
  lemma StraddlingSplitterMisparsed()
    ensures !OccursAt([1, 2], [1, 2, 1], 0) && !OccursAt([1, 2], [1, 2, 1], 1)
    ensures SplitterIndex(Combine([], [1, 2], [1, 2, 1]), 0, [1, 2, 1]) == Returned(0)
  {
  }

  /** The concrete envelope: data `[1, 2]`, key `[3, 4, 5]` and splitter
      `"|"` give `[3, 4, 5, '|', 1, 2]`, with the splitter at index 3. */
  lemma ConcreteEnvelope()
    ensures Combine([1, 2], [3, 4, 5], GetBytes("|")) == [3, 4, 5, 124, 1, 2]
    ensures SplitterIndex([3, 4, 5, 124, 1, 2], 0, GetBytes("|")) == Returned(3)
  {
  }

  // ----- the scan from a non-zero start -----

  /** From a start past 0 the byte tested and the window opened are `start`
      positions apart. With start 1 the splitter `[124]` at position 0 of
      `[124]` is missed (the window at index 1 is padding) and the sentinel 2
      comes back; with start 2 the splitter's first byte at position 1 of
      `[0, 124]` opens a window at index 3, past the end, and the scan throws,
      as it does for start 2 inside the three-byte buffer `[0, 0, 124]`. */
  lemma NonZeroStartMayThrow()
    ensures SplitterIndex([124], 1, [124]) == Returned(2)
    ensures SplitterIndex([124, 124], 1, [124]) == Returned(1)
    ensures SplitterIndex([124, 0], 2, [124]) == Returned(4)
    ensures SplitterIndex([0, 124], 2, [124]) == Thrown(ArrayIndexOutOfBounds)
    ensures SplitterIndex([0, 0, 124], 2, [124]) == Thrown(ArrayIndexOutOfBounds)
  {
  }
}
