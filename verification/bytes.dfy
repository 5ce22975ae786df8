/**
 * Little-endian integer codecs and Python slice semantics over byte sequences.
 * Every binary reader of the system (the BSP shrinker script, the asset reader,
 * the VPK and PHY parsers) decodes its integers through these definitions.
 */
module Bytes {

  /** An octet, as stored in a file. */
  type byte = b: int | 0 <= b < 256

  const TWO16: int := 0x1_0000
  const TWO31: int := 0x8000_0000
  const TWO32: int := 0x1_0000_0000

  /** Unsigned 16-bit little-endian value of two bytes: b0 | b1 << 8. */
  function U16(s: seq<byte>): (r: nat)
    requires |s| == 2
    ensures r < TWO16
  {
    s[0] as int + 256 * s[1] as int
  }

  /** Unsigned 32-bit little-endian value of four bytes: b0 | b1 << 8 | b2 << 16 | b3 << 24. */
  function U32(s: seq<byte>): (r: nat)
    requires |s| == 4
    ensures r < TWO32
  {
    s[0] as int + 256 * s[1] as int + 65536 * s[2] as int + 16777216 * s[3] as int
  }

  /** Two's-complement reading of a 16-bit pattern. */
  function Signed16(u: nat): (r: int)
    requires u < TWO16
    ensures -0x8000 <= r < 0x8000
    ensures r % TWO16 == u
  {
    if u < 0x8000 then u else u - TWO16
  }

  /** Two's-complement reading of a 32-bit pattern. */
  function Signed32(u: nat): (r: int)
    requires u < TWO32
    ensures -TWO31 <= r < TWO31
    ensures r % TWO32 == u
  {
    if u < TWO31 then u else u - TWO32
  }

  /** Signed 16-bit little-endian value of two bytes. */
  function I16(s: seq<byte>): (r: int)
    requires |s| == 2
    ensures -0x8000 <= r < 0x8000
    ensures r >= 0 <==> s[1] < 128
  {
    Signed16(U16(s))
  }

  /** Signed 32-bit little-endian value of four bytes. */
  function I32(s: seq<byte>): (r: int)
    requires |s| == 4
    ensures -TWO31 <= r < TWO31
    ensures r % TWO32 == U32(s)
  {
    Signed32(U32(s))
  }

  /** The two little-endian bytes of a 16-bit value. */
  function Le16(x: nat): (r: seq<byte>)
    requires x < TWO16
    ensures |r| == 2 && U16(r) == x
  {
    [x % 256, x / 256]
  }

  /** The four little-endian bytes of a 32-bit value (Python's struct.pack('<L', x)). */
  function Le32(x: nat): (r: seq<byte>)
    requires x < TWO32
    ensures |r| == 4 && U32(r) == x
  {
    var b0 := x % 256;
    var q0 := x / 256;
    var b1 := q0 % 256;
    var q1 := q0 / 256;
    var b2 := q1 % 256;
    var b3 := q1 / 256;
    assert q1 < 256 * 256;
    assert x == b0 + 256 * (b1 + 256 * (b2 + 256 * b3));
    [b0, b1, b2, b3]
  }

  /** Encoding is the inverse of decoding: four bytes survive a decode/encode round trip. */
  lemma Le32OfU32(s: seq<byte>)
    requires |s| == 4
    ensures Le32(U32(s)) == s
  {
    var x := U32(s);
    assert x == s[0] as int + 256 * (s[1] as int + 256 * (s[2] as int + 256 * s[3] as int));
    assert x % 256 == s[0] as int && x / 256 == s[1] as int + 256 * (s[2] as int + 256 * s[3] as int);
    var q0 := x / 256;
    assert q0 % 256 == s[1] as int && q0 / 256 == s[2] as int + 256 * s[3] as int;
  }

  /** A non-negative value below 2^31 is read back unchanged as a signed 32-bit integer. */
  lemma I32OfLe32(x: nat)
    requires x < TWO31
    ensures I32(Le32(x)) == x
  {
  }

  /** Four bytes whose unsigned reading is below 2^31 read the same as a signed integer. */
  lemma I32OfSmallU32(s: seq<byte>)
    requires |s| == 4 && U32(s) < TWO31
    ensures I32(s) == U32(s)
  {
  }

  /** Python's index normalisation for slice bounds: negative counts from the end, then clamp. */
  function PyIndex(i: int, n: nat): (r: nat)
    ensures r <= n
    ensures 0 <= i <= n ==> r == i
    ensures i > n ==> r == n
    ensures i < 0 && 0 <= i + n ==> r == i + n
    ensures i + n < 0 ==> r == 0
  {
    if i < 0 then (if i + n < 0 then 0 else i + n) else if i > n then n else i
  }

  /** Python's s[start:stop]: bounds are normalised and clamped; an empty result when they cross. */
  function Slice<T>(s: seq<T>, start: int, stop: int): (r: seq<T>)
    ensures |r| <= |s|
    ensures 0 <= start <= stop <= |s| ==> r == s[start..stop]
    ensures 0 <= stop <= start ==> r == []
    ensures 0 <= start <= |s| && start <= stop ==> |r| == (if stop <= |s| then stop - start else |s| - start)
  {
    var lo := PyIndex(start, |s|);
    var hi := PyIndex(stop, |s|);
    if lo >= hi then [] else s[lo..hi]
  }

  /** A slice with non-negative bounds has the requested length exactly when it lies inside s. */
  lemma SliceFullLength<T>(s: seq<T>, start: int, len: nat)
    requires start >= 0
    ensures |Slice(s, start, start + len)| == len <==> len == 0 || start + len <= |s|
  {
  }

  /** n zero bytes. */
  function Zeros(n: nat): (r: seq<byte>)
    ensures |r| == n
    ensures forall i :: 0 <= i < n ==> r[i] == 0
  {
    seq(n, _ => 0)
  }

  /** Bytes read into a character buffer: one character per byte, of the same code. */
  function Chars(b: seq<byte>): (r: string)
    ensures |r| == |b| && forall i :: 0 <= i < |b| ==> r[i] as int == b[i]
  {
    seq(|b|, i requires 0 <= i < |b| => b[i] as char)
  }

  /** The i-th byte of b is at pos + i. */
  predicate ByteAt(data: seq<byte>, pos: nat, b: seq<byte>, i: nat)
    requires i < |b|
  {
    pos + i < |data| && data[pos + i] == b[i]
  }

  /**
   * The bytes at pos are b. Stated byte by byte through ByteAt, so that the fact is used
   * only where a proof asks for a byte of b.
   */
  predicate At(data: seq<byte>, pos: nat, b: seq<byte>)
  {
    pos + |b| <= |data| && forall i :: 0 <= i < |b| ==> ByteAt(data, pos, b, i)
  }

  /** The bytes at pos, as a slice. */
  lemma AtSlice(data: seq<byte>, pos: nat, b: seq<byte>)
    requires At(data, pos, b)
    ensures data[pos..pos + |b|] == b
  {
    forall i | 0 <= i < |b| ensures data[pos..pos + |b|][i] == b[i] {
      assert ByteAt(data, pos, b, i);
    }
  }

  /** Bytes at pos that are a concatenation: each part lies at its own position. */
  lemma AtSplit(data: seq<byte>, pos: nat, a: seq<byte>, b: seq<byte>)
    requires At(data, pos, a + b)
    ensures At(data, pos, a) && At(data, pos + |a|, b)
  {
    forall i | 0 <= i < |a| ensures ByteAt(data, pos, a, i) {
      assert ByteAt(data, pos, a + b, i);
    }
    var q := pos + |a|;
    forall i | 0 <= i < |b| ensures ByteAt(data, q, b, i) {
      assert ByteAt(data, pos, a + b, |a| + i);
    }
  }
}
