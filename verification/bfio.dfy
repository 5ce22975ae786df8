/**
 * The binary-file I/O helpers of the fsal library: the power-of-two round-up used for buffer
 * growth, the fixed-size and growable memory streams, the size calculator stream and the
 * serialisation of a vector of 32-bit integers (an 8-byte count, then the elements).
 */
module Bfio {
  import opened Wrappers
  import opened Bytes

  const TWO64: int := 0x1_0000_0000_0000_0000

  // ---------------------------------------------------------------------------------------
  // PowerOf2RoundUp
  // ---------------------------------------------------------------------------------------

  /** x is a power of two. */
  predicate IsPow2(x: bv64) {
    x != 0 && x & (x - 1) == 0
  }

  /**
   * A run of ones s covering x (no higher bit than x's top bit, at most bit 62): one past it is
   * a power of two above x, and half of that is at most x.
   */
  lemma OnesPlusOne(v: bv64, s: bv64)
    requires v != 0 && s & (s + 1) == 0 && v - 1 <= s && s < 1 << 63
    requires v - 1 > 0 ==> s >> 1 < v - 1
    requires v - 1 == 0 ==> s == 0
    ensures IsPow2(s + 1) && v <= s + 1
    ensures s + 1 == 1 || (s + 1) >> 1 <= v - 1
  {
    assert (s + 1) - 1 == s;
    assert v - 1 + 1 == v;
  }

  /**
   * PowerOf2RoundUp as written (decrement, copy the top bit into every lower position,
   * increment; all modulo 2^64). For 1 <= v <= 2^63 the result is the smallest power of two
   * that is at least v.
   */
  method PowerOf2RoundUp(v: bv64) returns (r: bv64)
    requires v != 0 && v - 1 < 1 << 63
    ensures IsPow2(r) && v <= r
    ensures r == 1 || r >> 1 <= v - 1
  {
    var x := v - 1;
    x := x | (x >> 1);
    x := x | (x >> 2);
    x := x | (x >> 4);
    x := x | (x >> 8);
    x := x | (x >> 16);
    x := x | (x >> 32);
    assert x & (x + 1) == 0;
    assert v - 1 <= x;
    assert v - 1 > 0 ==> x >> 1 < v - 1;
    assert x < 1 << 63;
    assert v - 1 == 0 ==> x == 0;
    OnesPlusOne(v, x);
    r := x + 1;
  }

  /** n is a power of two. */
  ghost predicate IsPowerOfTwo(n: nat) {
    n == 1 || (n >= 2 && n % 2 == 0 && IsPowerOfTwo(n / 2))
  }

  /**
   * The smallest power of two that is at least n, on unbounded sizes: the value the bit trick
   * above computes for 1 <= n <= 2^63, used where the streams grow.
   */
  function RoundUpSize(n: nat): (r: nat)
    decreases n
  {
    if n <= 1 then 1 else 2 * RoundUpSize((n + 1) / 2)
  }

  /** The rounded size is a power of two, at least n, and no power of two below it reaches n. */
  lemma {:induction false} RoundUpSizeBounds(n: nat)
    decreases n
    ensures IsPowerOfTwo(RoundUpSize(n))
    ensures n <= RoundUpSize(n)
    ensures RoundUpSize(n) == 1 || RoundUpSize(n) / 2 < n
  {
    if n > 1 {
      RoundUpSizeBounds((n + 1) / 2);
    }
  }

  // ---------------------------------------------------------------------------------------
  // StaticMemoryStream
  // ---------------------------------------------------------------------------------------

  /** A stream over a fixed buffer; writes and reads must not start past its end. */
  datatype StaticStream = StaticStream(data: seq<byte>, offset: nat)

  /** Overwrites the bytes of dst starting at at with src. */
  function Overwrite(dst: seq<byte>, at: nat, src: seq<byte>): (r: seq<byte>)
    requires at + |src| <= |dst|
    ensures |r| == |dst|
    ensures r[at..at + |src|] == src
    ensures forall i :: 0 <= i < |dst| && !(at <= i < at + |src|) ==> r[i] == dst[i]
  {
    dst[..at] + src + dst[at + |src|..]
  }

  /** Write: copies src and advances when it fits; otherwise copies what fits, moves to the end and fails. */
  function StaticWrite(s: StaticStream, src: seq<byte>): (r: (StaticStream, bool))
    requires s.offset <= |s.data|
    ensures |r.0.data| == |s.data| && r.0.offset <= |s.data|
    ensures r.1 <==> s.offset + |src| <= |s.data|
    ensures r.1 ==> r.0.offset == s.offset + |src| && r.0.data[s.offset..r.0.offset] == src
    ensures !r.1 ==> r.0.offset == |s.data| && r.0.data[s.offset..] == src[..|s.data| - s.offset]
    ensures r.0.data[..s.offset] == s.data[..s.offset]
  {
    if s.offset + |src| > |s.data| then
      var n := |s.data| - s.offset;
      (StaticStream(Overwrite(s.data, s.offset, src[..n]), |s.data|), false)
    else
      (StaticStream(Overwrite(s.data, s.offset, src), s.offset + |src|), true)
  }

  /** Read: delivers n bytes and advances when they are there; otherwise delivers the rest, moves to the end and fails. */
  function StaticRead(s: StaticStream, n: nat): (r: (StaticStream, seq<byte>, bool))
    requires s.offset <= |s.data|
    ensures r.0.data == s.data && r.0.offset <= |s.data|
    ensures r.2 <==> s.offset + n <= |s.data|
    ensures r.2 ==> r.0.offset == s.offset + n && r.1 == s.data[s.offset..s.offset + n]
    ensures !r.2 ==> r.0.offset == |s.data| && r.1 == s.data[s.offset..]
  {
    if s.offset + n > |s.data| then (StaticStream(s.data, |s.data|), s.data[s.offset..], false)
    else (StaticStream(s.data, s.offset + n), s.data[s.offset..s.offset + n], true)
  }

  /** Two successful reads deliver what one read of both lengths delivers. */
  lemma StaticReadsCompose(s: StaticStream, n: nat, m: nat)
    requires s.offset + n + m <= |s.data|
    ensures var (s1, a, ok1) := StaticRead(s, n);
            var (s2, b, ok2) := StaticRead(s1, m);
            ok1 && ok2 && a + b == StaticRead(s, n + m).1 && s2 == StaticRead(s, n + m).0
  {
    var (s1, a, _) := StaticRead(s, n);
    var (_, b, _) := StaticRead(s1, m);
    assert a + b == s.data[s.offset..s.offset + n + m];
  }

  /** What a successful write put there, a read from the same position gets back. */
  lemma StaticWriteThenRead(s: StaticStream, src: seq<byte>)
    requires s.offset + |src| <= |s.data|
    ensures StaticRead(StaticStream(StaticWrite(s, src).0.data, s.offset), |src|).1 == src
  {
  }

  // ---------------------------------------------------------------------------------------
  // DynamicMemoryStream
  // ---------------------------------------------------------------------------------------

  const INITIAL_RESERVED: nat := 16

  /**
   * A growable stream: data holds the size bytes in use, reserved the capacity. Bytes that
   * growth exposes are left uninitialised by the C++ stream; here they are zero.
   */
  datatype DynamicStream = DynamicStream(data: seq<byte>, reserved: nat, offset: nat)

  predicate DynamicValid(s: DynamicStream) {
    |s.data| <= s.reserved
  }

  /** data cut or zero-extended to n bytes. */
  function Fit(data: seq<byte>, n: nat): (r: seq<byte>)
    ensures |r| == n
    ensures forall i :: 0 <= i < n && i < |data| ==> r[i] == data[i]
  {
    if n <= |data| then data[..n] else data + Zeros(n - |data|)
  }

  /**
   * Resize: growing past the capacity reserves the next power of two, which fails (changing
   * nothing) when the allocation fails; otherwise only the size changes.
   */
  function DynamicResize(s: DynamicStream, newSize: nat, allocOk: bool): (r: (DynamicStream, bool))
    requires DynamicValid(s)
    ensures DynamicValid(r.0) && r.0.offset == s.offset
    ensures r.1 <==> newSize <= s.reserved || allocOk
    ensures r.1 ==> |r.0.data| == newSize
    ensures !r.1 ==> r.0 == s
    ensures r.1 && newSize > s.reserved ==> r.0.reserved == RoundUpSize(newSize)
    ensures newSize <= s.reserved ==> r.0.reserved == s.reserved
  {
    if newSize > s.reserved then
      if allocOk then
        RoundUpSizeBounds(newSize);
        (DynamicStream(Fit(s.data, newSize), RoundUpSize(newSize), s.offset), true)
      else (s, false)
    else (DynamicStream(Fit(s.data, newSize), s.reserved, s.offset), true)
  }

  /** The default stream: the initial capacity reserved and, through the resize, also in use. */
  function NewDynamicStream(): (r: DynamicStream)
    ensures DynamicValid(r) && r.offset == 0 && r.reserved == INITIAL_RESERVED
    ensures |r.data| == INITIAL_RESERVED
  {
    assert RoundUpSize(INITIAL_RESERVED) == 16 by {
      assert RoundUpSize(2) == 2 && RoundUpSize(4) == 4 && RoundUpSize(8) == 8;
    }
    DynamicResize(DynamicStream([], 0, 0), INITIAL_RESERVED, true).0
  }

  /**
   * The copying constructor: resizes to the larger of the data's length and the initial
   * capacity, then copies the data to the front (so a short buffer leaves a size of 16).
   */
  function DynamicStreamOf(data: seq<byte>): (r: DynamicStream)
    ensures DynamicValid(r) && r.offset == 0
    ensures |r.data| == if |data| <= INITIAL_RESERVED then INITIAL_RESERVED else |data|
    ensures r.data[..|data|] == data
    ensures r.reserved == if |data| <= INITIAL_RESERVED then INITIAL_RESERVED else RoundUpSize(|data|)
  {
    var size := if INITIAL_RESERVED < |data| then |data| else INITIAL_RESERVED;
    assert RoundUpSize(INITIAL_RESERVED) == 16 by {
      assert RoundUpSize(2) == 2 && RoundUpSize(4) == 4 && RoundUpSize(8) == 8;
    }
    var (t, _) := DynamicResize(DynamicStream([], 0, 0), size, true);
    DynamicStream(Overwrite(t.data, 0, data), t.reserved, 0)
  }

  /** Write: resize to offset + n, copy and advance; a failed resize writes nothing. */
  function DynamicWrite(s: DynamicStream, src: seq<byte>, allocOk: bool): (r: (DynamicStream, bool))
    requires DynamicValid(s)
    ensures DynamicValid(r.0)
    ensures r.1 <==> s.offset + |src| <= s.reserved || allocOk
    ensures !r.1 ==> r.0 == s
    ensures r.1 ==> |r.0.data| == s.offset + |src| && r.0.offset == s.offset + |src|
    ensures r.1 ==> r.0.data[s.offset..] == src
    ensures r.1 ==> forall i :: 0 <= i < s.offset && i < |s.data| ==> r.0.data[i] == s.data[i]
  {
    var (t, ok) := DynamicResize(s, s.offset + |src|, allocOk);
    if ok then
      var d := Overwrite(t.data, s.offset, src);
      (DynamicStream(d, t.reserved, s.offset + |src|), true)
    else (s, false)
  }

  /** Read: as for the fixed buffer, with the current size as the end. */
  function DynamicRead(s: DynamicStream, n: nat): (r: (DynamicStream, seq<byte>, bool))
    requires s.offset <= |s.data|
    ensures r.2 <==> s.offset + n <= |s.data|
    ensures r.2 ==> r.1 == s.data[s.offset..s.offset + n] && r.0.offset == s.offset + n
    ensures !r.2 ==> r.1 == s.data[s.offset..] && r.0.offset == |s.data|
    ensures r.0.data == s.data && r.0.reserved == s.reserved
  {
    var (t, b, ok) := StaticRead(StaticStream(s.data, s.offset), n);
    (DynamicStream(s.data, s.reserved, t.offset), b, ok)
  }

  /** Appending writes to a stream at its end concatenate what they write. */
  lemma DynamicWritesAppend(s: DynamicStream, a: seq<byte>, b: seq<byte>)
    requires DynamicValid(s) && s.offset == |s.data|
    ensures var (s1, ok1) := DynamicWrite(s, a, true);
            var (s2, ok2) := DynamicWrite(s1, b, true);
            ok1 && ok2 && s2.data == s.data + a + b
  {
    var (s1, _) := DynamicWrite(s, a, true);
    var (s2, _) := DynamicWrite(s1, b, true);
    assert s1.data == s.data + a;
    assert s2.data[..|s1.data|] == s1.data;
    assert s2.data == s2.data[..|s1.data|] + s2.data[|s1.data|..];
  }

  // ---------------------------------------------------------------------------------------
  // SizeCalculator and vector serialisation
  // ---------------------------------------------------------------------------------------

  /** The bytes of a size_t on a little-endian 64-bit target. */
  function Le64(x: nat): (r: seq<byte>)
    requires x < TWO64
    ensures |r| == 8
  {
    Le32(x % TWO32) + Le32(x / TWO32)
  }

  /** The value of eight little-endian bytes. */
  function U64(s: seq<byte>): (r: nat)
    requires |s| == 8
  {
    U32(s[..4]) + TWO32 * U32(s[4..])
  }

  lemma U64OfLe64(x: nat)
    requires x < TWO64
    ensures U64(Le64(x)) == x
  {
    var r := Le64(x);
    assert r[..4] == Le32(x % TWO32) && r[4..] == Le32(x / TWO32);
  }

  /** The element bytes of a vector of 32-bit integers, in order. */
  function Elements(v: seq<nat>): (r: seq<byte>)
    requires forall i :: 0 <= i < |v| ==> v[i] < TWO32
    ensures |r| == 4 * |v|
  {
    if v == [] then [] else Le32(v[0]) + Elements(v[1..])
  }

  /** The writes Serialize(vector) issues: the count, then the element array in one block. */
  function VectorWrites(v: seq<nat>): (r: seq<seq<byte>>)
    requires |v| < TWO64 && forall i :: 0 <= i < |v| ==> v[i] < TWO32
  {
    [Le64(|v|), Elements(v)]
  }

  /** SizeCalculator: its size is the total length of everything written to it. */
  function SizeCalculator(writes: seq<seq<byte>>): (r: nat)
    ensures writes == [] ==> r == 0
  {
    if writes == [] then 0 else SizeCalculator(writes[..|writes| - 1]) + |writes[|writes| - 1]|
  }

  /** Flattening of the written blocks. */
  function Flatten(writes: seq<seq<byte>>): seq<byte> {
    if writes == [] then [] else Flatten(writes[..|writes| - 1]) + writes[|writes| - 1]
  }

  /** The size calculator counts exactly the bytes a real stream receives. */
  lemma {:induction false} SizeCalculatorCounts(writes: seq<seq<byte>>)
    ensures SizeCalculator(writes) == |Flatten(writes)|
  {
    if writes != [] {
      SizeCalculatorCounts(writes[..|writes| - 1]);
    }
  }

  /** A serialised vector occupies eight bytes for the count plus four per element. */
  lemma VectorSize(v: seq<nat>)
    requires |v| < TWO64 && forall i :: 0 <= i < |v| ==> v[i] < TWO32
    ensures SizeCalculator(VectorWrites(v)) == 8 + 4 * |v|
  {
    var w := VectorWrites(v);
    var none: seq<seq<byte>> := [];
    assert w[..1] == [Le64(|v|)] && w[..1][..0] == none;
  }

  /** Decodes count 32-bit integers from the front of b. */
  function ReadElements(b: seq<byte>, count: nat): (r: seq<nat>)
    requires 4 * count <= |b|
    ensures |r| == count
  {
    if count == 0 then [] else [U32(b[..4])] + ReadElements(b[4..], count - 1)
  }

  /**
   * Serialize(vector) on the reading side: the count, a resize, then the elements; a stream
   * too short for either yields None.
   */
  function ReadVector(s: StaticStream): (r: Option<seq<nat>>)
    requires s.offset <= |s.data|
    ensures r.Some? <==> s.offset + 8 <= |s.data| && s.offset + 8 + 4 * U64(s.data[s.offset..s.offset + 8]) <= |s.data|
    ensures r.Some? ==> |r.value| == U64(s.data[s.offset..s.offset + 8])
  {
    var (s1, head, ok) := StaticRead(s, 8);
    if !ok then None
    else
      var count := U64(head);
      var (_, body, ok2) := StaticRead(s1, 4 * count);
      if !ok2 then None else Some(ReadElements(body, count))
  }

  lemma {:induction false} ReadElementsOf(v: seq<nat>, rest: seq<byte>)
    requires forall i :: 0 <= i < |v| ==> v[i] < TWO32
    ensures ReadElements(Elements(v) + rest, |v|) == v
  {
    if v != [] {
      var e := Elements(v);
      assert (e + rest)[..4] == Le32(v[0]);
      assert (e + rest)[4..] == Elements(v[1..]) + rest;
      ReadElementsOf(v[1..], rest);
    }
  }

  /** Two writes land back to back. */
  lemma FlattenTwo(a: seq<byte>, b: seq<byte>)
    ensures Flatten([a, b]) == a + b
  {
    var none: seq<seq<byte>> := [];
    assert [a, b][..1] == [a] && [a][..0] == none;
    assert Flatten([a]) == a;
  }

  /** Reading back a serialised vector gives the vector. */
  lemma VectorRoundTrip(v: seq<nat>)
    requires |v| < TWO64 && forall i :: 0 <= i < |v| ==> v[i] < TWO32
    ensures ReadVector(StaticStream(Flatten(VectorWrites(v)), 0)) == Some(v)
  {
    var bytes := Flatten(VectorWrites(v));
    FlattenTwo(Le64(|v|), Elements(v));
    assert bytes[0..8] == Le64(|v|);
    U64OfLe64(|v|);
    assert bytes[8..8 + 4 * |v|] == Elements(v);
    ReadElementsOf(v, []);
    assert Elements(v) + [] == Elements(v);
  }

  /** The i-th element decoded is the i-th group of four bytes. */
  lemma {:induction false} ReadElementsAt(b: seq<byte>, count: nat, i: nat)
    requires 4 * count <= |b| && i < count
    ensures ReadElements(b, count)[i] == U32(b[4 * i..4 * i + 4])
    decreases i
  {
    if i > 0 {
      ReadElementsAt(b[4..], count - 1, i - 1);
      var lo := 4 * (i - 1);
      assert lo + 4 == 4 * i;
      assert b[4..][lo..lo + 4] == b[lo + 4..lo + 8];
    }
  }

  /** The element at index i of a vector is the value of its i-th group of four bytes. */
  lemma {:induction false} ElementBytes(v: seq<nat>, i: nat)
    requires forall k :: 0 <= k < |v| ==> v[k] < TWO32
    requires i < |v|
    ensures U32(Elements(v)[4 * i..4 * i + 4]) == v[i]
    decreases i
  {
    var e := Elements(v);
    assert e == Le32(v[0]) + Elements(v[1..]);
    if i == 0 {
      assert e[0..4] == Le32(v[0]);
    } else {
      ElementBytes(v[1..], i - 1);
      var lo := 4 * (i - 1);
      assert lo + 4 == 4 * i;
      assert e[lo + 4..lo + 8] == Elements(v[1..])[lo..lo + 4];
    }
  }

  /**
   * The vector after v.resize(count): the elements it already held are kept up to the new
   * count, and the new ones are value-initialised to zero.
   */
  function Resized(prior: seq<nat>, count: nat): (r: seq<nat>)
    ensures |r| == count
    ensures forall i :: 0 <= i < count ==> r[i] == (if i < |prior| then prior[i] else 0)
  {
    if count <= |prior| then prior[..count] else prior + seq(count - |prior|, _ => 0)
  }

  /**
   * An unchecked read into an existing buffer: the bytes the stream still holds overwrite the
   * front of the buffer, and the rest of the buffer keeps what it held.
   */
  function ReadInto(s: StaticStream, buffer: seq<byte>): (r: (StaticStream, seq<byte>))
    requires s.offset <= |s.data|
    ensures r.0.data == s.data && r.0.offset <= |s.data|
    ensures |r.1| == |buffer|
    ensures forall k :: 0 <= k < |buffer| && s.offset + k < |s.data| ==> r.1[k] == s.data[s.offset + k]
    ensures forall k :: 0 <= k < |buffer| && |s.data| <= s.offset + k ==> r.1[k] == buffer[k]
  {
    var (s2, body, _) := StaticRead(s, |buffer|);
    (s2, body + buffer[|body|..])
  }

  /**
   * Serialize(vector) on the reading side as the program runs it, with neither read checked.
   * A short count read fills the front of `size` and leaves the rest of its eight bytes as they
   * were (before; the program leaves the variable uninitialised). The vector, holding prior, is
   * resized to the count, and the element read overwrites the front of its bytes: a short read
   * leaves the rest as the resize left it.
   */
  function ReadVectorAsProgram(s: StaticStream, before: seq<byte>, prior: seq<nat>): (r: (StaticStream, seq<nat>))
    requires s.offset <= |s.data| && |before| == 8
    requires forall i :: 0 <= i < |prior| ==> prior[i] < TWO32
    ensures r.0.data == s.data && r.0.offset <= |s.data|
  {
    var (s1, head, _) := StaticRead(s, 8);
    var count := U64(head + before[|head|..]);
    var (s2, buf) := ReadInto(s1, Elements(Resized(prior, count)));
    (s2, ReadElements(buf, count))
  }

  /**
   * Where the checked read succeeds, the program's read delivers the same vector, whatever
   * `size` and the vector held before.
   */
  lemma ReadVectorAsProgramAgrees(s: StaticStream, before: seq<byte>, prior: seq<nat>)
    requires s.offset <= |s.data| && |before| == 8 && ReadVector(s).Some?
    requires forall i :: 0 <= i < |prior| ==> prior[i] < TWO32
    ensures ReadVectorAsProgram(s, before, prior).1 == ReadVector(s).value
  {
    var (s1, head, _) := StaticRead(s, 8);
    assert head + before[8..] == head;
    var count := U64(head);
    var (s2, body, _) := StaticRead(s1, 4 * count);
    var buf := ReadInto(s1, Elements(Resized(prior, count))).1;
    assert buf == body;
  }

  /**
   * With the count in the stream, the program's vector has that many elements however short
   * the rest of the stream is: an element whose four bytes are there is decoded from them, and
   * an element that starts past the stream's end is what the resize left there, the vector's
   * earlier element or zero.
   */
  lemma ReadVectorAsProgramElements(s: StaticStream, before: seq<byte>, prior: seq<nat>, i: nat)
    requires s.offset + 8 <= |s.data| && |before| == 8
    requires forall k :: 0 <= k < |prior| ==> prior[k] < TWO32
    ensures var count := U64(s.data[s.offset..s.offset + 8]);
      var v := ReadVectorAsProgram(s, before, prior).1;
      var at := s.offset + 8 + 4 * i;
      && |v| == count
      && (i < count && at + 4 <= |s.data| ==> v[i] == U32(s.data[at..at + 4]))
      && (i < count && |s.data| <= at ==> v[i] == (if i < |prior| then prior[i] else 0))
  {
    var (s1, head, _) := StaticRead(s, 8);
    assert head + before[8..] == head;
    var count := U64(head);
    var resized := Resized(prior, count);
    var buf := ReadInto(s1, Elements(resized)).1;
    if i < count {
      ReadElementsAt(buf, count, i);
      IntoWindow(s1, Elements(resized), 4 * i);
      ElementBytes(resized, i);
    }
  }

  /** Four bytes of a read into a buffer: those of the stream when it holds them, the buffer's own past its end. */
  lemma IntoWindow(s: StaticStream, buffer: seq<byte>, j: nat)
    requires s.offset <= |s.data| && j + 4 <= |buffer|
    ensures var w := ReadInto(s, buffer).1[j..j + 4]; var at := s.offset + j;
      && (at + 4 <= |s.data| ==> w == s.data[at..at + 4])
      && (|s.data| <= at ==> w == buffer[j..j + 4])
  {
    var w := ReadInto(s, buffer).1[j..j + 4];
    var at := s.offset + j;
    if at + 4 <= |s.data| {
      assert forall k :: 0 <= k < 4 ==> w[k] == s.data[at + k];
      assert w == s.data[at..at + 4];
    } else if |s.data| <= at {
      assert forall k :: 0 <= k < 4 ==> w[k] == buffer[j + k];
      assert w == buffer[j..j + 4];
    }
  }

  /**
   * A count of two with one element behind it: the checked read fails, and the program's read
   * into an empty vector gives the element and a zero.
   */
  lemma ShortVectorPadded()
    ensures var s := StaticStream(Le64(2) + Le32(7), 0);
      ReadVector(s).None? && ReadVectorAsProgram(s, Zeros(8), []).1 == [7, 0]
  {
    var s := StaticStream(Le64(2) + Le32(7), 0);
    assert s.data[0..8] == Le64(2);
    U64OfLe64(2);
    ReadVectorAsProgramElements(s, Zeros(8), [], 0);
    ReadVectorAsProgramElements(s, Zeros(8), [], 1);
    assert s.data[8..12] == Le32(7);
  }

  /**
   * The same stream read into a vector holding [5, 6, 9]: the vector is cut to two elements,
   * the first is overwritten with 7 and the second keeps its old 6.
   */
  lemma ShortVectorKeepsPrior()
    ensures var s := StaticStream(Le64(2) + Le32(7), 0);
      ReadVectorAsProgram(s, Zeros(8), [5, 6, 9]).1 == [7, 6]
  {
    var s := StaticStream(Le64(2) + Le32(7), 0);
    assert s.data[0..8] == Le64(2);
    U64OfLe64(2);
    ReadVectorAsProgramElements(s, Zeros(8), [5, 6, 9], 0);
    ReadVectorAsProgramElements(s, Zeros(8), [5, 6, 9], 1);
    assert s.data[8..12] == Le32(7);
  }
}
