/**
 * Fields of a map file held in memory. The asset file reader over a read-only memory file
 * delivers n > 0 bytes at offset p exactly when the file holds them, so every field the BSP
 * parsers read is a slice of the file, and a run of fixed-size records read one after
 * another is a table of slices.
 */
module MemoryFields {
  import opened Bytes
  import opened Wrappers
  import AssetReader
  import FsalFiles

  /** The n bytes at p, if the file holds them. */
  function FieldAt(file: seq<byte>, p: nat, n: nat): (r: Option<seq<byte>>)
    ensures r.Some? <==> p + n <= |file|
    ensures r.Some? ==> |r.value| == n
  {
    if p + n <= |file| then Some(file[p..p + n]) else None
  }

  /** The little-endian 16-bit value at p, if the file holds it. */
  function U16At(file: seq<byte>, p: nat): (r: Option<nat>)
    ensures r.Some? <==> p + 2 <= |file|
    ensures r.Some? ==> r.value < TWO16
  {
    if p + 2 <= |file| then Some(U16(file[p..p + 2])) else None
  }

  /** The little-endian 32-bit value at p, if the file holds it. */
  function U32At(file: seq<byte>, p: nat): (r: Option<nat>)
    ensures r.Some? <==> p + 4 <= |file|
    ensures r.Some? ==> r.value < TWO32
  {
    if p + 4 <= |file| then Some(U32(file[p..p + 4])) else None
  }

  /** A window of the file holding a + b holds a, then b. */
  lemma Split<T>(file: seq<T>, p: nat, a: seq<T>, b: seq<T>)
    requires p + |a| + |b| <= |file| && file[p..p + |a| + |b|] == a + b
    ensures file[p..p + |a|] == a && file[p + |a|..p + |a| + |b|] == b
  {
    assert file[p..p + |a|] == file[p..p + |a| + |b|][..|a|];
    assert file[p + |a|..p + |a| + |b|] == file[p..p + |a| + |b|][|a|..];
  }

  /** The asset reader positioned at p of an in-memory file. */
  function MemoryReader(file: seq<byte>, p: nat): AssetReader.Reader
  {
    AssetReader.Reader(AssetReader.Memory(FsalFiles.ReadOnlyFile(Some(file), p)), p)
  }

  /**
   * ReadByteArray of n > 0 bytes from the reader at p succeeds exactly when the file holds
   * them; it then delivers that field and leaves the reader at p + n.
   */
  lemma ReaderReadsField(file: seq<byte>, p: nat, n: nat)
    requires n > 0
    ensures var g := AssetReader.ReadByteArray(MemoryReader(file, p), n);
      && (g.ok <==> FieldAt(file, p, n).Some?)
      && (g.ok ==> g.bytes == FieldAt(file, p, n).value && g.reader == MemoryReader(file, p + n))
  {
  }

  /** ReadUINT32_LE from the reader at p reads the 32-bit field at p, and fails without it. */
  lemma ReaderReadsU32(file: seq<byte>, p: nat)
    ensures var g := AssetReader.ReadUint32(MemoryReader(file, p));
      && (g.ok <==> U32At(file, p).Some?)
      && (g.ok ==> g.value == U32At(file, p).value && g.reader == MemoryReader(file, p + 4))
  {
    ReaderReadsField(file, p, 4);
  }

  /** ReadUINT16_LE from the reader at p reads the 16-bit field at p, and fails without it. */
  lemma ReaderReadsU16(file: seq<byte>, p: nat)
    ensures var g := AssetReader.ReadUint16(MemoryReader(file, p));
      && (g.ok <==> U16At(file, p).Some?)
      && (g.ok ==> g.value == U16At(file, p).value && g.reader == MemoryReader(file, p + 2))
  {
    ReaderReadsField(file, p, 2);
  }

  // ---------------------------------------------------------------------------------------
  // Runs of fixed-size records
  // ---------------------------------------------------------------------------------------

  /**
   * count records of size bytes read one after another from cursor p, each decoded; the
   * first record the file does not hold fails the whole run.
   */
  function ReadRecords<T>(file: seq<byte>, p: nat, size: nat, count: nat, decode: seq<byte> -> T): (r: Option<seq<T>>)
    ensures r.Some? ==> |r.value| == count
    decreases count
  {
    if count == 0 then Some([])
    else match FieldAt(file, p, size)
      case None => None
      case Some(b) =>
        match ReadRecords(file, p + size, size, count - 1, decode)
        case None => None
        case Some(rest) => Some([decode(b)] + rest)
  }

  /** i whole records of size bytes end no later than count of them when i < count. */
  lemma RecordInside(size: nat, i: nat, count: nat)
    requires i < count
    ensures size * i + size <= size * count
  {
    assert size * i + size == size * (i + 1);
    assert size * (i + 1) <= size * count by {
      var d := count - (i + 1);
      assert size * count == size * (i + 1) + size * d;
    }
  }

  /** The records as a table: record i is the slice of size bytes at p + size * i. */
  function RecordTable<T>(file: seq<byte>, p: nat, size: nat, count: nat, decode: seq<byte> -> T): (r: seq<T>)
    requires p + size * count <= |file|
    ensures |r| == count
  {
    seq(count, i requires 0 <= i < count =>
      RecordInside(size, i, count);
      decode(file[p + size * i..p + size * i + size]))
  }

  /**
   * Reading records one by one succeeds exactly when the file holds all of them (or there
   * are none), and then yields the table of their slices.
   */
  lemma {:induction false} ReadRecordsIsTable<T>(file: seq<byte>, p: nat, size: nat, count: nat, decode: seq<byte> -> T)
    ensures ReadRecords(file, p, size, count, decode).Some? <==> count == 0 || p + size * count <= |file|
    ensures p + size * count <= |file| ==> ReadRecords(file, p, size, count, decode) == Some(RecordTable(file, p, size, count, decode))
    decreases count
  {
    if count > 0 {
      var r := ReadRecords(file, p, size, count, decode);
      var rest := ReadRecords(file, p + size, size, count - 1, decode);
      ReadRecordsIsTable(file, p + size, size, count - 1, decode);
      assert p + size * count == p + size + size * (count - 1);
      if p + size * count <= |file| {
        var t := RecordTable(file, p, size, count, decode);
        var u := RecordTable(file, p + size, size, count - 1, decode);
        assert r == Some([decode(file[p..p + size])] + u);
        forall i | 0 <= i < count
          ensures ([decode(file[p..p + size])] + u)[i] == t[i]
        {
          if i > 0 {
            assert p + size + size * (i - 1) == p + size * i;
          }
        }
        assert [decode(file[p..p + size])] + u == t;
      }
    }
  }

  /** The bytes of a run of records, each encoded in turn. */
  function EncodeRecords<T>(xs: seq<T>, encode: T -> seq<byte>): (r: seq<byte>)
    decreases |xs|
  {
    if xs == [] then [] else encode(xs[0]) + EncodeRecords(xs[1..], encode)
  }

  /** x encodes to size bytes that decode back to it. */
  ghost predicate EncodesBack<T>(x: T, size: nat, encode: T -> seq<byte>, decode: seq<byte> -> T)
  {
    |encode(x)| == size && decode(encode(x)) == x
  }

  /** Every listed value encodes to size bytes that decode back to it. */
  ghost predicate RoundTrips<T>(xs: seq<T>, size: nat, encode: T -> seq<byte>, decode: seq<byte> -> T)
  {
    forall i {:trigger EncodesBack(xs[i], size, encode, decode)} :: 0 <= i < |xs| ==> EncodesBack(xs[i], size, encode, decode)
  }

  /** The values after the first of a list that round-trips round-trip too. */
  lemma RoundTripsTail<T>(xs: seq<T>, size: nat, encode: T -> seq<byte>, decode: seq<byte> -> T)
    requires xs != [] && RoundTrips(xs, size, encode, decode)
    ensures EncodesBack(xs[0], size, encode, decode) && RoundTrips(xs[1..], size, encode, decode)
  {
    forall i | 0 <= i < |xs[1..]| ensures EncodesBack(xs[1..][i], size, encode, decode) {
      assert xs[1..][i] == xs[i + 1];
      assert EncodesBack(xs[i + 1], size, encode, decode);
    }
    assert EncodesBack(xs[0], size, encode, decode);
  }

  /** Encoded records take size bytes each. */
  lemma {:induction false} EncodeRecordsLength<T>(xs: seq<T>, size: nat, encode: T -> seq<byte>, decode: seq<byte> -> T)
    requires RoundTrips(xs, size, encode, decode)
    ensures |EncodeRecords(xs, encode)| == size * |xs|
    decreases |xs|
  {
    if xs != [] {
      RoundTripsTail(xs, size, encode, decode);
      EncodeRecordsLength(xs[1..], size, encode, decode);
      assert size * |xs| == size + size * |xs[1..]|;
    }
  }

  /** Records written by the encoder are read back one by one. */
  lemma {:induction false} RecordsRoundTrip<T>(file: seq<byte>, p: nat, size: nat, xs: seq<T>,
                                               encode: T -> seq<byte>, decode: seq<byte> -> T)
    requires RoundTrips(xs, size, encode, decode)
    requires p + |EncodeRecords(xs, encode)| <= |file| && file[p..p + |EncodeRecords(xs, encode)|] == EncodeRecords(xs, encode)
    ensures ReadRecords(file, p, size, |xs|, decode) == Some(xs)
    decreases |xs|
  {
    if xs != [] {
      var e := encode(xs[0]);
      var all := EncodeRecords(xs, encode);
      var more := EncodeRecords(xs[1..], encode);
      RoundTripsTail(xs, size, encode, decode);
      assert all == e + more;
      assert |e| == size;
      assert file[p..p + size] == e by {
        assert file[p..p + size] == file[p..p + |all|][..size];
      }
      assert file[p + size..p + size + |more|] == more by {
        assert file[p + size..p + size + |more|] == file[p..p + |all|][size..];
      }
      RecordsRoundTrip(file, p + size, size, xs[1..], encode, decode);
      assert [xs[0]] + xs[1..] == xs;
    }
  }
}
