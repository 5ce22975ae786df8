/**
 * The asset file reader: a cursor over an fsal file (a read-only memory file or a sub-file
 * window onto one) with its own position counter, reading byte arrays, single characters,
 * delimited lines and little-endian integers.
 */
module AssetReader {
  import opened Bytes
  import opened FsalFiles

  /** The file the reader has open: none, a memory file, or a sub-file of one. */
  datatype Source = NoFile | Memory(file: ReadOnlyFile) | Sub(sub: SubFile)

  /**
   * File::Read on the open file; no file delivers nothing and fails. A sub-file reads through
   * SubFile::ReadData as the library has it, with its end-of-file test after the pointer moved.
   */
  function FileRead(src: Source, n: nat): (r: (Source, Read))
    ensures src.NoFile? ==> r.0 == src && r.1.bytes == [] && !r.1.status.Ok()
    ensures src.Memory? ==> r.0.Memory? && r.0.file.data == src.file.data
    ensures src.Sub? ==> r.0.Sub? && r.0.sub.size == src.sub.size
    ensures src.Sub? ==> r.1 == SubFileReadAsWritten(src.sub, n).1
    ensures |r.1.bytes| <= n
  {
    match src
    case NoFile => (src, Read([], 0, FAILED))
    case Memory(f) => var (g, rd) := ReadOnlyRead(f, n); (Memory(g), rd)
    case Sub(s) =>
      var (g, rd) := SubFileReadAsWritten(s, n);
      assert s.pointer < s.size ==> |rd.bytes| == |SubFileFetch(s, n).1.bytes|;
      (Sub(g), rd)
  }

  /** The reader: the open file and the position the reader believes it is at. */
  datatype Reader = Reader(src: Source, pos: nat) {
    predicate IsOpen() { !src.NoFile? }
  }

  /** OpenFileFromMemory: a null pointer closes the reader; either way the position is 0. */
  function OpenFromMemory(data: Wrappers.Option<seq<byte>>): (r: (Reader, bool))
    ensures r.0.pos == 0 && (r.1 <==> data.Some?) && (r.1 <==> r.0.IsOpen())
  {
    if data.None? then (Reader(NoFile, 0), false)
    else (Reader(Memory(ReadOnlyFile(data, 0)), 0), true)
  }

  /**
   * OpenSubFileFromCurrentlyOpenedFile: a window of len bytes at pos of the open memory file.
   * A sub-file of a sub-file is not part of this model.
   */
  function OpenSubFile(r: Reader, at: nat, len: nat): (o: (Reader, bool))
    requires !r.src.Sub?
    ensures o.0.pos == 0 && (o.1 <==> r.IsOpen()) && (o.1 <==> o.0.IsOpen())
    ensures o.1 ==> o.0.src == Sub(SubFile(r.src.file, len, at, 0))
  {
    if !r.IsOpen() then (Reader(NoFile, 0), false)
    else (Reader(Sub(SubFile(r.src.file, len, at, 0)), 0), true)
  }

  /**
   * SetPos: with no file it fails; otherwise it seeks from the beginning (which always
   * succeeds for these files; a sub-file clamps) and records pos unconditionally.
   */
  function SetPos(r: Reader, pos: nat): (o: (Reader, bool))
    requires pos < TWO64
    ensures !r.IsOpen() ==> o == (r, false)
    ensures r.IsOpen() ==> o.1 && o.0.pos == pos
    ensures r.src.Memory? ==> o.0.src == Memory(r.src.file.(offset := pos))
    ensures r.src.Sub? ==> o.0.src.Sub? && o.0.src.sub == SubFileSetPosition(r.src.sub, pos).0
  {
    var target := SeekTarget(Beginning, 0, 0, pos);
    match r.src
    case NoFile => (r, false)
    case Memory(f) =>
      var (g, st) := ReadOnlySetPosition(f, target);
      (Reader(Memory(g), pos), st.Ok())
    case Sub(s) =>
      var (g, st) := SubFileSetPosition(s, target);
      (Reader(Sub(g), pos), st.Ok())
  }

  /** What a read hands back: the reader afterwards, the bytes delivered and the verdict. */
  datatype Got = Got(reader: Reader, bytes: seq<byte>, ok: bool)

  /**
   * ReadByteArray: one read of len bytes; the position advances by len whatever happened, and
   * the call succeeds only without failure and without EOF.
   */
  function ReadByteArray(r: Reader, len: nat): (g: Got)
    ensures !r.IsOpen() ==> g == Got(r, [], false)
    ensures r.IsOpen() ==> g.reader.pos == r.pos + len
    ensures r.IsOpen() ==> (g.ok <==> FileRead(r.src, len).1.status.Ok() && !FileRead(r.src, len).1.status.eof)
    ensures g.bytes == FileRead(r.src, len).1.bytes || !r.IsOpen()
  {
    if !r.IsOpen() then Got(r, [], false)
    else
      var (src, rd) := FileRead(r.src, len);
      Got(Reader(src, r.pos + len), rd.bytes, rd.status.Ok() && !rd.status.eof)
  }

  /** The requested bytes lie inside an open memory file. */
  predicate Available(r: Reader, len: nat) {
    r.src.Memory? && r.src.file.offset + len <= r.src.file.Size()
  }

  /** A successful ReadByteArray delivers exactly the requested bytes. */
  lemma ReadByteArrayDelivers(r: Reader, len: nat)
    requires r.IsOpen() && ReadByteArray(r, len).ok
    ensures |ReadByteArray(r, len).bytes| == len
  {
    match r.src
    case Memory(f) =>
    case Sub(s) =>
  }

  /**
   * On a sub-file whose window lies inside its file, ReadByteArray succeeds exactly when the
   * window holds the request twice over from the pointer: the end-of-file test of ReadData
   * adds the request to the pointer after the read has already moved it.
   */
  lemma ReadByteArrayOfSub(r: Reader, len: nat)
    requires r.src.Sub? && r.src.sub.start + r.src.sub.size <= r.src.sub.under.Size()
    ensures var s := r.src.sub;
            ReadByteArray(r, len).ok <==> s.pointer < s.size && s.pointer + 2 * len <= s.size
  {
    var s := r.src.sub;
    if s.pointer < s.size {
      FetchInWindow(s, len);
    }
  }

  /**
   * The reader inherits the sub-file's early end of file: four bytes at pointer 2 of an
   * eight-byte window all lie inside it, yet ReadByteArray fails, while reading them from the
   * same window through the corrected ReadData would succeed.
   */
  lemma SubFileReadFailsEarly()
    ensures var s := SubFile(ReadOnlyFile(Wrappers.Some(Zeros(8)), 0), 8, 0, 2);
            !ReadByteArray(Reader(Sub(s), 2), 4).ok
            && SubFileRead(s, 4).1.status.Ok() && !SubFileRead(s, 4).1.status.eof
  {
    var s := SubFile(ReadOnlyFile(Wrappers.Some(Zeros(8)), 0), 8, 0, 2);
    ReadByteArrayOfSub(Reader(Sub(s), 2), 4);
    SubFileEofOnCompleteRead();
  }

  /** Bytes inside a memory file are read successfully, in order. */
  lemma ReadByteArrayOfMemory(r: Reader, len: nat)
    requires Available(r, len) && len > 0
    ensures var g := ReadByteArray(r, len);
            var f := r.src.file;
            g.ok && g.bytes == f.Contents()[f.offset..f.offset + len]
            && g.reader == Reader(Memory(f.(offset := f.offset + len)), r.pos + len)
  {
  }

  /**
   * ReadCharArray: len reads of one byte each; the position advances per attempted byte and
   * the loop stops at the first byte that fails or reports EOF. Returns the bytes stored.
   */
  function ReadCharArray(r: Reader, len: nat): (g: Got)
    ensures !r.IsOpen() ==> g == Got(r, [], false)
    ensures r.IsOpen() ==> g.reader.pos == r.pos + |g.bytes| + (if g.ok then 0 else 1)
    ensures g.ok ==> |g.bytes| == len
    ensures |g.bytes| <= len
    decreases len
  {
    if !r.IsOpen() then Got(r, [], false)
    else if len == 0 then Got(r, [], true)
    else
      var one := ReadByteArray(r, 1);
      if !one.ok then Got(one.reader, [], false)
      else
        ReadByteArrayDelivers(r, 1);
        var rest := ReadCharArray(one.reader, len - 1);
        Got(rest.reader, one.bytes + rest.bytes, rest.ok)
  }

  /** Character by character or in one block, bytes inside a memory file read the same. */
  lemma {:induction false} ReadCharArrayIsByteArray(r: Reader, len: nat)
    requires Available(r, len)
    ensures ReadCharArray(r, len) == ReadByteArray(r, len) || len == 0
    decreases len
  {
    if len > 0 {
      var one := ReadByteArray(r, 1);
      ReadByteArrayOfMemory(r, 1);
      var rest := ReadCharArray(one.reader, len - 1);
      assert ReadCharArray(r, len) == Got(rest.reader, one.bytes + rest.bytes, rest.ok);
      if len > 1 {
        ReadCharArrayIsByteArray(one.reader, len - 1);
        ByteArraysJoin(r, len);
      } else {
        ReadByteArrayOfMemory(r, len);
        assert rest == Got(one.reader, [], true);
      }
    }
  }

  /** Reading one byte and then len - 1 more from memory reads the same as len bytes at once. */
  lemma ByteArraysJoin(r: Reader, len: nat)
    requires Available(r, len) && len > 1
    ensures var one := ReadByteArray(r, 1); var rest := ReadByteArray(one.reader, len - 1);
      one.ok && Got(rest.reader, one.bytes + rest.bytes, rest.ok) == ReadByteArray(r, len)
  {
    var f := r.src.file;
    var c := f.Contents();
    ReadByteArrayOfMemory(r, 1);
    var one := ReadByteArray(r, 1);
    ReadByteArrayOfMemory(r, len);
    ReadByteArrayOfMemory(one.reader, len - 1);
    assert c[f.offset..f.offset + 1] + c[f.offset + 1..f.offset + len] == c[f.offset..f.offset + len];
  }

  /**
   * ReadLine: no file or a zero fail_len fails at once; otherwise bytes are read one at a time
   * (the position advancing per byte) until the delimiter, which is not stored. A failed or EOF
   * read fails, and so does reaching fail_len stored characters. The bytes gathered so far are
   * returned even on failure.
   */
  function ReadLine(r: Reader, delim: byte, failLen: nat): (g: Got)
    ensures !r.IsOpen() || failLen == 0 ==> g == Got(r, [], false)
    ensures g.ok ==> |g.bytes| < failLen && delim !in g.bytes
  {
    if !r.IsOpen() || failLen == 0 then Got(r, [], false)
    else ReadLineFrom(r, delim, failLen, [])
  }

  function ReadLineFrom(r: Reader, delim: byte, failLen: nat, acc: seq<byte>): (g: Got)
    requires r.IsOpen() && |acc| < failLen && delim !in acc
    ensures g.ok ==> |g.bytes| < failLen && delim !in g.bytes
    decreases failLen - |acc|
  {
    var one := ReadByteArray(r, 1);
    if !one.ok then Got(one.reader, acc, false)
    else
      ReadByteArrayDelivers(r, 1);
      var c := one.bytes[0];
      if c == delim then Got(one.reader, acc, true)
      else if |acc| + 1 == failLen then Got(one.reader, acc, false)
      else ReadLineFrom(one.reader, delim, failLen, acc + [c])
  }

  /**
   * A line followed by the delimiter inside a memory file is read back without the delimiter,
   * and the file and the position both end just past the delimiter.
   */
  lemma {:induction false} ReadLineOfMemory(r: Reader, delim: byte, failLen: nat, acc: seq<byte>, line: seq<byte>)
    requires r.src.Memory? && |acc| + |line| < failLen && delim !in acc && delim !in line
    requires var f := r.src.file;
             f.offset + |line| < f.Size() && f.Contents()[f.offset..f.offset + |line| + 1] == line + [delim]
    ensures var f := r.src.file;
            ReadLineFrom(r, delim, failLen, acc)
              == Got(Reader(Memory(f.(offset := f.offset + |line| + 1)), r.pos + |line| + 1), acc + line, true)
    decreases |line|
  {
    var f := r.src.file;
    var c := f.Contents();
    ReadByteArrayOfMemory(r, 1);
    var one := ReadByteArray(r, 1);
    assert one.bytes == c[f.offset..f.offset + 1];
    assert c[f.offset..f.offset + |line| + 1][0] == c[f.offset];
    if line == [] {
      assert acc + line == acc;
    } else {
      assert one.bytes[0] == line[0] != delim;
      var f1 := one.reader.src.file;
      assert c[f1.offset..f1.offset + |line[1..]| + 1] == line[1..] + [delim] by {
        assert c[f1.offset..f1.offset + |line[1..]| + 1] == c[f.offset..f.offset + |line| + 1][1..];
      }
      ReadLineOfMemory(one.reader, delim, failLen, acc + [line[0]], line[1..]);
      assert acc + [line[0]] + line[1..] == acc + line;
    }
  }

  // ---------------------------------------------------------------------------------------
  // Integers
  // ---------------------------------------------------------------------------------------

  /** An integer read: the reader afterwards, the value (0 when the read failed) and the verdict. */
  datatype GotInt = GotInt(reader: Reader, value: int, ok: bool)

  function ReadUint8(r: Reader): (g: GotInt)
    ensures g.reader == ReadByteArray(r, 1).reader && (g.ok <==> ReadByteArray(r, 1).ok)
    ensures g.ok ==> g.value == ReadByteArray(r, 1).bytes[0]
  {
    var b := ReadByteArray(r, 1);
    if b.ok then ReadByteArrayDelivers(r, 1); GotInt(b.reader, b.bytes[0], true) else GotInt(b.reader, 0, false)
  }

  /** ReadUINT16_LE: buf[1] << 8 | buf[0]. */
  function ReadUint16(r: Reader): (g: GotInt)
    ensures g.reader == ReadByteArray(r, 2).reader && (g.ok <==> ReadByteArray(r, 2).ok)
    ensures g.ok ==> 0 <= g.value < TWO16
  {
    var b := ReadByteArray(r, 2);
    if b.ok then ReadByteArrayDelivers(r, 2); GotInt(b.reader, U16(b.bytes), true) else GotInt(b.reader, 0, false)
  }

  /** ReadUINT32_LE: buf[3] << 24 | buf[2] << 16 | buf[1] << 8 | buf[0]. */
  function ReadUint32(r: Reader): (g: GotInt)
    ensures g.reader == ReadByteArray(r, 4).reader && (g.ok <==> ReadByteArray(r, 4).ok)
    ensures g.ok ==> 0 <= g.value < TWO32
  {
    var b := ReadByteArray(r, 4);
    if b.ok then ReadByteArrayDelivers(r, 4); GotInt(b.reader, U32(b.bytes), true) else GotInt(b.reader, 0, false)
  }

  /** A conversion to int16_t: the value modulo 2^16, read as two's complement. */
  function ToInt16(x: int): (r: int)
    ensures -0x8000 <= r < 0x8000 && (r - x) % TWO16 == 0
    ensures -0x8000 <= x < 0x8000 ==> r == x
  {
    Signed16(x % TWO16)
  }

  /** A conversion to int32_t: the value modulo 2^32, read as two's complement. */
  function ToInt32(x: int): (r: int)
    ensures -TWO31 <= r < TWO31 && (r - x) % TWO32 == 0
  {
    Signed32(x % TWO32)
  }

  /**
   * ReadINT16_LE's sign handling: with bit 15 set, -(int16_t)(~u) - 1, where ~ acts on the
   * int the 16-bit value is promoted to; otherwise (int16_t)u.
   */
  function SourceInt16(u: nat): (r: int)
    requires u < TWO16
  {
    if (u / 0x8000) % 2 == 1 then -ToInt16(-(u as int) - 1) - 1 else ToInt16(u)
  }

  /** ReadINT32_LE's sign handling: ~ stays in 32-bit unsigned arithmetic. */
  function SourceInt32(u: nat): (r: int)
    requires u < TWO32
  {
    if (u / TWO31) % 2 == 1 then -ToInt32(TWO32 - 1 - u) - 1 else ToInt32(u)
  }

  /** ReadINT16_LE's negation formula is two's complement. */
  lemma SourceInt16IsTwosComplement(u: nat)
    requires u < TWO16
    ensures SourceInt16(u) == Signed16(u)
  {
    if u >= 0x8000 {
      assert (-(u as int) - 1) % TWO16 == TWO16 - 1 - u;
    }
  }

  /** ReadINT32_LE's negation formula is two's complement. */
  lemma SourceInt32IsTwosComplement(u: nat)
    requires u < TWO32
    ensures SourceInt32(u) == Signed32(u)
  {
  }

  function ReadInt16(r: Reader): (g: GotInt)
    ensures g.reader == ReadUint16(r).reader && g.ok == ReadUint16(r).ok
    ensures g.ok ==> g.value == Signed16(ReadUint16(r).value)
  {
    var u := ReadUint16(r);
    if u.ok then SourceInt16IsTwosComplement(u.value); GotInt(u.reader, SourceInt16(u.value), true)
    else GotInt(u.reader, 0, false)
  }

  function ReadInt32(r: Reader): (g: GotInt)
    ensures g.reader == ReadUint32(r).reader && g.ok == ReadUint32(r).ok
    ensures g.ok ==> g.value == Signed32(ReadUint32(r).value)
  {
    var u := ReadUint32(r);
    if u.ok then SourceInt32IsTwosComplement(u.value); GotInt(u.reader, SourceInt32(u.value), true)
    else GotInt(u.reader, 0, false)
  }

  /** A 32-bit value stored little-endian in a memory file is read back. */
  lemma ReadUint32OfLe32(r: Reader, x: nat)
    requires Available(r, 4) && x < TWO32
    requires var f := r.src.file; f.Contents()[f.offset..f.offset + 4] == Le32(x)
    ensures ReadUint32(r).ok && ReadUint32(r).value == x && ReadUint32(r).reader.pos == r.pos + 4
  {
    ReadByteArrayOfMemory(r, 4);
  }

  /** A 16-bit value stored little-endian in a memory file is read back. */
  lemma ReadUint16OfLe16(r: Reader, x: nat)
    requires Available(r, 2) && x < TWO16
    requires var f := r.src.file; f.Contents()[f.offset..f.offset + 2] == Le16(x)
    ensures ReadUint16(r).ok && ReadUint16(r).value == x && ReadUint16(r).reader.pos == r.pos + 2
  {
    ReadByteArrayOfMemory(r, 2);
  }
}
