/**
 * The in-memory file cursors of the fsal library: the status flags, the read-only memory file,
 * the growable memory file and the sub-file window onto another file, plus the seek arithmetic
 * of the File wrapper. Files are values; every operation returns the updated file.
 */
module FsalFiles {
  import opened Wrappers
  import opened Bytes
  import Bfio

  const TWO64: int := 0x1_0000_0000_0000_0000

  // ---------------------------------------------------------------------------------------
  // Status
  // ---------------------------------------------------------------------------------------

  /** The two status bits: end of file (bit 0) and failure (bit 1). */
  datatype Status = Status(eof: bool, failed: bool) {
    /** ok() looks at the failure bit only. */
    predicate Ok() { !failed }
  }

  const OK: Status := Status(false, false)
  const EOF: Status := Status(true, false)
  const FAILED: Status := Status(false, true)

  /** Status(bool): true is plain success, false is failure. */
  function StatusOf(b: bool): (r: Status)
    ensures r.Ok() <==> b
    ensures !r.eof
  {
    if b then OK else FAILED
  }

  /** The bitwise or of two states. */
  function Or(a: Status, b: Status): (r: Status)
    ensures r.eof <==> a.eof || b.eof
    ensures r.Ok() <==> a.Ok() && b.Ok()
  {
    Status(a.eof || b.eof, a.failed || b.failed)
  }

  // ---------------------------------------------------------------------------------------
  // The cursor read shared by both memory files
  // ---------------------------------------------------------------------------------------

  /** What ReadData hands back: the bytes copied, the new offset and the status. */
  datatype Read = Read(bytes: seq<byte>, offset: nat, status: Status)

  /**
   * ReadData of a memory file of the given contents at the given offset: nothing and EOF at or
   * past the end; otherwise the available prefix of the request, EOF only if it was cut short.
   */
  function CursorRead(data: seq<byte>, offset: nat, n: nat): (r: Read)
    ensures r.status.Ok()
    ensures offset >= |data| ==> r == Read([], offset, EOF)
    ensures offset < |data| ==> r.offset == offset + |r.bytes|
    ensures offset < |data| ==> |r.bytes| == (if offset + n <= |data| then n else |data| - offset)
    ensures offset < |data| ==> r.bytes == data[offset..r.offset]
    ensures offset < |data| ==> (r.status.eof <==> offset + n > |data|)
  {
    if |data| <= offset then Read([], offset, EOF)
    else
      var count := if |data| < offset + n then |data| - offset else n;
      Read(data[offset..offset + count], offset + count, Status(|data| < offset + n, false))
  }

  /** Two reads that stay inside the data deliver what one read of both lengths delivers. */
  lemma CursorReadsCompose(data: seq<byte>, offset: nat, n: nat, m: nat)
    requires offset + n + m <= |data| && 0 < n && 0 < m
    ensures var r1 := CursorRead(data, offset, n);
            var r2 := CursorRead(data, r1.offset, m);
            var r := CursorRead(data, offset, n + m);
            r1.bytes + r2.bytes == r.bytes && r2.offset == r.offset && r2.status == r.status == OK
  {
    var r1 := CursorRead(data, offset, n);
    assert r1.offset == offset + n;
    assert data[offset..offset + n] + data[offset + n..offset + n + m] == data[offset..offset + n + m];
  }

  /** Reading the whole contents from the start yields them without EOF. */
  lemma CursorReadAll(data: seq<byte>)
    requires |data| > 0
    ensures CursorRead(data, 0, |data|) == Read(data, |data|, OK)
  {
    assert data[0..|data|] == data;
  }

  // ---------------------------------------------------------------------------------------
  // MemRefFileReadOnly
  // ---------------------------------------------------------------------------------------

  /** A read-only view of caller memory; None is the null data pointer (of size 0). */
  datatype ReadOnlyFile = ReadOnlyFile(data: Option<seq<byte>>, offset: nat) {
    /** ok(): the data pointer is set. */
    predicate Ok() { data.Some? }

    function Contents(): seq<byte> { if data.Some? then data.value else [] }

    function Size(): nat { |Contents()| }
  }

  /** ReadData: a cursor read at the file's offset; the offset moves by the bytes copied. */
  function ReadOnlyRead(f: ReadOnlyFile, n: nat): (r: (ReadOnlyFile, Read))
    ensures r.0.data == f.data && r.0.offset == r.1.offset
    ensures r.1 == CursorRead(f.Contents(), f.offset, n)
  {
    var rd := CursorRead(f.Contents(), f.offset, n);
    (f.(offset := rd.offset), rd)
  }

  /** WriteData and Open fail and leave the file as it is. */
  function ReadOnlyWrite(f: ReadOnlyFile, src: seq<byte>): (r: (ReadOnlyFile, Status))
    ensures r.0 == f && !r.1.Ok()
  {
    (f, StatusOf(false))
  }

  /** SetPosition accepts any position, including one past the end. */
  function ReadOnlySetPosition(f: ReadOnlyFile, position: nat): (r: (ReadOnlyFile, Status))
    ensures r.0.offset == position && r.0.data == f.data && r.1 == OK
  {
    (f.(offset := position), StatusOf(true))
  }

  /** Reading a read-only file never changes its contents or size, whatever the request. */
  lemma {:induction false} ReadOnlyReadsKeepContents(f: ReadOnlyFile, ns: seq<nat>)
    ensures ReadOnlyReads(f, ns).data == f.data
    ensures ReadOnlyReads(f, ns).Size() == f.Size()
    decreases |ns|
  {
    if ns != [] {
      ReadOnlyReadsKeepContents(ReadOnlyRead(f, ns[0]).0, ns[1..]);
    }
  }

  /** The file after a sequence of reads. */
  function ReadOnlyReads(f: ReadOnlyFile, ns: seq<nat>): ReadOnlyFile
    decreases |ns|
  {
    if ns == [] then f else ReadOnlyReads(ReadOnlyRead(f, ns[0]).0, ns[1..])
  }

  /** The offset never passes the end through reading alone, once it starts inside. */
  lemma {:induction false} ReadOnlyReadsStayInside(f: ReadOnlyFile, ns: seq<nat>)
    requires f.offset <= f.Size()
    ensures ReadOnlyReads(f, ns).offset <= f.Size()
    decreases |ns|
  {
    if ns != [] {
      ReadOnlyReadsStayInside(ReadOnlyRead(f, ns[0]).0, ns[1..]);
    }
  }

  // ---------------------------------------------------------------------------------------
  // MemRefFile
  // ---------------------------------------------------------------------------------------

  const MIN_SIZE: nat := 0x32

  /**
   * A memory file. buf is the allocation (its length the reserved size when the file owns it),
   * size the bytes in use, live that the data pointer is not null. Fresh allocations are
   * left uninitialised by MemRefFile's malloc and realloc, and zero here.
   */
  datatype MemRefFile = MemRefFile(buf: seq<byte>, reserved: nat, size: nat, offset: nat,
                                   owning: bool, live: bool)
  {
    predicate Valid() {
      live ==> size <= |buf| && (owning ==> |buf| == reserved)
    }

    predicate Ok() { live }

    function Contents(): seq<byte>
      requires Valid() && live
    {
      buf[..size]
    }
  }

  /** The default constructor: an owning file of size and capacity 0x32 at offset 0. */
  function NewMemRefFile(allocOk: bool): (r: MemRefFile)
    ensures r.Valid() && r.owning && r.live == allocOk
    ensures r.size == MIN_SIZE && r.reserved == MIN_SIZE && r.offset == 0
  {
    MemRefFile(Zeros(MIN_SIZE), MIN_SIZE, MIN_SIZE, 0, true, allocOk)
  }

  /**
   * The pointer constructor. With copy and data it owns a private copy of exactly the data's
   * size; without data it allocates size bytes (owning only if copy); with data and no copy
   * it refers to the caller's bytes.
   */
  function MemRefFileOf(data: Option<seq<byte>>, size: nat, copy: bool, allocOk: bool): (r: MemRefFile)
    requires data.Some? ==> |data.value| == size
    ensures r.Valid() && r.size == size && r.offset == 0
    ensures r.owning <==> copy
    ensures data.Some? && copy ==> r.reserved == size && (r.live ==> r.Contents() == data.value)
    ensures data.Some? && !copy ==> r.live && r.Contents() == data.value
  {
    match data
    case Some(d) =>
      if copy then MemRefFile(d, size, size, 0, true, allocOk)
      else MemRefFile(d, size, size, 0, false, true)
    case None => MemRefFile(Zeros(size), size, size, 0, copy, allocOk)
  }

  /** ReadData: the same cursor read as the read-only file, over the bytes in use. */
  function MemRefRead(f: MemRefFile, n: nat): (r: (MemRefFile, Read))
    requires f.Valid() && f.live
    ensures r.0 == f.(offset := r.1.offset)
    ensures r.1 == CursorRead(f.Contents(), f.offset, n)
  {
    var rd := CursorRead(f.Contents(), f.offset, n);
    (f.(offset := rd.offset), rd)
  }

  /**
   * Resize. A file that does not own its memory only reports whether it is already large
   * enough. An owning file that outgrows its capacity reallocates to the smallest power of two
   * above the new size (a failed reallocation nulls the pointer); either way the size becomes
   * the new size, and the call succeeds when the pointer is not null.
   */
  function MemRefResize(f: MemRefFile, newSize: nat, allocOk: bool): (r: (MemRefFile, bool))
    requires f.Valid()
    ensures r.0.Valid() && r.0.offset == f.offset && r.0.owning == f.owning
    ensures !f.owning ==> r.0 == f && (r.1 <==> f.size >= newSize)
    ensures f.owning ==> r.0.size == newSize && (r.1 <==> r.0.live)
    ensures f.owning && newSize <= f.reserved ==> r.0.reserved == f.reserved && r.0.live == f.live
    ensures f.owning && newSize > f.reserved ==> r.0.live == allocOk
    ensures f.owning && newSize > f.reserved ==> newSize < r.0.reserved && r.0.reserved == Bfio.RoundUpSize(newSize + 1)
    ensures f.live && r.0.live ==> forall i :: 0 <= i < f.size && i < newSize ==> r.0.buf[i] == f.buf[i]
  {
    if !f.owning then (f, f.size >= newSize)
    else if newSize > f.reserved then
      var newReserved := Bfio.RoundUpSize(newSize + 1);
      Bfio.RoundUpSizeBounds(newSize + 1);
      if !allocOk then (f.(reserved := newReserved, size := newSize, live := false), false)
      else
        var grown := if f.live then f.buf + Zeros(newReserved - |f.buf|) else Zeros(newReserved);
        (f.(buf := grown, reserved := newReserved, size := newSize, live := true), true)
    else
      (f.(size := newSize), f.live)
  }

  /**
   * WriteData: resize to offset + n, then copy and advance; a failed resize writes nothing.
   * For an owning file a successful write also sets the size to offset + n, so a write before
   * the end drops what followed it.
   */
  function MemRefWrite(f: MemRefFile, src: seq<byte>, allocOk: bool): (r: (MemRefFile, Status))
    requires f.Valid() && (f.live || f.owning)
    ensures r.0.Valid() && r.0.owning == f.owning
    ensures r.1.Ok() <==> MemRefResize(f, f.offset + |src|, allocOk).1
    ensures !r.1.Ok() ==> r.0 == MemRefResize(f, f.offset + |src|, allocOk).0
    ensures r.1.Ok() ==> r.0.live && r.0.offset == f.offset + |src| && r.0.offset <= r.0.size
    ensures r.1.Ok() ==> r.0.Contents()[f.offset..r.0.offset] == src
    ensures r.1.Ok() && f.live ==> forall i :: 0 <= i < f.offset && i < f.size ==> r.0.buf[i] == f.buf[i]
    ensures r.1.Ok() && f.owning ==> r.0.size == f.offset + |src|
    ensures r.1.Ok() && !f.owning ==> r.0.size == f.size
  {
    var (t, ok) := MemRefResize(f, f.offset + |src|, allocOk);
    if ok then
      var b := Bfio.Overwrite(t.buf, f.offset, src);
      (t.(buf := b, offset := f.offset + |src|), StatusOf(true))
    else (t, StatusOf(false))
  }

  /** SetPosition accepts any position. */
  function MemRefSetPosition(f: MemRefFile, position: nat): (r: (MemRefFile, Status))
    ensures r.0 == f.(offset := position) && r.1 == OK
  {
    (f.(offset := position), StatusOf(true))
  }

  /** What a successful write stored, a read from the same position gets back without EOF. */
  lemma MemRefWriteThenRead(f: MemRefFile, src: seq<byte>, allocOk: bool)
    requires f.Valid() && (f.live || f.owning) && |src| > 0
    requires MemRefWrite(f, src, allocOk).1.Ok()
    ensures var w := MemRefWrite(f, src, allocOk).0;
            MemRefRead(MemRefSetPosition(w, f.offset).0, |src|).1 == Read(src, f.offset + |src|, OK)
  {
    var w := MemRefWrite(f, src, allocOk).0;
    assert w.Contents()[f.offset..f.offset + |src|] == src;
  }

  /** Two successful appends to an owning file at its end leave both payloads in order. */
  lemma MemRefAppends(f: MemRefFile, a: seq<byte>, b: seq<byte>)
    requires f.Valid() && f.live && f.owning && f.offset == f.size
    ensures var (f1, s1) := MemRefWrite(f, a, true);
            var (f2, s2) := MemRefWrite(f1, b, true);
            s1.Ok() && s2.Ok() && f2.Contents() == f.Contents() + a + b
  {
    var (f1, _) := MemRefWrite(f, a, true);
    var (f2, _) := MemRefWrite(f1, b, true);
    assert f1.Contents() == f.Contents() + a by {
      assert f1.Contents()[..f.size] == f.Contents();
      assert f1.Contents() == f1.Contents()[..f.size] + f1.Contents()[f.size..];
    }
    assert f2.Contents()[..f1.size] == f1.Contents();
    assert f2.Contents() == f2.Contents()[..f1.size] + f2.Contents()[f1.size..];
  }

  // ---------------------------------------------------------------------------------------
  // SubFile
  // ---------------------------------------------------------------------------------------

  /**
   * A window of size bytes starting at start inside an underlying read-only memory file;
   * pointer is the position inside the window.
   */
  datatype SubFile = SubFile(under: ReadOnlyFile, size: nat, start: nat, pointer: nat)

  /**
   * The common part of ReadData: at or past the window's end nothing is read; otherwise the
   * underlying file is positioned at start + pointer and asked for what remains of the request
   * inside the window, and the pointer moves by what it delivered.
   */
  function SubFileFetch(f: SubFile, n: nat): (r: (SubFile, Read))
    requires f.pointer < f.size
    ensures r.1.status.Ok() && r.0.size == f.size && r.0.start == f.start
    ensures r.0.pointer == f.pointer + |r.1.bytes| <= f.size
    ensures r.1.offset == r.0.pointer
  {
    var want := (if f.pointer + n < f.size then f.pointer + n else f.size) - f.pointer;
    var (u, rd) := ReadOnlyRead(f.under.(offset := f.start + f.pointer), want);
    var p := f.pointer + |rd.bytes|;
    (SubFile(u, f.size, f.start, p), Read(rd.bytes, p, rd.status))
  }

  /**
   * ReadData as written: after the fetch it adds EOF when the ADVANCED pointer plus the
   * request exceeds the window, so a complete read that ends near the window's end reports EOF.
   */
  function SubFileReadAsWritten(f: SubFile, n: nat): (r: (SubFile, Read))
    ensures f.pointer >= f.size ==> r == (f, Read([], f.pointer, EOF))
    ensures f.pointer < f.size ==>
              && r.0 == SubFileFetch(f, n).0
              && r.1.bytes == SubFileFetch(f, n).1.bytes
              && (r.1.status.eof <==> SubFileFetch(f, n).1.status.eof || r.0.pointer + n > f.size)
  {
    if f.pointer >= f.size then (f, Read([], f.pointer, EOF))
    else
      var (g, rd) := SubFileFetch(f, n);
      (g, rd.(status := Or(rd.status, if g.pointer + n > f.size then EOF else OK)))
  }

  /** ReadData with the end-of-window test on the pointer before the read. */
  function SubFileRead(f: SubFile, n: nat): (r: (SubFile, Read))
    ensures f.pointer >= f.size ==> r == (f, Read([], f.pointer, EOF))
    ensures f.pointer < f.size ==>
              && r.0 == SubFileFetch(f, n).0
              && r.1.bytes == SubFileFetch(f, n).1.bytes
              && (r.1.status.eof <==> SubFileFetch(f, n).1.status.eof || f.pointer + n > f.size)
  {
    if f.pointer >= f.size then (f, Read([], f.pointer, EOF))
    else
      var (g, rd) := SubFileFetch(f, n);
      (g, rd.(status := Or(rd.status, if f.pointer + n > f.size then EOF else OK)))
  }

  /** The bytes of the window, when it lies inside the underlying file. */
  function Window(f: SubFile): seq<byte>
    requires f.start + f.size <= f.under.Size()
  {
    f.under.Contents()[f.start..f.start + f.size]
  }

  /**
   * The corrected sub-file behaves exactly like a read-only memory file holding the window's
   * bytes: same bytes, same new position, same status.
   */
  lemma SubFileIsWindow(f: SubFile, n: nat)
    requires f.start + f.size <= f.under.Size()
    ensures SubFileRead(f, n).1 == CursorRead(Window(f), f.pointer, n)
  {
    if f.pointer < f.size {
      FetchInWindow(f, n);
    }
  }

  /** Inside the window the fetch delivers the window's bytes and hits neither end nor failure. */
  lemma FetchInWindow(f: SubFile, n: nat)
    requires f.pointer < f.size && f.start + f.size <= f.under.Size()
    ensures var rd := SubFileFetch(f, n).1; var w := CursorRead(Window(f), f.pointer, n);
      rd.bytes == w.bytes && rd.offset == w.offset && rd.status == OK
  {
    var w := Window(f);
    var want := (if f.pointer + n < f.size then f.pointer + n else f.size) - f.pointer;
    var c := f.under.Contents();
    var at := f.start + f.pointer;
    assert at + want <= |c|;
    var rd := CursorRead(c, at, want);
    assert rd.bytes == c[at..at + want];
    assert c[at..at + want] == w[f.pointer..f.pointer + want];
  }

  /** The sub-file as written delivers the same bytes and position; only the EOF bit differs. */
  lemma SubFileAsWrittenBytes(f: SubFile, n: nat)
    ensures SubFileReadAsWritten(f, n).0 == SubFileRead(f, n).0
    ensures SubFileReadAsWritten(f, n).1.bytes == SubFileRead(f, n).1.bytes
    ensures SubFileReadAsWritten(f, n).1.status.Ok()
  {
  }

  /**
   * The discrepancy: an eight-byte window, pointer 2, a request for 4 bytes. All four bytes
   * arrive and the window has 2 more, yet the read as written reports EOF (6 + 4 > 8); the
   * corrected read does not.
   */
  lemma SubFileEofOnCompleteRead()
    ensures var f := SubFile(ReadOnlyFile(Some(Zeros(8)), 0), 8, 0, 2);
            |SubFileReadAsWritten(f, 4).1.bytes| == 4 && SubFileReadAsWritten(f, 4).1.status.eof
            && |SubFileRead(f, 4).1.bytes| == 4 && !SubFileRead(f, 4).1.status.eof
  {
    var f := SubFile(ReadOnlyFile(Some(Zeros(8)), 0), 8, 0, 2);
    var (g, rd) := SubFileFetch(f, 4);
    assert |rd.bytes| == 4 && g.pointer == 6;
  }

  /**
   * WriteData, with the underlying write's outcome as a parameter: at or past the window's end
   * it reports EOF; otherwise it writes what fits in the window, advances by that, and adds
   * Failed and EOF when the advanced pointer plus the request exceeds the window.
   */
  function SubFileWrite(f: SubFile, n: nat, underStatus: Status): (r: (SubFile, nat, Status))
    ensures f.pointer >= f.size ==> r == (f, 0, EOF)
    ensures f.pointer < f.size ==> r.1 == (if f.pointer + n <= f.size then n else f.size - f.pointer)
    ensures f.pointer < f.size ==> r.0 == f.(pointer := f.pointer + r.1)
    ensures f.pointer < f.size ==> (r.2.Ok() <==> underStatus.Ok() && r.0.pointer + n <= f.size)
    ensures f.pointer < f.size ==> (r.2.eof <==> underStatus.eof || r.0.pointer + n > f.size)
  {
    if f.pointer >= f.size then (f, 0, EOF)
    else
      var count := (if f.pointer + n < f.size then f.pointer + n else f.size) - f.pointer;
      var p := f.pointer + count;
      (f.(pointer := p), count, Or(underStatus, if p + n > f.size then Status(true, true) else OK))
  }

  /** SetPosition clamps to the window. */
  function SubFileSetPosition(f: SubFile, position: nat): (r: (SubFile, Status))
    ensures r.0.pointer <= f.size && r.1 == OK
    ensures r.0.pointer == position || (position > f.size && r.0.pointer == f.size)
    ensures r.0 == f.(pointer := r.0.pointer)
  {
    (f.(pointer := if position < f.size then position else f.size), StatusOf(true))
  }

  // ---------------------------------------------------------------------------------------
  // File::Seek
  // ---------------------------------------------------------------------------------------

  datatype Origin = Beginning | CurrentPosition | End

  /**
   * The position Seek passes to SetPosition: the offset taken from the start, the current
   * position or the size, in size_t arithmetic (modulo 2^64).
   */
  function SeekTarget(origin: Origin, position: nat, size: nat, offset: int): (r: nat)
    requires position < TWO64 && size < TWO64
    ensures r < TWO64
    ensures (r - offset - (match origin case Beginning => 0 case CurrentPosition => position case End => size)) % TWO64 == 0
  {
    var base := match origin case Beginning => 0 case CurrentPosition => position case End => size;
    (base + offset) % TWO64
  }

  /** Seeking by a relative offset and back lands where it started. */
  lemma SeekThereAndBack(position: nat, size: nat, offset: int)
    requires position < TWO64 && size < TWO64
    ensures SeekTarget(CurrentPosition, SeekTarget(CurrentPosition, position, size, offset), size, -offset) == position
  {
    var p1 := SeekTarget(CurrentPosition, position, size, offset);
    var p2 := SeekTarget(CurrentPosition, p1, size, -offset);
    assert (p2 - position) % TWO64 == 0;
  }
}
