/**
 * The entity lump of a BSP map: a text of entity blocks, each a `{` line, any number of
 * `"KEY" "VALUE"` lines and a `}` line, closed by one NUL character. The reader walks the
 * lump line by line and hands every closed block, as its list of key-value pairs, to the
 * entity parsers.
 *
 * The lump is read from an in-memory file: a character at a position inside the file is
 * always delivered, one past its end never is.
 */
module BspEntities {
  import opened Wrappers

  const MAX_ENTITY_KEY_LEN: nat := 32
  const MAX_ENTITY_VALUE_LEN: nat := 1024
  /** A key-value line: the key, the value, four quotes and one space. */
  const MAX_LINE_LEN: nat := MAX_ENTITY_KEY_LEN + MAX_ENTITY_VALUE_LEN + 5

  const NEWLINE: char := '\n'
  const QUOTE: char := '"'
  const NUL: char := '\0'
  const OPEN: char := '{'
  const CLOSE: char := '}'

  /** A line of exactly one character. */
  predicate IsSingle(line: string, c: char)
  {
    |line| == 1 && line[0] == c
  }

  function Min(a: nat, b: nat): nat {
    if a <= b then a else b
  }

  // ---------------------------------------------------------------------------------------
  // Lines
  // ---------------------------------------------------------------------------------------

  /**
   * ReadLine with delimiter '\n' from position p: the characters before the next newline,
   * which is consumed but not returned. Reading past the end of the file fails, and so does a
   * line that reaches failLen characters.
   */
  function LineAt(data: string, p: nat, failLen: nat): (r: Option<string>)
    ensures r.Some? ==> |r.value| < failLen && p + |r.value| < |data|
    decreases |data| - p
  {
    if failLen == 0 || p >= |data| then None
    else if data[p] == NEWLINE then Some([])
    else if failLen == 1 then None
    else match LineAt(data, p + 1, failLen - 1)
      case None => None
      case Some(l) => Some([data[p]] + l)
  }

  /** A line read is the newline-free run of the file in front of the newline that ends it. */
  lemma {:induction false} LineAtIsRun(data: string, p: nat, failLen: nat)
    requires LineAt(data, p, failLen).Some?
    ensures var l := LineAt(data, p, failLen).value;
      data[p..p + |l|] == l && data[p + |l|] == NEWLINE && NEWLINE !in l
    decreases |data| - p
  {
    var l := LineAt(data, p, failLen).value;
    if data[p] != NEWLINE {
      LineAtIsRun(data, p + 1, failLen - 1);
      var t := LineAt(data, p + 1, failLen - 1).value;
      assert l == [data[p]] + t;
      assert data[p..p + |l|] == [data[p]] + data[p + 1..p + 1 + |t|];
    }
  }

  /** A newline-free run followed by a newline, shorter than failLen, is read back as the line. */
  lemma {:induction false} LineAtReads(data: string, p: nat, failLen: nat, l: string)
    requires p + |l| < |data| && data[p..p + |l|] == l && data[p + |l|] == NEWLINE
    requires NEWLINE !in l && |l| < failLen
    ensures LineAt(data, p, failLen) == Some(l)
    decreases |l|
  {
    if l != [] {
      assert data[p] == l[0];
      assert data[p + 1..p + 1 + |l[1..]|] == l[1..];
      LineAtReads(data, p + 1, failLen - 1, l[1..]);
      assert [data[p]] + l[1..] == l;
    }
  }

  // ---------------------------------------------------------------------------------------
  // Key-value lines
  // ---------------------------------------------------------------------------------------

  datatype KeyValue = KeyValue(key: string, value: string)

  /**
   * The end of the key: the first quote at or after index i, searched up to index |line|-4;
   * |line|-3 when there is none.
   */
  function KeyEnd(line: string, i: nat): (r: nat)
    requires 1 <= i <= |line| - 3
    ensures i <= r <= |line| - 3
    ensures forall j :: i <= j < r ==> line[j] != QUOTE
    ensures r <= |line| - 4 ==> line[r] == QUOTE
    decreases |line| - i
  {
    if i > |line| - 4 || line[i] == QUOTE then i else KeyEnd(line, i + 1)
  }

  /**
   * A `"KEY" "VALUE"` line: at least five characters, quotes at both ends, a non-empty key
   * ending at the first quote (no later than four characters before the end), then a space
   * and a quote; the value is everything up to the final quote.
   */
  function ParseKeyValue(line: string): (r: Option<KeyValue>)
  {
    if |line| < 5 || line[0] != QUOTE || line[|line| - 1] != QUOTE then None
    else
      var e := KeyEnd(line, 1);
      if e == 1 || e > |line| - 4 then None
      else if line[e + 1] != ' ' || line[e + 2] != QUOTE then None
      else Some(KeyValue(line[1..e], line[e + 3..|line| - 1]))
  }

  /** The text of a key-value line. */
  function KeyValueLine(kv: KeyValue): string
  {
    [QUOTE] + kv.key + [QUOTE, ' ', QUOTE] + kv.value + [QUOTE]
  }

  /** A key the line grammar can carry: non-empty, without quotes. */
  predicate KeyOk(key: string)
  {
    key != [] && QUOTE !in key
  }

  /** Writing a key-value line and parsing it gives the pair back. */
  lemma KeyValueRoundTrip(kv: KeyValue)
    requires KeyOk(kv.key)
    ensures ParseKeyValue(KeyValueLine(kv)) == Some(kv)
  {
    var line := KeyValueLine(kv);
    var n := |kv.key|;
    assert line[n + 1] == QUOTE;
    assert forall j :: 1 <= j < n + 1 ==> line[j] == kv.key[j - 1];
    assert KeyEnd(line, 1) == n + 1 by {
      KeyEndFinds(line, 1, n + 1);
    }
    assert line[1..n + 1] == kv.key;
    assert line[n + 4..|line| - 1] == kv.value;
  }

  /** The key search stops at the first quote at or after i when one lies in range. */
  lemma {:induction false} KeyEndFinds(line: string, i: nat, e: nat)
    requires 1 <= i <= e <= |line| - 4
    requires line[e] == QUOTE && forall j :: i <= j < e ==> line[j] != QUOTE
    ensures KeyEnd(line, i) == e
    decreases e - i
  {
    if i < e {
      KeyEndFinds(line, i + 1, e);
    }
  }

  /** Every line the parser accepts is the text of the pair it yields, with a valid key. */
  lemma KeyValueParsedIsLine(line: string)
    requires ParseKeyValue(line).Some?
    ensures KeyOk(ParseKeyValue(line).value.key)
    ensures KeyValueLine(ParseKeyValue(line).value) == line
  {
    var kv := ParseKeyValue(line).value;
    var e := KeyEnd(line, 1);
    assert kv.key == line[1..e];
    assert forall j :: 0 <= j < |kv.key| ==> kv.key[j] == line[j + 1];
    assert KeyValueLine(kv) == line[..1] + line[1..e] + line[e..e + 3] + line[e + 3..|line| - 1] + line[|line| - 1..];
    assert line == line[..1] + line[1..e] + line[e..e + 3] + line[e + 3..|line| - 1] + line[|line| - 1..];
  }

  // ---------------------------------------------------------------------------------------
  // The line grammar of the lump
  // ---------------------------------------------------------------------------------------

  /** Between blocks (looking for `{`), or inside one with the pairs read so far. */
  datatype Scan = Looking | InEntity(kvs: seq<KeyValue>)

  /** The step the reader takes on one line, in the state it is in. */
  datatype Step = Fail | Open | Close(kvs: seq<KeyValue>) | Add(kvs: seq<KeyValue>)

  function LineStep(scan: Scan, line: string): (r: Step)
    ensures r.Open? <==> scan.Looking? && IsSingle(line, OPEN)
    ensures r.Close? <==> scan.InEntity? && IsSingle(line, CLOSE)
    ensures r.Close? ==> r.kvs == scan.kvs
  {
    match scan
    case Looking => if IsSingle(line, OPEN) then Open else Fail
    case InEntity(kvs) =>
      if IsSingle(line, CLOSE) then Close(kvs)
      else match ParseKeyValue(line)
        case None => Fail
        case Some(kv) => Add(kvs + [kv])
  }

  /**
   * The characters left in the lump decide what comes next: none or two is an error, one must
   * be the NUL terminator, and otherwise a line of at most min(MAX_LINE_LEN, remaining - 2)
   * characters is read. With requireClosed the terminator is only accepted between blocks.
   */
  function NextLine(data: string, end: nat, p: nat): (r: Option<string>)
    requires p + 2 < end
    ensures r.Some? ==> p + |r.value| + 1 < end && |r.value| <= MAX_LINE_LEN
    ensures r == LineAt(data, p, Min(MAX_LINE_LEN, end - p - 2) + 1)
  {
    LineAt(data, p, Min(MAX_LINE_LEN, end - p - 2) + 1)
  }

  predicate Terminated(data: string, p: nat)
  {
    p < |data| && data[p] == NUL
  }

  /**
   * The closed blocks of the lump, in order, from position p up to the lump end. With
   * requireClosed false this is the reader as written: it accepts the terminator even inside
   * an open block, whose pairs are then dropped.
   */
  function EntityBlocksWith(requireClosed: bool, data: string, end: nat, p: nat, scan: Scan): (r: Option<seq<seq<KeyValue>>>)
    requires p <= end
    decreases end - p, 0
  {
    var remaining := end - p;
    if remaining == 0 || remaining == 2 then None
    else if remaining == 1 then AtTerminator(requireClosed, data, p, scan)
    else
      match NextLine(data, end, p)
      case None => None
      case Some(line) => AfterLine(requireClosed, data, end, p + |line| + 1, LineStep(scan, line))
  }

  /** Carrying on from position q after a line, by the step that line made. */
  function AfterLine(requireClosed: bool, data: string, end: nat, q: nat, step: Step): (r: Option<seq<seq<KeyValue>>>)
    requires q <= end
    decreases end - q, 1
  {
    match step
    case Fail => None
    case Open => EntityBlocksWith(requireClosed, data, end, q, InEntity([]))
    case Add(kvs) => EntityBlocksWith(requireClosed, data, end, q, InEntity(kvs))
    case Close(kvs) => Prepend(kvs, EntityBlocksWith(requireClosed, data, end, q, Looking))
  }

  /** A closed block in front of the blocks read after it, if those were read. */
  function Prepend(kvs: seq<KeyValue>, rest: Option<seq<seq<KeyValue>>>): (r: Option<seq<seq<KeyValue>>>)
  {
    match rest
    case None => None
    case Some(blocks) => Some([kvs] + blocks)
  }

  /** With one character left: the NUL terminator ends the lump, with no further block. */
  function AtTerminator(requireClosed: bool, data: string, p: nat, scan: Scan): (r: Option<seq<seq<KeyValue>>>)
  {
    if requireClosed && scan.InEntity? then None
    else if Terminated(data, p) then Some([])
    else None
  }

  /** The lump reader as written. */
  function EntityBlocksAsWritten(data: string, end: nat, p: nat, scan: Scan): (r: Option<seq<seq<KeyValue>>>)
    requires p <= end
    ensures p == end ==> r == None
    ensures EntityBlocks(data, end, p, scan).Some? ==> r == EntityBlocks(data, end, p, scan)
  {
    StrictAgrees(data, end, p, scan);
    EntityBlocksWith(false, data, end, p, scan)
  }

  /** The lump reader that also rejects a block still open at the terminator. */
  function EntityBlocks(data: string, end: nat, p: nat, scan: Scan): Option<seq<seq<KeyValue>>>
    requires p <= end
  {
    EntityBlocksWith(true, data, end, p, scan)
  }

  /** The reader as written accepts `{` and then the terminator, and reports no block. */
  lemma UnclosedBlockAccepted()
    ensures EntityBlocksAsWritten("{\n\0", 3, 0, Looking) == Some([])
    ensures EntityBlocks("{\n\0", 3, 0, Looking) == None
  {
    assert NextLine("{\n\0", 3, 0) == Some("{") by {
      LineAtReads("{\n\0", 0, 2, "{");
    }
  }

  /** A lump of zero length, or one whose last character is not NUL, is rejected. */
  lemma EmptyLumpRejected(requireClosed: bool, data: string, p: nat)
    ensures EntityBlocksWith(requireClosed, data, p, p, Looking) == None
  {
  }

  // ---------------------------------------------------------------------------------------
  // Writing a lump, and reading it back
  // ---------------------------------------------------------------------------------------

  /** A pair the line grammar can carry: a valid key, no newline, and a short enough line. */
  predicate PairOk(kv: KeyValue)
  {
    && KeyOk(kv.key)
    && NEWLINE !in kv.key && NEWLINE !in kv.value
    && |kv.key| + |kv.value| + 5 <= MAX_LINE_LEN
  }

  predicate BlocksOk(blocks: seq<seq<KeyValue>>)
  {
    forall b, i :: 0 <= b < |blocks| && 0 <= i < |blocks[b]| ==> PairOk(blocks[b][i])
  }

  function PairsText(kvs: seq<KeyValue>): string
  {
    if kvs == [] then [] else KeyValueLine(kvs[0]) + [NEWLINE] + PairsText(kvs[1..])
  }

  function BlockText(kvs: seq<KeyValue>): string
  {
    [OPEN, NEWLINE] + PairsText(kvs) + [CLOSE, NEWLINE]
  }

  function BlocksText(blocks: seq<seq<KeyValue>>): string
  {
    if blocks == [] then [] else BlockText(blocks[0]) + BlocksText(blocks[1..])
  }

  /** The lump text of a list of blocks: the blocks, then the terminator. */
  function LumpText(blocks: seq<seq<KeyValue>>): string
  {
    BlocksText(blocks) + [NUL]
  }

  /** A window data[p..end] that spells a + b spells a first, then b. */
  /** Moving the first element of s to the end of a keeps a + s. */
  lemma AppendFirst<T>(a: seq<T>, s: seq<T>)
    requires s != []
    ensures a + [s[0]] + s[1..] == a + s
  {
    assert s == [s[0]] + s[1..];
  }

  lemma Split<T>(data: seq<T>, p: nat, end: nat, a: seq<T>, b: seq<T>)
    requires p <= end <= |data| && data[p..end] == a + b
    ensures p + |a| <= end && data[p..p + |a|] == a && data[p + |a|..end] == b
  {
    assert data[p..p + |a|] == data[p..end][..|a|];
    assert data[p + |a|..end] == data[p..end][|a|..];
  }

  /** Reading a single line the window starts with. */
  lemma ReadsLine(data: string, end: nat, p: nat, line: string, rest: string)
    requires p <= end <= |data| && data[p..end] == line + [NEWLINE] + rest
    requires NEWLINE !in line && |line| <= MAX_LINE_LEN && |rest| >= 1 && p + 2 < end
    ensures NextLine(data, end, p) == Some(line)
    ensures data[p + |line| + 1..end] == rest
  {
    Split(data, p, end, line + [NEWLINE], rest);
    Split(data, p, p + |line| + 1, line, [NEWLINE]);
    LineAtReads(data, p, Min(MAX_LINE_LEN, end - p - 2) + 1, line);
  }

  /** With at least three characters left, the reader reads one line and carries on after it. */
  lemma StepOnLine(requireClosed: bool, data: string, end: nat, p: nat, scan: Scan, line: string)
    requires p + 2 < end && NextLine(data, end, p) == Some(line)
    ensures EntityBlocksWith(requireClosed, data, end, p, scan)
      == AfterLine(requireClosed, data, end, p + |line| + 1, LineStep(scan, line))
  {
    var remaining := end - p;
    assert remaining != 0 && remaining != 1 && remaining != 2;
  }

  /** Reading a `{` line between blocks opens an empty block. */
  lemma StepOpen(requireClosed: bool, data: string, end: nat, p: nat, rest: string)
    requires p <= end <= |data| && data[p..end] == [OPEN, NEWLINE] + rest && |rest| >= 1
    ensures data[p + 2..end] == rest
    ensures EntityBlocksWith(requireClosed, data, end, p, Looking) == EntityBlocksWith(requireClosed, data, end, p + 2, InEntity([]))
  {
    assert data[p..end] == [OPEN] + [NEWLINE] + rest;
    ReadsLine(data, end, p, [OPEN], rest);
    StepOnLine(requireClosed, data, end, p, Looking, [OPEN]);
  }

  /** Reading a `}` line inside a block closes it. */
  lemma StepClose(requireClosed: bool, data: string, end: nat, p: nat, acc: seq<KeyValue>, rest: string)
    requires p <= end <= |data| && data[p..end] == [CLOSE, NEWLINE] + rest && |rest| >= 1
    ensures data[p + 2..end] == rest
    ensures EntityBlocksWith(requireClosed, data, end, p, InEntity(acc))
      == Prepend(acc, EntityBlocksWith(requireClosed, data, end, p + 2, Looking))
  {
    assert data[p..end] == [CLOSE] + [NEWLINE] + rest;
    ReadsLine(data, end, p, [CLOSE], rest);
    StepOnLine(requireClosed, data, end, p, InEntity(acc), [CLOSE]);
  }

  /** Reading the line of a pair inside a block adds the pair. */
  lemma StepPair(requireClosed: bool, data: string, end: nat, p: nat, acc: seq<KeyValue>, kv: KeyValue, rest: string)
    requires p <= end <= |data| && data[p..end] == KeyValueLine(kv) + [NEWLINE] + rest && |rest| >= 1
    requires PairOk(kv)
    ensures data[p + |KeyValueLine(kv)| + 1..end] == rest
    ensures EntityBlocksWith(requireClosed, data, end, p, InEntity(acc))
      == EntityBlocksWith(requireClosed, data, end, p + |KeyValueLine(kv)| + 1, InEntity(acc + [kv]))
  {
    var line := KeyValueLine(kv);
    assert NEWLINE !in line by {
      assert forall i :: 0 <= i < |line| ==> (line[i] == QUOTE || line[i] == ' ' || line[i] in kv.key || line[i] in kv.value);
    }
    ReadsLine(data, end, p, line, rest);
    KeyValueRoundTrip(kv);
    StepOnLine(requireClosed, data, end, p, InEntity(acc), line);
    assert LineStep(InEntity(acc), line) == Add(acc + [kv]);
  }

  /** Reading the pairs of an open block and its closing line, then the blocks after it. */
  lemma {:induction false} PairsReadBack(requireClosed: bool, data: string, end: nat, p: nat, acc: seq<KeyValue>,
                                         kvs: seq<KeyValue>, blocks: seq<seq<KeyValue>>)
    requires p <= end <= |data| && data[p..end] == PairsText(kvs) + [CLOSE, NEWLINE] + LumpText(blocks)
    requires forall i :: 0 <= i < |kvs| ==> PairOk(kvs[i])
    requires BlocksOk(blocks)
    ensures EntityBlocksWith(requireClosed, data, end, p, InEntity(acc)) == Some([acc + kvs] + blocks)
    decreases end - p
  {
    if kvs == [] {
      assert data[p..end] == [CLOSE, NEWLINE] + LumpText(blocks);
      StepClose(requireClosed, data, end, p, acc, LumpText(blocks));
      BlocksReadBack(requireClosed, data, end, p + 2, blocks);
      assert acc + kvs == acc;
      assert EntityBlocksWith(requireClosed, data, end, p, InEntity(acc)) == Some([acc + kvs] + blocks);
    } else {
      var rest := PairsText(kvs[1..]) + [CLOSE, NEWLINE] + LumpText(blocks);
      var q := p + |KeyValueLine(kvs[0])| + 1;
      assert PairOk(kvs[0]);
      assert data[p..end] == KeyValueLine(kvs[0]) + [NEWLINE] + rest by {
        PairsTextSplit(data[p..end], kvs, LumpText(blocks));
      }
      StepPair(requireClosed, data, end, p, acc, kvs[0], rest);
      assert forall i :: 0 <= i < |kvs[1..]| ==> PairOk(kvs[1..][i]);
      PairsReadBack(requireClosed, data, end, q, acc + [kvs[0]], kvs[1..], blocks);
      AppendFirst(acc, kvs);
      assert EntityBlocksWith(requireClosed, data, end, p, InEntity(acc)) == Some([acc + kvs] + blocks);
    }
  }

  /** Reading the blocks of a written lump from between two blocks. */
  lemma {:induction false} BlocksReadBack(requireClosed: bool, data: string, end: nat, p: nat, blocks: seq<seq<KeyValue>>)
    requires p <= end <= |data| && data[p..end] == LumpText(blocks)
    requires BlocksOk(blocks)
    ensures EntityBlocksWith(requireClosed, data, end, p, Looking) == Some(blocks)
    decreases end - p
  {
    if blocks == [] {
      assert data[p..end] == [NUL];
      assert end - p == 1 && data[p] == NUL;
    } else {
      var rest := PairsText(blocks[0]) + [CLOSE, NEWLINE] + LumpText(blocks[1..]);
      assert data[p + 2..end] == rest && EntityBlocksWith(requireClosed, data, end, p, Looking)
        == EntityBlocksWith(requireClosed, data, end, p + 2, InEntity([])) by {
        LumpTextCons(blocks);
        StepOpen(requireClosed, data, end, p, rest);
      }
      assert BlocksOk(blocks[1..]) && forall i :: 0 <= i < |blocks[0]| ==> PairOk(blocks[0][i]) by {
        assert forall b :: 0 <= b < |blocks[1..]| ==> blocks[1..][b] == blocks[b + 1];
      }
      PairsReadBack(requireClosed, data, end, p + 2, [], blocks[0], blocks[1..]);
      assert [] + blocks[0] == blocks[0] && [blocks[0]] + blocks[1..] == blocks;
      assert EntityBlocksWith(requireClosed, data, end, p, Looking) == Some(blocks);
    }
  }

  /** A written lump is read back block for block, by either reader. */
  lemma LumpRoundTrip(requireClosed: bool, blocks: seq<seq<KeyValue>>)
    requires BlocksOk(blocks)
    ensures EntityBlocksWith(requireClosed, LumpText(blocks), |LumpText(blocks)|, 0, Looking) == Some(blocks)
  {
    var t := LumpText(blocks);
    assert t[0..|t|] == t;
    BlocksReadBack(requireClosed, t, |t|, 0, blocks);
  }

  /** Every pair of a parsed key-value line can be written back. */
  lemma ParsedPairOk(line: string)
    requires ParseKeyValue(line).Some? && NEWLINE !in line && |line| <= MAX_LINE_LEN
    ensures PairOk(ParseKeyValue(line).value)
  {
    var kv := ParseKeyValue(line).value;
    KeyValueParsedIsLine(line);
    assert KeyValueLine(kv)[1..|kv.key| + 1] == kv.key;
    assert KeyValueLine(kv)[|kv.key| + 4..|KeyValueLine(kv)| - 1] == kv.value;
  }

  /** The line a successful step read, and what follows it. */
  lemma LineThenRest(data: string, end: nat, p: nat, line: string)
    requires p + 2 < end && NextLine(data, end, p) == Some(line) && end <= |data|
    ensures data[p..end] == line + [NEWLINE] + data[p + |line| + 1..end]
    ensures NEWLINE !in line
  {
    LineAtIsRun(data, p, Min(MAX_LINE_LEN, end - p - 2) + 1);
    assert data[p..end] == data[p..p + |line|] + [data[p + |line|]] + data[p + |line| + 1..end];
  }

  /** A written lump with at least one block starts with the first block's `{` line. */
  lemma LumpTextCons(bs: seq<seq<KeyValue>>)
    requires bs != []
    ensures LumpText(bs) == [OPEN, NEWLINE] + (PairsText(bs[0]) + [CLOSE, NEWLINE] + LumpText(bs[1..]))
  {
  }

  /** The pairs of a block after its first pair. */
  lemma PairsTextCons(kvs: seq<KeyValue>)
    requires kvs != []
    ensures PairsText(kvs) + [CLOSE, NEWLINE] == KeyValueLine(kvs[0]) + [NEWLINE] + (PairsText(kvs[1..]) + [CLOSE, NEWLINE])
  {
  }

  /** A written run of pairs with its closing line, followed by tail, starts with the first pair's line. */
  lemma PairsTextSplit(t: string, kvs: seq<KeyValue>, tail: string)
    requires kvs != [] && t == PairsText(kvs) + [CLOSE, NEWLINE] + tail
    ensures t == KeyValueLine(kvs[0]) + [NEWLINE] + (PairsText(kvs[1..]) + [CLOSE, NEWLINE] + tail)
  {
    PairsTextCons(kvs);
    var head := KeyValueLine(kvs[0]) + [NEWLINE];
    calc {
      t;
      (PairsText(kvs) + [CLOSE, NEWLINE]) + tail;
      (head + (PairsText(kvs[1..]) + [CLOSE, NEWLINE])) + tail;
      head + ((PairsText(kvs[1..]) + [CLOSE, NEWLINE]) + tail);
    }
  }

  lemma BlocksOkCons(bs: seq<seq<KeyValue>>)
    requires bs != [] && (forall i :: 0 <= i < |bs[0]| ==> PairOk(bs[0][i])) && BlocksOk(bs[1..])
    ensures BlocksOk(bs)
  {
    forall b, i | 0 <= b < |bs| && 0 <= i < |bs[b]|
      ensures PairOk(bs[b][i])
    {
      if b > 0 {
        assert bs[b] == bs[1..][b - 1];
      }
    }
  }

  /** Between blocks, the strict reader only carries on after a `{` line. */
  lemma OpenSound(data: string, end: nat, p: nat)
    requires p + 2 < end && EntityBlocks(data, end, p, Looking).Some?
    ensures NextLine(data, end, p) == Some([OPEN])
    ensures EntityBlocks(data, end, p, Looking) == EntityBlocks(data, end, p + 2, InEntity([]))
  {
    var line := NextLine(data, end, p).value;
    StepOnLine(true, data, end, p, Looking, line);
    assert line == [OPEN];
  }

  /** Inside a block, the strict reader carries on after a `}` line or the line of a pair. */
  lemma InBlockSound(data: string, end: nat, p: nat, acc: seq<KeyValue>)
    requires p + 2 < end && EntityBlocks(data, end, p, InEntity(acc)).Some?
    ensures NextLine(data, end, p).Some?
    ensures var line := NextLine(data, end, p).value;
      if IsSingle(line, CLOSE) then
        && line == [CLOSE]
        && EntityBlocks(data, end, p, InEntity(acc)) == Prepend(acc, EntityBlocks(data, end, p + 2, Looking))
      else
        && ParseKeyValue(line).Some?
        && EntityBlocks(data, end, p, InEntity(acc))
          == EntityBlocks(data, end, p + |line| + 1, InEntity(acc + [ParseKeyValue(line).value]))
  {
    var line := NextLine(data, end, p).value;
    StepOnLine(true, data, end, p, InEntity(acc), line);
  }

  /**
   * The window data[p..end] holds the rest of an open block whose pairs so far are acc, then
   * a written lump; bs are the blocks it reads as, the first of them being the open one.
   */
  predicate OpenBlockRead(data: string, end: nat, p: nat, acc: seq<KeyValue>, bs: seq<seq<KeyValue>>)
  {
    && p <= end <= |data| && |bs| >= 1 && |acc| <= |bs[0]| && bs[0][..|acc|] == acc
    && (forall i :: |acc| <= i < |bs[0]| ==> PairOk(bs[0][i]))
    && BlocksOk(bs[1..])
    && data[p..end] == PairsText(bs[0][|acc|..]) + [CLOSE, NEWLINE] + LumpText(bs[1..])
  }

  /** The window data[p..end] is the written lump of the blocks bs. */
  predicate LumpRead(data: string, end: nat, p: nat, bs: seq<seq<KeyValue>>)
  {
    p <= end <= |data| && BlocksOk(bs) && data[p..end] == LumpText(bs)
  }

  /** A `}` line in front of a written lump closes the open block. */
  lemma CloseStepSound(data: string, end: nat, p: nat, acc: seq<KeyValue>, rest: seq<seq<KeyValue>>)
    requires p + 2 < end && NextLine(data, end, p) == Some([CLOSE]) && LumpRead(data, end, p + 2, rest)
    ensures OpenBlockRead(data, end, p, acc, [acc] + rest)
  {
    var bs := [acc] + rest;
    assert bs[1..] == rest;
    assert bs[0][|acc|..] == [];
    LineThenRest(data, end, p, [CLOSE]);
  }

  /** The pair after the first |acc| pairs of a block whose first |acc| + 1 pairs are acc + [kv]. */
  lemma PrefixStep(block: seq<KeyValue>, acc: seq<KeyValue>, kv: KeyValue)
    requires |acc| + 1 <= |block| && block[..|acc| + 1] == acc + [kv]
    ensures block[..|acc|] == acc && block[|acc|..][0] == kv && block[|acc|..][1..] == block[|acc| + 1..]
  {
    assert block[..|acc|] == block[..|acc| + 1][..|acc|];
    assert block[|acc|] == block[..|acc| + 1][|acc|];
  }

  /** A parsed pair line is the written line of a pair that can be written back. */
  lemma PairLineSound(data: string, end: nat, p: nat, line: string, kv: KeyValue)
    requires p + 2 < end <= |data| && NextLine(data, end, p) == Some(line) && ParseKeyValue(line) == Some(kv)
    ensures PairOk(kv) && line == KeyValueLine(kv)
    ensures data[p..end] == line + [NEWLINE] + data[p + |line| + 1..end]
  {
    LineThenRest(data, end, p, line);
    KeyValueParsedIsLine(line);
    ParsedPairOk(line);
  }

  /** The line of a pair in front of the rest of an open block adds the pair to it. */
  lemma PairStepSound(data: string, end: nat, p: nat, acc: seq<KeyValue>, line: string, kv: KeyValue,
                      bs: seq<seq<KeyValue>>)
    requires p + 2 < end && NextLine(data, end, p) == Some(line) && ParseKeyValue(line) == Some(kv)
    requires OpenBlockRead(data, end, p + |line| + 1, acc + [kv], bs)
    ensures OpenBlockRead(data, end, p, acc, bs)
  {
    PrefixStep(bs[0], acc, kv);
    PairLineSound(data, end, p, line, kv);
    var after := bs[0][|acc|..];
    PairTextStep(data, end, p, p + |line| + 1, after, LumpText(bs[1..]));
  }

  /** A `{` line in front of an open block's rest is a written lump. */
  lemma OpenStepSound(data: string, end: nat, p: nat, bs: seq<seq<KeyValue>>)
    requires p + 2 < end && NextLine(data, end, p) == Some([OPEN]) && OpenBlockRead(data, end, p + 2, [], bs)
    ensures LumpRead(data, end, p, bs)
  {
    assert bs[0][0..] == bs[0];
    assert data[p..end] == [OPEN, NEWLINE] + data[p + 2..end] by {
      LineThenRest(data, end, p, [OPEN]);
    }
    LumpTextCons(bs);
    BlocksOkCons(bs);
  }

  /**
   * What the strict reader accepts from inside an open block: the rest of that block's pairs,
   * its closing line and a written lump, all of them pairs that can be written back.
   */
  lemma {:induction false} PairsSound(data: string, end: nat, p: nat, acc: seq<KeyValue>)
    requires p <= end && EntityBlocks(data, end, p, InEntity(acc)).Some?
    ensures OpenBlockRead(data, end, p, acc, EntityBlocks(data, end, p, InEntity(acc)).value)
    decreases end - p
  {
    InBlockSound(data, end, p, acc);
    var line := NextLine(data, end, p).value;
    var q := p + |line| + 1;
    if IsSingle(line, CLOSE) {
      BlocksSound(data, end, q);
      CloseStepSound(data, end, p, acc, EntityBlocks(data, end, q, Looking).value);
    } else {
      var kv := ParseKeyValue(line).value;
      PairsSound(data, end, q, acc + [kv]);
      PairStepSound(data, end, p, acc, line, kv, EntityBlocks(data, end, q, InEntity(acc + [kv])).value);
    }
  }

  /** The window of a block's pairs is the first pair's line, then the window of the rest. */
  lemma PairTextStep(data: string, end: nat, p: nat, q: nat, after: seq<KeyValue>, tail: string)
    requires after != [] && q == p + |KeyValueLine(after[0])| + 1 && p <= q <= end <= |data|
    requires data[p..end] == KeyValueLine(after[0]) + [NEWLINE] + data[q..end]
    requires data[q..end] == PairsText(after[1..]) + [CLOSE, NEWLINE] + tail
    ensures data[p..end] == PairsText(after) + [CLOSE, NEWLINE] + tail
  {
    PairsTextCons(after);
  }

  /** What the strict reader accepts from between two blocks is a written lump. */
  lemma {:induction false} BlocksSound(data: string, end: nat, p: nat)
    requires p <= end && EntityBlocks(data, end, p, Looking).Some?
    ensures LumpRead(data, end, p, EntityBlocks(data, end, p, Looking).value)
    decreases end - p
  {
    if end - p == 1 {
      assert data[p..end] == [NUL];
    } else {
      OpenSound(data, end, p);
      PairsSound(data, end, p + 2, []);
      OpenStepSound(data, end, p, EntityBlocks(data, end, p + 2, InEntity([])).value);
    }
  }

  /**
   * Wherever the strict reader accepts, the reader as written accepts too and yields the same
   * blocks: the two differ only on a lump whose last block is still open at the terminator.
   */
  lemma {:induction false} StrictAgrees(data: string, end: nat, p: nat, scan: Scan)
    requires p <= end
    ensures EntityBlocksWith(true, data, end, p, scan).Some? ==>
      EntityBlocksWith(false, data, end, p, scan) == EntityBlocksWith(true, data, end, p, scan)
    decreases end - p
  {
    var remaining := end - p;
    if EntityBlocksWith(true, data, end, p, scan).Some? && remaining != 1 {
      var line := NextLine(data, end, p).value;
      var q := p + |line| + 1;
      StepOnLine(true, data, end, p, scan, line);
      StepOnLine(false, data, end, p, scan, line);
      match LineStep(scan, line)
      case Fail =>
      case Open => StrictAgrees(data, end, q, InEntity([]));
      case Add(kvs) => StrictAgrees(data, end, q, InEntity(kvs));
      case Close(kvs) => StrictAgrees(data, end, q, Looking);
    }
  }

  /**
   * ParseLump_Entities, reading the lump of lumpLen characters at lumpPos, as written: a
   * block still open at the terminator is dropped without an error.
   */
  function EntityLumpBlocks(data: string, lumpPos: nat, lumpLen: nat): (r: Option<seq<seq<KeyValue>>>)
    ensures lumpLen == 0 ==> r == None
    ensures EntityLumpBlocksStrict(data, lumpPos, lumpLen).Some? ==> r == EntityLumpBlocksStrict(data, lumpPos, lumpLen)
  {
    EntityBlocksAsWritten(data, lumpPos + lumpLen, lumpPos, Looking)
  }

  /** The lump reader that rejects a block still open at the terminator. */
  function EntityLumpBlocksStrict(data: string, lumpPos: nat, lumpLen: nat): (r: Option<seq<seq<KeyValue>>>)
  {
    EntityBlocks(data, lumpPos + lumpLen, lumpPos, Looking)
  }

  /** The strict reader succeeds exactly on a written lump of well-formed pairs, and then yields its blocks. */
  lemma EntityLumpExactly(data: string, lumpPos: nat, lumpLen: nat, blocks: seq<seq<KeyValue>>)
    ensures EntityLumpBlocksStrict(data, lumpPos, lumpLen) == Some(blocks)
      <==> lumpPos + lumpLen <= |data| && BlocksOk(blocks) && data[lumpPos..lumpPos + lumpLen] == LumpText(blocks)
  {
    var end := lumpPos + lumpLen;
    if EntityLumpBlocksStrict(data, lumpPos, lumpLen) == Some(blocks) {
      BlocksSound(data, end, lumpPos);
    }
    if end <= |data| && BlocksOk(blocks) && data[lumpPos..end] == LumpText(blocks) {
      BlocksReadBack(true, data, end, lumpPos, blocks);
    }
  }

  /**
   * The reader as written yields the blocks of every written lump, and wherever the strict
   * reader accepts a lump, the reader as written yields the same blocks.
   */
  lemma EntityLumpAgrees(data: string, lumpPos: nat, lumpLen: nat, blocks: seq<seq<KeyValue>>)
    ensures lumpPos + lumpLen <= |data| && BlocksOk(blocks) && data[lumpPos..lumpPos + lumpLen] == LumpText(blocks)
      ==> EntityLumpBlocks(data, lumpPos, lumpLen) == Some(blocks)
    ensures EntityLumpBlocksStrict(data, lumpPos, lumpLen).Some?
      ==> EntityLumpBlocks(data, lumpPos, lumpLen) == EntityLumpBlocksStrict(data, lumpPos, lumpLen)
  {
    var end := lumpPos + lumpLen;
    if end <= |data| && BlocksOk(blocks) && data[lumpPos..end] == LumpText(blocks) {
      BlocksReadBack(false, data, end, lumpPos, blocks);
    }
    if EntityLumpBlocksStrict(data, lumpPos, lumpLen).Some? {
      StrictAgrees(data, end, lumpPos, Looking);
    }
  }

  /** The lump "{\n" and its terminator: the program reads no block where the strict reader fails. */
  lemma UnclosedLumpAccepted()
    ensures EntityLumpBlocks("{\n\0", 0, 3) == Some([])
    ensures EntityLumpBlocksStrict("{\n\0", 0, 3) == None
  {
    UnclosedBlockAccepted();
  }
}
