/**
 * The bevel-plane look-up table of a static-prop collision section. Each candidate bevel plane
 * has an index; index and generation parameters (unique edge, axis, direction) determine each
 * other. The table lists the valid candidate indices as gaps from the previous one, each gap
 * written in "recursive indexing": as many 255s as fit, then the remainder below 255.
 */
module XPropLut {
  import opened Wrappers
  import opened Bytes

  /** How a candidate is generated: its unique edge, axis 0 (X), 1 (Y) or 2 (Z), direction 1 or -1. */
  datatype GenParams = GenParams(edge: nat, axis: int, dir: int)

  /** GetGenParams: six candidates per edge, two per axis, even ones pointing the positive way. */
  function GetGenParams(i: nat): (p: GenParams)
    ensures 0 <= p.axis < 3 && (p.dir == 1 || p.dir == -1)
    ensures 6 * p.edge <= i < 6 * p.edge + 6
  {
    GenParams(i / 6, (i / 2) % 3, if i % 2 == 0 then 1 else -1)
  }

  /** GetCandidateIdx: 6 per edge, 2 per axis, plus one unless the direction is 1. */
  function GetCandidateIdx(p: GenParams): (i: nat)
    requires 0 <= p.axis
    ensures 6 * p.edge + 2 * p.axis <= i <= 6 * p.edge + 2 * p.axis + 1
  {
    p.edge * 6 + p.axis * 2 + (if p.dir == 1 then 0 else 1)
  }

  /** Every index survives the trip through its generation parameters. */
  lemma CandidateIdxOfGenParams(i: nat)
    ensures GetCandidateIdx(GetGenParams(i)) == i
  {
    var p := GetGenParams(i);
    assert i == 6 * (i / 6) + 2 * ((i % 6) / 2) + (i % 2);
    assert (i / 2) % 3 == (i % 6) / 2;
  }

  /** Parameters with a valid axis and direction survive the trip through their index. */
  lemma GenParamsOfCandidateIdx(p: GenParams)
    requires 0 <= p.axis < 3 && (p.dir == 1 || p.dir == -1)
    ensures GetGenParams(GetCandidateIdx(p)) == p
  {
    var i := GetCandidateIdx(p);
    var d := if p.dir == 1 then 0 else 1;
    assert i == 6 * p.edge + (2 * p.axis + d);
    assert i / 6 == p.edge;
    assert i / 2 == 3 * p.edge + p.axis;
  }

  // ---------------------------------------------------------------------------------------
  // Sorting (std::sort on the valid candidate indices)
  // ---------------------------------------------------------------------------------------

  predicate Sorted(s: seq<nat>) {
    forall i, j :: 0 <= i < j < |s| ==> s[i] <= s[j]
  }

  /** A value no larger than any of a sorted list's elements may stand in front of it. */
  lemma SortedCons(h: nat, t: seq<nat>, src: seq<nat>, x: nat)
    requires Sorted(t) && multiset(t) == multiset(src) + multiset{x}
    requires h <= x && forall k :: 0 <= k < |src| ==> h <= src[k]
    ensures Sorted([h] + t)
  {
    forall k | 0 <= k < |t| ensures h <= t[k] {
      assert t[k] in multiset(t);
      assert t[k] in multiset(src) || t[k] == x;
    }
  }

  /** x inserted before the first larger element of a sorted sequence. */
  function Insert(x: nat, s: seq<nat>): (r: seq<nat>)
    requires Sorted(s)
    ensures Sorted(r) && multiset(r) == multiset(s) + multiset{x}
    ensures |r| == |s| + 1
  {
    if s == [] then [x]
    else if x <= s[0] then [x] + s
    else
      var t := Insert(x, s[1..]);
      assert s == [s[0]] + s[1..];
      SortedCons(s[0], t, s[1..], x);
      [s[0]] + t
  }

  /** The indices in ascending order: a sorted permutation. */
  function Sort(s: seq<nat>): (r: seq<nat>)
    ensures Sorted(r) && multiset(r) == multiset(s)
  {
    if s == [] then []
    else
      assert s == [s[0]] + s[1..];
      Insert(s[0], Sort(s[1..]))
  }

  // ---------------------------------------------------------------------------------------
  // Encoder
  // ---------------------------------------------------------------------------------------

  const MAX_RECIDX: nat := 255

  /** One gap in recursive indexing: 255 repeated gap / 255 times, then gap % 255. */
  function EncodeGap(gap: nat): (r: seq<byte>)
    ensures |r| > 0 && r[|r| - 1] < MAX_RECIDX
    ensures forall k :: 0 <= k < |r| - 1 ==> r[k] == MAX_RECIDX
    decreases gap
  {
    if gap >= MAX_RECIDX then [MAX_RECIDX as byte] + EncodeGap(gap - MAX_RECIDX) else [gap as byte]
  }

  /** The steps of an ascending index list, starting from last. */
  function EncodeFrom(s: seq<nat>, last: nat): (r: seq<byte>)
    requires Sorted(s) && (s != [] ==> last <= s[0])
    ensures s == [] <==> r == []
    ensures r != [] ==> r[|r| - 1] < MAX_RECIDX
  {
    if s == [] then []
    else EncodeGap(s[0] - last) + EncodeFrom(s[1..], s[0])
  }

  /** The LUT the constructor builds from the valid candidate indices. */
  function Encode(indices: seq<nat>): (r: seq<byte>)
    ensures indices == [] <==> r == []
    ensures r != [] ==> r[|r| - 1] < MAX_RECIDX
  {
    var sorted := Sort(indices);
    assert indices == [] <==> sorted == [] by {
      assert |multiset(indices)| == |indices| && |multiset(sorted)| == |sorted|;
    }
    EncodeFrom(sorted, 0)
  }

  /** GetMemorySize: one byte per table entry. */
  function MemorySize(lut: seq<byte>): (r: nat)
    ensures r == |lut|
  {
    |lut| * 1
  }

  /** A gap takes one byte for every full 255 in it, then the byte that closes it. */
  lemma {:induction false} EncodeGapSize(gap: nat)
    ensures |EncodeGap(gap)| == gap / MAX_RECIDX + 1
    decreases gap
  {
    if gap >= MAX_RECIDX {
      EncodeGapSize(gap - MAX_RECIDX);
      assert (gap - MAX_RECIDX) / MAX_RECIDX == gap / MAX_RECIDX - 1;
    }
  }

  /** Whole 255s counted gap by gap are no more than those of the gaps together. */
  lemma DivSum(a: nat, b: nat)
    ensures a / MAX_RECIDX + b / MAX_RECIDX <= (a + b) / MAX_RECIDX
  {
    var qa, qb, q := a / MAX_RECIDX, b / MAX_RECIDX, (a + b) / MAX_RECIDX;
    assert MAX_RECIDX * qa <= a && MAX_RECIDX * qb <= b;
    assert a + b < MAX_RECIDX * q + MAX_RECIDX;
    assert MAX_RECIDX * (qa + qb) < MAX_RECIDX * (q + 1);
  }

  /** The steps of an ascending list from last up to at most bound take one byte per index and at most (bound - last) / 255 more. */
  lemma {:induction false} EncodeFromSize(s: seq<nat>, last: nat, bound: nat)
    requires Sorted(s) && (s != [] ==> last <= s[0]) && last <= bound
    requires forall k :: 0 <= k < |s| ==> s[k] <= bound
    ensures |s| <= |EncodeFrom(s, last)| <= |s| + (bound - last) / MAX_RECIDX
  {
    if s != [] {
      var gap, t := s[0] - last, s[1..];
      assert EncodeFrom(s, last) == EncodeGap(gap) + EncodeFrom(t, s[0]);
      SortedTail(s);
      assert forall k :: 0 <= k < |t| ==> t[k] == s[k + 1];
      EncodeGapSize(gap);
      EncodeFromSize(t, s[0], bound);
      DivSum(gap, bound - s[0]);
      assert gap + (bound - s[0]) == bound - last;
    }
  }

  /**
   * The memory the table of valid candidate indices, all at most bound, takes: at least one
   * byte per index, and at most one byte more for every full 255 in bound.
   */
  lemma MemorySizeOfEncode(indices: seq<nat>, bound: nat)
    requires forall k :: 0 <= k < |indices| ==> indices[k] <= bound
    ensures |indices| <= MemorySize(Encode(indices)) <= |indices| + bound / MAX_RECIDX
  {
    var sorted := Sort(indices);
    assert |multiset(indices)| == |indices| && |multiset(sorted)| == |sorted|;
    forall k | 0 <= k < |sorted|
      ensures sorted[k] <= bound
    {
      assert sorted[k] in multiset(indices);
    }
    EncodeFromSize(sorted, 0, bound);
  }

  // ---------------------------------------------------------------------------------------
  // Decoder
  // ---------------------------------------------------------------------------------------

  /** The generator's cursor: the position in the table and the running candidate index. */
  datatype Cursor = Cursor(pos: nat, cur: nat)

  /**
   * GetNext: adds table values to the running index until one below 255 has been added and
   * yields the index; at the end of the table it yields nothing.
   */
  function GetNext(lut: seq<byte>, c: Cursor): (r: (Cursor, Option<nat>))
    ensures c.pos >= |lut| ==> r == (c, None)
    ensures r.1.Some? ==> r.1.value == r.0.cur && c.pos < r.0.pos <= |lut|
    ensures r.1.None? ==> r.0.pos >= |lut|
    ensures c.cur <= r.0.cur
    decreases |lut| - c.pos
  {
    if c.pos >= |lut| then (c, None)
    else
      var v := lut[c.pos];
      var next := Cursor(c.pos + 1, c.cur + v);
      if v < MAX_RECIDX then (next, Some(next.cur)) else GetNext(lut, next)
  }

  /** Everything the generator yields from the cursor on, in order. */
  function DecodeFrom(lut: seq<byte>, c: Cursor): (r: seq<nat>)
    decreases |lut| - c.pos
  {
    var (d, v) := GetNext(lut, c);
    if v.None? then [] else [v.value] + DecodeFrom(lut, d)
  }

  /** The generator reads one encoded gap: the running index grows by the gap. */
  lemma {:induction false} GetNextOfGap(lut: seq<byte>, c: Cursor, gap: nat)
    requires c.pos + |EncodeGap(gap)| <= |lut| && lut[c.pos..c.pos + |EncodeGap(gap)|] == EncodeGap(gap)
    ensures GetNext(lut, c) == (Cursor(c.pos + |EncodeGap(gap)|, c.cur + gap), Some(c.cur + gap))
    decreases gap
  {
    var e := EncodeGap(gap);
    assert lut[c.pos] == e[0];
    if gap >= MAX_RECIDX {
      var rest := EncodeGap(gap - MAX_RECIDX);
      assert lut[c.pos + 1..c.pos + 1 + |rest|] == e[1..];
      GetNextOfGap(lut, Cursor(c.pos + 1, c.cur + MAX_RECIDX), gap - MAX_RECIDX);
    }
  }

  /** One step of the generator yields its value ahead of the rest. */
  lemma DecodeFromStep(lut: seq<byte>, c: Cursor, d: Cursor, v: nat)
    requires GetNext(lut, c) == (d, Some(v))
    ensures DecodeFrom(lut, c) == [v] + DecodeFrom(lut, d)
  {
  }

  /** At the end of the table the generator yields nothing more. */
  lemma DecodeFromEnd(lut: seq<byte>, c: Cursor)
    requires c.pos >= |lut|
    ensures DecodeFrom(lut, c) == []
  {
  }

  lemma SortedTail(s: seq<nat>)
    requires Sorted(s) && s != []
    ensures Sorted(s[1..]) && (|s| > 1 ==> s[0] <= s[1])
  {
  }

  /** The gap from last up to v, encoded after a prefix, is read in one step of the generator. */
  lemma GapReadAt(prefix: seq<byte>, last: nat, v: nat, tail: seq<byte>)
    requires last <= v
    ensures var g := EncodeGap(v - last);
      GetNext(prefix + g + tail, Cursor(|prefix|, last)) == (Cursor(|prefix| + |g|, v), Some(v))
  {
    var g := EncodeGap(v - last);
    var lut := prefix + g + tail;
    assert lut[|prefix|..|prefix| + |g|] == g;
    GetNextOfGap(lut, Cursor(|prefix|, last), v - last);
  }

  /** The gap from last up to v, encoded after a prefix, is read as the one value v. */
  lemma DecodeGapStep(prefix: seq<byte>, last: nat, v: nat, tail: seq<byte>)
    requires last <= v
    ensures var g := EncodeGap(v - last); var lut := prefix + g + tail;
      DecodeFrom(lut, Cursor(|prefix|, last)) == [v] + DecodeFrom(lut, Cursor(|prefix + g|, v))
  {
    var g := EncodeGap(v - last);
    GapReadAt(prefix, last, v, tail);
    DecodeFromStep(prefix + g + tail, Cursor(|prefix|, last), Cursor(|prefix + g|, v), v);
  }

  /** Decoding the steps of an ascending list from its predecessor yields the list. */
  lemma {:induction false} DecodeEncodeFrom(s: seq<nat>, last: nat, prefix: seq<byte>)
    requires Sorted(s) && (s != [] ==> last <= s[0])
    ensures DecodeFrom(prefix + EncodeFrom(s, last), Cursor(|prefix|, last)) == s
    decreases |s|
  {
    if s == [] {
      assert prefix + EncodeFrom(s, last) == prefix;
      DecodeFromEnd(prefix, Cursor(|prefix|, last));
    } else {
      var g := EncodeGap(s[0] - last);
      var tail := EncodeFrom(s[1..], s[0]);
      var lut := prefix + g + tail;
      assert prefix + EncodeFrom(s, last) == lut;
      DecodeGapStep(prefix, last, s[0], tail);
      SortedTail(s);
      DecodeEncodeFrom(s[1..], s[0], prefix + g);
      assert DecodeFrom(lut, Cursor(|prefix|, last)) == [s[0]] + s[1..];
      assert [s[0]] + s[1..] == s;
    }
  }

  /**
   * Round trip: starting from a fresh cursor, the generator yields the valid candidate
   * indices in ascending order and then stops.
   */
  lemma DecodeEncode(indices: seq<nat>)
    ensures DecodeFrom(Encode(indices), Cursor(0, 0)) == Sort(indices)
  {
    var sorted := Sort(indices);
    DecodeEncodeFrom(sorted, 0, []);
    assert [] + EncodeFrom(sorted, 0) == Encode(indices);
  }
}
