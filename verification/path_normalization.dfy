/**
 * NormalizePath of the file system abstraction layer: a path is read from its end to its
 * start, entry by entry, and written backwards into a destination buffer as long as the
 * source. Separators are '/' or '\'; a run of them becomes one '/'; a "." entry takes back
 * the separator written before it; a ".." entry takes it back too and blanks (with NUL) the
 * entry to its left. Blanked characters are squeezed out at the end. The depth counts the
 * separators written, less two per ".." and one per ".", and less one for a separator at the
 * very end of the path.
 */
module PathNormalization {

  /** Both separators. */
  predicate IsSlash(c: char)
  {
    c == '\\' || c == '/'
  }

  const NUL: char := '\0'

  /**
   * The loop state: i input characters are left unread (the input cursor is at i - 1);
   * out is the part of the destination buffer written so far, read in order; over marks the
   * destination cursor standing one past the buffer's end, where a "." entry at the end of
   * the path leaves it; skip counts pending ".." entries; trailing records that the entry
   * read first was a separator run; started that some entry was read.
   */
  datatype Norm = Norm(i: nat, out: string, over: bool, skip: nat, depth: int, trailing: bool, started: bool)

  /** Writing c at the destination cursor and moving it one to the left. */
  function Put(st: Norm, c: char): (r: Norm)
    ensures r.i == st.i && r.skip == st.skip && !r.over
  {
    if st.over then st.(over := false) else st.(out := [c] + st.out)
  }

  /** Moving the destination cursor one to the right: the last character written will be overwritten. */
  function Retract(st: Norm): (r: Norm)
    ensures r.i == st.i && r.skip == st.skip
  {
    if st.out == [] then st.(over := true) else st.(out := st.out[1..])
  }

  /** What is written for c: c itself, or NUL while a ".." is pending. */
  function Shown(st: Norm, c: char): char
  {
    if st.skip == 0 then c else NUL
  }

  /** The start of the run of separators that ends at i. */
  function SlashRunStart(s: string, i: nat): (j: nat)
    requires i <= |s|
    ensures j <= i && (j == 0 || !IsSlash(s[j - 1]))
    ensures forall p :: j <= p < i ==> IsSlash(s[p])
  {
    if i > 0 && IsSlash(s[i - 1]) then SlashRunStart(s, i - 1) else i
  }

  /** The run of non-separator characters ending at the cursor, each written in turn. */
  function CharRun(s: string, st: Norm): (r: Norm)
    requires st.i <= |s|
    ensures r.i <= st.i && r.skip == st.skip && (r.i == 0 || IsSlash(s[r.i - 1]))
    ensures r.depth == st.depth && r.trailing == st.trailing && r.started == st.started
    decreases st.i
  {
    if st.i > 0 && !IsSlash(s[st.i - 1]) then CharRun(s, Put(st, Shown(st, s[st.i - 1])).(i := st.i - 1)) else st
  }

  /** A "." entry ends at i: a dot with a separator or the start of the path before it. */
  predicate DotEntry(s: string, i: nat)
    requires i <= |s|
  {
    i >= 1 && s[i - 1] == '.' && (i == 1 || IsSlash(s[i - 2]))
  }

  /** A ".." entry ends at i. */
  predicate DotDotEntry(s: string, i: nat)
    requires i <= |s|
  {
    i >= 2 && s[i - 1] == '.' && s[i - 2] == '.' && (i == 2 || IsSlash(s[i - 3]))
  }

  datatype Turn = Stop | Next(st: Norm)

  /**
   * One turn of the loop, trying in order: a separator run (one '/' written), a "." entry
   * (the cursor moves back), a ".." entry (the cursor moves back and one more entry is to be
   * blanked), a run of other characters (written, or blanked when a ".." is pending, which
   * it then settles). With nothing left the loop stops.
   */
  function Step(s: string, st: Norm): (r: Turn)
    requires st.i <= |s|
    ensures r.Next? ==> r.st.i < st.i
  {
    var i := st.i;
    if i == 0 then Stop
    else if IsSlash(s[i - 1]) then
      var w := Put(st, Shown(st, '/'));
      Next(w.(i := SlashRunStart(s, i - 1), depth := st.depth + 1, trailing := st.trailing || !st.started, started := true))
    else if DotEntry(s, i) then
      Next(Retract(st).(i := i - 1, depth := st.depth - 1, started := true))
    else if DotDotEntry(s, i) then
      Next(Retract(st).(i := i - 2, depth := st.depth - 2, skip := st.skip + 1, started := true))
    else
      var r := CharRun(s, st);
      Next(r.(skip := if r.skip > 0 then r.skip - 1 else 0, started := true))
  }

  /** The loop: turns until nothing is left. */
  function Loop(s: string, st: Norm): (r: Norm)
    requires st.i <= |s|
    ensures r.i == 0
    decreases st.i
  {
    match Step(s, st)
    case Stop => st
    case Next(st') => Loop(s, st')
  }

  /** The characters before the first NUL: what strlen sees. */
  function UpToNul(t: string): (r: string)
    ensures |r| <= |t| && r == t[..|r|] && NUL !in r
  {
    if t == [] || t[0] == NUL then [] else [t[0]] + UpToNul(t[1..])
  }

  /** The characters other than NUL, in order: the squeezing copy. */
  function DropNul(t: string): (r: string)
    ensures |r| <= |t| && NUL !in r
  {
    if t == [] then [] else (if t[0] == NUL then [] else [t[0]]) + DropNul(t[1..])
  }

  /** A normalised path and its depth in the file tree. */
  datatype Normalized = Normalized(path: string, depth: int)

  function Start(s: string): Norm
  {
    Norm(|s|, [], false, 0, 0, false, false)
  }

  /**
   * NormalizePath: run the loop from the end of the path; when the written part fills the
   * whole buffer it is kept as is, up to its first NUL; otherwise it is squeezed to the
   * buffer's start without its NULs. A separator at the very end does not count for depth.
   */
  function Normalize(s: string): (r: Normalized)
    ensures |r.path| <= |s|
    ensures '\\' !in r.path && NUL !in r.path
  {
    var f := Loop(s, Start(s));
    LoopBounded(s, Start(s));
    DropNulWithin(f.out, '\\');
    var path := if |f.out| == |s| && !f.over then UpToNul(f.out) else DropNul(f.out);
    Normalized(path, f.depth - (if f.trailing then 1 else 0))
  }

  // ---------------------------------------------------------------------------------------
  // Any path: never longer, no backslash
  // ---------------------------------------------------------------------------------------

  /** Nothing written exceeds what was read, and no backslash is written. */
  predicate Bounded(s: string, st: Norm)
  {
    st.i <= |s| && |st.out| <= |s| - st.i && '\\' !in st.out
  }

  /** A character run writes no more characters than it reads, and no backslash. */
  lemma {:induction false} CharRunBounded(s: string, st: Norm)
    requires Bounded(s, st)
    ensures Bounded(s, CharRun(s, st))
    decreases st.i
  {
    if st.i > 0 && !IsSlash(s[st.i - 1]) {
      var w := Put(st, Shown(st, s[st.i - 1])).(i := st.i - 1);
      assert Bounded(s, w);
      CharRunBounded(s, w);
    }
  }

  /** A turn keeps the written part within what was read. */
  lemma StepBounded(s: string, st: Norm)
    requires Bounded(s, st) && Step(s, st).Next?
    ensures Bounded(s, Step(s, st).st)
  {
    var i := st.i;
    if IsSlash(s[i - 1]) {
    } else if DotEntry(s, i) || DotDotEntry(s, i) {
      assert '\\' !in Retract(st).out;
    } else {
      CharRunBounded(s, st);
    }
  }

  lemma {:induction false} LoopBounded(s: string, st: Norm)
    requires Bounded(s, st)
    ensures Bounded(s, Loop(s, st))
    decreases st.i
  {
    if Step(s, st).Next? {
      StepBounded(s, st);
      LoopBounded(s, Step(s, st).st);
    }
  }

  /** Squeezing keeps only characters that were there. */
  lemma {:induction false} DropNulWithin(t: string, c: char)
    requires c !in t
    ensures c !in DropNul(t)
  {
    if t != [] {
      DropNulWithin(t[1..], c);
    }
  }

  // ---------------------------------------------------------------------------------------
  // Clean paths: separators become '/', nothing else changes
  // ---------------------------------------------------------------------------------------

  /** A separator turned into '/'. */
  function SlashOf(c: char): char
  {
    if IsSlash(c) then '/' else c
  }

  /** The characters from k to i with every separator written as '/'. */
  function SlashedBetween(s: string, k: nat, i: nat): (r: string)
    requires k <= i <= |s|
    ensures |r| == i - k
  {
    seq(i - k, p requires 0 <= p < i - k => SlashOf(s[k + p]))
  }

  /** The number of separators from k to i. */
  function Seps(s: string, k: nat, i: nat): (r: nat)
    requires k <= i <= |s|
    decreases i
  {
    if i == k then 0 else Seps(s, k, i - 1) + (if IsSlash(s[i - 1]) then 1 else 0)
  }

  /** A position where an entry begins or ends: separator and non-separator meet, or an end. */
  predicate Boundary(s: string, k: nat)
    requires k <= |s|
  {
    k == 0 || k == |s| || IsSlash(s[k - 1]) != IsSlash(s[k])
  }

  /** Position p, read as part of the path from k to i: no NUL, not part of a double separator, not a "." or ".." entry. */
  predicate OkAt(s: string, k: nat, i: nat, p: nat)
    requires k <= p < i <= |s|
  {
    && s[p] != NUL
    && !(p + 1 < i && IsSlash(s[p]) && IsSlash(s[p + 1]))
    && !(s[p] == '.' && (p == k || IsSlash(s[p - 1])) && (p + 1 == i || IsSlash(s[p + 1])))
    && !(p + 1 < i && s[p] == '.' && s[p + 1] == '.' && (p == k || IsSlash(s[p - 1])) && (p + 2 == i || IsSlash(s[p + 2])))
  }

  /** The path from k to i is clean: single separators, no "." or ".." entries, no NUL. */
  predicate CleanBetween(s: string, k: nat, i: nat)
    requires k <= i <= |s|
  {
    forall p :: k <= p < i ==> OkAt(s, k, i, p)
  }

  /** A clean path. */
  predicate Clean(s: string)
  {
    CleanBetween(s, 0, |s|)
  }

  /** A clean path cut short at an entry boundary is clean. */
  lemma CleanPrefix(s: string, k: nat, j: nat, i: nat)
    requires k <= j <= i <= |s| && CleanBetween(s, k, i) && Boundary(s, j) && j < i
    ensures CleanBetween(s, k, j)
  {
    forall p | k <= p < j ensures OkAt(s, k, j, p) {
      assert OkAt(s, k, i, p);
    }
  }

  /** The '/'-written characters of two adjacent stretches join up. */
  lemma SlashedJoin(s: string, k: nat, j: nat, i: nat)
    requires k <= j <= i <= |s|
    ensures SlashedBetween(s, k, i) == SlashedBetween(s, k, j) + SlashedBetween(s, j, i)
  {
    var a := SlashedBetween(s, k, j);
    var b := SlashedBetween(s, j, i);
    forall p | 0 <= p < i - k ensures SlashedBetween(s, k, i)[p] == (a + b)[p] {
      if p >= j - k {
        assert (a + b)[p] == b[p - (j - k)];
      }
    }
  }

  /** A stretch without separators has no separators to count. */
  lemma {:induction false} SepsNone(s: string, k: nat, j: nat, i: nat)
    requires k <= j <= i <= |s| && forall p :: j <= p < i ==> !IsSlash(s[p])
    ensures Seps(s, k, i) == Seps(s, k, j)
    decreases i
  {
    if i > j {
      SepsNone(s, k, j, i - 1);
    }
  }

  /** A run of non-separators with nothing pending is written in order before what was written. */
  lemma {:induction false} CharRunKeeps(s: string, st: Norm, j: nat)
    requires st.i <= |s| && !st.over && st.skip == 0 && j <= st.i && (j == 0 || IsSlash(s[j - 1]))
    requires forall p :: j <= p < st.i ==> !IsSlash(s[p])
    ensures var r := CharRun(s, st); r.i == j && !r.over && r.out == s[j..st.i] + st.out
    decreases st.i
  {
    if st.i > j {
      var c := s[st.i - 1];
      var w := Put(st, c).(i := st.i - 1);
      assert CharRun(s, st) == CharRun(s, w);
      CharRunKeeps(s, w, j);
      SliceLast(s, j, st.i, st.out);
    }
  }

  lemma SliceLast(s: string, j: nat, i: nat, t: string)
    requires j < i <= |s|
    ensures s[j..i] + t == s[j..i - 1] + ([s[i - 1]] + t)
  {
    assert s[j..i] == s[j..i - 1] + [s[i - 1]];
  }

  /** A run of non-separators while a ".." is pending is blanked. */
  lemma {:induction false} CharRunBlanks(s: string, st: Norm, j: nat)
    requires st.i <= |s| && !st.over && st.skip > 0 && j <= st.i && (j == 0 || IsSlash(s[j - 1]))
    requires forall p :: j <= p < st.i ==> !IsSlash(s[p])
    ensures var r := CharRun(s, st); r.i == j && !r.over && r.out == Blanks(st.i - j) + st.out
    decreases st.i
  {
    if st.i > j {
      var w := Put(st, NUL).(i := st.i - 1);
      CharRunBlanks(s, w, j);
      assert Blanks(st.i - j) == Blanks(st.i - 1 - j) + [NUL];
    }
  }

  /** n NUL characters. */
  function Blanks(n: nat): (r: string)
    ensures |r| == n && forall p :: 0 <= p < n ==> r[p] == NUL
  {
    seq(n, _ => NUL)
  }

  /** The state after a clean stretch from k to st.i has been read with nothing pending. */
  function AfterClean(s: string, k: nat, st: Norm): Norm
    requires k <= st.i <= |s|
  {
    st.(i := k, out := SlashedBetween(s, k, st.i) + st.out, depth := st.depth + Seps(s, k, st.i),
        trailing := st.trailing || (!st.started && k < st.i && IsSlash(s[st.i - 1])),
        started := st.started || k < st.i)
  }

  /** The state a clean stretch reading starts from: at an entry boundary, nothing pending. */
  predicate CleanStart(s: string, k: nat, st: Norm)
  {
    k <= st.i <= |s| && Boundary(s, k) && Boundary(s, st.i) && CleanBetween(s, k, st.i) && st.skip == 0 && !st.over
  }

  /** A turn at a single separator writes one '/' (or a blank) and counts it. */
  lemma SlashStep(s: string, st: Norm)
    requires 0 < st.i <= |s| && IsSlash(s[st.i - 1]) && (st.i == 1 || !IsSlash(s[st.i - 2])) && !st.over
    ensures Step(s, st) == Next(st.(i := st.i - 1, out := [Shown(st, '/')] + st.out, depth := st.depth + 1,
                                    trailing := st.trailing || !st.started, started := true))
  {
    assert SlashRunStart(s, st.i - 1) == st.i - 1;
  }

  /** A turn at a run of other characters from j, with nothing pending, writes them. */
  lemma CharStep(s: string, st: Norm, j: nat)
    requires 0 < st.i <= |s| && !IsSlash(s[st.i - 1]) && !DotEntry(s, st.i) && !DotDotEntry(s, st.i)
    requires !st.over && st.skip == 0 && j <= st.i && (j == 0 || IsSlash(s[j - 1]))
    requires forall p :: j <= p < st.i ==> !IsSlash(s[p])
    ensures Step(s, st) == Next(st.(i := j, out := s[j..st.i] + st.out, started := true))
  {
    CharRunKeeps(s, st, j);
  }

  /** A turn at a run of other characters from j, with a ".." pending, blanks them and settles one "..". */
  lemma BlankStep(s: string, st: Norm, j: nat)
    requires 0 < st.i <= |s| && !IsSlash(s[st.i - 1]) && !DotEntry(s, st.i) && !DotDotEntry(s, st.i)
    requires !st.over && st.skip > 0 && j <= st.i && (j == 0 || IsSlash(s[j - 1]))
    requires forall p :: j <= p < st.i ==> !IsSlash(s[p])
    ensures Step(s, st) == Next(st.(i := j, out := Blanks(st.i - j) + st.out, skip := st.skip - 1, started := true))
  {
    CharRunBlanks(s, st, j);
  }

  /** A turn at a "." entry takes back the last character written. */
  lemma DotStep(s: string, st: Norm)
    requires 0 < st.i <= |s| && DotEntry(s, st.i) && st.out != []
    ensures Step(s, st) == Next(st.(i := st.i - 1, out := st.out[1..], depth := st.depth - 1, started := true))
  {
  }

  /** A turn at a ".." entry takes back the last character written and blanks the next entry. */
  lemma DotDotStep(s: string, st: Norm)
    requires 0 < st.i <= |s| && !DotEntry(s, st.i) && DotDotEntry(s, st.i) && st.out != []
    ensures Step(s, st) == Next(st.(i := st.i - 2, out := st.out[1..], depth := st.depth - 2, skip := st.skip + 1, started := true))
  {
  }

  /** The loop goes on from the state a turn leaves. */
  lemma LoopNext(s: string, st: Norm, st': Norm)
    requires st.i <= |s| && Step(s, st) == Next(st')
    ensures Loop(s, st) == Loop(s, st')
  {
  }

  /** In a clean stretch, a separator is single: one is written and counted. */
  lemma CleanSlashStep(s: string, k: nat, st: Norm)
    requires CleanStart(s, k, st) && k < st.i && IsSlash(s[st.i - 1])
    ensures Step(s, st).Next? && k <= Step(s, st).st.i
    ensures CleanStart(s, k, Step(s, st).st)
    ensures AfterClean(s, k, Step(s, st).st) == AfterClean(s, k, st)
  {
    var i := st.i;
    if i - 1 > k {
      assert OkAt(s, k, i, i - 2);
    }
    SlashStep(s, st);
    CleanPrefix(s, k, i - 1, i);
    SlashedJoin(s, k, i - 1, i);
    assert SlashedBetween(s, i - 1, i)[0] == SlashOf(s[i - 1]) == '/';
    assert SlashedBetween(s, i - 1, i) == ['/'];
  }

  /** In a clean stretch, a run of other characters is no dot entry: it is written whole. */
  lemma CleanCharStep(s: string, k: nat, st: Norm)
    requires CleanStart(s, k, st) && k < st.i && !IsSlash(s[st.i - 1])
    ensures Step(s, st).Next? && k <= Step(s, st).st.i
    ensures CleanStart(s, k, Step(s, st).st)
    ensures AfterClean(s, k, Step(s, st).st) == AfterClean(s, k, st)
  {
    var i := st.i;
    CleanNoDots(s, k, i);
    var j := CharRunFrom(s, k, i);
    CharStep(s, st, j);
    if j > k {
      CleanPrefix(s, k, j, i);
    }
    CleanCharJoin(s, k, j, i);
  }

  /** A clean stretch does not end in a "." or ".." entry. */
  lemma CleanNoDots(s: string, k: nat, i: nat)
    requires k < i <= |s| && Boundary(s, k) && CleanBetween(s, k, i) && !IsSlash(s[i - 1])
    ensures !DotEntry(s, i) && !DotDotEntry(s, i)
  {
    assert OkAt(s, k, i, i - 1);
    if i >= 2 && i - 2 >= k {
      assert OkAt(s, k, i, i - 2);
    }
  }

  /** A run of non-separators from j to i adds itself to the '/'-written form and no separator. */
  lemma CleanCharJoin(s: string, k: nat, j: nat, i: nat)
    requires k <= j <= i <= |s| && forall p :: j <= p < i ==> !IsSlash(s[p])
    ensures SlashedBetween(s, k, i) == SlashedBetween(s, k, j) + s[j..i]
    ensures Seps(s, k, i) == Seps(s, k, j)
  {
    SlashedJoin(s, k, j, i);
    assert SlashedBetween(s, j, i) == s[j..i] by {
      forall p | 0 <= p < i - j ensures SlashedBetween(s, j, i)[p] == s[j..i][p] {
        assert SlashedBetween(s, j, i)[p] == SlashOf(s[j + p]);
        assert !IsSlash(s[j + p]) && s[j..i][p] == s[j + p];
      }
    }
    SepsNone(s, k, j, i);
  }

  /** Where a run of non-separators ending at i starts, in a stretch that begins at a boundary. */
  lemma CharRunFrom(s: string, k: nat, i: nat) returns (j: nat)
    requires k < i <= |s| && Boundary(s, k) && !IsSlash(s[i - 1])
    ensures k <= j < i && (j == 0 || IsSlash(s[j - 1]))
    ensures forall p :: j <= p < i ==> !IsSlash(s[p])
  {
    j := i - 1;
    while j > k && !IsSlash(s[j - 1])
      invariant k <= j < i && forall p :: j <= p < i ==> !IsSlash(s[p])
      decreases j
    {
      j := j - 1;
    }
  }

  /** Reading a clean stretch writes it with '/' separators and counts its separators. */
  lemma {:induction false} CleanRun(s: string, k: nat, st: Norm)
    requires CleanStart(s, k, st)
    ensures Loop(s, st) == Loop(s, AfterClean(s, k, st))
    decreases st.i
  {
    if k < st.i {
      if IsSlash(s[st.i - 1]) {
        CleanSlashStep(s, k, st);
      } else {
        CleanCharStep(s, k, st);
      }
      CleanRun(s, k, Step(s, st).st);
    } else {
      assert AfterClean(s, k, st) == st;
    }
  }

  /** A string without NUL is kept whole by strlen and by squeezing. */
  lemma {:induction false} NoNulKept(t: string)
    requires NUL !in t
    ensures UpToNul(t) == t && DropNul(t) == t
  {
    if t != [] {
      NoNulKept(t[1..]);
    }
  }

  /** A clean path's '/'-written form has no NUL. */
  lemma SlashedNoNul(s: string, k: nat, i: nat)
    requires k <= i <= |s| && CleanBetween(s, k, i)
    ensures NUL !in SlashedBetween(s, k, i)
  {
    forall p | 0 <= p < i - k ensures SlashedBetween(s, k, i)[p] != NUL {
      assert OkAt(s, k, i, k + p);
      assert SlashedBetween(s, k, i)[p] == SlashOf(s[k + p]);
    }
  }

  /** Every separator written as '/'. */
  function Slashed(s: string): (r: string)
    ensures |r| == |s|
  {
    SlashedBetween(s, 0, |s|)
  }

  /**
   * A clean path (single separators of either kind, no "." or ".." entries) comes back with
   * every separator written as '/'; its depth is its number of separators, less one for a
   * separator at its end.
   */
  lemma CleanPathKept(s: string)
    requires Clean(s)
    ensures Normalize(s) == Normalized(Slashed(s), Seps(s, 0, |s|) - (if |s| > 0 && IsSlash(s[|s| - 1]) then 1 else 0))
  {
    CleanRun(s, 0, Start(s));
    SlashedNoNul(s, 0, |s|);
    assert SlashedBetween(s, 0, |s|) + [] == Slashed(s);
    NoNulKept(Slashed(s));
  }

  // ---------------------------------------------------------------------------------------
  // Dot entries
  // ---------------------------------------------------------------------------------------

  /** A stretch that may stand at either side of a removed entry: clean and not ending (a) or starting (b) in a separator. */
  predicate Side(a: string, atEnd: bool)
  {
    Clean(a) && (a == [] || !IsSlash(if atEnd then a[|a| - 1] else a[0]))
  }

  /** A clean stretch placed at k in a longer string is clean there. */
  lemma CleanShift(s: string, k: nat, t: string, i: nat)
    requires i == k + |t| && i <= |s| && s[k..i] == t && Clean(t)
    ensures CleanBetween(s, k, i)
  {
    var n := |t|;
    forall p | k <= p < i ensures OkAt(s, k, i, p) {
      assert OkAt(t, 0, n, p - k);
      assert s[p] == t[p - k];
      if p + 1 < k + |t| { assert s[p + 1] == t[p + 1 - k]; }
      if p + 2 < k + |t| { assert s[p + 2] == t[p + 2 - k]; }
      if p > k { assert s[p - 1] == t[p - 1 - k]; }
    }
  }

  /** The '/'-written form of a stretch placed at k. */
  lemma SlashedShift(s: string, k: nat, t: string)
    requires k + |t| <= |s| && s[k..k + |t|] == t
    ensures SlashedBetween(s, k, k + |t|) == Slashed(t)
  {
    forall p | 0 <= p < |t| ensures SlashedBetween(s, k, k + |t|)[p] == Slashed(t)[p] {
      assert s[k + p] == t[p];
    }
  }

  /** Reading the clean end b of a path from its end: written as '/'-form, nothing pending. */
  lemma ReadTail(s: string, k: nat, b: string) returns (st: Norm)
    requires Side(b, false) && k >= 1 && k + |b| == |s| && s[k..] == b && IsSlash(s[k - 1])
    ensures st.i == k && st.out == Slashed(b) && st.skip == 0 && !st.over
    ensures Loop(s, Start(s)) == Loop(s, st)
  {
    assert s[k..k + |b|] == b;
    CleanShift(s, k, b, |s|);
    SlashedShift(s, k, b);
    CleanRun(s, k, Start(s));
    st := AfterClean(s, k, Start(s));
  }

  /** Reading the clean start a of a path, up to the separator after it, with nothing pending. */
  lemma ReadHead(s: string, a: string, st: Norm)
    requires Side(a, true) && |a| < |s| && s[..|a|] == a && IsSlash(s[|a|])
    requires st.i == |a| && st.skip == 0 && !st.over
    ensures Loop(s, st).out == Slashed(a) + st.out
  {
    assert s[0..|a|] == a;
    CleanShift(s, 0, a, |a|);
    SlashedShift(s, 0, a);
    CleanRun(s, 0, st);
  }

  /** The path built around a "." entry. */
  function WithDot(a: string, b: string): string
  {
    a + "/./" + b
  }

  /** When the loop writes less than the whole buffer, the result is the squeezed copy. */
  lemma SqueezedPath(s: string)
    requires |Loop(s, Start(s)).out| < |s|
    ensures Normalize(s).path == DropNul(Loop(s, Start(s)).out)
  {
  }

  /** A "." entry between two clean stretches is dropped with one of its separators. */
  lemma DotEntryDropped(a: string, b: string)
    requires Side(a, true) && Side(b, false)
    ensures Normalize(WithDot(a, b)).path == Slashed(a) + "/" + Slashed(b)
  {
    DotWritten(a, b);
    SideNoNul(a, true);
    SideNoNul(b, false);
    SqueezedTo(WithDot(a, b), Slashed(a), 0, Slashed(b));
  }

  /** A written part that is shorter than the buffer, two NUL-free sides around a separator and blanks, is squeezed to the two sides. */
  lemma SqueezedTo(s: string, a: string, n: nat, b: string)
    requires Loop(s, Start(s)).out == a + ("/" + (Blanks(n) + b)) && |a| + 1 + n + |b| < |s|
    requires NUL !in a && NUL !in b
    ensures Normalize(s).path == a + "/" + b
  {
    SqueezedPath(s);
    DotDotSqueezed(a, n, b);
  }

  /** What the loop writes for a path with a "." entry between two clean stretches. */
  lemma DotWritten(a: string, b: string)
    requires Side(a, true) && Side(b, false)
    ensures Loop(WithDot(a, b), Start(WithDot(a, b))).out == Slashed(a) + ("/" + (Blanks(0) + Slashed(b)))
  {
    var s := WithDot(a, b);
    var n := |a|;
    assert s[..n] == a && s[n] == '/' && s[n + 1] == '.' && s[n + 2] == '/' && s[n + 3..] == b;
    var st3 := DotTurns(s, n, b);
    ReadHead(s, a, st3);
    assert Blanks(0) + Slashed(b) == Slashed(b);
  }

  /**
   * The turns over "/./" and the clean end b: the last separator is written, the "." takes
   * it back, the separator before the dot is written.
   */
  lemma DotTurns(s: string, n: nat, b: string) returns (st3: Norm)
    requires n + 3 <= |s| && s[n] == '/' && s[n + 1] == '.' && s[n + 2] == '/' && s[n + 3..] == b
    requires Side(b, false) && (n == 0 || !IsSlash(s[n - 1]))
    ensures st3.i == n && st3.out == "/" + Slashed(b) && st3.skip == 0 && !st3.over
    ensures Loop(s, Start(s)) == Loop(s, st3)
  {
    var st := ReadTail(s, n + 3, b);
    var st2 := DotUndone(s, n, st);
    SlashStep(s, st2);
    st3 := Step(s, st2).st;
    LoopNext(s, st2, st3);
  }

  /** The turns over "./" read from its end: the separator written is taken back. */
  lemma DotUndone(s: string, n: nat, st: Norm) returns (st2: Norm)
    requires n + 3 <= |s| && s[n] == '/' && s[n + 1] == '.' && s[n + 2] == '/'
    requires st.i == n + 3 && st.skip == 0 && !st.over
    ensures st2.i == n + 1 && st2.out == st.out && st2.skip == 0 && !st2.over
    ensures Loop(s, st) == Loop(s, st2)
  {
    SlashStep(s, st);
    var st1 := Step(s, st).st;
    DotStep(s, st1);
    st2 := Step(s, st1).st;
    LoopNext(s, st, st1);
    LoopNext(s, st1, st2);
  }

  /** A clean stretch has no NUL, nor has its '/'-written form. */
  lemma SideNoNul(a: string, atEnd: bool)
    requires Side(a, atEnd)
    ensures NUL !in Slashed(a)
  {
    SlashedNoNul(a, 0, |a|);
  }

  /** A single entry: non-empty, no separator, not "." or "..". */
  predicate Name(x: string)
  {
    x != [] && x != "." && x != ".." && forall p :: 0 <= p < |x| ==> !IsSlash(x[p])
  }

  /** The path built around an entry followed by "..". */
  function WithDotDot(a: string, x: string, b: string): string
  {
    a + "/" + x + "/../" + b
  }

  /** An entry followed by a ".." entry is dropped, with the ".." and one separator. */
  lemma DotDotEntryDropped(a: string, x: string, b: string)
    requires Side(a, true) && Name(x) && Side(b, false)
    ensures Normalize(WithDotDot(a, x, b)).path == Slashed(a) + "/" + Slashed(b)
  {
    DotDotWritten(a, x, b);
    SideNoNul(a, true);
    SideNoNul(b, false);
    SqueezedTo(WithDotDot(a, x, b), Slashed(a), |x| + 1, Slashed(b));
  }

  /** What the loop writes for a path with an entry and a ".." between two clean stretches. */
  lemma DotDotWritten(a: string, x: string, b: string)
    requires Side(a, true) && Name(x) && Side(b, false)
    ensures Loop(WithDotDot(a, x, b), Start(WithDotDot(a, x, b))).out == Slashed(a) + ("/" + (Blanks(|x| + 1) + Slashed(b)))
  {
    var s := WithDotDot(a, x, b);
    var n := |a|;
    var q := n + 1 + |x|;
    assert s[..n] == a && s[n] == '/' && s[n + 1..q] == x;
    assert s[q] == '/' && s[q + 1] == '.' && s[q + 2] == '.' && s[q + 3] == '/' && s[q + 4..] == b;
    DotDotRead(s, a, x, b);
  }

  /** The path s is a, '/', x, "/../", b, stated character by character. */
  predicate DotDotLayout(s: string, a: string, x: string, b: string)
  {
    var n := |a|;
    var q := n + 1 + |x|;
    && q + 4 + |b| == |s|
    && s[..n] == a && s[n] == '/' && s[n + 1..q] == x
    && s[q] == '/' && s[q + 1] == '.' && s[q + 2] == '.' && s[q + 3] == '/' && s[q + 4..] == b
  }

  /** The loop over a path laid out as a, '/', x, "/../", b. */
  lemma DotDotRead(s: string, a: string, x: string, b: string)
    requires Side(a, true) && Name(x) && Side(b, false) && DotDotLayout(s, a, x, b)
    ensures Loop(s, Start(s)).out == Slashed(a) + ("/" + (Blanks(|x| + 1) + Slashed(b)))
  {
    var n := |a|;
    var q := n + 1 + |x|;
    var st := ReadTail(s, q + 4, b);
    var st4 := DotDotTurns(s, n, q, x, st);
    // the separator before x
    assert n == 0 || !IsSlash(s[n - 1]);
    SlashStep(s, st4);
    var st5 := Step(s, st4).st;
    LoopNext(s, st4, st5);
    ReadHead(s, a, st5);
  }

  /** Squeezing the blanks left by a ".." joins the two sides at one separator. */
  lemma DotDotSqueezed(a: string, n: nat, b: string)
    requires NUL !in a && NUL !in b
    ensures DropNul(a + ("/" + (Blanks(n) + b))) == a + "/" + b
  {
    assert a + ("/" + (Blanks(n) + b)) == (a + "/") + Blanks(n) + b;
    DropBlanks(a + "/", n, b);
  }

  /**
   * The turns over "/x/../" read from its end: the last separator is written, the ".." takes
   * it back, the separator before it and the entry x are blanked, which settles the "..".
   */
  lemma DotDotTurns(s: string, n: nat, q: nat, x: string, st: Norm) returns (st4: Norm)
    requires Name(x) && q == n + 1 + |x| && q + 4 <= |s| && s[n] == '/' && s[n + 1..q] == x
    requires s[q] == '/' && s[q + 1] == '.' && s[q + 2] == '.' && s[q + 3] == '/'
    requires st.i == q + 4 && st.skip == 0 && !st.over
    ensures st4.i == n + 1 && st4.out == Blanks(|x| + 1) + st.out && st4.skip == 0 && !st4.over
    ensures Loop(s, st) == Loop(s, st4)
  {
    assert s[q - 1] == x[|x| - 1];
    var st2 := DotDotPending(s, q, st);
    st4 := EntryBlanked(s, n, q, x, st2);
    BlanksJoin(|x|, st.out);
  }

  lemma BlanksJoin(n: nat, t: string)
    ensures Blanks(n) + ([NUL] + t) == Blanks(n + 1) + t
  {
    assert Blanks(n) + [NUL] == Blanks(n + 1);
  }

  /** With one ".." pending, the separator before it and the entry x are blanked, which settles it. */
  lemma EntryBlanked(s: string, n: nat, q: nat, x: string, st2: Norm) returns (st4: Norm)
    requires Name(x) && q == n + 1 + |x| && q < |s| && s[n] == '/' && s[n + 1..q] == x && s[q] == '/'
    requires st2.i == q + 1 && st2.skip == 1 && !st2.over
    ensures st4.i == n + 1 && st4.out == Blanks(|x|) + ([NUL] + st2.out) && st4.skip == 0 && !st4.over
    ensures Loop(s, st2) == Loop(s, st4)
  {
    XIsNoDotEntry(s, n, x);
    SlashStep(s, st2);
    var st3 := Step(s, st2).st;
    BlankStep(s, st3, n + 1);
    st4 := Step(s, st3).st;
    LoopNext(s, st2, st3);
    LoopNext(s, st3, st4);
  }

  /** The turns over "/../" read from its end: the separator written is taken back, one ".." is pending. */
  lemma DotDotPending(s: string, q: nat, st: Norm) returns (st2: Norm)
    requires 1 <= q && q + 4 <= |s| && !IsSlash(s[q - 1])
    requires s[q] == '/' && s[q + 1] == '.' && s[q + 2] == '.' && s[q + 3] == '/'
    requires st.i == q + 4 && st.skip == 0 && !st.over
    ensures st2.i == q + 1 && st2.out == st.out && st2.skip == 1 && !st2.over
    ensures Loop(s, st) == Loop(s, st2)
  {
    SlashStep(s, st);
    var st1 := Step(s, st).st;
    assert !DotEntry(s, q + 3) && DotDotEntry(s, q + 3);
    DotDotStep(s, st1);
    st2 := Step(s, st1).st;
    LoopNext(s, st, st1);
    LoopNext(s, st1, st2);
  }

  /** The entry x, placed after a separator, is read as a character run. */
  lemma XIsNoDotEntry(s: string, n: nat, x: string)
    requires Name(x) && n + 1 + |x| <= |s| && s[n] == '/' && s[n + 1..n + 1 + |x|] == x
    ensures var q := n + 1 + |x|;
      !IsSlash(s[q - 1]) && !DotEntry(s, q) && !DotDotEntry(s, q)
      && forall p :: n + 1 <= p < q ==> !IsSlash(s[p])
  {
    var q := n + 1 + |x|;
    forall p | n + 1 <= p < q ensures !IsSlash(s[p]) {
      assert s[p] == x[p - n - 1];
    }
    if |x| == 1 {
      assert x == [s[q - 1]];
      assert s[q - 2] == '/';
    } else if |x| == 2 {
      assert s[q - 2] == x[0] && s[q - 1] == x[1];
      assert x == [s[q - 2], s[q - 1]];
      assert !IsSlash(s[q - 2]);
    } else {
      assert s[q - 2] == x[|x| - 2] && s[q - 3] == x[|x| - 3];
    }
  }

  /** Squeezing a run of blanks out from between two NUL-free strings joins them. */
  lemma DropBlanks(a: string, n: nat, b: string)
    requires NUL !in a && NUL !in b
    ensures DropNul(a + Blanks(n) + b) == a + b
  {
    var z := Blanks(n);
    assert a + z + b == a + (z + b);
    DropNulJoin(a, z + b);
    DropNulJoin(z, b);
    NoNulKept(a);
    NoNulKept(b);
    BlanksDropped(n);
    assert DropNul(z + b) == b;
  }

  lemma {:induction false} DropNulJoin(a: string, b: string)
    ensures DropNul(a + b) == DropNul(a) + DropNul(b)
    decreases |a|
  {
    if a != [] {
      assert (a + b)[1..] == a[1..] + b;
      DropNulJoin(a[1..], b);
    } else {
      assert a + b == b;
    }
  }

  lemma {:induction false} BlanksDropped(n: nat)
    ensures DropNul(Blanks(n)) == []
    decreases n
  {
    if n > 0 {
      assert Blanks(n)[1..] == Blanks(n - 1);
      BlanksDropped(n - 1);
    }
  }
}
