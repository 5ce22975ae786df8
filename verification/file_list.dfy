/**
 * The sorted file list of the file system abstraction layer: entries are added with a path,
 * which is normalised (giving a path and a depth in the file tree); before the first lookup
 * the list is sorted by depth, then by path, and a table of where each depth's bucket starts
 * is built; a lookup binary-searches the bucket of the key's depth.
 *
 * Two defects of the lookup are modelled next to their corrections (see Variant): the depth
 * table fills the slots of skipped depths with the start of the previous bucket instead of
 * the current index, and an empty search range is answered as if it were a hit.
 */
module FileList {
  import opened Wrappers
  import opened PathNormalization

  /** An entry: its normalised path, its depth in the file tree, and the data stored for it. */
  datatype Entry<D> = Entry(path: string, depth: int, data: D)

  /** What a lookup searches for: a normalised path and its depth. */
  datatype Key = Key(path: string, depth: int)

  /** The lookup key of a path. */
  function KeyOf(p: string): (k: Key)
    ensures NUL !in k.path
  {
    var n := Normalize(p);
    Key(n.path, n.depth)
  }

  /** The entry built from a path and its data. */
  function EntryOf<D>(p: string, data: D): (e: Entry<D>)
    ensures e.path == KeyOf(p).path && e.depth == KeyOf(p).depth && e.data == data
  {
    var n := Normalize(p);
    Entry(n.path, n.depth, data)
  }

  predicate Matches<D>(e: Entry<D>, key: Key)
  {
    e.path == key.path && e.depth == key.depth
  }

  // ---------------------------------------------------------------------------------------
  // Order: depth first, then the path, character by character
  // ---------------------------------------------------------------------------------------

  /** Lexicographic order of strings, a proper prefix coming first. */
  predicate PathLess(a: string, b: string)
    decreases |a|
  {
    if a == [] then b != []
    else b != [] && (a[0] < b[0] || (a[0] == b[0] && PathLess(a[1..], b[1..])))
  }

  lemma {:induction false} PathLessIrreflexive(a: string)
    ensures !PathLess(a, a)
    decreases |a|
  {
    if a != [] {
      PathLessIrreflexive(a[1..]);
    }
  }

  lemma {:induction false} PathLessTransitive(a: string, b: string, c: string)
    requires PathLess(a, b) && PathLess(b, c)
    ensures PathLess(a, c)
    decreases |a|
  {
    if a != [] && a[0] == b[0] && b[0] == c[0] {
      PathLessTransitive(a[1..], b[1..], c[1..]);
    }
  }

  lemma PathLessAsymmetric(a: string, b: string)
    requires PathLess(a, b)
    ensures !PathLess(b, a)
  {
    if PathLess(b, a) {
      PathLessTransitive(a, b, a);
      PathLessIrreflexive(a);
    }
  }

  /** Two different strings are ordered one way or the other. */
  lemma {:induction false} PathLessTotal(a: string, b: string)
    requires a != b
    ensures PathLess(a, b) || PathLess(b, a)
    decreases |a|
  {
    if a != [] && b != [] && a[0] == b[0] {
      assert a == [a[0]] + a[1..] && b == [b[0]] + b[1..];
      PathLessTotal(a[1..], b[1..]);
    }
  }

  /** Not after b, and b before c: before c. */
  lemma PathLeLess(a: string, b: string, c: string)
    requires !PathLess(b, a) && PathLess(b, c)
    ensures PathLess(a, c)
  {
    if a != b {
      PathLessTotal(a, b);
      PathLessTransitive(a, b, c);
    }
  }

  /** Before b, and b not after c: before c. */
  lemma PathLessLe(a: string, b: string, c: string)
    requires PathLess(a, b) && !PathLess(c, b)
    ensures PathLess(a, c)
  {
    if b != c {
      PathLessTotal(b, c);
      PathLessTransitive(a, b, c);
    }
  }

  /** The entry order: the shallower entry first; at equal depth, the path order. */
  predicate EntryLess<D>(a: Entry<D>, b: Entry<D>)
  {
    if a.depth == b.depth then PathLess(a.path, b.path) else a.depth < b.depth
  }

  /** Not after: the order is total on (depth, path), so this is its reflexive closure. */
  predicate EntryLe<D>(a: Entry<D>, b: Entry<D>)
  {
    !EntryLess(b, a)
  }

  lemma EntryLeTransitive<D>(a: Entry<D>, b: Entry<D>, c: Entry<D>)
    requires EntryLe(a, b) && EntryLe(b, c)
    ensures EntryLe(a, c)
  {
    if a.depth == b.depth == c.depth && PathLess(c.path, a.path) {
      if a.path != b.path {
        PathLessTotal(a.path, b.path);
        PathLessTransitive(c.path, a.path, b.path);
      }
    }
  }

  /** Two entries neither before the other have the same depth and path. */
  lemma EntryLeBoth<D>(a: Entry<D>, b: Entry<D>)
    requires EntryLe(a, b) && EntryLe(b, a)
    ensures a.depth == b.depth && a.path == b.path
  {
    if a.depth == b.depth && a.path != b.path {
      PathLessTotal(a.path, b.path);
    }
  }

  /** Sorted: no entry is before an entry to its left. */
  predicate Sorted<D>(es: seq<Entry<D>>)
  {
    forall i, j :: 0 <= i < j < |es| ==> EntryLe(es[i], es[j])
  }

  // ---------------------------------------------------------------------------------------
  // Sorting the list
  // ---------------------------------------------------------------------------------------

  /** Inserting e before the first entry that is not before it. */
  function Insert<D>(e: Entry<D>, es: seq<Entry<D>>): (r: seq<Entry<D>>)
    ensures multiset(r) == multiset{e} + multiset(es) && |r| == |es| + 1
  {
    if es == [] then [e]
    else if EntryLess(es[0], e) then
      assert es == [es[0]] + es[1..];
      [es[0]] + Insert(e, es[1..])
    else [e] + es
  }

  lemma {:induction false} InsertSorted<D>(e: Entry<D>, es: seq<Entry<D>>)
    requires Sorted(es)
    ensures Sorted(Insert(e, es))
    decreases |es|
  {
    if es == [] {
    } else if EntryLess(es[0], e) {
      var rest := Insert(e, es[1..]);
      InsertSorted(e, es[1..]);
      forall x | x in rest ensures EntryLe(es[0], x) {
        assert x in multiset(rest);
        if x == e {
          if es[0].depth == e.depth {
            PathLessAsymmetric(es[0].path, e.path);
          }
        } else {
          assert x in multiset(es[1..]);
          var k :| 0 <= k < |es[1..]| && es[1..][k] == x;
          assert es[k + 1] == x;
        }
      }
      var r := [es[0]] + rest;
      forall i, j | 0 <= i < j < |r| ensures EntryLe(r[i], r[j]) {
        if i == 0 {
          assert r[j] == rest[j - 1];
          assert r[j] in rest;
        } else {
          assert r[i] == rest[i - 1] && r[j] == rest[j - 1];
        }
      }
    } else {
      var r := [e] + es;
      forall i, j | 0 <= i < j < |r| ensures EntryLe(r[i], r[j]) {
        if i == 0 {
          assert r[j] == es[j - 1];
          if j > 1 {
            EntryLeTransitive(e, es[0], es[j - 1]);
          }
        } else {
          assert r[i] == es[i - 1] && r[j] == es[j - 1];
        }
      }
    }
  }

  /** The sort done before the first lookup, as an insertion sort. */
  function Sort<D>(es: seq<Entry<D>>): (r: seq<Entry<D>>)
    ensures multiset(r) == multiset(es) && |r| == |es|
  {
    if es == [] then []
    else
      assert es == [es[0]] + es[1..];
      Insert(es[0], Sort(es[1..]))
  }

  /** The sort orders the entries and keeps each one. */
  lemma {:induction false} SortSorted<D>(es: seq<Entry<D>>)
    ensures Sorted(Sort(es)) && multiset(Sort(es)) == multiset(es)
  {
    if es != [] {
      SortSorted(es[1..]);
      InsertSorted(es[0], Sort(es[1..]));
    }
  }

  /** An entry is in the sorted list exactly when it was in the list. */
  lemma SortSameEntries<D>(es: seq<Entry<D>>, e: Entry<D>)
    ensures e in Sort(es) <==> e in es
  {
    assert e in Sort(es) <==> e in multiset(Sort(es));
    assert e in es <==> e in multiset(es);
  }

  // ---------------------------------------------------------------------------------------
  // Comparing C strings
  // ---------------------------------------------------------------------------------------

  /** The character code at the head of a C string: 0 at its end. */
  function Head(s: string): int
  {
    if s == [] then 0 else s[0] as int
  }

  /**
   * Comparing two C strings up to the first difference or their common end: the difference
   * of the first differing characters.
   */
  function StrCmp(l: string, r: string): int
    decreases |l|
  {
    if l != [] && r != [] && l[0] == r[0] && l[0] != NUL then StrCmp(l[1..], r[1..])
    else Head(l) - Head(r)
  }

  /** For strings without NUL the comparison is zero exactly for equal strings and negative exactly for the path order. */
  lemma {:induction false} StrCmpOrder(a: string, b: string)
    requires NUL !in a && NUL !in b
    ensures StrCmp(a, b) == 0 <==> a == b
    ensures StrCmp(a, b) < 0 <==> PathLess(a, b)
    decreases |a|
  {
    if a != [] && b != [] && a[0] == b[0] {
      assert a[0] != NUL;
      assert NUL !in a[1..] && NUL !in b[1..];
      assert a == [a[0]] + a[1..] && b == [b[0]] + b[1..];
      StrCmpOrder(a[1..], b[1..]);
    } else if a != [] && b == [] {
      assert a[0] != NUL;
    } else if a == [] && b != [] {
      assert b[0] != NUL;
    }
  }

  // ---------------------------------------------------------------------------------------
  // The depth table
  // ---------------------------------------------------------------------------------------

  /** The lookup as the code has it, or with its two defects corrected. */
  datatype Variant = AsWritten | Corrected

  /** No entry lies above the root. */
  predicate NonNegative<D>(es: seq<Entry<D>>)
  {
    forall k :: 0 <= k < |es| ==> es[k].depth >= 0
  }

  /** Depths never decrease along the list. */
  predicate DepthSorted<D>(es: seq<Entry<D>>)
  {
    forall a, b :: 0 <= a < b < |es| ==> es[a].depth <= es[b].depth
  }

  lemma SortedDepthSorted<D>(es: seq<Entry<D>>)
    requires Sorted(es)
    ensures DepthSorted(es)
  {
    forall a, b | 0 <= a < b < |es| ensures es[a].depth <= es[b].depth {
      assert EntryLe(es[a], es[b]);
    }
  }

  /** A vector resized to n: cut short, or grown with copies of v. */
  function Resize(t: seq<int>, n: nat, v: int): (r: seq<int>)
    ensures |r| == n
    ensures forall k :: 0 <= k < n && k < |t| ==> r[k] == t[k]
    ensures forall k :: |t| <= k < n ==> r[k] == v
  {
    if n <= |t| then t[..n] else t + seq(n - |t|, _ => v)
  }

  /** The table being built and the depth of the bucket being read; the table reaches that depth. */
  datatype Slots = Slots(depth: nat, table: seq<int>)

  predicate SlotsOk(sl: Slots)
  {
    |sl.table| == sl.depth + 1
  }

  /**
   * One turn at entry i: at an entry of another depth the table is resized to reach that
   * depth and the entry's index is stored there. As written, the slots of the depths skipped
   * are filled with the start of the current bucket; corrected, with the entry's index.
   */
  function TableTurn<D>(es: seq<Entry<D>>, i: nat, sl: Slots, v: Variant): (r: Slots)
    requires i < |es| && SlotsOk(sl) && NonNegative(es)
    ensures SlotsOk(r) && r.depth == es[i].depth
  {
    if es[i].depth == sl.depth then sl
    else
      var nd: nat := es[i].depth;
      var fill := if v == AsWritten then sl.table[sl.depth] else i;
      Slots(nd, Resize(sl.table, nd + 1, fill)[nd := i])
  }

  /** The table built from entry i on. */
  function TableFrom<D>(es: seq<Entry<D>>, i: nat, sl: Slots, v: Variant): seq<int>
    requires i <= |es| && SlotsOk(sl) && NonNegative(es)
    decreases |es| - i
  {
    if i == |es| then sl.table else TableFrom(es, i + 1, TableTurn(es, i, sl, v), v)
  }

  /** The depth table: bucket bounds from depth 0 on, closed with the list's length. */
  function DepthTable<D>(es: seq<Entry<D>>, v: Variant): seq<int>
    requires NonNegative(es)
  {
    TableFrom(es, 0, Slots(0, [0]), v) + [|es|]
  }

  /** Table values are indices into the list, up to its length, and never decrease. */
  predicate TableOk(t: seq<int>, n: int)
  {
    && (forall k :: 0 <= k < |t| ==> 0 <= t[k] <= n)
    && (forall a, b :: 0 <= a < b < |t| ==> t[a] <= t[b])
  }

  /** A turn keeps the table's values at most the next index and ascending. */
  lemma TurnOk<D>(es: seq<Entry<D>>, i: nat, sl: Slots, v: Variant)
    requires i < |es| && SlotsOk(sl) && NonNegative(es) && TableOk(sl.table, i)
    ensures TableOk(TableTurn(es, i, sl, v).table, i + 1)
  {
    if es[i].depth != sl.depth {
      var t := sl.table;
      var nd: nat := es[i].depth;
      var fill := if v == AsWritten then t[sl.depth] else i;
      var t' := Resize(t, nd + 1, fill)[nd := i];
      forall a, b | 0 <= a < b < |t'| ensures t'[a] <= t'[b] {
        if b < |t| && b < nd {
          assert t'[a] == t[a] && t'[b] == t[b];
        } else if a < |t| {
          assert t'[a] == t[a] && t[a] <= t[sl.depth];
        }
      }
    }
  }

  lemma {:induction false} TableFromOk<D>(es: seq<Entry<D>>, i: nat, sl: Slots, v: Variant)
    requires i <= |es| && SlotsOk(sl) && NonNegative(es) && TableOk(sl.table, i)
    ensures TableOk(TableFrom(es, i, sl, v), |es|) && |TableFrom(es, i, sl, v)| >= 1
    decreases |es| - i
  {
    if i < |es| {
      TurnOk(es, i, sl, v);
      TableFromOk(es, i + 1, TableTurn(es, i, sl, v), v);
    }
  }

  /** The depth table of either variant is well formed, whatever the order of the list. */
  lemma DepthTableOk<D>(es: seq<Entry<D>>, v: Variant)
    requires NonNegative(es)
    ensures TableOk(DepthTable(es, v), |es|) && |DepthTable(es, v)| >= 2
  {
    TableFromOk(es, 0, Slots(0, [0]), v);
  }

  /** b splits the list at depth d: the entries before b are shallower, the others not. */
  predicate DepthCut<D>(es: seq<Entry<D>>, d: int, b: int)
  {
    && 0 <= b <= |es|
    && (forall k :: 0 <= k < b ==> es[k].depth < d)
    && (forall k :: b <= k < |es| ==> es[k].depth >= d)
  }

  /** What the corrected table keeps while it is built over a list sorted by depth. */
  predicate CutsSoFar<D>(es: seq<Entry<D>>, i: nat, sl: Slots)
  {
    && i <= |es| && SlotsOk(sl)
    && (i == 0 ==> sl.depth == 0)
    && (i > 0 ==> es[i - 1].depth == sl.depth)
    && AllCut(es, sl.table)
  }

  /** Every slot of t cuts the list at its depth. */
  predicate AllCut<D>(es: seq<Entry<D>>, t: seq<int>)
  {
    forall d :: 0 <= d < |t| ==> DepthCut(es, d, t[d])
  }

  /** Every entry is shallower than n. */
  predicate Shallower<D>(es: seq<Entry<D>>, n: int)
  {
    forall k :: 0 <= k < |es| ==> es[k].depth < n
  }

  lemma {:induction false} TableFromCuts<D>(es: seq<Entry<D>>, i: nat, sl: Slots)
    requires DepthSorted(es) && NonNegative(es) && CutsSoFar(es, i, sl)
    ensures AllCut(es, TableFrom(es, i, sl, Corrected))
    ensures Shallower(es, |TableFrom(es, i, sl, Corrected)|)
    decreases |es| - i
  {
    if i == |es| {
      CutsDone(es, sl);
    } else {
      CutsTurn(es, i, sl);
      TableFromCuts(es, i + 1, TableTurn(es, i, sl, Corrected));
    }
  }

  /** At the end of the list, every entry is at most as deep as the last one. */
  lemma CutsDone<D>(es: seq<Entry<D>>, sl: Slots)
    requires DepthSorted(es) && CutsSoFar(es, |es|, sl)
    ensures Shallower(es, |sl.table|)
  {
    forall k | 0 <= k < |es| ensures es[k].depth < |sl.table| {
      assert es[k].depth <= es[|es| - 1].depth;
    }
  }

  /** At an entry of a new depth, the corrected table gets that depth, and the ones skipped, cut at the entry. */
  lemma CutsTurn<D>(es: seq<Entry<D>>, i: nat, sl: Slots)
    requires DepthSorted(es) && NonNegative(es) && CutsSoFar(es, i, sl) && i < |es|
    ensures CutsSoFar(es, i + 1, TableTurn(es, i, sl, Corrected))
  {
    if es[i].depth != sl.depth {
      var t := sl.table;
      var nd: nat := es[i].depth;
      assert nd > sl.depth by {
        if i > 0 {
          assert es[i - 1].depth <= es[i].depth;
        }
      }
      var t' := Resize(t, nd + 1, i)[nd := i];
      forall d | 0 <= d < |t'| ensures DepthCut(es, d, t'[d]) {
        if d < |t| {
          assert t'[d] == t[d];
        } else {
          assert t'[d] == i;
          CutAt(es, i, d);
        }
      }
    }
  }

  /** Between two depths of a list sorted by depth, the index of the deeper entry cuts. */
  lemma CutAt<D>(es: seq<Entry<D>>, i: nat, d: int)
    requires DepthSorted(es) && i < |es| && (i > 0 ==> es[i - 1].depth < d) && d <= es[i].depth
    ensures DepthCut(es, d, i)
  {
    forall k | 0 <= k < i ensures es[k].depth < d {
      assert es[k].depth <= es[i - 1].depth;
    }
    forall k | i <= k < |es| ensures es[k].depth >= d {
      assert es[i].depth <= es[k].depth;
    }
  }

  /**
   * The corrected table over a list sorted by depth: slot d is where depth d begins, for
   * every slot, and every depth present has a slot before the last.
   */
  lemma CorrectedTableCuts<D>(es: seq<Entry<D>>)
    requires DepthSorted(es) && NonNegative(es)
    ensures var t := DepthTable(es, Corrected);
      && (forall d :: 0 <= d < |t| ==> DepthCut(es, d, t[d]))
      && (forall k :: 0 <= k < |es| ==> es[k].depth + 1 < |t|)
  {
    TableFromCuts(es, 0, Slots(0, [0]));
    var r := TableFrom(es, 0, Slots(0, [0]), Corrected);
    var t := DepthTable(es, Corrected);
    forall d | 0 <= d < |t| ensures DepthCut(es, d, t[d]) {
      if d < |r| {
        assert t[d] == r[d];
      }
    }
  }

  // ---------------------------------------------------------------------------------------
  // The binary search in one bucket
  // ---------------------------------------------------------------------------------------

  /** A search ends on the index of an equal path, or with the lower bound of the key. */
  datatype Probe = Hit(index: nat) | Miss(lower: nat)

  /**
   * The binary search over count entries from left: the middle entry is compared with the
   * key; equal ends the search; smaller moves the range past it; greater keeps the half below it.
   */
  function Search<D>(es: seq<Entry<D>>, key: string, left: nat, count: nat): (r: Probe)
    requires left + count <= |es|
    ensures r.Hit? ==> left <= r.index < left + count
    ensures r.Miss? ==> left <= r.lower <= left + count
    decreases count
  {
    if count == 0 then Miss(left)
    else
      var step := count / 2;
      var it := left + step;
      var res := StrCmp(es[it].path, key);
      if res == 0 then Hit(it)
      else if res < 0 then Search(es, key, it + 1, count - (step + 1))
      else Search(es, key, left, step)
  }

  /** The paths from lo to hi are in order and hold no NUL. */
  predicate PathsSorted<D>(es: seq<Entry<D>>, lo: nat, hi: nat)
  {
    && lo <= hi <= |es|
    && (forall a, b :: lo <= a < b < hi ==> InOrder(es, a, b))
    && (forall k :: lo <= k < hi ==> NUL !in es[k].path)
  }

  /** The path at a is not after the path at b. */
  predicate InOrder<D>(es: seq<Entry<D>>, a: nat, b: nat)
    requires a < |es| && b < |es|
  {
    !PathLess(es[b].path, es[a].path)
  }

  /** The path at k is before the key. */
  predicate Before<D>(es: seq<Entry<D>>, k: nat, key: string)
    requires k < |es|
  {
    PathLess(es[k].path, key)
  }

  /** The path at k is after the key. */
  predicate After<D>(es: seq<Entry<D>>, k: nat, key: string)
    requires k < |es|
  {
    PathLess(key, es[k].path)
  }

  /** Every path from lo to b is before the key. */
  predicate Below<D>(es: seq<Entry<D>>, key: string, lo: nat, b: nat)
    requires b <= |es|
  {
    forall k :: lo <= k < b ==> Before(es, k, key)
  }

  /** Every path from b to hi is after the key. */
  predicate Above<D>(es: seq<Entry<D>>, key: string, b: nat, hi: nat)
    requires hi <= |es|
  {
    forall k :: b <= k < hi ==> After(es, k, key)
  }

  /**
   * Over paths in order, the search finds the key if it is there, and otherwise stops at
   * the key's lower bound: the paths before it are before the key, the others after it.
   */
  lemma {:induction false} SearchFinds<D>(es: seq<Entry<D>>, key: string, lo: nat, hi: nat, left: nat, count: nat)
    requires PathsSorted(es, lo, hi) && NUL !in key && lo <= left && left + count <= hi
    requires Below(es, key, lo, left) && Above(es, key, left + count, hi)
    ensures Found(es, key, lo, hi, Search(es, key, left, count))
    decreases count, 1
  {
    if count > 0 {
      var step := count / 2;
      var it := left + step;
      StrCmpOrder(es[it].path, key);
      var res := StrCmp(es[it].path, key);
      if res < 0 {
        assert Before(es, it, key);
        SearchRight(es, key, left, count);
        SearchPastMiddle(es, key, lo, hi, left, count);
      } else if res > 0 {
        PathLessTotal(es[it].path, key);
        assert After(es, it, key);
        SearchLeft(es, key, left, count);
        SearchBeforeMiddle(es, key, lo, hi, left, count);
      } else {
        assert Search(es, key, left, count) == Hit(it);
      }
    } else {
      assert Search(es, key, left, count) == Miss(left);
    }
  }

  /** The middle path is before the key: the search goes on past it. */
  lemma {:induction false} SearchPastMiddle<D>(es: seq<Entry<D>>, key: string, lo: nat, hi: nat, left: nat, count: nat)
    requires PathsSorted(es, lo, hi) && NUL !in key && lo <= left && left + count <= hi && count > 0
    requires Below(es, key, lo, left) && Above(es, key, left + count, hi)
    requires Before(es, left + count / 2, key)
    requires Search(es, key, left, count) == Search(es, key, left + count / 2 + 1, count - (count / 2 + 1))
    ensures Found(es, key, lo, hi, Search(es, key, left, count))
    decreases count, 0
  {
    var step := count / 2;
    var it := left + step;
    BelowExtends(es, key, lo, hi, left, it);
    SearchFinds(es, key, lo, hi, it + 1, count - (step + 1));
  }

  /** A middle path after the key: the search is the one over the entries before it. */
  lemma SearchLeft<D>(es: seq<Entry<D>>, key: string, left: nat, count: nat)
    requires left + count <= |es| && count > 0 && StrCmp(es[left + count / 2].path, key) > 0
    ensures Search(es, key, left, count) == Search(es, key, left, count / 2)
  {
  }

  /** A middle path before the key: the search is the one over the entries past it. */
  lemma SearchRight<D>(es: seq<Entry<D>>, key: string, left: nat, count: nat)
    requires left + count <= |es| && count > 0 && StrCmp(es[left + count / 2].path, key) < 0
    ensures Search(es, key, left, count) == Search(es, key, left + count / 2 + 1, count - (count / 2 + 1))
  {
  }

  /** The middle path is after the key: the search goes on in the half before it. */
  lemma {:induction false} SearchBeforeMiddle<D>(es: seq<Entry<D>>, key: string, lo: nat, hi: nat, left: nat, count: nat)
    requires PathsSorted(es, lo, hi) && NUL !in key && lo <= left && left + count <= hi && count > 0
    requires Below(es, key, lo, left) && Above(es, key, left + count, hi)
    requires After(es, left + count / 2, key)
    requires Search(es, key, left, count) == Search(es, key, left, count / 2)
    ensures Found(es, key, lo, hi, Search(es, key, left, count))
    decreases count, 0
  {
    var step := count / 2;
    var it := left + step;
    AboveExtends(es, key, lo, hi, it, left + count);
    SearchFinds(es, key, lo, hi, left, step);
  }

  /** What a search over the paths from lo to hi ends with: an equal path, or the key's lower bound. */
  predicate Found<D>(es: seq<Entry<D>>, key: string, lo: nat, hi: nat, p: Probe)
    requires hi <= |es|
  {
    match p
    case Hit(i) => i < |es| && es[i].path == key
    case Miss(b) => lo <= b <= hi && Below(es, key, lo, b) && Above(es, key, b, hi)
  }

  /** A path before the key: so are all paths from left up to it. */
  lemma BelowExtends<D>(es: seq<Entry<D>>, key: string, lo: nat, hi: nat, left: nat, it: nat)
    requires PathsSorted(es, lo, hi) && lo <= left <= it < hi && Below(es, key, lo, left)
    requires PathLess(es[it].path, key)
    ensures Below(es, key, lo, it + 1)
  {
    forall k | left <= k < it + 1 ensures Before(es, k, key) {
      if k < it {
        assert InOrder(es, k, it);
        PathLeLess(es[k].path, es[it].path, key);
      }
    }
  }

  /** A path after the key: so are all paths from it up to the ones known to be after it. */
  lemma AboveExtends<D>(es: seq<Entry<D>>, key: string, lo: nat, hi: nat, it: nat, b: nat)
    requires PathsSorted(es, lo, hi) && lo <= it < b <= hi && Above(es, key, b, hi)
    requires PathLess(key, es[it].path)
    ensures Above(es, key, it, hi)
  {
    forall k | it <= k < b ensures After(es, k, key) {
      if it < k {
        assert InOrder(es, it, k);
        PathLessLe(key, es[it].path, es[k].path);
      }
    }
  }

  // ---------------------------------------------------------------------------------------
  // The lookup
  // ---------------------------------------------------------------------------------------

  /**
   * GetIndex: no bucket for the key's depth gives (-1, -1); otherwise the key's bucket is
   * searched; a hit gives (i, i), a miss (-1, -1), or (lower bound, bucket end) when the lower
   * bound was asked for. As written, an empty bucket gives (left, right) at once.
   */
  function GetIndex<D>(es: seq<Entry<D>>, t: seq<int>, key: Key, lowerBound: bool, v: Variant): (r: (int, int))
    requires TableOk(t, |es|) && key.depth >= 0
    ensures r == (-1, -1) || 0 <= r.0 <= r.1 <= |es|
  {
    if key.depth + 1 >= |t| then (-1, -1)
    else
      var right := t[key.depth + 1];
      var left := t[key.depth];
      if v == AsWritten && right - left == 0 then (left, right)
      else
        match Search(es, key.path, left, right - left)
        case Hit(i) => (i, i)
        case Miss(lb) => if lowerBound then (lb, right) else (-1, -1)
  }

  /** The list entries are added to; it is sorted and its table built at the first lookup. */
  datatype FileList<D> = FileList(entries: seq<Entry<D>>)

  /** Add: the path is normalised into an entry, which is appended. */
  function Add<D>(fl: FileList<D>, data: D, p: string): (r: FileList<D>)
    ensures Valid(fl) && KeyOf(p).depth >= 0 ==> Valid(r)
    ensures Valid(fl) && KeyOf(p).depth >= 0 ==> Exists(r, KeyOf(p), Corrected)
    ensures (forall e :: e in fl.entries ==> !Matches(e, KeyOf(p))) ==>
      forall e :: e in r.entries && Matches(e, KeyOf(p)) ==> e == EntryOf(p, data)
  {
    var r := FileList(fl.entries + [EntryOf(p, data)]);
    AppendedOnly(fl.entries, EntryOf(p, data), KeyOf(p));
    assert r.entries[|fl.entries|] == EntryOf(p, data);
    assert EntryOf(p, data) in r.entries && Matches(EntryOf(p, data), KeyOf(p));
    r
  }

  /** Appending e' to entries none of which match the key leaves e' the only match. */
  lemma AppendedOnly<D>(es: seq<Entry<D>>, e': Entry<D>, key: Key)
    ensures (forall e :: e in es ==> !Matches(e, key)) && Matches(e', key) ==>
      forall e :: e in es + [e'] && Matches(e, key) ==> e == e'
    ensures forall e :: e in es + [e'] ==> e in es || e == e'
  {
    forall e | e in es + [e'] ensures e in es || e == e' {
      var k :| 0 <= k < |es + [e']| && (es + [e'])[k] == e;
      if k < |es| {
        assert es[k] == e;
      }
    }
  }

  /** What lookups need of the entries: no depth above the root, no NUL in a path. */
  predicate Valid<D>(fl: FileList<D>)
  {
    NonNegative(fl.entries) && forall k :: 0 <= k < |fl.entries| ==> NUL !in fl.entries[k].path
  }

  /** The sorted list is valid when the list is. */
  lemma SortValid<D>(fl: FileList<D>)
    requires Valid(fl)
    ensures Valid(FileList(Sort(fl.entries)))
  {
    var r := Sort(fl.entries);
    forall k | 0 <= k < |r| ensures r[k].depth >= 0 && NUL !in r[k].path {
      SortSameEntries(fl.entries, r[k]);
      var j :| 0 <= j < |fl.entries| && fl.entries[j] == r[k];
    }
  }

  lemma SortNonNegative<D>(es: seq<Entry<D>>)
    requires NonNegative(es)
    ensures NonNegative(Sort(es))
  {
    var r := Sort(es);
    forall k | 0 <= k < |r| ensures r[k].depth >= 0 {
      SortSameEntries(es, r[k]);
      var j :| 0 <= j < |es| && es[j] == r[k];
    }
  }

  /** A lookup: sort, build the table, search. */
  function Lookup<D>(fl: FileList<D>, key: Key, lowerBound: bool, v: Variant): (r: (int, int))
    requires NonNegative(fl.entries) && key.depth >= 0
    ensures r == (-1, -1) || 0 <= r.0 <= r.1 <= |fl.entries|
  {
    var es := Sort(fl.entries);
    SortNonNegative(fl.entries);
    DepthTableOk(es, v);
    GetIndex(es, DepthTable(es, v), key, lowerBound, v)
  }

  /** Exists: the lookup's first index is not -1. */
  predicate Exists<D>(fl: FileList<D>, key: Key, v: Variant)
    requires NonNegative(fl.entries) && key.depth >= 0
    ensures Valid(fl) && NUL !in key.path && (v == Corrected || (fl.entries != [] && NoDepthSkipped(fl.entries))) ==>
      (Exists(fl, key, v) <==> exists e :: e in fl.entries && Matches(e, key))
  {
    LookupHits(fl, key, v);
    Lookup(fl, key, false, v).0 != -1
  }

  /** The lookup hits exactly when some entry matches, for either variant where they agree. */
  lemma LookupHits<D>(fl: FileList<D>, key: Key, v: Variant)
    requires NonNegative(fl.entries) && key.depth >= 0
    ensures Valid(fl) && NUL !in key.path && (v == Corrected || (fl.entries != [] && NoDepthSkipped(fl.entries))) ==>
      (Lookup(fl, key, false, v).0 != -1 <==> exists e :: e in fl.entries && Matches(e, key))
  {
    if Valid(fl) && NUL !in key.path && (v == Corrected || (fl.entries != [] && NoDepthSkipped(fl.entries))) {
      LookupFinds(fl, key, false);
      if v == AsWritten {
        LookupAgrees(fl, key, false);
      }
    }
  }

  /**
   * The data found for a key: the default when the lookup gives -1, else the data at the
   * index it gives; None stands for an index past the end of the list, which the code reads.
   */
  function FindAt<D>(fl: FileList<D>, key: Key, default: D, v: Variant): Option<D>
    requires NonNegative(fl.entries) && key.depth >= 0
  {
    var i := Lookup(fl, key, false, v).0;
    if i == -1 then Some(default)
    else if i < |fl.entries| then Some(Sort(fl.entries)[i].data)
    else None
  }

  /** FindEntry: the data stored for a path, or the default. */
  function FindEntry<D>(fl: FileList<D>, p: string, default: D): (r: Option<D>)
    requires NonNegative(fl.entries) && KeyOf(p).depth >= 0
    ensures Valid(fl) && (forall e :: e in fl.entries ==> !Matches(e, KeyOf(p))) ==> r == Some(default)
    ensures Valid(fl) && (exists e :: e in fl.entries && Matches(e, KeyOf(p))) ==>
      exists e :: e in fl.entries && Matches(e, KeyOf(p)) && r == Some(e.data)
  {
    FindAtFinds(fl, KeyOf(p), default);
    FindAt(fl, KeyOf(p), default, Corrected)
  }

  /** The corrected FindAt gives the data of a matching entry, or the default when none matches. */
  lemma FindAtFinds<D>(fl: FileList<D>, key: Key, default: D)
    requires NonNegative(fl.entries) && key.depth >= 0
    ensures Valid(fl) && NUL !in key.path && (forall e :: e in fl.entries ==> !Matches(e, key)) ==>
      FindAt(fl, key, default, Corrected) == Some(default)
    ensures Valid(fl) && NUL !in key.path && (exists e :: e in fl.entries && Matches(e, key)) ==>
      exists e :: e in fl.entries && Matches(e, key) && FindAt(fl, key, default, Corrected) == Some(e.data)
  {
    if Valid(fl) && NUL !in key.path {
      LookupFinds(fl, key, false);
      var es := Sort(fl.entries);
      var i := Lookup(fl, key, false, Corrected).0;
      if exists e :: e in fl.entries && Matches(e, key) {
        SortSameEntries(fl.entries, es[i]);
      }
    }
  }

  // ---------------------------------------------------------------------------------------
  // What the corrected lookup finds
  // ---------------------------------------------------------------------------------------

  /** Between the slots of depths d and d + 1 lie exactly the entries of depth d. */
  lemma BucketBounds<D>(es: seq<Entry<D>>, t: seq<int>, d: nat)
    requires AllCut(es, t) && d + 1 < |t|
    ensures forall k :: 0 <= k < |es| ==> (t[d] <= k < t[d + 1] <==> es[k].depth == d)
  {
    assert DepthCut(es, d, t[d]) && DepthCut(es, d + 1, t[d + 1]);
  }

  /** The paths of one depth are in order in a sorted list. */
  lemma BucketSorted<D>(es: seq<Entry<D>>, lo: nat, hi: nat, d: int)
    requires Sorted(es) && Valid(FileList(es)) && lo <= hi <= |es|
    requires forall k :: lo <= k < hi ==> es[k].depth == d
    ensures PathsSorted(es, lo, hi)
  {
    forall a, b | lo <= a < b < hi ensures InOrder(es, a, b) {
      assert EntryLe(es[a], es[b]);
    }
  }

  /**
   * lb is the key's lower bound in its depth's bucket, which ends at end: the entries from lb
   * to end have the key's depth and come after it; the entries of the key's depth lie before
   * end, and before lb exactly when they come before the key.
   */
  predicate LowerBoundAt<D>(es: seq<Entry<D>>, key: Key, lb: int, end: int)
  {
    && 0 <= lb <= end <= |es|
    && (forall k :: lb <= k < end ==> es[k].depth == key.depth && PathLess(key.path, es[k].path))
    && (forall k :: 0 <= k < |es| && es[k].depth == key.depth ==> k < end && (k < lb <==> PathLess(es[k].path, key.path)))
  }

  /** Some entry has the key's path and depth. */
  predicate Present<D>(es: seq<Entry<D>>, key: Key)
  {
    exists k :: 0 <= k < |es| && Matches(es[k], key)
  }

  /** The corrected GetIndex over a sorted list and its table. */
  lemma IndexFound<D>(es: seq<Entry<D>>, t: seq<int>, key: Key, lowerBound: bool)
    requires Sorted(es) && Valid(FileList(es)) && key.depth >= 0 && NUL !in key.path
    requires TableOk(t, |es|) && AllCut(es, t) && Shallower(es, |t| - 1)
    ensures var r := GetIndex(es, t, key, lowerBound, Corrected);
      && (Present(es, key) ==> r.0 == r.1 && 0 <= r.0 < |es| && Matches(es[r.0], key))
      && (!Present(es, key) ==> if lowerBound then r == (-1, -1) || LowerBoundAt(es, key, r.0, r.1) else r == (-1, -1))
  {
    var d: nat := key.depth;
    if d + 1 < |t| {
      BucketIndex(es, t, key, lowerBound, d);
    } else {
      assert !Present(es, key);
    }
  }

  /** The search in the key's bucket, when the table has one. */
  lemma BucketIndex<D>(es: seq<Entry<D>>, t: seq<int>, key: Key, lowerBound: bool, d: nat)
    requires Sorted(es) && Valid(FileList(es)) && key.depth == d && NUL !in key.path
    requires TableOk(t, |es|) && AllCut(es, t) && d + 1 < |t|
    ensures var r := GetIndex(es, t, key, lowerBound, Corrected);
      && (Present(es, key) ==> r.0 == r.1 && 0 <= r.0 < |es| && Matches(es[r.0], key))
      && (!Present(es, key) ==> if lowerBound then LowerBoundAt(es, key, r.0, r.1) else r == (-1, -1))
  {
    var left := t[d];
    var right := t[d + 1];
    assert left <= right;
    BucketBounds(es, t, d);
    BucketSorted(es, left, right, d);
    SearchFinds(es, key.path, left, right, left, right - left);
    var probe := Search(es, key.path, left, right - left);
    var r := GetIndex(es, t, key, lowerBound, Corrected);
    if probe.Miss? {
      if lowerBound {
        assert r == (probe.lower, right);
      } else {
        assert r == (-1, -1);
      }
      MissAbsent(es, key, left, right, probe.lower);
    } else {
      assert r == (probe.index, probe.index);
    }
  }

  /** A miss in the key's bucket: no entry matches, and the search stopped at the lower bound. */
  lemma MissAbsent<D>(es: seq<Entry<D>>, key: Key, left: nat, right: nat, lb: nat)
    requires left <= lb <= right <= |es|
    requires forall k :: 0 <= k < |es| ==> (left <= k < right <==> es[k].depth == key.depth)
    requires Below(es, key.path, left, lb) && Above(es, key.path, lb, right)
    ensures !Present(es, key) && LowerBoundAt(es, key, lb, right)
  {
    PathLessIrreflexive(key.path);
    forall k | 0 <= k < |es| && es[k].depth == key.depth
      ensures k < right && (k < lb <==> PathLess(es[k].path, key.path))
    {
      if k < lb {
        assert Before(es, k, key.path);
      } else {
        assert After(es, k, key.path);
        PathLessAsymmetric(key.path, es[k].path);
      }
    }
    forall k | lb <= k < right ensures es[k].depth == key.depth && PathLess(key.path, es[k].path) {
      assert After(es, k, key.path);
    }
    forall k | 0 <= k < |es| ensures !Matches(es[k], key) {
      if left <= k < lb {
        assert Before(es, k, key.path);
      } else if lb <= k < right {
        assert After(es, k, key.path);
      }
    }
  }

  /**
   * The corrected lookup of a key without NUL in a valid list: it gives an index pair (i, i)
   * with the key's path and depth exactly when some entry added has them, and (-1, -1)
   * otherwise; asked for the lower bound, a miss gives the key's lower bound in its bucket
   * and the bucket's end, or (-1, -1) past the deepest bucket.
   */
  lemma LookupFinds<D>(fl: FileList<D>, key: Key, lowerBound: bool)
    requires Valid(fl) && key.depth >= 0 && NUL !in key.path
    ensures var r := Lookup(fl, key, lowerBound, Corrected); var es := Sort(fl.entries);
      && ((exists e :: e in fl.entries && Matches(e, key)) ==> r.0 == r.1 && 0 <= r.0 < |es| && Matches(es[r.0], key))
      && ((forall e :: e in fl.entries ==> !Matches(e, key)) ==>
            if lowerBound then r == (-1, -1) || LowerBoundAt(es, key, r.0, r.1) else r == (-1, -1))
  {
    var es := Sort(fl.entries);
    SortSorted(fl.entries);
    SortValid(fl);
    SortedDepthSorted(es);
    CorrectedTableCuts(es);
    DepthTableOk(es, Corrected);
    var t := DepthTable(es, Corrected);
    assert Shallower(es, |t| - 1);
    IndexFound(es, t, key, lowerBound);
    PresentInSorted(fl.entries, key);
  }

  /** Some entry of the sorted list matches exactly when some entry added does. */
  lemma PresentInSorted<D>(es: seq<Entry<D>>, key: Key)
    ensures Present(Sort(es), key) <==> exists e :: e in es && Matches(e, key)
  {
    if Present(Sort(es), key) {
      var k :| 0 <= k < |Sort(es)| && Matches(Sort(es)[k], key);
      SortSameEntries(es, Sort(es)[k]);
    }
    if e :| e in es && Matches(e, key) {
      SortSameEntries(es, e);
      var k :| 0 <= k < |Sort(es)| && Sort(es)[k] == e;
    }
  }

  /** After adding a path that was not there, looking it up gives the data added with it. */
  lemma AddThenFind<D>(fl: FileList<D>, data: D, p: string, default: D)
    requires Valid(fl) && KeyOf(p).depth >= 0
    requires forall e :: e in fl.entries ==> !Matches(e, KeyOf(p))
    ensures Valid(Add(fl, data, p)) && FindEntry(Add(fl, data, p), p, default) == Some(data)
  {
    var fl' := Add(fl, data, p);
    var e' := EntryOf(p, data);
    assert e' == fl'.entries[|fl.entries|];
    assert e' in fl'.entries && Matches(e', KeyOf(p));
    forall e | e in fl'.entries && Matches(e, KeyOf(p)) ensures e == e' {
      var k :| 0 <= k < |fl'.entries| && fl'.entries[k] == e;
      assert forall j :: 0 <= j < |fl.entries| ==> fl'.entries[j] in fl.entries;
      assert k == |fl.entries|;
    }
  }

  // ---------------------------------------------------------------------------------------
  // Keys above the root
  // ---------------------------------------------------------------------------------------

  /** The path "." normalises to depth -1: its "." entry moves the depth one above the root. */
  lemma DotKeyAboveRoot()
    ensures KeyOf(".").depth == -1
  {
    var s := ".";
    assert DotEntry(s, 1);
    assert Step(s, Step(s, Start(s)).st) == Stop;
  }

  /**
   * As written, GetIndex's guard only turns away depths past the table's end: a key of depth
   * -1, such as the key of ".", passes it for every list, since the table has at least two
   * slots, and the code then reads the slot at index -1.
   */
  lemma AboveRootPassesGuard<D>(es: seq<Entry<D>>, v: Variant)
    requires NonNegative(es)
    ensures var key := KeyOf(".");
      !(key.depth + 1 >= |DepthTable(es, v)|) && key.depth < 0
  {
    DotKeyAboveRoot();
    DepthTableOk(es, v);
  }

  /** The lookup with the missing guard: a key above the root has no bucket and misses. */
  function LookupChecked<D>(fl: FileList<D>, key: Key, lowerBound: bool): (r: (int, int))
    requires NonNegative(fl.entries)
    ensures key.depth < 0 ==> r == (-1, -1)
    ensures r == (-1, -1) || 0 <= r.0 <= r.1 <= |fl.entries|
  {
    if key.depth < 0 then (-1, -1) else Lookup(fl, key, lowerBound, Corrected)
  }

  /**
   * The guarded lookup of any key without NUL in a valid list: an index pair (i, i) with the
   * key's path and depth exactly when some entry added has them, and (-1, -1) otherwise (or
   * the key's lower bound and its bucket's end when that was asked for).
   */
  lemma LookupCheckedFinds<D>(fl: FileList<D>, key: Key, lowerBound: bool)
    requires Valid(fl) && NUL !in key.path
    ensures var r := LookupChecked(fl, key, lowerBound); var es := Sort(fl.entries);
      && ((exists e :: e in fl.entries && Matches(e, key)) ==> r.0 == r.1 && 0 <= r.0 < |es| && Matches(es[r.0], key))
      && ((forall e :: e in fl.entries ==> !Matches(e, key)) ==>
            if lowerBound then r == (-1, -1) || LowerBoundAt(es, key, r.0, r.1) else r == (-1, -1))
  {
    if key.depth < 0 {
      forall e | e in fl.entries ensures !Matches(e, key) {
        var k :| 0 <= k < |fl.entries| && fl.entries[k] == e;
      }
    } else {
      LookupFinds(fl, key, lowerBound);
    }
  }

  /** FindEntry with the guard: the data stored for any path, or the default. */
  function FindEntryChecked<D>(fl: FileList<D>, p: string, default: D): Option<D>
    requires NonNegative(fl.entries)
  {
    var key := KeyOf(p);
    var i := LookupChecked(fl, key, false).0;
    if i == -1 then Some(default)
    else if i < |fl.entries| then Some(Sort(fl.entries)[i].data)
    else None
  }

  /** The guarded FindEntry gives the data of an entry added with the path's key, or the default. */
  lemma FindEntryCheckedFinds<D>(fl: FileList<D>, p: string, default: D)
    requires Valid(fl)
    ensures (forall e :: e in fl.entries ==> !Matches(e, KeyOf(p))) ==> FindEntryChecked(fl, p, default) == Some(default)
    ensures (exists e :: e in fl.entries && Matches(e, KeyOf(p))) ==>
      exists e :: e in fl.entries && Matches(e, KeyOf(p)) && FindEntryChecked(fl, p, default) == Some(e.data)
  {
    var key := KeyOf(p);
    LookupCheckedFinds(fl, key, false);
    var es := Sort(fl.entries);
    var i := LookupChecked(fl, key, false).0;
    if exists e :: e in fl.entries && Matches(e, key) {
      SortSameEntries(fl.entries, es[i]);
    }
  }

  /** "." is never found, whatever the list holds: the guarded lookup gives the default. */
  lemma DotNeverFound<D>(fl: FileList<D>, default: D)
    requires Valid(fl)
    ensures FindEntryChecked(fl, ".", default) == Some(default)
  {
    DotKeyAboveRoot();
  }

  // ---------------------------------------------------------------------------------------
  // The lookup as written
  // ---------------------------------------------------------------------------------------

  /** FindEntry as the code has it: the as-written table and empty-bucket answer. */
  function FindEntryAsWritten<D>(fl: FileList<D>, p: string, default: D): (r: Option<D>)
    requires NonNegative(fl.entries) && KeyOf(p).depth >= 0
    ensures fl.entries != [] && NoDepthSkipped(fl.entries) ==> r == FindEntry(fl, p, default)
  {
    LookupAgreesWhen(fl, KeyOf(p));
    FindAt(fl, KeyOf(p), default, AsWritten)
  }

  /** The two lookups agree whenever the list is not empty and skips no depth. */
  lemma LookupAgreesWhen<D>(fl: FileList<D>, key: Key)
    requires NonNegative(fl.entries) && key.depth >= 0
    ensures fl.entries != [] && NoDepthSkipped(fl.entries) ==>
      Lookup(fl, key, false, AsWritten) == Lookup(fl, key, false, Corrected)
  {
    if fl.entries != [] && NoDepthSkipped(fl.entries) {
      LookupAgrees(fl, key, false);
    }
  }

  /** Some entry has depth d. */
  predicate HasDepth<D>(es: seq<Entry<D>>, d: int)
  {
    exists j :: 0 <= j < |es| && es[j].depth == d
  }

  /** Every depth from the root down to the deepest entry has an entry. */
  predicate NoDepthSkipped<D>(es: seq<Entry<D>>)
  {
    forall k, d :: 0 <= k < |es| && 0 <= d <= es[k].depth ==> HasDepth(es, d)
  }

  /** The sort keeps the depths present. */
  lemma SortNoDepthSkipped<D>(es: seq<Entry<D>>)
    requires NoDepthSkipped(es)
    ensures NoDepthSkipped(Sort(es))
  {
    var r := Sort(es);
    forall k, d | 0 <= k < |r| && 0 <= d <= r[k].depth ensures HasDepth(r, d) {
      SortSameEntries(es, r[k]);
      var i :| 0 <= i < |es| && es[i] == r[k];
      assert HasDepth(es, d);
      var j :| 0 <= j < |es| && es[j].depth == d;
      SortSameEntries(es, es[j]);
      var j' :| 0 <= j' < |r| && r[j'] == es[j];
    }
  }

  /**
   * A list sorted by depth with no depth skipped starts at the root and goes down at most
   * one depth from an entry to the next.
   */
  lemma DepthSteps<D>(es: seq<Entry<D>>)
    requires DepthSorted(es) && NoDepthSkipped(es) && NonNegative(es)
    ensures es != [] ==> es[0].depth == 0
    ensures forall i :: 0 < i < |es| ==> es[i].depth <= es[i - 1].depth + 1
  {
    if es != [] {
      assert 0 <= 0 <= es[0].depth;
      assert HasDepth(es, 0);
      var j :| 0 <= j < |es| && es[j].depth == 0;
    }
    forall i | 0 < i < |es| ensures es[i].depth <= es[i - 1].depth + 1 {
      if es[i].depth > es[i - 1].depth + 1 {
        var d := es[i - 1].depth + 1;
        assert HasDepth(es, d);
        var j :| 0 <= j < |es| && es[j].depth == d;
      }
    }
  }

  /** A slot appended to a table: the value the table is grown with does not matter. */
  lemma GrowByOne(t: seq<int>, fill: int, i: int)
    ensures Resize(t, |t| + 1, fill)[|t| := i] == t + [i]
  {
  }

  /**
   * The two tables are built alike when each new depth is one deeper than the last: no
   * slot is ever filled with anything but the entry that opens it.
   */
  lemma {:induction false} TablesAgree<D>(es: seq<Entry<D>>, i: nat, sl: Slots)
    requires i <= |es| && SlotsOk(sl) && NonNegative(es) && DepthSorted(es)
    requires i < |es| ==> sl.depth <= es[i].depth <= sl.depth + 1
    requires forall k :: 0 < k < |es| ==> es[k].depth <= es[k - 1].depth + 1
    ensures TableFrom(es, i, sl, AsWritten) == TableFrom(es, i, sl, Corrected)
    decreases |es| - i
  {
    if i < |es| {
      if es[i].depth != sl.depth {
        GrowByOne(sl.table, sl.table[sl.depth], i);
        GrowByOne(sl.table, i, i);
      }
      var next := TableTurn(es, i, sl, Corrected);
      assert TableTurn(es, i, sl, AsWritten) == next;
      if i + 1 < |es| {
        assert es[i].depth <= es[i + 1].depth;
      }
      TablesAgree(es, i + 1, next);
    }
  }

  /** The table closes one slot past the depth of the last entry. */
  lemma {:induction false} TableFromSize<D>(es: seq<Entry<D>>, i: nat, sl: Slots, v: Variant)
    requires i <= |es| && SlotsOk(sl) && NonNegative(es) && es != []
    requires i > 0 ==> sl.depth == es[i - 1].depth
    ensures |TableFrom(es, i, sl, v)| == es[|es| - 1].depth + 1
    decreases |es| - i
  {
    if i < |es| {
      TableFromSize(es, i + 1, TableTurn(es, i, sl, v), v);
    }
  }

  /**
   * When no depth is skipped, the lookup as written and the corrected one give the same
   * answer for every key: the tables agree, and every bucket the table has is non-empty.
   */
  lemma LookupAgrees<D>(fl: FileList<D>, key: Key, lowerBound: bool)
    requires NonNegative(fl.entries) && key.depth >= 0
    requires fl.entries != [] && NoDepthSkipped(fl.entries)
    ensures Lookup(fl, key, lowerBound, AsWritten) == Lookup(fl, key, lowerBound, Corrected)
  {
    var es := Sort(fl.entries);
    SortSorted(fl.entries);
    SortedDepthSorted(es);
    SortNonNegative(fl.entries);
    SortNoDepthSkipped(fl.entries);
    DepthSteps(es);
    TablesAgree(es, 0, Slots(0, [0]));
    var t := DepthTable(es, Corrected);
    assert DepthTable(es, AsWritten) == t;
    DepthTableOk(es, Corrected);
    TableFromSize(es, 0, Slots(0, [0]), Corrected);
    var d := key.depth;
    if d + 1 < |t| {
      CorrectedTableCuts(es);
      assert DepthCut(es, d, t[d]) && DepthCut(es, d + 1, t[d + 1]);
      assert HasDepth(es, d) by {
        assert d <= es[|es| - 1].depth;
      }
      var j :| 0 <= j < |es| && es[j].depth == d;
      assert t[d] <= j < t[d + 1];
    }
  }

  /** When no depth is skipped, Exists as written holds exactly when the corrected one does. */
  lemma ExistsAgrees<D>(fl: FileList<D>, key: Key)
    requires NonNegative(fl.entries) && key.depth >= 0
    requires fl.entries != [] && NoDepthSkipped(fl.entries)
    ensures Exists(fl, key, AsWritten) <==> Exists(fl, key, Corrected)
  {
    LookupAgrees(fl, key, false);
  }

  /** A path with no separator, no NUL and not a dot entry is its own key, at depth 0. */
  lemma NameKey(p: string)
    requires p != [] && p != "." && p != ".." && forall k :: 0 <= k < |p| ==> !IsSlash(p[k]) && p[k] != NUL
    ensures KeyOf(p) == Key(p, 0)
  {
    assert |p| == 1 && p[0] == '.' ==> p == ".";
    assert |p| == 2 && p[0] == '.' && p[1] == '.' ==> p == "..";
    forall k | 0 <= k < |p| ensures OkAt(p, 0, |p|, k) {
    }
    CleanPathKept(p);
    SepsNone(p, 0, 0, |p|);
    forall k | 0 <= k < |p| ensures Slashed(p)[k] == p[k] {
      assert Slashed(p)[k] == SlashOf(p[k]);
    }
  }

  /**
   * Entries with the data 1, 2 and 3 for "a", "b" (depth 0) and "x/y/z" (depth 2), as Add
   * makes them: nothing at depth 1.
   */
  function SkippedDepthList(): FileList<int>
  {
    FileList([Entry("a", 0, 1), Entry("b", 0, 2), Entry("x/y/z", 2, 3)])
  }

  /**
   * As written, the table of SkippedDepthList fills the slot of depth 1 with the start of
   * depth 0's bucket, so depth 0's bucket looks empty and the lookup of "b" answers with the
   * entry of "a"; corrected, it answers with the entry of "b".
   */
  lemma SkippedDepthAsWritten()
    ensures FindAt(SkippedDepthList(), Key("b", 0), 0, AsWritten) == Some(1)
    ensures FindAt(SkippedDepthList(), Key("b", 0), 0, Corrected) == Some(2)
  {
    FindThreeAsWritten(SkippedDepthList());
    FindThreeCorrected(SkippedDepthList());
  }

  lemma FindThreeAsWritten(fl: FileList<int>)
    requires fl == SkippedDepthList()
    ensures FindAt(fl, Key("b", 0), 0, AsWritten) == Some(1)
  {
    LookupThreeAsWritten(fl);
    FindAtIndex(fl, Key("b", 0), 0, AsWritten, 0);
  }

  lemma FindThreeCorrected(fl: FileList<int>)
    requires fl == SkippedDepthList()
    ensures FindAt(fl, Key("b", 0), 0, Corrected) == Some(2)
  {
    LookupThreeCorrected(fl);
    FindAtIndex(fl, Key("b", 0), 0, Corrected, 1);
  }

  /**
   * A list the sort keeps and a lookup that gives an index inside it: FindAt answers with
   * that entry's data.
   */
  lemma FindAtIndex<D>(fl: FileList<D>, key: Key, default: D, v: Variant, i: nat)
    requires NonNegative(fl.entries) && key.depth >= 0 && Sort(fl.entries) == fl.entries
    requires Lookup(fl, key, false, v).0 == i < |fl.entries|
    ensures FindAt(fl, key, default, v) == Some(fl.entries[i].data)
  {
  }

  lemma LookupThreeAsWritten(fl: FileList<int>)
    requires fl == SkippedDepthList()
    ensures NonNegative(fl.entries) && |fl.entries| == 3
    ensures Lookup(fl, Key("b", 0), false, AsWritten) == (0, 0)
    ensures Sort(fl.entries) == fl.entries
  {
    ThreeNonNegative(fl.entries);
    SortedThree(fl.entries);
    ThreeAsWritten(fl.entries);
  }

  lemma LookupThreeCorrected(fl: FileList<int>)
    requires fl == SkippedDepthList()
    ensures NonNegative(fl.entries) && |fl.entries| == 3
    ensures Lookup(fl, Key("b", 0), false, Corrected) == (1, 1)
    ensures Sort(fl.entries) == fl.entries
  {
    ThreeNonNegative(fl.entries);
    SortedThree(fl.entries);
    ThreeCorrected(fl.entries);
  }

  lemma ThreeNonNegative(es: seq<Entry<int>>)
    requires es == [Entry("a", 0, 1), Entry("b", 0, 2), Entry("x/y/z", 2, 3)]
    ensures NonNegative(es)
  {
    assert es[0].depth == 0 && es[1].depth == 0 && es[2].depth == 2;
    forall k | 0 <= k < |es| ensures es[k].depth >= 0 {
      assert k == 0 || k == 1 || k == 2;
    }
  }

  lemma ThreeAsWritten(es: seq<Entry<int>>)
    requires es == [Entry("a", 0, 1), Entry("b", 0, 2), Entry("x/y/z", 2, 3)]
    ensures DepthTable(es, AsWritten) == [0, 0, 2, 3]
    ensures GetIndex(es, [0, 0, 2, 3], Key("b", 0), false, AsWritten) == (0, 0)
  {
    AsWrittenTableThree(es);
  }

  lemma ThreeCorrected(es: seq<Entry<int>>)
    requires es == [Entry("a", 0, 1), Entry("b", 0, 2), Entry("x/y/z", 2, 3)]
    ensures DepthTable(es, Corrected) == [0, 2, 2, 3]
    ensures GetIndex(es, [0, 2, 2, 3], Key("b", 0), false, Corrected) == (1, 1)
  {
    CorrectedTableThree(es);
    assert StrCmp(es[1].path, "b") == 0;
    assert Search(es, "b", 0, 2) == Hit(1);
  }

  lemma AsWrittenTableThree(es: seq<Entry<int>>)
    requires es == [Entry("a", 0, 1), Entry("b", 0, 2), Entry("x/y/z", 2, 3)]
    ensures DepthTable(es, AsWritten) == [0, 0, 2, 3]
  {
    var s0 := Slots(0, [0]);
    assert TableTurn(es, 0, s0, AsWritten) == s0;
    assert TableTurn(es, 1, s0, AsWritten) == s0;
    assert Resize([0], 3, 0) == [0, 0, 0];
    assert TableTurn(es, 2, s0, AsWritten) == Slots(2, [0, 0, 2]);
    assert TableFrom(es, 3, Slots(2, [0, 0, 2]), AsWritten) == [0, 0, 2];
    assert TableFrom(es, 2, s0, AsWritten) == [0, 0, 2];
    assert TableFrom(es, 1, s0, AsWritten) == [0, 0, 2];
    assert TableFrom(es, 0, s0, AsWritten) == [0, 0, 2];
  }

  lemma CorrectedTableThree(es: seq<Entry<int>>)
    requires es == [Entry("a", 0, 1), Entry("b", 0, 2), Entry("x/y/z", 2, 3)]
    ensures DepthTable(es, Corrected) == [0, 2, 2, 3]
  {
    var s0 := Slots(0, [0]);
    assert TableTurn(es, 0, s0, Corrected) == s0;
    assert TableTurn(es, 1, s0, Corrected) == s0;
    assert Resize([0], 3, 2) == [0, 2, 2];
    assert TableTurn(es, 2, s0, Corrected) == Slots(2, [0, 2, 2]);
    assert TableFrom(es, 3, Slots(2, [0, 2, 2]), Corrected) == [0, 2, 2];
    assert TableFrom(es, 2, s0, Corrected) == [0, 2, 2];
    assert TableFrom(es, 1, s0, Corrected) == [0, 2, 2];
    assert TableFrom(es, 0, s0, Corrected) == [0, 2, 2];
  }

  /** The three entries are already in order: the sort keeps them. */
  lemma SortedThree(es: seq<Entry<int>>)
    requires es == [Entry("a", 0, 1), Entry("b", 0, 2), Entry("x/y/z", 2, 3)]
    ensures Sort(es) == es
  {
    assert !EntryLess(es[2], es[1]);
    SortKeeps([], es[2]);
    SortKeeps([es[2]], es[1]);
    assert !PathLess("b", "a");
    assert !EntryLess(es[1], es[0]);
    SortKeeps([es[1], es[2]], es[0]);
    assert [es[0]] + [es[1], es[2]] == es;
  }

  /** An entry put in front of entries the sort keeps, and not after the first of them: the sort keeps the whole. */
  lemma SortKeeps<D>(t: seq<Entry<D>>, e: Entry<D>)
    requires Sort(t) == t && (t != [] ==> !EntryLess(t[0], e))
    ensures Sort([e] + t) == [e] + t
  {
    assert ([e] + t)[1..] == t;
  }

  function NoEntries(): FileList<int>
  {
    FileList([])
  }

  /**
   * As written, an empty list answers every lookup at depth 0 with (0, 0): Exists holds and
   * FindEntry reads past the end of the list; corrected, nothing exists.
   */
  lemma EmptyListAsWritten()
    ensures Lookup(NoEntries(), Key("c", 0), false, AsWritten) == (0, 0)
    ensures Exists(NoEntries(), Key("c", 0), AsWritten)
    ensures FindAt(NoEntries(), Key("c", 0), 0, AsWritten) == None
    ensures !Exists(NoEntries(), Key("c", 0), Corrected)
  {
    assert DepthTable<int>([], AsWritten) == [0, 0];
    assert DepthTable<int>([], Corrected) == [0, 0];
  }
}
