/**
 * The player spawn list of a map, kept sorted by priority: each new spawn is inserted in
 * front of the first spawn with a strictly greater priority.
 */
module SpawnOrder {

  /** A player spawn: its position and view angles (three components each) and its priority. */
  datatype Spawn = Spawn(origin: seq<real>, angles: seq<real>, priority: int)

  predicate SortedByPriority(s: seq<Spawn>)
  {
    forall i, j :: 0 <= i < j < |s| ==> s[i].priority <= s[j].priority
  }

  /** The position of the first spawn with a strictly greater priority, or |s|. */
  function FirstGreater(s: seq<Spawn>, priority: int): (k: nat)
    ensures k <= |s|
    ensures forall i :: 0 <= i < k ==> s[i].priority <= priority
    ensures k < |s| ==> priority < s[k].priority
  {
    if s == [] then 0
    else if priority < s[0].priority then 0
    else 1 + FirstGreater(s[1..], priority)
  }

  /** The new spawn goes in front of the first spawn with a strictly greater priority. */
  function InsertSpawn(s: seq<Spawn>, x: Spawn): (r: seq<Spawn>)
    ensures |r| == |s| + 1
    ensures multiset(r) == multiset(s) + multiset{x}
  {
    var k := FirstGreater(s, x.priority);
    assert s == s[..k] + s[k..];
    s[..k] + [x] + s[k..]
  }

  /** Insertion keeps a sorted spawn list sorted. */
  lemma InsertSpawnSorted(s: seq<Spawn>, x: Spawn)
    requires SortedByPriority(s)
    ensures SortedByPriority(InsertSpawn(s, x))
  {
    var k := FirstGreater(s, x.priority);
    var r := InsertSpawn(s, x);
    assert r == s[..k] + [x] + s[k..];
    forall i, j | 0 <= i < j < |r|
      ensures r[i].priority <= r[j].priority
    {
      if j < k || i > k {
        assert r[i] == s[if i < k then i else i - 1];
        assert r[j] == s[if j < k then j else j - 1];
      } else if i == k {
        assert r[j] == s[j - 1];
      } else {
        assert r[i] == s[i];
      }
    }
  }

  /** The spawns of one priority, in list order. */
  function WithPriority(s: seq<Spawn>, p: int): (r: seq<Spawn>)
    ensures |r| <= |s|
  {
    if s == [] then []
    else (if s[0].priority == p then [s[0]] else []) + WithPriority(s[1..], p)
  }

  lemma {:induction false} WithPriorityConcat(a: seq<Spawn>, b: seq<Spawn>, p: int)
    ensures WithPriority(a + b, p) == WithPriority(a, p) + WithPriority(b, p)
  {
    if a != [] {
      assert (a + b)[0] == a[0] && (a + b)[1..] == a[1..] + b;
      WithPriorityConcat(a[1..], b, p);
    } else {
      assert a + b == b;
    }
  }

  lemma {:induction false} WithPriorityAbove(s: seq<Spawn>, p: int)
    requires forall i :: 0 <= i < |s| ==> p < s[i].priority
    ensures WithPriority(s, p) == []
  {
    if s != [] {
      WithPriorityAbove(s[1..], p);
    }
  }

  /**
   * Insertion is stable: among the spawns of each priority, the new spawn comes after every
   * spawn already in a sorted list, and the others keep their order.
   */
  lemma InsertSpawnStable(s: seq<Spawn>, x: Spawn, p: int)
    requires SortedByPriority(s)
    ensures WithPriority(InsertSpawn(s, x), p) == WithPriority(s, p) + (if x.priority == p then [x] else [])
  {
    var k := FirstGreater(s, x.priority);
    GreaterAfter(s, x.priority);
    SplitWithPriority(s[..k], x, s[k..], p);
    assert s == s[..k] + s[k..];
  }

  /** In a sorted list, every spawn from the first strictly greater one on is strictly greater. */
  lemma GreaterAfter(s: seq<Spawn>, priority: int)
    requires SortedByPriority(s)
    ensures forall i :: FirstGreater(s, priority) <= i < |s| ==> priority < s[i].priority
  {
  }

  /** The spawns of one priority around an inserted spawn whose priority is below all after it. */
  lemma SplitWithPriority(before: seq<Spawn>, x: Spawn, after: seq<Spawn>, p: int)
    requires forall i :: 0 <= i < |after| ==> x.priority < after[i].priority
    ensures WithPriority(before + [x] + after, p)
      == WithPriority(before + after, p) + (if x.priority == p then [x] else [])
  {
    WithPriorityConcat(before + [x], after, p);
    WithPriorityConcat(before, [x], p);
    WithPriorityConcat(before, after, p);
    assert WithPriority([x], p) == (if x.priority == p then [x] else []) + WithPriority([], p);
    if x.priority == p {
      WithPriorityAbove(after, p);
    }
  }

  /** Inserting spawns one after the other, in the order given. */
  function InsertEach(s: seq<Spawn>, xs: seq<Spawn>): (r: seq<Spawn>)
    ensures |r| == |s| + |xs|
    decreases |xs|
  {
    if xs == [] then s else InsertEach(InsertSpawn(s, xs[0]), xs[1..])
  }

  lemma {:induction false} InsertEachConcat(s: seq<Spawn>, a: seq<Spawn>, b: seq<Spawn>)
    ensures InsertEach(s, a + b) == InsertEach(InsertEach(s, a), b)
    decreases |a|
  {
    if a == [] {
      assert a + b == b;
    } else {
      assert (a + b)[0] == a[0] && (a + b)[1..] == a[1..] + b;
      InsertEachConcat(InsertSpawn(s, a[0]), a[1..], b);
    }
  }

  /** Inserting spawns one by one keeps a sorted list sorted. */
  lemma {:induction false} InsertEachSorted(s: seq<Spawn>, xs: seq<Spawn>)
    requires SortedByPriority(s)
    ensures SortedByPriority(InsertEach(s, xs))
    decreases |xs|
  {
    if xs != [] {
      InsertSpawnSorted(s, xs[0]);
      InsertEachSorted(InsertSpawn(s, xs[0]), xs[1..]);
    }
  }

  /** Inserting spawns one by one adds exactly those spawns. */
  lemma {:induction false} InsertEachAdds(s: seq<Spawn>, xs: seq<Spawn>)
    ensures multiset(InsertEach(s, xs)) == multiset(s) + multiset(xs)
    decreases |xs|
  {
    if xs != [] {
      InsertEachAdds(InsertSpawn(s, xs[0]), xs[1..]);
      assert xs == [xs[0]] + xs[1..];
    }
  }

  /**
   * Inserting spawns one by one into a sorted list is stable: within each priority the new
   * spawns follow the old ones, in the order they were inserted.
   */
  lemma {:induction false} InsertEachStable(s: seq<Spawn>, xs: seq<Spawn>, p: int)
    requires SortedByPriority(s)
    ensures WithPriority(InsertEach(s, xs), p) == WithPriority(s, p) + WithPriority(xs, p)
    decreases |xs|
  {
    if xs == [] {
      assert WithPriority(xs, p) == [];
    } else {
      var x := xs[0];
      var mine := if x.priority == p then [x] else [];
      var s1 := InsertSpawn(s, x);
      var a, b, c := WithPriority(s, p), WithPriority(xs[1..], p), WithPriority(s1, p);
      assert c == a + mine by {
        InsertSpawnStable(s, x, p);
      }
      assert WithPriority(InsertEach(s1, xs[1..]), p) == c + b by {
        InsertSpawnSorted(s, x);
        InsertEachStable(s1, xs[1..], p);
      }
      assert WithPriority(xs, p) == mine + b;
      assert a + mine + b == a + (mine + b);
    }
  }
}
