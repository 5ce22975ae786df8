/**
 * The release-tag comparison of the update checker: does a git tag such as "v1.2.3" name a
 * newer version than the running program? The answer is 1 (newer), 0 (not newer) or -1
 * (the tag is malformed). The running version comes from build-time constants and is a
 * parameter here.
 */
module VersionCheck {
  import opened Wrappers

  datatype Version = Version(major: nat, minor: nat, patch: nat)

  /** std::isspace in the "C" locale: space, \t, \n, \v, \f, \r. */
  predicate IsSpace(c: char)
  {
    c == ' ' || 9 <= c as int <= 13
  }

  predicate IsDigit(c: char)
  {
    '0' <= c <= '9'
  }

  predicate AllDigits(d: string)
  {
    forall k :: 0 <= k < |d| ==> IsDigit(d[k])
  }

  /** The first index at or after i that does not hold a space character. */
  function SkipSpace(s: string, i: nat): (r: nat)
    requires i <= |s|
    ensures i <= r <= |s|
    ensures forall k :: i <= k < r ==> IsSpace(s[k])
    ensures r < |s| ==> !IsSpace(s[r])
    decreases |s| - i
  {
    if i == |s| || !IsSpace(s[i]) then i else SkipSpace(s, i + 1)
  }

  /** The end of the run of digits starting at i (i itself when there is none, even past the end). */
  function DigitRunEnd(s: string, i: nat): (r: nat)
    ensures i <= r && (r > i ==> r <= |s|)
    ensures forall k :: i <= k < r ==> IsDigit(s[k])
    ensures r < |s| ==> !IsDigit(s[r])
    decreases |s| - i
  {
    if i >= |s| || !IsDigit(s[i]) then i else DigitRunEnd(s, i + 1)
  }

  /** The value of a decimal digit character (other characters count as 0). */
  function DigitVal(c: char): (r: nat)
    ensures IsDigit(c) ==> r == c as int - '0' as int
  {
    if IsDigit(c) then c as int - '0' as int else 0
  }

  /** std::stoi of a string of decimal digits. */
  function DigitsValue(d: string): nat
    decreases |d|
  {
    if d == [] then 0 else 10 * DigitsValue(d[..|d| - 1]) + DigitVal(d[|d| - 1])
  }

  /** The index after the next '.' at or after i; one past the end when there is none. */
  function PastDot(s: string, i: nat): (r: nat)
    ensures r > i
    decreases |s| - i
  {
    if i >= |s| || s[i] == '.' then i + 1 else PastDot(s, i + 1)
  }

  /** A version component at i: 1 to 5 digits, their value and the index after them. */
  function Component(s: string, i: nat): (r: Option<(nat, nat)>)
    ensures r.Some? ==> i < r.value.1 <= |s| && r.value.1 - i <= 5
  {
    var e := DigitRunEnd(s, i);
    if e - i == 0 || e - i > 5 then None else Some((DigitsValue(s[i..e]), e))
  }

  /**
   * Compares the components starting at i with the running version's components: the
   * first one that differs decides, and the ones after it are not looked at.
   */
  function CompareFrom(s: string, i: nat, cur: seq<nat>): (r: int)
    ensures -1 <= r <= 1
    decreases |cur|
  {
    if cur == [] then 0
    else
      var c := Component(s, i);
      if c.None? then -1
      else if c.value.0 > cur[0] then 1
      else if c.value.0 < cur[0] then 0
      else CompareFrom(s, PastDot(s, c.value.1), cur[1..])
  }

  /**
   * The version text of a tag: what follows the leading whitespace and one optional 'v' or
   * 'V'; None when nothing follows.
   */
  function VersionText(tag: string): (r: Option<string>)
    ensures (forall k :: 0 <= k < |tag| ==> IsSpace(tag[k])) ==> r.None?
    ensures r.Some? ==> r.value != []
  {
    var start := SkipSpace(tag, 0);
    if start == |tag| then None
    else
      var start := if tag[start] == 'V' || tag[start] == 'v' then start + 1 else start;
      var ver := tag[start..];
      if |ver| == 0 then None else Some(ver)
  }

  /** IsGitTagFromNewerVersion: 1 newer, 0 not newer, -1 malformed. */
  function IsGitTagFromNewerVersion(tag: string, current: Version): (r: int)
    ensures -1 <= r <= 1
    ensures VersionText(tag).None? ==> r == -1
  {
    match VersionText(tag)
    case None => -1
    case Some(ver) => CompareFrom(ver, 0, [current.major, current.minor, current.patch])
  }

  // ---------------------------------------------------------------------------------------
  // Reference definition: tags written by the release process
  // ---------------------------------------------------------------------------------------

  /** v is a newer version than cur, in the usual major, minor, patch order. */
  predicate NewerThan(v: Version, cur: Version)
  {
    || v.major > cur.major
    || (v.major == cur.major && v.minor > cur.minor)
    || (v.major == cur.major && v.minor == cur.minor && v.patch > cur.patch)
  }

  function DigitChar(n: nat): char
    requires n < 10
  {
    ('0' as int + n) as char
  }

  /** The decimal representation of n, without leading zeros. */
  function Dec(n: nat): (d: string)
    ensures |d| >= 1
  {
    if n < 10 then [DigitChar(n)] else Dec(n / 10) + [DigitChar(n % 10)]
  }

  /** Reading a decimal representation back gives the number, and five digits reach 99999. */
  lemma {:induction false} DecRoundTrip(n: nat)
    ensures AllDigits(Dec(n))
    ensures DigitsValue(Dec(n)) == n
    ensures n < 100000 ==> |Dec(n)| <= 5
  {
    if n >= 10 {
      DecRoundTrip(n / 10);
      var d := Dec(n);
      assert d[..|d| - 1] == Dec(n / 10);
      assert forall k :: 0 <= k < |d| - 1 ==> d[k] == Dec(n / 10)[k];
      if n < 100000 {
        DecLength(n / 10, 4);
      }
    }
  }

  function Pow10(k: nat): nat
  {
    if k == 0 then 1 else 10 * Pow10(k - 1)
  }

  lemma {:induction false} DecLength(n: nat, k: nat)
    requires n < Pow10(k) && k >= 1
    ensures |Dec(n)| <= k
  {
    if n >= 10 {
      assert k >= 2;
      DecLength(n / 10, k - 1);
    }
  }

  /** Digit strings of one to five digits: the components the checker accepts. */
  predicate Components(ds: seq<string>)
  {
    forall k :: 0 <= k < |ds| ==> 1 <= |ds[k]| <= 5 && AllDigits(ds[k])
  }

  /** The components written out with dots between them. */
  function Join(ds: seq<string>): string
    requires |ds| >= 1
  {
    if |ds| == 1 then ds[0] else ds[0] + "." + Join(ds[1..])
  }

  /** The numbers the components stand for. */
  function Values(ds: seq<string>): (ns: seq<nat>)
    ensures |ns| == |ds|
  {
    if ds == [] then [] else [DigitsValue(ds[0])] + Values(ds[1..])
  }

  /** The tag a release of version v carries. */
  function Tag(v: Version): string
  {
    "v" + Join([Dec(v.major), Dec(v.minor), Dec(v.patch)])
  }

  /** Lexicographic comparison of two component lists in the checker's 1/0 answer. */
  function LexCompare(ns: seq<nat>, cur: seq<nat>): int
    requires |ns| == |cur|
  {
    if cur == [] then 0
    else if ns[0] > cur[0] then 1
    else if ns[0] < cur[0] then 0
    else LexCompare(ns[1..], cur[1..])
  }

  /** The string w appears in s at index i. */
  predicate Window(s: string, i: nat, w: string)
  {
    i + |w| <= |s| && s[i..i + |w|] == w
  }

  /** A window of a concatenation is a window of each part. */
  lemma WindowSplit(s: string, i: nat, a: string, b: string)
    requires Window(s, i, a + b)
    ensures Window(s, i, a) && Window(s, i + |a|, b)
  {
    assert s[i..i + |a|] == (a + b)[..|a|];
    assert s[i + |a|..i + |a| + |b|] == (a + b)[|a|..];
  }

  /** A run of digits ending before a non-digit is one component. */
  lemma DigitRun(s: string, i: nat, d: string)
    requires AllDigits(d) && 1 <= |d| <= 5 && Window(s, i, d)
    requires i + |d| == |s| || !IsDigit(s[i + |d|])
    ensures Component(s, i).Some? && Component(s, i).value == (DigitsValue(d), i + |d|)
  {
    assert forall k :: i <= k < i + |d| ==> s[k] == d[k - i];
    DigitRunEndIs(s, i, |d|);
  }

  /** A run of n digits at i followed by the end or a non-digit ends at i + n. */
  lemma {:induction false} DigitRunEndIs(s: string, i: nat, n: nat)
    requires i + n <= |s| && forall k :: i <= k < i + n ==> IsDigit(s[k])
    requires i + n == |s| || !IsDigit(s[i + n])
    ensures DigitRunEnd(s, i) == i + n
    decreases n
  {
    if n > 0 {
      assert IsDigit(s[i]);
      DigitRunEndIs(s, i + 1, n - 1);
    }
  }

  /** Reading the first of several written-out components, and stepping past its dot. */
  lemma JoinStep(s: string, i: nat, ds: seq<string>)
    requires |ds| > 1 && Components(ds) && Window(s, i, Join(ds))
    ensures Component(s, i).Some? && Component(s, i).value == (DigitsValue(ds[0]), i + |ds[0]|)
    ensures PastDot(s, i + |ds[0]|) == i + |ds[0]| + 1
    ensures Window(s, i + |ds[0]| + 1, Join(ds[1..]))
    ensures i + |ds[0]| + 1 + |Join(ds[1..])| == i + |Join(ds)|
    ensures Components(ds[1..])
  {
    var d := ds[0];
    var rest := Join(ds[1..]);
    var j := i + |d|;
    assert Join(ds) == d + ("." + rest);
    WindowSplit(s, i, d, "." + rest);
    WindowSplit(s, j, ".", rest);
    assert s[j] == s[j..j + 1][0] == '.';
    DotAt(s, j);
    DigitRun(s, i, d);
  }

  lemma DotAt(s: string, j: nat)
    requires j < |s| && s[j] == '.'
    ensures PastDot(s, j) == j + 1
  {
  }

  /** One step of the comparison, once the component at i is known. */
  lemma CompareStep(s: string, i: nat, cur: seq<nat>, c: Option<(nat, nat)>)
    requires cur != [] && c == Component(s, i) && c.Some?
    ensures CompareFrom(s, i, cur) ==
      if c.value.0 > cur[0] then 1
      else if c.value.0 < cur[0] then 0
      else CompareFrom(s, PastDot(s, c.value.1), cur[1..])
  {
  }

  /** One step of the lexicographic comparison. */
  lemma LexStep(ds: seq<string>, cur: seq<nat>)
    requires |ds| == |cur| >= 1
    ensures LexCompare(Values(ds), cur) ==
      if DigitsValue(ds[0]) > cur[0] then 1
      else if DigitsValue(ds[0]) < cur[0] then 0
      else LexCompare(Values(ds[1..]), cur[1..])
  {
    assert Values(ds)[0] == DigitsValue(ds[0]) && Values(ds)[1..] == Values(ds[1..]);
  }

  /** The checker reads written-out components back and compares them lexicographically. */
  lemma {:induction false} CompareJoin(s: string, i: nat, ds: seq<string>, cur: seq<nat>)
    requires |ds| == |cur| >= 1 && Components(ds)
    requires Window(s, i, Join(ds))
    requires i + |Join(ds)| == |s| || !IsDigit(s[i + |Join(ds)|])
    ensures CompareFrom(s, i, cur) == LexCompare(Values(ds), cur)
    decreases |ds|
  {
    if |ds| == 1 {
      CompareLast(s, i, ds, cur);
    } else {
      JoinStep(s, i, ds);
      var e := i + |ds[0]|;
      if DigitsValue(ds[0]) == cur[0] {
        CompareJoin(s, e + 1, ds[1..], cur[1..]);
      }
      CompareNext(s, i, ds, cur, e);
    }
  }

  /** The last component decides alone. */
  lemma CompareLast(s: string, i: nat, ds: seq<string>, cur: seq<nat>)
    requires |ds| == |cur| == 1 && Components(ds)
    requires Window(s, i, ds[0])
    requires i + |ds[0]| == |s| || !IsDigit(s[i + |ds[0]|])
    ensures CompareFrom(s, i, cur) == LexCompare(Values(ds), cur)
  {
    var c := Component(s, i);
    LexStep(ds, cur);
    DigitRun(s, i, ds[0]);
    CompareStep(s, i, cur, c);
    assert cur[1..] == [] && Values(ds[1..]) == [];
  }

  /** A component that matches hands the comparison on to the text after its dot. */
  lemma CompareNext(s: string, i: nat, ds: seq<string>, cur: seq<nat>, e: nat)
    requires |ds| == |cur| > 1
    requires Component(s, i).Some? && Component(s, i).value == (DigitsValue(ds[0]), e)
    requires PastDot(s, e) == e + 1
    requires DigitsValue(ds[0]) == cur[0] ==> CompareFrom(s, e + 1, cur[1..]) == LexCompare(Values(ds[1..]), cur[1..])
    ensures CompareFrom(s, i, cur) == LexCompare(Values(ds), cur)
  {
    LexStep(ds, cur);
    CompareStep(s, i, cur, Component(s, i));
  }

  /**
   * A release tag, after any leading whitespace and before any text that does not start
   * with a digit, is compared exactly in version order: 1 when it is newer, 0 otherwise.
   */
  lemma TagCompare(v: Version, current: Version, spaces: string, suffix: string)
    requires v.major < 100000 && v.minor < 100000 && v.patch < 100000
    requires forall k :: 0 <= k < |spaces| ==> IsSpace(spaces[k])
    requires suffix == [] || !IsDigit(suffix[0])
    ensures IsGitTagFromNewerVersion(spaces + Tag(v) + suffix, current) == if NewerThan(v, current) then 1 else 0
  {
    var ds := [Dec(v.major), Dec(v.minor), Dec(v.patch)];
    var j := Join(ds);
    var ver := j + suffix;
    assert spaces + Tag(v) + suffix == spaces + ("v" + ver);
    VersionStart(spaces, ver);
    assert ver[0..|j|] == j;
    if suffix != [] {
      assert ver[|j|] == suffix[0];
    }
    TagComponents(v);
    CompareJoin(ver, 0, ds, [current.major, current.minor, current.patch]);
    LexCompareNewer(v, current);
  }

  /** The written-out components of a release are valid and stand for its numbers. */
  lemma TagComponents(v: Version)
    requires v.major < 100000 && v.minor < 100000 && v.patch < 100000
    ensures Components([Dec(v.major), Dec(v.minor), Dec(v.patch)])
    ensures Values([Dec(v.major), Dec(v.minor), Dec(v.patch)]) == [v.major, v.minor, v.patch]
  {
    DecRoundTrip(v.major);
    DecRoundTrip(v.minor);
    DecRoundTrip(v.patch);
    var ds := [Dec(v.major), Dec(v.minor), Dec(v.patch)];
    assert ds[1..] == [Dec(v.minor), Dec(v.patch)] && ds[1..][1..] == [Dec(v.patch)];
    assert Values(ds[1..][1..]) == [v.patch] by {
      assert Values(ds[1..][1..][1..]) == [];
    }
    assert Values(ds[1..]) == [v.minor, v.patch];
  }

  /** Leading whitespace and the 'v' are skipped. */
  lemma VersionStart(spaces: string, ver: string)
    requires forall k :: 0 <= k < |spaces| ==> IsSpace(spaces[k])
    requires ver != []
    ensures VersionText(spaces + ("v" + ver)) == Some(ver)
  {
    var tag := spaces + ("v" + ver);
    SpacesSkipped(spaces, "v" + ver);
    assert tag[|spaces|] == 'v';
    assert tag[|spaces| + 1..] == ver;
  }

  /** Lexicographic order on three components is version order. */
  lemma LexCompareNewer(v: Version, current: Version)
    ensures LexCompare([v.major, v.minor, v.patch], [current.major, current.minor, current.patch]) ==
      if NewerThan(v, current) then 1 else 0
  {
    var ns := [v.major, v.minor, v.patch];
    var cur := [current.major, current.minor, current.patch];
    assert ns[1..] == [v.minor, v.patch] && cur[1..] == [current.minor, current.patch];
    assert ns[1..][1..] == [v.patch] && cur[1..][1..] == [current.patch];
    assert ns[1..][1..][1..] == [] && cur[1..][1..][1..] == [];
    assert LexCompare(ns[1..][1..], cur[1..][1..]) == if v.patch > current.patch then 1 else 0;
    assert LexCompare(ns[1..], cur[1..]) ==
      if v.minor > current.minor || (v.minor == current.minor && v.patch > current.patch) then 1 else 0;
  }

  lemma SpacesSkipped(spaces: string, rest: string)
    requires forall k :: 0 <= k < |spaces| ==> IsSpace(spaces[k])
    requires rest != [] && !IsSpace(rest[0])
    ensures SkipSpace(spaces + rest, 0) == |spaces|
  {
    var s := spaces + rest;
    assert forall k :: 0 <= k < |spaces| ==> s[k] == spaces[k];
    assert s[|spaces|] == rest[0];
  }

  /** A tag starting with a digit is its own version text. */
  lemma DigitStart(s: string)
    requires s != [] && IsDigit(s[0])
    ensures VersionText(s) == Some(s)
  {
    assert SkipSpace(s, 0) == 0;
    assert s[0..] == s;
  }

  /** A major component that differs from the running one decides, whatever follows it. */
  lemma MajorDecides(major: nat, current: Version, rest: string)
    requires major < 100000 && major != current.major
    requires rest == [] || !IsDigit(rest[0])
    ensures IsGitTagFromNewerVersion(Dec(major) + rest, current) == if major > current.major then 1 else 0
  {
    var d := Dec(major);
    var s := d + rest;
    DecRoundTrip(major);
    assert s[0..|d|] == d;
    assert s[0] == d[0] && IsDigit(d[0]);
    DigitStart(s);
    if rest != [] {
      assert s[|d|] == rest[0];
    }
    DigitRun(s, 0, d);
  }

  /** A component of six or more digits makes the tag malformed. */
  lemma LongMajorInvalid(s: string, current: Version)
    requires |s| >= 6 && forall k :: 0 <= k < 6 ==> IsDigit(s[k])
    ensures IsGitTagFromNewerVersion(s, current) == -1
  {
    DigitStart(s);
  }

  /** A 'v' or 'V' prefix is optional, and the two spellings are the same. */
  lemma VPrefixOptional(t: string, current: Version)
    requires t == [] || (!IsSpace(t[0]) && t[0] != 'v' && t[0] != 'V')
    ensures VersionText("v" + t) == VersionText("V" + t) == VersionText(t)
  {
    assert ("v" + t)[1..] == t && ("V" + t)[1..] == t;
    assert t != [] ==> t[0..] == t;
  }
}
