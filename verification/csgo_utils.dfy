/**
 * The string helpers of the map parser: return codes, game file path normalisation,
 * splitting on a delimiter and the integer token parser built on it.
 */
module CsgoUtils {

  /** The return code values of a parse operation, in declaration order. */
  const SUCCESS: int := 0
  const GENERIC_FAILURE: int := 1
  const STEAM_NOT_INSTALLED: int := 2
  const CSGO_NOT_INSTALLED: int := 3
  const ERROR_STEAM_REGISTRY: int := 4
  const ERROR_FILE_OPEN_FAILED: int := 5
  const ERROR_VPK_PARSING_FAILED: int := 6
  const ERROR_BSP_PARSING_FAILED: int := 7
  const ERROR_PHY_PARSING_FAILED: int := 8
  const ERROR_PHY_MULTIPLE_SOLIDS: int := 9

  /** The outcome of a parse operation: a code and an optional description. */
  datatype RetCode = RetCode(code: int, desc: string)

  /** A return code indicates success exactly when its code is SUCCESS. */
  predicate Successful(r: RetCode) {
    r.code == SUCCESS
  }

  /** The boolean constructor: success or a generic failure, with no description. */
  function RetCodeOf(success: bool): (r: RetCode)
    ensures Successful(r) <==> success
    ensures r.code in {SUCCESS, GENERIC_FAILURE} && r.desc == []
  {
    RetCode(if success then SUCCESS else GENERIC_FAILURE, "")
  }

  /** The default return code is a success without description. */
  function DefaultRetCode(): (r: RetCode)
    ensures Successful(r) && r.desc == []
  {
    RetCode(SUCCESS, "")
  }

  // ---------------------------------------------------------------------------------------
  // Game file paths
  // ---------------------------------------------------------------------------------------

  predicate IsUpper(c: char) {
    'A' <= c <= 'Z'
  }

  /** ASCII lower-casing; every other character is kept. */
  function Lower(c: char): (r: char)
    ensures !IsUpper(r)
    ensures !IsUpper(c) ==> r == c
    ensures r == '/' <==> c == '/'
  {
    if IsUpper(c) then (c as int + ('a' as int - 'A' as int)) as char else c
  }

  /**
   * The normalisation loop from a state where last is the previously emitted character:
   * a '/' right after an emitted '/' is dropped, every other character is emitted lower-cased.
   */
  function NormalizeFrom(s: string, last: char): (r: string)
    ensures |r| <= |s|
  {
    if s == [] then []
    else if s[0] == '/' && last == '/' then NormalizeFrom(s[1..], last)
    else
      var c := Lower(s[0]);
      [c] + NormalizeFrom(s[1..], c)
  }

  /** NormalizeGameFilePath: lower-case A-Z and remove duplicate forward slashes. */
  function NormalizeGameFilePath(s: string): (r: string)
    ensures |r| <= |s|
  {
    NormalizeFrom(s, '\0')
  }

  /** No two adjacent slashes. */
  predicate NoDoubleSlash(s: string) {
    forall i :: 0 < i < |s| ==> !(s[i - 1] == '/' && s[i] == '/')
  }

  predicate NoUpper(s: string) {
    forall i :: 0 <= i < |s| ==> !IsUpper(s[i])
  }

  /** A path already in normal form: no upper-case letter and no doubled slash. */
  predicate Normal(s: string) {
    NoUpper(s) && NoDoubleSlash(s)
  }

  /** The output of the loop is in normal form and does not start with '/' after an emitted '/'. */
  lemma {:induction false} NormalizeFromNormal(s: string, last: char)
    ensures Normal(NormalizeFrom(s, last))
    ensures last == '/' && NormalizeFrom(s, last) != [] ==> NormalizeFrom(s, last)[0] != '/'
  {
    if s != [] {
      if s[0] == '/' && last == '/' {
        NormalizeFromNormal(s[1..], last);
      } else {
        var c := Lower(s[0]);
        NormalizeFromNormal(s[1..], c);
        var t := NormalizeFrom(s[1..], c);
        var r := [c] + t;
        assert NormalizeFrom(s, last) == r;
        forall i | 0 < i < |r|
          ensures !(r[i - 1] == '/' && r[i] == '/')
        {
          if i > 1 {
            assert r[i - 1] == t[i - 2] && r[i] == t[i - 1];
          }
        }
      }
    }
  }

  /** Normalised paths contain no upper-case ASCII and no "//". */
  lemma NormalizeGameFilePathNormal(s: string)
    ensures Normal(NormalizeGameFilePath(s))
  {
    NormalizeFromNormal(s, '\0');
  }

  /** A string in normal form is left unchanged by the loop, whatever was emitted before it. */
  lemma {:induction false} NormalizeFromFixes(s: string, last: char)
    requires Normal(s)
    requires last == '/' ==> s == [] || s[0] != '/'
    ensures NormalizeFrom(s, last) == s
  {
    if s != [] {
      assert Lower(s[0]) == s[0];
      assert Normal(s[1..]) by {
        forall i | 0 < i < |s[1..]|
          ensures !(s[1..][i - 1] == '/' && s[1..][i] == '/')
        {
          assert s[1..][i - 1] == s[i] && s[1..][i] == s[i + 1];
        }
      }
      if |s| > 1 {
        assert !(s[0] == '/' && s[1] == '/');
      }
      NormalizeFromFixes(s[1..], s[0]);
    }
  }

  /** Normalising a normalised path changes nothing. */
  lemma NormalizeGameFilePathIdempotent(s: string)
    ensures NormalizeGameFilePath(NormalizeGameFilePath(s)) == NormalizeGameFilePath(s)
  {
    NormalizeGameFilePathNormal(s);
    NormalizeFromFixes(NormalizeGameFilePath(s), '\0');
  }

  /** Position i of s survives normalisation unless it is a '/' right after another '/'. */
  predicate Kept(s: string, i: nat)
    requires i < |s|
  {
    !(s[i] == '/' && i > 0 && s[i - 1] == '/')
  }

  /** Reference definition: keep the surviving positions and lower-case them. */
  function NormalizeRef(s: string): (r: string)
    decreases |s|
  {
    if s == [] then []
    else
      var n := |s| - 1;
      NormalizeRef(s[..n]) + (if Kept(s, n) then [Lower(s[n])] else [])
  }

  /** The last character the loop emits after a prefix ending in c is '/' exactly when c is. */
  lemma {:induction false} NormalizeFromSplit(s: string, t: string, last: char)
    requires s != []
    ensures NormalizeFrom(s + t, last) == NormalizeFrom(s, last) + NormalizeFrom(t, if s[|s| - 1] == '/' then '/' else Lower(s[|s| - 1]))
  {
    var next := if s[|s| - 1] == '/' then '/' else Lower(s[|s| - 1]);
    assert (s + t)[0] == s[0] && (s + t)[1..] == s[1..] + t;
    if |s| == 1 {
      assert s[1..] + t == t;
      if s[0] == '/' && last == '/' {
        assert NormalizeFrom(s + t, last) == NormalizeFrom(t, last);
      } else {
        assert NormalizeFrom(s, last) == [Lower(s[0])];
        assert NormalizeFrom(s + t, last) == [Lower(s[0])] + NormalizeFrom(t, next);
      }
    } else {
      assert s[1..][|s[1..]| - 1] == s[|s| - 1];
      if s[0] == '/' && last == '/' {
        NormalizeFromSplit(s[1..], t, last);
        assert NormalizeFrom(s + t, last) == NormalizeFrom(s, last) + NormalizeFrom(t, next);
      } else {
        NormalizeFromSplit(s[1..], t, Lower(s[0]));
        assert NormalizeFrom(s + t, last) == NormalizeFrom(s, last) + NormalizeFrom(t, next);
      }
    }
  }

  /** The loop agrees with the reference definition on every input. */
  lemma {:induction false} NormalizeMatchesRef(s: string)
    ensures NormalizeGameFilePath(s) == NormalizeRef(s)
  {
    if s != [] {
      var n := |s| - 1;
      var p := s[..n];
      assert s == p + [s[n]];
      NormalizeMatchesRef(p);
      if p == [] {
        assert NormalizeFrom(s, '\0') == [Lower(s[n])];
        assert NormalizeRef(s) == [] + [Lower(s[n])];
      } else {
        NormalizeFromSplit(p, [s[n]], '\0');
        assert p[|p| - 1] == s[n - 1];
        var last := if s[n - 1] == '/' then '/' else Lower(s[n - 1]);
        assert NormalizeFrom([s[n]], last) == (if Kept(s, n) then [Lower(s[n])] else []);
      }
    }
  }

  // ---------------------------------------------------------------------------------------
  // Splitting
  // ---------------------------------------------------------------------------------------

  /** string::find: the first index at or after pos holding d. */
  function Find(s: string, d: char, pos: nat): (r: FindResult)
    requires pos <= |s|
    decreases |s| - pos
    ensures r.Found? ==> pos <= r.at < |s| && s[r.at] == d && forall j :: pos <= j < r.at ==> s[j] != d
    ensures r.NotFound? ==> forall j :: pos <= j < |s| ==> s[j] != d
  {
    if pos == |s| then NotFound
    else if s[pos] == d then Found(pos)
    else Find(s, d, pos + 1)
  }

  datatype FindResult = NotFound | Found(at: nat)

  /** s without any occurrence of d. */
  function Remove(s: string, d: char): (r: string)
    ensures forall i :: 0 <= i < |r| ==> r[i] != d
  {
    if s == [] then [] else (if s[0] == d then [] else [s[0]]) + Remove(s[1..], d)
  }

  /** Flattening of a list of strings. */
  function Concat(parts: seq<string>): string {
    if parts == [] then [] else parts[0] + Concat(parts[1..])
  }

  /** Pieces without empty entries and without the delimiter. */
  predicate CleanParts(parts: seq<string>, d: char) {
    forall k :: 0 <= k < |parts| ==> parts[k] != [] && d !in parts[k]
  }

  /** The splitting loop from position pos: a non-empty piece before each delimiter, then the rest. */
  function SplitFrom(s: string, d: char, pos: nat): (r: seq<string>)
    requires pos <= |s|
    decreases |s| - pos
    ensures CleanParts(r, d)
  {
    match Find(s, d, pos)
    case NotFound => if pos < |s| then [s[pos..]] else []
    case Found(n) => (if n > pos then [s[pos..n]] else []) + SplitFrom(s, d, n + 1)
  }

  /** SplitString: the non-empty pieces between delimiters, in order. */
  function SplitString(s: string, d: char): (r: seq<string>)
    ensures CleanParts(r, d)
  {
    SplitFrom(s, d, 0)
  }

  lemma {:induction false} RemoveAppend(a: string, b: string, d: char)
    ensures Remove(a + b, d) == Remove(a, d) + Remove(b, d)
  {
    if a != [] {
      var h: string := if a[0] == d then [] else [a[0]];
      assert (a + b)[0] == a[0] && (a + b)[1..] == a[1..] + b;
      RemoveAppend(a[1..], b, d);
      calc {
        Remove(a + b, d);
        h + Remove(a[1..] + b, d);
        h + (Remove(a[1..], d) + Remove(b, d));
        (h + Remove(a[1..], d)) + Remove(b, d);
      }
    } else {
      assert a + b == b;
    }
  }

  lemma RemoveNone(s: string, d: char)
    requires d !in s
    ensures Remove(s, d) == s
  {
  }

  lemma {:induction false} ConcatAppend(a: seq<string>, b: seq<string>)
    ensures Concat(a + b) == Concat(a) + Concat(b)
  {
    if a != [] {
      assert (a + b)[0] == a[0] && (a + b)[1..] == a[1..] + b;
      ConcatAppend(a[1..], b);
      assert a[0] + (Concat(a[1..]) + Concat(b)) == (a[0] + Concat(a[1..])) + Concat(b);
    } else {
      assert a + b == b;
    }
  }

  /** Up to the next delimiter at n, removing delimiters keeps the piece and drops the delimiter. */
  lemma PieceThenRest(s: string, d: char, pos: nat, n: nat)
    requires pos <= n < |s| && s[n] == d && forall j :: pos <= j < n ==> s[j] != d
    ensures Remove(s[pos..], d) == s[pos..n] + Remove(s[n + 1..], d)
  {
    assert s[pos..] == s[pos..n] + ([d] + s[n + 1..]);
    RemoveAppend(s[pos..n], [d] + s[n + 1..], d);
    RemoveAppend([d], s[n + 1..], d);
    RemoveNone(s[pos..n], d);
  }

  /** The pieces from pos on, joined, are the rest of s with the delimiters removed. */
  lemma {:induction false} SplitFromConcat(s: string, d: char, pos: nat)
    requires pos <= |s|
    decreases |s| - pos
    ensures Concat(SplitFrom(s, d, pos)) == Remove(s[pos..], d)
  {
    match Find(s, d, pos)
    case NotFound =>
      RemoveNone(s[pos..], d);
    case Found(n) =>
      SplitFromConcat(s, d, n + 1);
      var head: seq<string> := if n > pos then [s[pos..n]] else [];
      ConcatAppend(head, SplitFrom(s, d, n + 1));
      PieceThenRest(s, d, pos, n);
      assert Concat(head) == s[pos..n];
  }

  /** Joining the pieces gives s with every delimiter removed. */
  lemma SplitStringConcat(s: string, d: char)
    ensures Concat(SplitString(s, d)) == Remove(s, d)
  {
    SplitFromConcat(s, d, 0);
    assert s[0..] == s;
  }

  /** A string without the delimiter is one piece, or none when empty. */
  lemma SplitStringWhole(s: string, d: char)
    requires d !in s
    ensures SplitString(s, d) == (if s == [] then [] else [s])
  {
    assert s[0..] == s;
  }

  // ---------------------------------------------------------------------------------------
  // Integer tokens
  // ---------------------------------------------------------------------------------------

  const INT64_MIN: int := -0x8000_0000_0000_0000
  const INT64_MAX: int := 0x7fff_ffff_ffff_ffff

  /** The characters strtoll skips before a number (the C isspace set). */
  predicate IsSpace(c: char) {
    c == ' ' || c == '\t' || c == '\n' || c == '\r' || c as int == 11 || c as int == 12
  }

  predicate IsDigit(c: char) {
    '0' <= c <= '9'
  }

  function SkipSpace(t: string): (r: string)
    ensures r == [] || !IsSpace(r[0])
    ensures |r| <= |t|
  {
    if t != [] && IsSpace(t[0]) then SkipSpace(t[1..]) else t
  }

  /** The number of leading decimal digits. */
  function DigitRun(t: string): (r: nat)
    ensures r <= |t|
    ensures forall i :: 0 <= i < r ==> IsDigit(t[i])
    ensures r < |t| ==> !IsDigit(t[r])
  {
    if t != [] && IsDigit(t[0]) then 1 + DigitRun(t[1..]) else 0
  }

  function DigitValue(c: char): (r: nat)
    requires IsDigit(c)
    ensures r < 10
  {
    c as int - '0' as int
  }

  /** The value of a decimal digit string, most significant digit first. */
  function DecimalValue(ds: string): (r: nat)
    requires forall i :: 0 <= i < |ds| ==> IsDigit(ds[i])
    decreases |ds|
  {
    if ds == [] then 0
    else 10 * DecimalValue(ds[..|ds| - 1]) + DigitValue(ds[|ds| - 1])
  }

  /** The signed value strtoll reads from the front of t, if it reads any digit at all. */
  function LeadingInteger(t: string): (r: ParsedInt)
  {
    var u := SkipSpace(t);
    var neg := u != [] && u[0] == '-';
    var body := if u != [] && (u[0] == '-' || u[0] == '+') then u[1..] else u;
    var n := DigitRun(body);
    if n == 0 then NoNumber
    else
      var v: int := DecimalValue(body[..n]);
      Number(if neg then -v else v)
  }

  datatype ParsedInt = NoNumber | Number(value: int)

  /**
   * One token as ParseIntsFromString reads it with std::stoll: the leading integer, or 0 when
   * there is none (invalid_argument) or it does not fit in 64 bits (out_of_range).
   */
  function StoLL(t: string): (r: int)
    ensures INT64_MIN <= r <= INT64_MAX
    ensures LeadingInteger(t).NoNumber? ==> r == 0
    ensures LeadingInteger(t).Number? && INT64_MIN <= LeadingInteger(t).value <= INT64_MAX ==> r == LeadingInteger(t).value
  {
    match LeadingInteger(t)
    case NoNumber => 0
    case Number(v) => if INT64_MIN <= v <= INT64_MAX then v else 0
  }

  /** ParseIntsFromString: one integer per space-separated token. */
  function ParseIntsFromString(s: string): (r: seq<int>)
    ensures |r| == |SplitString(s, ' ')|
    ensures forall k :: 0 <= k < |r| ==> r[k] == StoLL(SplitString(s, ' ')[k])
  {
    var parts := SplitString(s, ' ');
    seq(|parts|, k requires 0 <= k < |parts| => StoLL(parts[k]))
  }

  /** ParseIntFromString: the first token's integer, or the default when there is no token. */
  function ParseIntFromString(s: string, default: int): (r: int)
    ensures SplitString(s, ' ') == [] ==> r == default
    ensures SplitString(s, ' ') != [] ==> r == StoLL(SplitString(s, ' ')[0])
  {
    var ints := ParseIntsFromString(s);
    if |ints| == 0 then default else ints[0]
  }

  /** The decimal digits of n, most significant first, without leading zeros. */
  function Decimal(n: nat): (r: string)
    ensures r != [] && forall i :: 0 <= i < |r| ==> IsDigit(r[i])
    decreases n
  {
    var d := (('0' as int) + n % 10) as char;
    if n < 10 then [d] else Decimal(n / 10) + [d]
  }

  /** The usual decimal rendering of an integer. */
  function ShowInt(v: int): (r: string)
  {
    if v < 0 then "-" + Decimal(-v) else Decimal(v)
  }

  lemma {:induction false} DecimalRoundTrip(n: nat)
    ensures DecimalValue(Decimal(n)) == n
    decreases n
  {
    var r := Decimal(n);
    if n >= 10 {
      DecimalRoundTrip(n / 10);
      assert r[..|r| - 1] == Decimal(n / 10);
    }
  }

  /** A token made of decimal digits only is read entirely. */
  lemma DigitRunAll(ds: string)
    requires forall i :: 0 <= i < |ds| ==> IsDigit(ds[i])
    ensures DigitRun(ds) == |ds|
  {
    if ds != [] {
      DigitRunAll(ds[1..]);
    }
  }

  /** Parsing the rendering of a 64-bit integer gives it back. */
  lemma StoLLShowInt(v: int)
    requires INT64_MIN <= v <= INT64_MAX
    ensures StoLL(ShowInt(v)) == v
  {
    var t := ShowInt(v);
    var m: nat := if v < 0 then -v else v;
    var ds := Decimal(m);
    DecimalRoundTrip(m);
    DigitRunAll(ds);
    assert !IsSpace(t[0]);
    if v < 0 {
      assert t[1..] == ds;
      assert ds[..|ds|] == ds;
    } else {
      assert t[0] != '-' && t[0] != '+';
      assert ds[..|ds|] == ds;
    }
  }

  /** A single-token string parses to that token's value; a blank one to the default. */
  lemma ParseIntOfShowInt(v: int, default: int)
    requires INT64_MIN <= v <= INT64_MAX
    ensures ParseIntFromString(ShowInt(v), default) == v
    ensures ParseIntFromString("", default) == default
  {
    var t := ShowInt(v);
    assert ' ' !in t;
    SplitStringWhole(t, ' ');
    StoLLShowInt(v);
  }
}
