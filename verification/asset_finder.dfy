/**
 * The text side of the asset finder: the Steam library folder file is scanned line by line
 * for `"path"` entries, and the files listed below the maps directory are filtered down to
 * `.bsp` files. Reading the file and listing the directory are left to the caller: the lines
 * and the relative file paths are parameters.
 */
module AssetFinder {
  import opened Wrappers
  import CsgoUtils

  /** The characters std::isspace accepts in the C locale. */
  predicate IsSpace(c: char)
  {
    c == ' ' || c == '\t' || c == '\n' || c == '\U{0B}' || c == '\U{0C}' || c == '\r'
  }

  /** Every character of s is whitespace. */
  predicate AllSpace(s: string)
  {
    forall i :: 0 <= i < |s| ==> IsSpace(s[i])
  }

  /** The key whose value the scan extracts, quotes included. */
  const PATH_KEY: string := "\"path\""

  /** The first position at or after from that holds a non-whitespace character. */
  function FirstNonSpace(line: string, from: nat): (r: Option<nat>)
    ensures r.Some? ==> from <= r.value < |line| && !IsSpace(line[r.value]) && AllSpace(line[from..r.value])
    ensures r.None? ==> from >= |line| || AllSpace(line[from..])
    decreases |line| - from
  {
    if from >= |line| then None
    else if !IsSpace(line[from]) then Some(from)
    else
      var r := FirstNonSpace(line, from + 1);
      assert r.Some? ==> line[from..r.value] == [line[from]] + line[from + 1..r.value];
      assert r.None? && from + 1 < |line| ==> line[from..] == [line[from]] + line[from + 1..];
      r
  }

  /** The first double quote at or after from. */
  function FirstQuote(line: string, from: nat): (r: Option<nat>)
    ensures r.Some? ==> from <= r.value < |line| && line[r.value] == '"' && '"' !in line[from..r.value]
    ensures r.None? ==> from >= |line| || '"' !in line[from..]
    decreases |line| - from
  {
    if from >= |line| then None
    else if line[from] == '"' then Some(from)
    else
      var r := FirstQuote(line, from + 1);
      assert r.Some? ==> line[from..r.value] == [line[from]] + line[from + 1..r.value];
      assert r.None? && from + 1 < |line| ==> line[from..] == [line[from]] + line[from + 1..];
      r
  }

  /** The value between the quotes, with `\\` read as one backslash; a lone backslash rejects it. */
  function Unescape(v: string): (r: Option<string>)
    ensures r.Some? ==> |r.value| <= |v|
    decreases |v|
  {
    if v == [] then Some([])
    else if v[0] == '\\' then
      if |v| >= 2 && v[1] == '\\' then
        match Unescape(v[2..])
        case None => None
        case Some(rest) => Some(['\\'] + rest)
      else None
    else
      match Unescape(v[1..])
      case None => None
      case Some(rest) => Some([v[0]] + rest)
  }

  /** How the file stores a path: every backslash doubled. */
  function Escape(s: string): (r: string)
    ensures |r| >= |s|
    decreases |s|
  {
    if s == [] then [] else (if s[0] == '\\' then "\\\\" else [s[0]]) + Escape(s[1..])
  }

  /** Unescaping the stored form gives the path back. */
  lemma {:induction false} UnescapeEscape(s: string)
    ensures Unescape(Escape(s)) == Some(s)
    decreases |s|
  {
    if s != [] {
      UnescapeEscape(s[1..]);
      var e := Escape(s);
      if s[0] == '\\' {
        assert e == "\\\\" + Escape(s[1..]);
        assert e[2..] == Escape(s[1..]);
        assert [s[0]] + s[1..] == s;
      } else {
        assert e == [s[0]] + Escape(s[1..]);
        assert e[1..] == Escape(s[1..]);
        assert [s[0]] + s[1..] == s;
      }
    }
  }

  /** Every value that unescapes is the stored form of what it gives. */
  lemma {:induction false} EscapeUnescape(v: string)
    requires Unescape(v).Some?
    ensures Escape(Unescape(v).value) == v
    decreases |v|
  {
    if v != [] {
      var s := Unescape(v).value;
      if v[0] == '\\' {
        EscapeUnescape(v[2..]);
        assert s[1..] == Unescape(v[2..]).value;
        assert v == "\\\\" + v[2..];
      } else {
        EscapeUnescape(v[1..]);
        assert s[1..] == Unescape(v[1..]).value;
        assert v == [v[0]] + v[1..];
      }
    }
  }

  /** The stored form of a path without quotes has no quotes. */
  lemma {:induction false} EscapeNoQuote(s: string)
    requires '"' !in s
    ensures '"' !in Escape(s)
    decreases |s|
  {
    if s != [] {
      assert '"' !in s[1..];
      EscapeNoQuote(s[1..]);
    }
  }

  /**
   * Where the value may begin: the first non-whitespace text of the line must be `"path"`,
   * and a whitespace character must follow it; the result is the position of that character.
   */
  function KeyEnd(line: string): (r: Option<nat>)
    ensures r.Some? ==> r.value < |line|
  {
    match FirstNonSpace(line, 0)
    case None => None
    case Some(ks) =>
      var cpos := ks + |PATH_KEY|;
      if cpos > |line| || line[ks..cpos] != PATH_KEY then None
      else if cpos >= |line| || !IsSpace(line[cpos]) then None
      else Some(cpos)
  }

  /**
   * The quotes around the value: the next non-whitespace character after from must be a
   * double quote, and the value runs to the next double quote.
   */
  function Quotes(line: string, from: nat): (r: Option<(nat, nat)>)
    ensures r.Some? ==> from <= r.value.0 < r.value.1 < |line|
  {
    match FirstNonSpace(line, from)
    case None => None
    case Some(vs) =>
      if line[vs] != '"' then None
      else match FirstQuote(line, vs + 1)
        case None => None
        case Some(ve) => Some((vs, ve))
  }

  /**
   * The path a line of the library folder file gives: the key, the quoted value, only
   * whitespace after it, and the value must unescape. Any other line gives nothing.
   */
  function PathLine(line: string): (r: Option<string>)
  {
    match KeyEnd(line)
    case None => None
    case Some(cpos) =>
      match Quotes(line, cpos + 1)
      case None => None
      case Some((vs, ve)) =>
        if !AllSpace(line[ve + 1..]) then None
        else Unescape(line[vs + 1..ve])
  }

  /** The line a library folder file holds for a path: whitespace around, the key, the quoted stored form. */
  function StoredLine(lead: string, gap: string, s: string, trail: string): string
  {
    lead + PATH_KEY + gap + "\"" + Escape(s) + "\"" + trail
  }

  /** The layout conditions of a stored line: whitespace where whitespace goes, no quote in the path. */
  predicate StoredLineOk(lead: string, gap: string, s: string, trail: string)
  {
    AllSpace(lead) && gap != [] && AllSpace(gap) && AllSpace(trail) && '"' !in s
  }

  /** Where the parts of a stored line sit. */
  lemma StoredLineParts(lead: string, gap: string, s: string, trail: string)
    ensures var line := StoredLine(lead, gap, s, trail);
      var k := |lead|; var g := k + |PATH_KEY|; var v := g + |gap|; var e := v + 1 + |Escape(s)|;
      && |line| == e + 1 + |trail|
      && line[..k] == lead && line[k..g] == PATH_KEY && line[g..v] == gap && line[v] == '"'
      && line[v + 1..e] == Escape(s) && line[e] == '"' && line[e + 1..] == trail
  {
  }

  /** The first non-space after an all-space run is where the run ends. */
  lemma SkipsSpace(line: string, from: nat, to: nat)
    requires from <= to < |line| && AllSpace(line[from..to]) && !IsSpace(line[to])
    ensures FirstNonSpace(line, from) == Some(to)
    decreases |line| - from
  {
    if from < to {
      assert IsSpace(line[from..to][0]);
      assert line[from + 1..to] == line[from..to][1..];
      SkipsSpace(line, from + 1, to);
    }
  }

  /** The first quote after a quote-free run is where the run ends. */
  lemma SkipsToQuote(line: string, from: nat, to: nat)
    requires from <= to < |line| && '"' !in line[from..to] && line[to] == '"'
    ensures FirstQuote(line, from) == Some(to)
    decreases |line| - from
  {
    if from < to {
      assert line[from..to][0] == line[from];
      assert line[from + 1..to] == line[from..to][1..];
      SkipsToQuote(line, from + 1, to);
    }
  }

  /** The key found after leading whitespace ends where the key does. */
  lemma KeyEndAt(line: string, k: nat)
    requires k + |PATH_KEY| < |line| && AllSpace(line[..k]) && line[k..k + |PATH_KEY|] == PATH_KEY
    requires IsSpace(line[k + |PATH_KEY|])
    ensures KeyEnd(line) == Some(k + |PATH_KEY|)
  {
    assert line[k] == line[k..k + |PATH_KEY|][0] == '"';
    assert line[0..k] == line[..k];
    SkipsSpace(line, 0, k);
  }

  /** The quotes found after whitespace are the quote there and the next one. */
  lemma QuotesAt(line: string, from: nat, vs: nat, ve: nat)
    requires from <= vs < ve < |line| && AllSpace(line[from..vs]) && line[vs] == '"'
    requires '"' !in line[vs + 1..ve] && line[ve] == '"'
    ensures Quotes(line, from) == Some((vs, ve))
  {
    SkipsSpace(line, from, vs);
    SkipsToQuote(line, vs + 1, ve);
  }

  /** A line laid out as key, gap, quoted stored form and trailing whitespace gives the path. */
  lemma PathLineOfLayout(line: string, k: nat, v: nat, e: nat, s: string)
    requires k + |PATH_KEY| < v < e < |line|
    requires AllSpace(line[..k]) && line[k..k + |PATH_KEY|] == PATH_KEY && IsSpace(line[k + |PATH_KEY|])
    requires AllSpace(line[k + |PATH_KEY| + 1..v]) && line[v] == '"'
    requires line[v + 1..e] == Escape(s) && '"' !in Escape(s) && line[e] == '"' && AllSpace(line[e + 1..])
    ensures PathLine(line) == Some(s)
  {
    KeyEndAt(line, k);
    QuotesAt(line, k + |PATH_KEY| + 1, v, e);
    UnescapeEscape(s);
  }

  /** A stored line gives its path back. */
  lemma PathLineRoundTrip(lead: string, gap: string, s: string, trail: string)
    requires StoredLineOk(lead, gap, s, trail)
    ensures PathLine(StoredLine(lead, gap, s, trail)) == Some(s)
  {
    var line := StoredLine(lead, gap, s, trail);
    var k := |lead|;
    var g := k + |PATH_KEY|;
    var v := g + |gap|;
    var e := v + 1 + |Escape(s)|;
    StoredLineParts(lead, gap, s, trail);
    assert IsSpace(line[g]) by { assert line[g] == line[g..v][0]; }
    assert AllSpace(line[g + 1..v]) by { assert line[g + 1..v] == gap[1..]; }
    EscapeNoQuote(s);
    PathLineOfLayout(line, k, v, e, s);
  }

  /** The key's place in a line it was found in. */
  lemma KeyEndFacts(line: string)
    requires KeyEnd(line).Some?
    ensures var g := KeyEnd(line).value;
      g >= |PATH_KEY| && AllSpace(line[..g - |PATH_KEY|]) && line[g - |PATH_KEY|..g] == PATH_KEY && IsSpace(line[g])
  {
    var ks := FirstNonSpace(line, 0).value;
    assert line[..ks] == line[0..ks];
  }

  /** Where a line that gives a path holds its key, its quotes and the path's stored form. */
  lemma PathLineCut(line: string) returns (ks: nat, vs: nat, ve: nat)
    requires PathLine(line).Some?
    ensures ks + |PATH_KEY| < vs < ve < |line|
    ensures AllSpace(line[..ks]) && line[ks..ks + |PATH_KEY|] == PATH_KEY && IsSpace(line[ks + |PATH_KEY|])
    ensures AllSpace(line[ks + |PATH_KEY| + 1..vs]) && line[vs] == '"' && line[ve] == '"' && AllSpace(line[ve + 1..])
    ensures line[vs + 1..ve] == Escape(PathLine(line).value) && '"' !in PathLine(line).value
  {
    var s := PathLine(line).value;
    var g := KeyEnd(line).value;
    KeyEndFacts(line);
    ks := g - |PATH_KEY|;
    vs, ve := Quotes(line, g + 1).value.0, Quotes(line, g + 1).value.1;
    var value := line[vs + 1..ve];
    assert Unescape(value) == Some(s);
    EscapeUnescape(value);
    QuoteFreePath(s);
  }

  /** A line cut that way is a stored line with whitespace where whitespace goes. */
  lemma StoredLineOfCut(line: string, ks: nat, vs: nat, ve: nat, s: string)
    requires ks + |PATH_KEY| < vs < ve < |line|
    requires AllSpace(line[..ks]) && line[ks..ks + |PATH_KEY|] == PATH_KEY && IsSpace(line[ks + |PATH_KEY|])
    requires AllSpace(line[ks + |PATH_KEY| + 1..vs]) && line[vs] == '"' && line[ve] == '"' && AllSpace(line[ve + 1..])
    requires line[vs + 1..ve] == Escape(s) && '"' !in s
    ensures StoredLineOk(line[..ks], line[ks + |PATH_KEY|..vs], s, line[ve + 1..])
    ensures line == StoredLine(line[..ks], line[ks + |PATH_KEY|..vs], s, line[ve + 1..])
  {
    var g := ks + |PATH_KEY|;
    assert line[g..vs] == [line[g]] + line[g + 1..vs];
    StoredLineJoin(line, ks, vs, ve, s);
  }

  /** A line gives a path only when it is the stored line of that path. */
  lemma PathLineSound(line: string)
    requires PathLine(line).Some?
    ensures exists lead, gap, trail :: StoredLineOk(lead, gap, PathLine(line).value, trail)
                                      && line == StoredLine(lead, gap, PathLine(line).value, trail)
  {
    var ks, vs, ve := PathLineCut(line);
    StoredLineOfCut(line, ks, vs, ve, PathLine(line).value);
  }

  /** A line cut at its key, value and quotes is the stored line of the value's path. */
  lemma StoredLineJoin(line: string, ks: nat, vs: nat, ve: nat, s: string)
    requires ks + |PATH_KEY| <= vs < ve < |line| && line[ks..ks + |PATH_KEY|] == PATH_KEY
    requires line[vs] == '"' && line[ve] == '"' && line[vs + 1..ve] == Escape(s)
    ensures line == StoredLine(line[..ks], line[ks + |PATH_KEY|..vs], s, line[ve + 1..])
  {
    var g := ks + |PATH_KEY|;
    assert line == line[..ks] + line[ks..g] + line[g..vs] + [line[vs]] + line[vs + 1..ve] + [line[ve]] + line[ve + 1..];
  }

  /** A path whose stored form has no quote has none either. */
  lemma QuoteFreePath(s: string)
    requires '"' !in Escape(s)
    ensures '"' !in s
  {
    if '"' in s {
      var i :| 0 <= i < |s| && s[i] == '"';
      EscapeQuote(s, i);
    }
  }

  /** A quote in a path is a quote in its stored form. */
  lemma {:induction false} EscapeQuote(s: string, i: nat)
    requires i < |s| && s[i] == '"'
    ensures '"' in Escape(s)
    decreases |s|
  {
    if i == 0 {
      assert Escape(s)[0] == '"';
    } else {
      EscapeQuote(s[1..], i - 1);
      var head := if s[0] == '\\' then "\\\\" else [s[0]];
      assert Escape(s) == head + Escape(s[1..]);
    }
  }

  /** The library folder paths of a file's lines: the paths of the lines that give one, in file order. */
  function LibraryPaths(lines: seq<string>): (r: seq<string>)
    ensures |r| <= |lines|
    decreases |lines|
  {
    if lines == [] then []
    else
      match PathLine(lines[0])
      case None => LibraryPaths(lines[1..])
      case Some(p) => [p] + LibraryPaths(lines[1..])
  }

  /** The paths of two runs of lines are the paths of the first run, then those of the second. */
  lemma {:induction false} LibraryPathsConcat(a: seq<string>, b: seq<string>)
    ensures LibraryPaths(a + b) == LibraryPaths(a) + LibraryPaths(b)
    decreases |a|
  {
    if a != [] {
      assert (a + b)[0] == a[0] && (a + b)[1..] == a[1..] + b;
      LibraryPathsConcat(a[1..], b);
      var h := if PathLine(a[0]).Some? then [PathLine(a[0]).value] else [];
      assert LibraryPaths(a) == h + LibraryPaths(a[1..]);
      assert LibraryPaths(a + b) == h + LibraryPaths(a[1..] + b);
    } else {
      assert a + b == b;
    }
  }

  /** The path of every line that gives one is listed. */
  lemma {:induction false} LibraryPathsComplete(lines: seq<string>, i: nat)
    requires i < |lines| && PathLine(lines[i]).Some?
    ensures PathLine(lines[i]).value in LibraryPaths(lines)
    decreases |lines|
  {
    var h := if PathLine(lines[0]).Some? then [PathLine(lines[0]).value] else [];
    assert LibraryPaths(lines) == h + LibraryPaths(lines[1..]);
    if i > 0 {
      assert lines[1..][i - 1] == lines[i];
      LibraryPathsComplete(lines[1..], i - 1);
      InSuffix(h, LibraryPaths(lines[1..]), PathLine(lines[i]).value);
    } else {
      assert LibraryPaths(lines)[0] == PathLine(lines[0]).value;
    }
  }

  /** Every listed path is given by some line. */
  lemma {:induction false} LibraryPathsSound(lines: seq<string>, s: string)
    requires s in LibraryPaths(lines)
    ensures exists i :: 0 <= i < |lines| && PathLine(lines[i]) == Some(s)
    decreases |lines|
  {
    var h := if PathLine(lines[0]).Some? then [PathLine(lines[0]).value] else [];
    assert LibraryPaths(lines) == h + LibraryPaths(lines[1..]);
    if s in h {
      assert PathLine(lines[0]) == Some(s);
    } else {
      LibraryPathsSound(lines[1..], s);
      var i :| 0 <= i < |lines[1..]| && PathLine(lines[1..][i]) == Some(s);
      assert lines[i + 1] == lines[1..][i];
    }
  }

  // ---------------------------------------------------------------------------------------
  // Map file filter
  // ---------------------------------------------------------------------------------------

  /** The last path component: everything after the last '/'. */
  function FileName(p: string): (r: string)
    ensures '/' !in r && |r| <= |p|
    ensures r == p[|p| - |r|..]
    decreases |p|
  {
    if p == [] then []
    else if p[|p| - 1] == '/' then []
    else
      var r := FileName(p[..|p| - 1]);
      assert p[..|p| - 1][|p| - 1 - |r|..] == p[|p| - 1 - |r|..|p| - 1];
      r + [p[|p| - 1]]
  }

  /** A map file: a name of at least four characters ending in `.bsp`, letters in either case. */
  predicate IsMapName(name: string)
  {
    var n := |name|;
    && n >= 4
    && name[n - 4] == '.'
    && (name[n - 3] == 'b' || name[n - 3] == 'B')
    && (name[n - 2] == 's' || name[n - 2] == 'S')
    && (name[n - 1] == 'p' || name[n - 1] == 'P')
  }

  /** The letter checks are ASCII case folding: a map name is one whose last four characters lower-case to ".bsp". */
  lemma IsMapNameLower(name: string)
    ensures IsMapName(name) <==> |name| >= 4 && LowerAll(name[|name| - 4..]) == ".bsp"
  {
    if |name| >= 4 {
      var t := name[|name| - 4..];
      assert t[0] == name[|name| - 4] && t[1] == name[|name| - 3] && t[2] == name[|name| - 2] && t[3] == name[|name| - 1];
      if LowerAll(t) == ".bsp" {
        assert LowerAll(t)[0] == '.' && LowerAll(t)[1] == 'b' && LowerAll(t)[2] == 's' && LowerAll(t)[3] == 'p';
      }
    }
  }

  /** ASCII lower-casing of every character. */
  function LowerAll(s: string): (r: string)
    ensures |r| == |s| && forall i :: 0 <= i < |s| ==> r[i] == CsgoUtils.Lower(s[i])
  {
    seq(|s|, i requires 0 <= i < |s| => CsgoUtils.Lower(s[i]))
  }

  /** The map list: the relative paths whose file name is a map file, in listing order. */
  function MapFiles(paths: seq<string>): (r: seq<string>)
    ensures |r| <= |paths|
    decreases |paths|
  {
    if paths == [] then []
    else (if IsMapName(FileName(paths[0])) then [paths[0]] else []) + MapFiles(paths[1..])
  }

  /** Filtering two listings is filtering each in turn. */
  lemma {:induction false} MapFilesConcat(a: seq<string>, b: seq<string>)
    ensures MapFiles(a + b) == MapFiles(a) + MapFiles(b)
    decreases |a|
  {
    if a != [] {
      assert (a + b)[0] == a[0] && (a + b)[1..] == a[1..] + b;
      MapFilesConcat(a[1..], b);
      var h := if IsMapName(FileName(a[0])) then [a[0]] else [];
      assert MapFiles(a) == h + MapFiles(a[1..]);
      assert MapFiles(a + b) == h + MapFiles(a[1..] + b);
    } else {
      assert a + b == b;
    }
  }

  /** Every listed path naming a map file is kept. */
  lemma {:induction false} MapFilesComplete(paths: seq<string>, i: nat)
    requires i < |paths| && IsMapName(FileName(paths[i]))
    ensures paths[i] in MapFiles(paths)
    decreases |paths|
  {
    var h := if IsMapName(FileName(paths[0])) then [paths[0]] else [];
    assert MapFiles(paths) == h + MapFiles(paths[1..]);
    if i > 0 {
      assert paths[1..][i - 1] == paths[i];
      MapFilesComplete(paths[1..], i - 1);
      InSuffix(h, MapFiles(paths[1..]), paths[i]);
    } else {
      assert MapFiles(paths)[0] == paths[0];
    }
  }

  /** A member of the second part is a member of the join. */
  lemma InSuffix<T>(a: seq<T>, b: seq<T>, x: T)
    requires x in b
    ensures x in a + b
  {
    var j :| 0 <= j < |b| && b[j] == x;
    assert (a + b)[|a| + j] == x;
  }

  /** The map list keeps only listed paths that name map files. */
  lemma {:induction false} MapFilesSound(paths: seq<string>, p: string)
    requires p in MapFiles(paths)
    ensures p in paths && IsMapName(FileName(p))
    decreases |paths|
  {
    var h := if IsMapName(FileName(paths[0])) then [paths[0]] else [];
    assert MapFiles(paths) == h + MapFiles(paths[1..]);
    if p !in h {
      MapFilesSound(paths[1..], p);
    }
  }
}
