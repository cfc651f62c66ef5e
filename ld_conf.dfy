/**
 * The `ld.so.conf` reader, in both generations: the C++ `trim_ld_line` and
 * `parse_ld_conf` (line trimming, the `include` regex, include expansion in place), and
 * the line handling of libtree.c's `parse_ld_conf`.
 *
 * The file system is a map from a path to the lines `getline` yields (without their
 * newline; a missing file yields none), and `glob` is an oracle from a pattern to the
 * matching paths in the order the glob library returns them.
 */
module LdConf {
  import opened Wrappers
  import opened Collections

  // ---------------------------------------------------------------------------------
  // trim_ld_line (C++)
  // ---------------------------------------------------------------------------------

  /** The characters in `" \t"`, which `trim_ld_line` trims. */
  predicate IsBlank(c: char)
  {
    c == ' ' || c == '\t'
  }

  /** `find_first_not_of(" \t")` from `i`, with `|s|` for `npos`. */
  function SkipBlanks(s: string, i: nat): (k: nat)
    requires i <= |s|
    ensures i <= k <= |s| && (k < |s| ==> !IsBlank(s[k]))
    decreases |s| - i
  {
    if i < |s| && IsBlank(s[i]) then SkipBlanks(s, i + 1) else i
  }

  /** `find_first_of(c)` from `i`, with `|s|` for `npos`. */
  function Find(s: string, c: char, i: nat): (k: nat)
    requires i <= |s|
    ensures i <= k <= |s| && (k < |s| ==> s[k] == c)
    decreases |s| - i
  {
    if i == |s| || s[i] == c then i else Find(s, c, i + 1)
  }

  /** One past `find_last_not_of(" \t")` in `s[..j]`, and 0 for `npos`. */
  function EndNonBlank(s: string, j: nat): (e: nat)
    requires j <= |s|
    ensures e <= j && (e > 0 ==> !IsBlank(s[e - 1]))
    decreases j
  {
    if j > 0 && IsBlank(s[j - 1]) then EndNonBlank(s, j - 1) else j
  }

  /**
   * `trim_ld_line`: drop leading blanks unless the line is all blank, cut at the first
   * `#`, then drop trailing blanks unless nothing but blanks is left.
   */
  function TrimLine(line: string): string
  {
    var p := SkipBlanks(line, 0);
    var a := if p < |line| then line[p..] else line;
    var b := a[..Find(a, '#', 0)];
    var e := EndNonBlank(b, |b|);
    if e > 0 then b[..e] else b
  }

  lemma {:induction false} SkipBlanksAll(s: string, i: nat)
    requires i <= |s|
    ensures forall k :: i <= k < SkipBlanks(s, i) ==> IsBlank(s[k])
    decreases |s| - i
  {
    if i < |s| && IsBlank(s[i]) {
      SkipBlanksAll(s, i + 1);
    }
  }

  lemma {:induction false} FindFirst(s: string, c: char, i: nat)
    requires i <= |s|
    ensures forall k :: i <= k < Find(s, c, i) ==> s[k] != c
    decreases |s| - i
  {
    if i < |s| && s[i] != c {
      FindFirst(s, c, i + 1);
    }
  }

  lemma {:induction false} EndNonBlankAll(s: string, j: nat)
    requires j <= |s|
    ensures forall k :: EndNonBlank(s, j) <= k < j ==> IsBlank(s[k])
    decreases j
  {
    if j > 0 && IsBlank(s[j - 1]) {
      EndNonBlankAll(s, j - 1);
    }
  }

  /** The result is a contiguous piece of the line: a `string_view` into it. */
  lemma TrimIsSlice(line: string)
    ensures exists i, j :: 0 <= i <= j <= |line| && TrimLine(line) == line[i..j]
  {
    var p := SkipBlanks(line, 0);
    var i := if p < |line| then p else 0;
    var a := line[i..];
    var h := Find(a, '#', 0);
    var b := a[..h];
    var e := EndNonBlank(b, |b|);
    var j := if e > 0 then i + e else i + h;
    assert TrimLine(line) == line[i..j];
  }

  /** Everything from the first `#` on is gone. */
  lemma TrimNoHash(line: string)
    ensures '#' !in TrimLine(line)
  {
    var p := SkipBlanks(line, 0);
    var a := if p < |line| then line[p..] else line;
    var h := Find(a, '#', 0);
    FindFirst(a, '#', 0);
    var b := a[..h];
    assert '#' !in b;
    var e := EndNonBlank(b, |b|);
    assert forall c :: c in b[..e] ==> c in b;
  }

  /** A non-blank character before the first `#`. */
  predicate HasContent(line: string)
  {
    exists k :: 0 <= k < Find(line, '#', 0) && !IsBlank(line[k])
  }

  /** With content, the result starts and ends with a character other than a blank. */
  lemma TrimEnds(line: string)
    requires HasContent(line)
    ensures var r := TrimLine(line); r != [] && !IsBlank(r[0]) && !IsBlank(r[|r| - 1])
  {
    var k :| 0 <= k < Find(line, '#', 0) && !IsBlank(line[k]);
    FindFirst(line, '#', 0);
    SkipBlanksAll(line, 0);
    var p := SkipBlanks(line, 0);
    assert p <= k;
    var a := line[p..];
    var h := Find(a, '#', 0);
    FindFirst(a, '#', 0);
    assert line[p..][k - p] == line[k];
    assert k - p < h;
    var b := a[..h];
    assert b[0] == line[p];
    EndNonBlankAll(b, |b|);
    var e := EndNonBlank(b, |b|);
    assert !IsBlank(b[0]);
    assert e > 0;
    var r := b[..e];
    assert r[0] == b[0] && r[|r| - 1] == b[e - 1];
  }

  /** Without content, the result is blank too (empty, or the whole blank line). */
  lemma TrimWithoutContent(line: string)
    requires !HasContent(line)
    ensures forall c :: c in TrimLine(line) ==> IsBlank(c)
  {
    var p := SkipBlanks(line, 0);
    var h := Find(line, '#', 0);
    FindFirst(line, '#', 0);
    SkipBlanksAll(line, 0);
    if p < |line| {
      var a := line[p..];
      assert a[0] == line[p];
      assert line[p] == '#';
      assert Find(a, '#', 0) == 0;
    } else {
      assert h == |line|;
      var b := line[..h];
      assert b == line;
      var e := EndNonBlank(b, |b|);
      assert e == 0;
    }
  }

  /** A line of only blanks comes back unchanged: both searches give `npos`. */
  lemma TrimKeepsBlankLine(line: string)
    requires forall k :: 0 <= k < |line| ==> IsBlank(line[k])
    ensures TrimLine(line) == line
  {
    FindFirst(line, '#', 0);
    assert Find(line, '#', 0) == |line|;
    assert line[..|line|] == line;
    assert EndNonBlank(line, |line|) == 0;
  }

  /** Trimming a trimmed line changes nothing. */
  lemma TrimIdempotent(line: string)
    ensures TrimLine(TrimLine(line)) == TrimLine(line)
  {
    var r := TrimLine(line);
    TrimNoHash(line);
    if HasContent(line) {
      TrimEnds(line);
      TrimNoBlankEnds(r);
    } else {
      TrimWithoutContent(line);
      TrimKeepsBlankLine(r);
    }
  }

  /** A line without `#` that neither starts nor ends with a blank is its own trim. */
  lemma TrimNoBlankEnds(r: string)
    requires r != [] && !IsBlank(r[0]) && !IsBlank(r[|r| - 1]) && '#' !in r
    ensures TrimLine(r) == r
  {
    assert SkipBlanks(r, 0) == 0;
    assert r[0..] == r;
    FindFirst(r, '#', 0);
    assert Find(r, '#', 0) == |r|;
    assert r[..|r|] == r;
    assert EndNonBlank(r, |r|) == |r|;
  }

  // ---------------------------------------------------------------------------------
  // The include regex `^include\s+(.+?)$` under `std::regex_match`
  // ---------------------------------------------------------------------------------

  /** `\s` of the ECMAScript grammar on `char`: the C `isspace` set. */
  predicate IsSpace(c: char)
  {
    c == ' ' || c == '\t' || c == '\n' || c == '\U{0B}' || c == '\U{0C}' || c == '\r'
  }

  /** The characters `.` does not match. */
  predicate IsLineTerminator(c: char)
  {
    c == '\n' || c == '\r'
  }

  predicate NoLineTerminator(s: string)
  {
    forall k :: 0 <= k < |s| ==> !IsLineTerminator(s[k])
  }

  predicate AllSpace(s: string)
  {
    forall k :: 0 <= k < |s| ==> IsSpace(s[k])
  }

  /** The length of the run of `\s` at the start of `s`. */
  function SpaceRun(s: string): (n: nat)
    ensures n <= |s| && (n < |s| ==> !IsSpace(s[n]))
  {
    if s != [] && IsSpace(s[0]) then 1 + SpaceRun(s[1..]) else 0
  }

  lemma {:induction false} SpaceRunAll(s: string)
    ensures AllSpace(s[..SpaceRun(s)])
  {
    if s != [] && IsSpace(s[0]) {
      SpaceRunAll(s[1..]);
      assert forall k :: 1 <= k < SpaceRun(s) ==> s[..SpaceRun(s)][k] == s[1..][..SpaceRun(s[1..])][k - 1];
    }
  }

  /**
   * The capture group when the whole line matches `include\s+(.+?)`. The greedy `\s+`
   * takes the whole run of spaces and the lazy group the rest; when nothing is left,
   * backtracking hands the last space of the run to the group.
   */
  function IncludePattern(line: string): Option<string>
  {
    if |line| < 7 || line[..7] != "include" then None
    else
      var t := line[7..];
      var n := SpaceRun(t);
      if n == 0 || !NoLineTerminator(t[n..]) then None
      else if n < |t| then Some(t[n..])
      else if n >= 2 && !IsLineTerminator(t[n - 1]) then Some(t[n - 1..])
      else None
  }

  /** Whatever is captured is a non-empty tail of the line behind `include` and spaces. */
  lemma IncludeSound(line: string)
    requires IncludePattern(line).Some?
    ensures var pat := IncludePattern(line).value;
      exists w :: w != [] && AllSpace(w) && line == "include" + w + pat && pat != [] && NoLineTerminator(pat)
  {
    var t := line[7..];
    var n := SpaceRun(t);
    SpaceRunAll(t);
    var k := if n < |t| then n else n - 1;
    var w := t[..k];
    assert AllSpace(w) by {
      assert forall j :: 0 <= j < k ==> w[j] == t[..n][j];
    }
    var pat := t[k..];
    assert line == "include" + w + pat by {
      assert line == line[..7] + t;
      assert t == w + pat;
    }
    assert NoLineTerminator(pat) by {
      if k < n {
        assert pat == [t[n - 1]];
      } else {
        assert pat == t[n..];
      }
    }
  }

  /** Every line of the shape `include`, spaces, then a tail `.` can match, is an include. */
  lemma IncludeComplete(line: string, w: string, pat: string)
    requires w != [] && AllSpace(w) && pat != [] && NoLineTerminator(pat)
    requires line == "include" + w + pat
    ensures IncludePattern(line).Some?
  {
    var t := line[7..];
    assert line[..7] == "include";
    assert t == w + pat;
    var n := SpaceRun(t);
    assert forall j :: 0 <= j < |w| ==> t[j] == w[j];
    SpaceRunAtLeast(t, |w|);
    assert NoLineTerminator(t[n..]) by {
      assert forall j :: 0 <= j < |t| - n ==> t[n..][j] == pat[n + j - |w|];
    }
    if n == |t| {
      assert t[n - 1] == pat[|pat| - 1];
    }
  }

  lemma {:induction false} SpaceRunAtLeast(t: string, m: nat)
    requires m <= |t| && forall j :: 0 <= j < m ==> IsSpace(t[j])
    ensures SpaceRun(t) >= m
  {
    if m > 0 {
      SpaceRunAtLeast(t[1..], m - 1);
    }
  }

  // ---------------------------------------------------------------------------------
  // parse_ld_conf (C++)
  // ---------------------------------------------------------------------------------

  /**
   * The configuration files, the glob oracle, and a rank per file under which every
   * file an include pulls in ranks lower than the file holding the include. The source
   * follows include cycles without end; the ranks rule those out.
   */
  datatype ConfFiles = ConfFiles(files: map<string, seq<string>>, glob: string -> seq<string>, ranks: map<string, nat>)

  /** The lines `getline` reads from `path`; none when it cannot be opened. */
  function Lines(c: ConfFiles, path: string): seq<string>
  {
    if path in c.files then c.files[path] else []
  }

  function Rank(c: ConfFiles, path: string): nat
  {
    if path in c.files && path in c.ranks then c.ranks[path] + 1 else 0
  }

  predicate FilesBelow(c: ConfFiles, paths: seq<string>, level: nat)
  {
    forall j :: 0 <= j < |paths| ==> Rank(c, paths[j]) < level
  }

  predicate LineBelow(c: ConfFiles, line: string, level: nat)
  {
    match IncludePattern(TrimLine(line))
    case None => true
    case Some(pat) => FilesBelow(c, c.glob(pat), level)
  }

  predicate LinesBelow(c: ConfFiles, lines: seq<string>, level: nat)
  {
    lines == [] || (LineBelow(c, lines[0], level) && LinesBelow(c, lines[1..], level))
  }

  /** Includes never lead back to a file already being read. */
  predicate Acyclic(c: ConfFiles)
  {
    forall path :: path in c.files ==> path in c.ranks && LinesBelow(c, c.files[path], Rank(c, path))
  }

  /** The directories `parse_ld_conf(conf, directories)` appends. */
  function ConfDirs(c: ConfFiles, conf: string): seq<string>
    requires Acyclic(c)
    decreases Rank(c, conf), 2, 0
  {
    LinesDirs(c, Lines(c, conf), Rank(c, conf))
  }

  /** The directories a run of lines contributes, line by line. */
  function LinesDirs(c: ConfFiles, lines: seq<string>, level: nat): seq<string>
    requires Acyclic(c) && LinesBelow(c, lines, level)
    decreases level, 1, |lines|
  {
    if lines == [] then [] else LineDirs(c, lines[0], level) + LinesDirs(c, lines[1..], level)
  }

  /** One line: an include expands to the directories of each matched file, in glob order. */
  function LineDirs(c: ConfFiles, line: string, level: nat): seq<string>
    requires Acyclic(c) && LineBelow(c, line, level)
    decreases level, 1, 0
  {
    var t := TrimLine(line);
    match IncludePattern(t)
    case Some(pat) => FilesDirs(c, c.glob(pat), level)
    case None => if t == [] then [] else [t]
  }

  function FilesDirs(c: ConfFiles, paths: seq<string>, level: nat): seq<string>
    requires Acyclic(c) && FilesBelow(c, paths, level)
    decreases level, 0, |paths|
  {
    if paths == [] then [] else ConfDirs(c, paths[0]) + FilesDirs(c, paths[1..], level)
  }

  /** Each directory is a non-empty, comment-free, trimmed line, never an include. */
  predicate GoodDir(d: string)
  {
    d != [] && '#' !in d && IncludePattern(d).None? && TrimLine(d) == d
  }

  predicate AllGood(ds: seq<string>)
  {
    forall i :: 0 <= i < |ds| ==> GoodDir(ds[i])
  }

  lemma AllGoodAppend(a: seq<string>, b: seq<string>)
    requires AllGood(a) && AllGood(b)
    ensures AllGood(a + b)
  {
  }

  lemma {:induction false} ConfDirsGood(c: ConfFiles, conf: string)
    requires Acyclic(c)
    ensures AllGood(ConfDirs(c, conf))
    decreases Rank(c, conf), 2, 0
  {
    LinesDirsGood(c, Lines(c, conf), Rank(c, conf));
  }

  lemma {:induction false} LinesDirsGood(c: ConfFiles, lines: seq<string>, level: nat)
    requires Acyclic(c) && LinesBelow(c, lines, level)
    ensures AllGood(LinesDirs(c, lines, level))
    decreases level, 1, |lines|
  {
    if lines != [] {
      LineDirsGood(c, lines[0], level);
      LinesDirsGood(c, lines[1..], level);
      AllGoodAppend(LineDirs(c, lines[0], level), LinesDirs(c, lines[1..], level));
    }
  }

  lemma {:induction false} LineDirsGood(c: ConfFiles, line: string, level: nat)
    requires Acyclic(c) && LineBelow(c, line, level)
    ensures AllGood(LineDirs(c, line, level))
    decreases level, 1, 0
  {
    var t := TrimLine(line);
    match IncludePattern(t)
    case Some(pat) =>
      FilesDirsGood(c, c.glob(pat), level);
    case None =>
      if t != [] {
        TrimNoHash(line);
        TrimIdempotent(line);
        assert LineDirs(c, line, level) == [t];
      }
  }

  lemma {:induction false} FilesDirsGood(c: ConfFiles, paths: seq<string>, level: nat)
    requires Acyclic(c) && FilesBelow(c, paths, level)
    ensures AllGood(FilesDirs(c, paths, level))
    decreases level, 0, |paths|
  {
    if paths != [] {
      ConfDirsGood(c, paths[0]);
      FilesDirsGood(c, paths[1..], level);
      AllGoodAppend(ConfDirs(c, paths[0]), FilesDirs(c, paths[1..], level));
    }
  }

  /** Reading lines one after the other: the directories of a concatenation concatenate. */
  lemma {:induction false} LinesDirsAppend(c: ConfFiles, a: seq<string>, b: seq<string>, level: nat)
    requires Acyclic(c) && LinesBelow(c, a, level) && LinesBelow(c, b, level)
    ensures LinesBelow(c, a + b, level)
    ensures LinesDirs(c, a + b, level) == LinesDirs(c, a, level) + LinesDirs(c, b, level)
  {
    LinesBelowAppend(c, a, b, level);
    if a == [] {
      assert a + b == b;
    } else {
      LinesDirsAppend(c, a[1..], b, level);
      LinesDirsAppendStep(c, a, b, level);
    }
  }

  /** The step of `LinesDirsAppend`: the first line of `a` comes first in `a + b` too. */
  lemma LinesDirsAppendStep(c: ConfFiles, a: seq<string>, b: seq<string>, level: nat)
    requires Acyclic(c) && a != [] && LinesBelow(c, a, level) && LinesBelow(c, b, level)
    requires LinesBelow(c, a + b, level) && LinesBelow(c, a[1..] + b, level)
    requires LinesDirs(c, a[1..] + b, level) == LinesDirs(c, a[1..], level) + LinesDirs(c, b, level)
    ensures LinesDirs(c, a + b, level) == LinesDirs(c, a, level) + LinesDirs(c, b, level)
  {
    var ab := a + b;
    AppendParts(a, b);
    LinesDirsHead(c, ab, level);
    LinesDirsHead(c, a, level);
    ConsConcat(LineDirs(c, a[0], level), LinesDirs(c, a, level), LinesDirs(c, a[1..], level),
      LinesDirs(c, b, level), LinesDirs(c, ab, level), LinesDirs(c, ab[1..], level));
  }

  /** `LinesDirs` of a non-empty run: its first line, then the rest. */
  lemma LinesDirsHead(c: ConfFiles, s: seq<string>, level: nat)
    requires Acyclic(c) && s != [] && LinesBelow(c, s, level)
    ensures LineBelow(c, s[0], level) && LinesBelow(c, s[1..], level)
    ensures LinesDirs(c, s, level) == LineDirs(c, s[0], level) + LinesDirs(c, s[1..], level)
  {
  }

  lemma ConsConcat(x: seq<string>, xa: seq<string>, a: seq<string>, b: seq<string>, xab: seq<string>, ab: seq<string>)
    requires xa == x + a && xab == x + ab && ab == a + b
    ensures xab == xa + b
  {
  }

  lemma LinesBelowAppend(c: ConfFiles, a: seq<string>, b: seq<string>, level: nat)
    requires LinesBelow(c, a, level) && LinesBelow(c, b, level)
    ensures LinesBelow(c, a + b, level)
  {
    LinesBelowEach(c, a, level);
    LinesBelowEach(c, b, level);
    LinesBelowEach(c, a + b, level);
    forall i | 0 <= i < |a + b|
      ensures LineBelow(c, (a + b)[i], level)
    {
      if i < |a| {
        assert (a + b)[i] == a[i];
      } else {
        assert (a + b)[i] == b[i - |a|];
      }
    }
  }

  /** Lines are below a level when each of them is. */
  lemma {:induction false} LinesBelowEach(c: ConfFiles, s: seq<string>, level: nat)
    ensures LinesBelow(c, s, level) <==> forall i :: 0 <= i < |s| ==> LineBelow(c, s[i], level)
    decreases |s|
  {
    if s != [] {
      var t := s[1..];
      LinesBelowEach(c, t, level);
      assert forall i :: 0 < i < |s| ==> s[i] == t[i - 1];
    }
  }

  /** An include line is replaced, where it stands, by the directories of its files. */
  lemma IncludeExpandsInPlace(c: ConfFiles, a: seq<string>, line: string, b: seq<string>, level: nat)
    requires Acyclic(c) && LinesBelow(c, a, level) && LineBelow(c, line, level) && LinesBelow(c, b, level)
    requires IncludePattern(TrimLine(line)).Some?
    ensures LinesBelow(c, a + [line] + b, level)
    ensures LinesDirs(c, a + [line] + b, level)
      == LinesDirs(c, a, level) + FilesDirs(c, c.glob(IncludePattern(TrimLine(line)).value), level) + LinesDirs(c, b, level)
  {
    LinesDirsFirst(c, line, b, level);
    LinesDirsAppend(c, a, [line] + b, level);
    Associative(a, [line], b);
    Associative(LinesDirs(c, a, level), LineDirs(c, line, level), LinesDirs(c, b, level));
  }

  lemma LinesDirsFirst(c: ConfFiles, line: string, b: seq<string>, level: nat)
    requires Acyclic(c) && LineBelow(c, line, level) && LinesBelow(c, b, level)
    ensures LinesBelow(c, [line] + b, level)
    ensures LinesDirs(c, [line] + b, level) == LineDirs(c, line, level) + LinesDirs(c, b, level)
  {
    assert ([line] + b)[0] == line && ([line] + b)[1..] == b;
  }

  /** The first of the remaining lines, then the others. */
  lemma LinesDirsCons(c: ConfFiles, lines: seq<string>, i: nat, level: nat)
    requires Acyclic(c) && i < |lines|
    ensures LinesBelow(c, lines[i..], level) <==> LineBelow(c, lines[i], level) && LinesBelow(c, lines[i + 1..], level)
    ensures LinesBelow(c, lines[i..], level) ==>
      LinesDirs(c, lines[i..], level) == LineDirs(c, lines[i], level) + LinesDirs(c, lines[i + 1..], level)
  {
    assert lines[i..][0] == lines[i] && lines[i..][1..] == lines[i + 1..];
  }

  /** `parse_ld_conf(conf, directories)`: read every line, expand includes recursively. */
  method ParseLdConf(c: ConfFiles, conf: string, directories: seq<string>) returns (dirs: seq<string>)
    requires Acyclic(c)
    ensures dirs == directories + ConfDirs(c, conf)
    decreases Rank(c, conf), 2, 0
  {
    var level := Rank(c, conf);
    var unread := Lines(c, conf);
    dirs := directories;
    while unread != []
      invariant LinesBelow(c, unread, level)
      invariant dirs + LinesDirs(c, unread, level) == directories + ConfDirs(c, conf)
    {
      dirs := ReadLine(c, unread, level, dirs);
      unread := unread[1..];
    }
  }

  /** `getline` yields the next line, which is then handled. */
  method ReadLine(c: ConfFiles, unread: seq<string>, level: nat, dirs: seq<string>) returns (dirs': seq<string>)
    requires Acyclic(c) && unread != [] && LinesBelow(c, unread, level)
    ensures LinesBelow(c, unread[1..], level)
    ensures dirs' + LinesDirs(c, unread[1..], level) == dirs + LinesDirs(c, unread, level)
    decreases level, 1, 1
  {
    var line, rest := unread[0], unread[1..];
    dirs' := ParseLine(c, line, level, dirs);
    Associative(dirs, LineDirs(c, line, level), LinesDirs(c, rest, level));
  }

  /** The body of the `getline` loop for one line. */
  method ParseLine(c: ConfFiles, raw: string, level: nat, directories: seq<string>) returns (dirs: seq<string>)
    requires Acyclic(c) && LineBelow(c, raw, level)
    ensures dirs == directories + LineDirs(c, raw, level)
    decreases level, 1, 0
  {
    var line := TrimLine(raw);
    match IncludePattern(line)
    case Some(pat) =>
      dirs := ParseIncludes(c, c.glob(pat), level, directories);
    case None =>
      dirs := if |line| > 0 then directories + [line] else directories;
  }

  /** The `for (auto const &file : includes)` loop of an include line. */
  method ParseIncludes(c: ConfFiles, includes: seq<string>, level: nat, directories: seq<string>) returns (dirs: seq<string>)
    requires Acyclic(c) && FilesBelow(c, includes, level)
    ensures dirs == directories + FilesDirs(c, includes, level)
    decreases level, 0, 1
  {
    dirs := directories;
    var todo := includes;
    while todo != []
      invariant FilesBelow(c, todo, level)
      invariant dirs + FilesDirs(c, todo, level) == directories + FilesDirs(c, includes, level)
    {
      dirs := ReadFile(c, todo, level, dirs);
      todo := todo[1..];
    }
  }

  /** The next matched file is read in full. */
  method ReadFile(c: ConfFiles, todo: seq<string>, level: nat, dirs: seq<string>) returns (dirs': seq<string>)
    requires Acyclic(c) && todo != [] && FilesBelow(c, todo, level)
    ensures FilesBelow(c, todo[1..], level)
    ensures dirs' + FilesDirs(c, todo[1..], level) == dirs + FilesDirs(c, todo, level)
    decreases level, 0, 0
  {
    var path, rest := todo[0], todo[1..];
    assert Rank(c, path) < level;
    assert FilesBelow(c, rest, level) by {
      forall j | 0 <= j < |rest|
        ensures Rank(c, rest[j]) < level
      {
        assert rest[j] == todo[j + 1];
      }
    }
    dirs' := ParseLdConf(c, path, dirs);
    Associative(dirs, ConfDirs(c, path), FilesDirs(c, rest, level));
  }

  /** A blank line other than an empty one is kept as a directory of blanks, as written. */
  lemma BlankLineIsKept(c: ConfFiles)
    requires Acyclic(c)
    ensures LinesBelow(c, ["  "], 1) && LinesDirs(c, ["  "], 1) == ["  "]
  {
    TrimKeepsBlankLine("  ");
    assert ["  "][1..] == [];
  }

  // ---------------------------------------------------------------------------------
  // parse_ld_conf (libtree.c)
  // ---------------------------------------------------------------------------------

  /** A line as C sees it: up to its first NUL. */
  function CLine(line: string): string
  {
    line[..Find(line, '\0', 0)]
  }

  /** `isspace` from `i`. */
  function SkipSpaces(s: string, i: nat): (k: nat)
    requires i <= |s|
    ensures i <= k <= |s| && (k < |s| ==> !IsSpace(s[k]))
    decreases |s| - i
  {
    if i < |s| && IsSpace(s[i]) then SkipSpaces(s, i + 1) else i
  }

  /** One past the last character other than `isspace` in `s[..j]`, or 0. */
  function EndNonSpace(s: string, j: nat): (e: nat)
    requires j <= |s|
    ensures e <= j && (e > 0 ==> !IsSpace(s[e - 1]))
    decreases j
  {
    if j > 0 && IsSpace(s[j - 1]) then EndNonSpace(s, j - 1) else j
  }

  /** The trimmed line: leading spaces skipped, cut at `#`, trailing spaces dropped. */
  function CTrim(line: string): string
  {
    var s := CLine(line);
    var a := s[SkipSpaces(s, 0)..];
    var b := a[..Find(a, '#', 0)];
    b[..EndNonSpace(b, |b|)]
  }

  /**
   * The trimming in `parse_ld_conf`'s loop: up to the NUL, past leading `isspace`,
   * cut at `strchr(begin, '#')`, and back over trailing `isspace`.
   */
  method TrimConfLine(line: string) returns (t: string)
    ensures t == CTrim(line)
  {
    var n := 0;
    while n < |line| && line[n] != '\0'
      invariant n <= |line| && Find(line, '\0', n) == Find(line, '\0', 0)
    {
      n := n + 1;
    }
    var s := line[..n];
    var begin := 0;
    while begin < |s| && IsSpace(s[begin])
      invariant begin <= |s| && SkipSpaces(s, begin) == SkipSpaces(s, 0)
    {
      begin := begin + 1;
    }
    var a := s[begin..];
    var comment := 0;
    while comment < |a| && a[comment] != '#'
      invariant comment <= |a| && Find(a, '#', comment) == Find(a, '#', 0)
    {
      comment := comment + 1;
    }
    var b := a[..comment];
    var end: nat := |b|;
    while end > 0 && IsSpace(b[end - 1])
      invariant end <= |b| && EndNonSpace(b, end) == EndNonSpace(b, |b|)
    {
      end := end - 1;
    }
    t := b[..end];
  }

  /** What libtree.c does with one trimmed line. */
  datatype ConfLine = Skip | Include(pattern: string) | Dir(dir: string)

  /**
   * `include` followed by a space: glob what follows the spaces, but only an absolute
   * pattern. Anything else is a directory.
   */
  function ClassifyTrimmed(t: string): ConfLine
  {
    if |t| > 7 && t[..7] == "include" && IsSpace(t[7]) then
      var k := SkipSpaces(t, 8);
      if k < |t| && t[k] == '/' then Include(t[k..]) else Skip
    else Dir(t)
  }

  /**
   * The line handling as written: `begin == end` holds both for an empty line and
   * for a line whose only character is at `begin`, so both are skipped.
   */
  function ClassifyAsWritten(line: string): (r: ConfLine)
    ensures r.Dir? ==> r.dir == CTrim(line) && |r.dir| >= 2
    ensures r.Include? ==> r.pattern != [] && r.pattern[0] == '/'
  {
    var t := CTrim(line);
    if |t| <= 1 then Skip else ClassifyTrimmed(t)
  }

  /** The line handling the "Skip empty lines" comment intends. */
  function Classify(line: string): (r: ConfLine)
    ensures r.Dir? ==> r.dir == CTrim(line) && r.dir != []
    ensures CTrim(line) != [] && !(|CTrim(line)| > 7 && CTrim(line)[..7] == "include" && IsSpace(CTrim(line)[7]))
      ==> r == Dir(CTrim(line))
    ensures r.Include? ==> r.pattern != [] && r.pattern[0] == '/'
  {
    var t := CTrim(line);
    if |t| == 0 then Skip else ClassifyTrimmed(t)
  }

  /**
   * One line of `parse_ld_conf`: trimmed, skipped when `begin == end` (nothing, or a
   * single character, is left), then either `include` and a space, with the spaces
   * after it skipped, or a directory.
   */
  method ClassifyLine(line: string) returns (r: ConfLine)
    ensures r == ClassifyAsWritten(line)
  {
    var t := TrimConfLine(line);
    if |t| <= 1 {
      return Skip;
    }
    if |t| > 7 && t[..7] == "include" && IsSpace(t[7]) {
      var k := 8;
      while k < |t| && IsSpace(t[k])
        invariant k <= |t| && SkipSpaces(t, k) == SkipSpaces(t, 8)
      {
        k := k + 1;
      }
      if k < |t| && t[k] == '/' {
        r := Include(t[k..]);
      } else {
        r := Skip;
      }
    } else {
      r := Dir(t);
    }
  }

  /** The two differ exactly on lines that trim to one character. */
  lemma AsWrittenDropsSingleCharacters(line: string)
    ensures ClassifyAsWritten(line) == (if |CTrim(line)| == 1 then Skip else Classify(line))
  {
  }

  /** The root directory on a line of its own is dropped as written, kept as intended. */
  lemma RootLineDropped()
    ensures ClassifyAsWritten("/") == Skip
    ensures Classify("/") == Dir("/")
  {
    assert CLine("/") == "/";
    assert SkipSpaces("/", 0) == 0;
    assert "/"[0..] == "/";
    assert Find("/", '#', 0) == 1;
    assert "/"[..1] == "/";
    assert EndNonSpace("/", 1) == 1;
    assert CTrim("/") == "/";
  }

  predicate CLineBelow(c: ConfFiles, line: string, level: nat)
  {
    match ClassifyAsWritten(line)
    case Include(pat) => FilesBelow(c, c.glob(pat), level)
    case _ => true
  }

  predicate CLinesBelow(c: ConfFiles, lines: seq<string>, level: nat)
  {
    lines == [] || (CLineBelow(c, lines[0], level) && CLinesBelow(c, lines[1..], level))
  }

  predicate CAcyclic(c: ConfFiles)
  {
    forall path :: path in c.files ==> path in c.ranks && CLinesBelow(c, c.files[path], Rank(c, path))
  }

  /** The directories libtree.c's `parse_ld_conf(conf)` collects, in order. */
  function CConfDirs(c: ConfFiles, conf: string): seq<string>
    requires CAcyclic(c)
    decreases Rank(c, conf), 2, 0
  {
    CLinesDirs(c, Lines(c, conf), Rank(c, conf))
  }

  function CLinesDirs(c: ConfFiles, lines: seq<string>, level: nat): seq<string>
    requires CAcyclic(c) && CLinesBelow(c, lines, level)
    decreases level, 1, |lines|
  {
    if lines == [] then [] else CLineDirs(c, lines[0], level) + CLinesDirs(c, lines[1..], level)
  }

  function CLineDirs(c: ConfFiles, line: string, level: nat): seq<string>
    requires CAcyclic(c) && CLineBelow(c, line, level)
    decreases level, 1, 0
  {
    match ClassifyAsWritten(line)
    case Skip => []
    case Dir(d) => [d]
    case Include(pat) => CFilesDirs(c, c.glob(pat), level)
  }

  function CFilesDirs(c: ConfFiles, paths: seq<string>, level: nat): seq<string>
    requires CAcyclic(c) && FilesBelow(c, paths, level)
    decreases level, 0, |paths|
  {
    if paths == [] then [] else CConfDirs(c, paths[0]) + CFilesDirs(c, paths[1..], level)
  }

  /** The lines from the `i`-th on: that line's directories, then the rest's. */
  lemma CLinesDirsAt(c: ConfFiles, lines: seq<string>, i: nat, level: nat)
    requires CAcyclic(c) && i < |lines| && CLinesBelow(c, lines[i..], level)
    ensures CLineBelow(c, lines[i], level) && CLinesBelow(c, lines[i + 1..], level)
    ensures CLinesDirs(c, lines[i..], level) == CLineDirs(c, lines[i], level) + CLinesDirs(c, lines[i + 1..], level)
  {
    assert lines[i..][0] == lines[i] && lines[i..][1..] == lines[i + 1..];
  }

  /** The files from the `i`-th on: that file's directories, then the rest's. */
  lemma CFilesDirsAt(c: ConfFiles, paths: seq<string>, i: nat, level: nat)
    requires CAcyclic(c) && i < |paths| && FilesBelow(c, paths, level)
    ensures FilesBelow(c, paths[i..], level) && FilesBelow(c, paths[i + 1..], level)
    ensures CFilesDirs(c, paths[i..], level) == CConfDirs(c, paths[i]) + CFilesDirs(c, paths[i + 1..], level)
  {
    assert paths[i..][0] == paths[i] && paths[i..][1..] == paths[i + 1..];
  }

  /** libtree.c's directories are never empty and never hold a `#`. */
  lemma {:induction false} CConfDirsNonEmpty(c: ConfFiles, conf: string)
    requires CAcyclic(c)
    ensures NonEmptyNoHash(CConfDirs(c, conf))
    decreases Rank(c, conf), 2, 0
  {
    CLinesDirsNonEmpty(c, Lines(c, conf), Rank(c, conf));
  }

  lemma {:induction false} CLinesDirsNonEmpty(c: ConfFiles, lines: seq<string>, level: nat)
    requires CAcyclic(c) && CLinesBelow(c, lines, level)
    ensures NonEmptyNoHash(CLinesDirs(c, lines, level))
    decreases level, 1, |lines|
  {
    if lines != [] {
      var line := lines[0];
      CLinesDirsNonEmpty(c, lines[1..], level);
      var rest := CLinesDirs(c, lines[1..], level);
      match ClassifyAsWritten(line)
      case Skip =>
        assert CLinesDirs(c, lines, level) == rest;
      case Dir(d) =>
        CTrimNoHash(line);
        NonEmptyNoHashAppend([d], rest);
      case Include(pat) =>
        CFilesDirsNonEmpty(c, c.glob(pat), level);
        NonEmptyNoHashAppend(CFilesDirs(c, c.glob(pat), level), rest);
    }
  }

  lemma {:induction false} CFilesDirsNonEmpty(c: ConfFiles, paths: seq<string>, level: nat)
    requires CAcyclic(c) && FilesBelow(c, paths, level)
    ensures NonEmptyNoHash(CFilesDirs(c, paths, level))
    decreases level, 0, |paths|
  {
    if paths != [] {
      CConfDirsNonEmpty(c, paths[0]);
      CFilesDirsNonEmpty(c, paths[1..], level);
      NonEmptyNoHashAppend(CConfDirs(c, paths[0]), CFilesDirs(c, paths[1..], level));
    }
  }

  predicate NonEmptyNoHash(ds: seq<string>)
  {
    forall i :: 0 <= i < |ds| ==> ds[i] != [] && '#' !in ds[i]
  }

  lemma NonEmptyNoHashAppend(a: seq<string>, b: seq<string>)
    requires NonEmptyNoHash(a) && NonEmptyNoHash(b)
    ensures NonEmptyNoHash(a + b)
  {
  }

  lemma CTrimNoHash(line: string)
    ensures '#' !in CTrim(line)
  {
    var s := CLine(line);
    var a := s[SkipSpaces(s, 0)..];
    var h := Find(a, '#', 0);
    FindFirst(a, '#', 0);
    var b := a[..h];
    assert '#' !in b;
    assert forall x :: x in b[..EndNonSpace(b, |b|)] ==> x in b;
  }
}
