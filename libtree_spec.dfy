/**
 * What libtree.c's walk is specified by: the files it can open, the code `recurse`
 * returns for each, the `$ORIGIN` of a file, the order of the search stages, and the
 * layout of the string arena before the walk starts.
 */
module LibTreeSpec {
  import opened Wrappers
  import opened Collections
  import opened ElfBytes
  import opened ElfDecode
  import opened SearchPaths

  /** `(st_dev, st_ino)` as `fstat` reports them. */
  datatype FileId = FileId(dev: nat, ino: nat)

  /** An openable file: its identity and its bytes. */
  datatype Image = Image(id: FileId, bytes: seq<Byte>)

  /** `fopen(path, "rb")` succeeds exactly for the paths in the map. */
  type FileSystem = map<string, Image>

  /** Every file fits the fixed arrays of `recurse`. */
  predicate FsWithinLimits(fs: FileSystem)
  {
    forall p :: p in fs ==> WithinLimits(fs[p].bytes)
  }

  function Ids(fs: FileSystem): set<FileId>
  {
    set p | p in fs :: fs[p].id
  }

  /** `how_t`, and `found_t`: how a file was found, and at which depth for an rpath. */
  datatype How = Input | Direct | RPath | LdLibraryPath | RunPath | LdSoConf | Default
  datatype Found = Found(how: How, depth: nat)

  const DEFAULT_PATHS: string := "/lib:/lib64:/usr/lib:/usr/lib64"

  /** The lines of the tree, without their rendering. */
  datatype Kind = NoDynamic(seen: bool) | Repeated | Expanded
  datatype Line =
    | Node(depth: nat, name: string, reason: Found, kind: Kind)
    | NotAbsolute(depth: nat, name: string)
    | NotFound(depth: nat, name: string)

  // ---------------------------------------------------------------------------------
  // Strings in the arena
  // ---------------------------------------------------------------------------------

  /** The C string that starts at `off` in the arena. */
  function CStr(buf: string, off: nat): (s: string)
    ensures off <= |buf| ==> off + |s| <= |buf| && s == buf[off..off + |s|]
    ensures off > |buf| ==> s == []
    ensures '\0' !in s
    ensures off + |s| < |buf| ==> buf[off + |s|] == '\0'
    decreases |buf| - off
  {
    if off >= |buf| || buf[off] == '\0' then [] else [buf[off]] + CStr(buf, off + 1)
  }

  /** A string copied in with its terminator reads back unchanged, whatever follows. */
  lemma {:induction false} CStrOfTerminated(a: string, s: string, b: string)
    requires '\0' !in s
    ensures CStr(a + s + ['\0'] + b, |a|) == s
    decreases |s|
  {
    var buf := a + s + ['\0'] + b;
    if s == [] {
      assert buf[|a|] == '\0';
    } else {
      assert buf[|a|] == s[0];
      assert buf == (a + [s[0]]) + s[1..] + ['\0'] + b;
      CStrOfTerminated(a + [s[0]], s[1..], b);
    }
  }

  /** Text added after the terminator leaves a string unchanged. */
  lemma {:induction false} CStrPrefix(buf: string, off: nat, more: string)
    requires off + |CStr(buf, off)| < |buf|
    ensures CStr(buf + more, off) == CStr(buf, off)
    decreases |buf| - off
  {
    if buf[off] != '\0' {
      CStrPrefix(buf, off + 1, more);
    }
  }

  // ---------------------------------------------------------------------------------
  // $ORIGIN
  // ---------------------------------------------------------------------------------

  /**
   * The directory of the current file including its last `/`, or `./` when the name
   * holds no `/`.
   */
  function Origin(file: string): (o: string)
    ensures o != [] && o[|o| - 1] == '/'
    ensures (exists k :: 0 <= k < |file| && file[k] == '/')
            ==> |o| <= |file| && file[..|o|] == o && forall k :: |o| <= k < |file| ==> file[k] != '/'
    ensures (forall k :: 0 <= k < |file| ==> file[k] != '/') ==> o == "./"
  {
    match LastSlashBelow(file, |file|)
    case Some(i) => file[..i + 1]
    case None => "./"
  }

  /**
   * The `$ORIGIN` string as written: the prefix is copied, the terminator lands one
   * position further, and `origin[bytes]` keeps whatever byte `stale` the stack held.
   */
  function OriginAsWritten(file: string, stale: char): string
  {
    match LastSlashBelow(file, |file|)
    case Some(i) => file[..i + 1] + (if stale == '\0' then [] else [stale])
    case None => "./"
  }

  /** A stale byte lands right after the `/`. */
  lemma OriginKeepsStaleByte()
    ensures OriginAsWritten("/usr/lib/libz.so", 'x') == "/usr/lib/x"
    ensures Origin("/usr/lib/libz.so") == "/usr/lib/"
  {
    var f := "/usr/lib/libz.so";
    assert f[8] == '/';
    assert LastSlashBelow(f, |f|) == Some(8);
    assert f[..9] == "/usr/lib/";
  }

  /** Only when the stale byte happens to be NUL do the two agree. */
  lemma OriginAgreesOnNul(file: string)
    ensures OriginAsWritten(file, '\0') == Origin(file)
  {
  }

  // ---------------------------------------------------------------------------------
  // What `recurse` returns
  // ---------------------------------------------------------------------------------

  /** The outcome of decoding one file: a return code, a leaf, or the dynamic info. */
  datatype Decoded = Rejected(code: int) | Leaf | Dyn(info: DynInfo, strtab: nat)

  function DecodeOf(f: seq<Byte>): (r: Decoded)
    requires WithinLimits(f)
    ensures r.Rejected? ==> r.code != 0
  {
    match HeaderOf(f)
    case HeaderFailed(e) => Rejected(e.Code())
    case HeaderOk(loads, dynamic) =>
      if dynamic == MAX_SIZE_T then Leaf
      else match DynamicOf(f, dynamic)
        case DynFailed(c) => Rejected(c)
        case DynOk(d) => Dyn(d, StrtabOffsetOf(loads, d.strtab))
  }

  /** `fseek(fptr, strtab_offset + v, SEEK_SET)` succeeds. */
  predicate StringSeekOk(strtab: nat, v: nat)
  {
    SeekOk(Wrap64(strtab + v))
  }

  /** The string table entry at `v`, as the `getc` loop copies it. */
  function StringAt(f: seq<Byte>, strtab: nat, v: nat): string
  {
    Chars(CStringAt(f, Wrap64(strtab + v)))
  }

  /** The soname, when there is one, can be reached. */
  predicate SonameOk(d: DynInfo, strtab: nat)
  {
    d.soname == MAX_SIZE_T || StringSeekOk(strtab, d.soname)
  }

  /** The rpath, runpath and every needed name can be read. */
  predicate PathStringsOk(d: DynInfo, strtab: nat)
  {
    (d.rpath == MAX_SIZE_T || StringSeekOk(strtab, d.rpath))
    && (d.runpath == MAX_SIZE_T || StringSeekOk(strtab, d.runpath))
    && forall i :: 0 <= i < |d.needed| ==> StringSeekOk(strtab, d.needed[i])
  }

  /**
   * The code `recurse` returns for a file whose `(dev, ino)` was `seen` before:
   * 1 when it cannot be opened, the header and dynamic codes, 16 when the soname
   * cannot be reached, and, for a file expanded for the first time, 1 when a path
   * list or a needed name cannot be reached. The children's codes are ignored.
   */
  function Code(fs: FileSystem, path: string, seen: bool): int
    requires FsWithinLimits(fs)
  {
    if path !in fs then 1
    else match DecodeOf(fs[path].bytes)
      case Rejected(c) => c
      case Leaf => 0
      case Dyn(d, strtab) =>
        if !SonameOk(d, strtab) then 16
        else if seen || PathStringsOk(d, strtab) then 0
        else 1
  }

  /** A file that opens when met for the first time also opens when met again. */
  lemma CodeSeenWeaker(fs: FileSystem, path: string)
    requires FsWithinLimits(fs)
    ensures Code(fs, path, false) == 0 ==> Code(fs, path, true) == 0
    ensures Code(fs, path, true) != 0 ==> Code(fs, path, true) == Code(fs, path, false)
  {
  }

  /** The codes `recurse` can return. */
  lemma CodeValues(fs: FileSystem, path: string, seen: bool)
    requires FsWithinLimits(fs)
    ensures Code(fs, path, seen) in {0, 1, 7, 8, 9, 10, 11, 14, 16}
  {
  }

  /** `recurse` returned 0 for `path` at some point. */
  predicate Resolves(fs: FileSystem, path: string)
    requires FsWithinLimits(fs)
  {
    Code(fs, path, true) == 0
  }

  /** `recurse` returned non-zero for `path` whenever it was tried. */
  predicate Fails(fs: FileSystem, path: string)
    requires FsWithinLimits(fs)
  {
    Code(fs, path, false) != 0
  }

  lemma TriedCode(fs: FileSystem, path: string, seen: bool)
    requires FsWithinLimits(fs)
    ensures Code(fs, path, seen) == 0 ==> Resolves(fs, path)
    ensures Code(fs, path, seen) != 0 ==> Fails(fs, path)
  {
    CodeSeenWeaker(fs, path);
  }

  /** The name found in one of the directories. */
  predicate ResolvesIn(fs: FileSystem, dirs: seq<string>, name: string)
    requires FsWithinLimits(fs)
  {
    exists i :: 0 <= i < |dirs| && Resolves(fs, dirs[i] + name)
  }

  /** The name found in none of the directories. */
  predicate FailsIn(fs: FileSystem, dirs: seq<string>, name: string)
    requires FsWithinLimits(fs)
  {
    forall i :: 0 <= i < |dirs| ==> Fails(fs, dirs[i] + name)
  }

  // ---------------------------------------------------------------------------------
  // Search order
  // ---------------------------------------------------------------------------------

  /** One call of `check_search_paths`: the reason it passes on and the path list. */
  datatype Stage = Stage(reason: Found, paths: string)

  /** The rpath stack from depth `j` down to 0, skipping depths without an rpath. */
  function RpathStages(buf: string, rpaths: map<nat, nat>, j: int): seq<Stage>
    decreases j + 1
  {
    if j < 0 then []
    else if j in rpaths && rpaths[j] != MAX_SIZE_T then
      [Stage(Found(RPath, j), CStr(buf, rpaths[j]))] + RpathStages(buf, rpaths, j - 1)
    else RpathStages(buf, rpaths, j - 1)
  }

  /**
   * The search stages after the direct names: the rpath stack when there is no
   * runpath, then `LD_LIBRARY_PATH` when set, the runpath when present, the
   * ld.so.conf string at the start of the arena, and the default paths.
   */
  function Stages(buf: string, rpaths: map<nat, nat>, depth: nat, runpath: Option<nat>, ldLibraryPath: nat): seq<Stage>
  {
    (if runpath.None? then RpathStages(buf, rpaths, depth) else []) + FixedStages(buf, runpath, ldLibraryPath)
  }

  /** The stages after the rpath stack. */
  function FixedStages(buf: string, runpath: Option<nat>, ldLibraryPath: nat): seq<Stage>
  {
    (if ldLibraryPath != MAX_SIZE_T then [Stage(Found(LdLibraryPath, 0), CStr(buf, ldLibraryPath))] else [])
    + (if runpath.Some? then [Stage(Found(RunPath, 0), CStr(buf, runpath.value))] else [])
    + [Stage(Found(LdSoConf, 0), CStr(buf, 0)), Stage(Found(Default, 0), DEFAULT_PATHS)]
  }

  /** The position of each kind of stage in the order. */
  function Precedence(h: How): nat
  {
    match h
    case RPath => 0
    case LdLibraryPath => 1
    case RunPath => 2
    case LdSoConf => 3
    case Default => 4
    case _ => 5
  }

  lemma {:induction false} RpathStagesDescend(buf: string, rpaths: map<nat, nat>, j: int)
    ensures forall i :: 0 <= i < |RpathStages(buf, rpaths, j)| ==>
              RpathStages(buf, rpaths, j)[i].reason.how == RPath && RpathStages(buf, rpaths, j)[i].reason.depth <= j
    ensures forall i, k :: 0 <= i < k < |RpathStages(buf, rpaths, j)| ==>
              RpathStages(buf, rpaths, j)[i].reason.depth > RpathStages(buf, rpaths, j)[k].reason.depth
    decreases j + 1
  {
    if j >= 0 {
      RpathStagesDescend(buf, rpaths, j - 1);
    }
  }

  /**
   * Stages come in the fixed order: rpaths by decreasing depth, `LD_LIBRARY_PATH`,
   * runpath, ld.so.conf, defaults; the last two are always there.
   */
  lemma StagesInOrder(buf: string, rpaths: map<nat, nat>, depth: nat, runpath: Option<nat>, ld: nat)
    ensures forall i, k :: 0 <= i < k < |Stages(buf, rpaths, depth, runpath, ld)| ==>
              var s, t := Stages(buf, rpaths, depth, runpath, ld)[i], Stages(buf, rpaths, depth, runpath, ld)[k];
              Precedence(s.reason.how) < Precedence(t.reason.how)
              || (s.reason.how == t.reason.how == RPath && s.reason.depth > t.reason.depth)
    ensures |Stages(buf, rpaths, depth, runpath, ld)| >= 2
    ensures Stages(buf, rpaths, depth, runpath, ld)[|Stages(buf, rpaths, depth, runpath, ld)| - 2]
            == Stage(Found(LdSoConf, 0), CStr(buf, 0))
    ensures Stages(buf, rpaths, depth, runpath, ld)[|Stages(buf, rpaths, depth, runpath, ld)| - 1]
            == Stage(Found(Default, 0), DEFAULT_PATHS)
  {
    var a := if runpath.None? then RpathStages(buf, rpaths, depth) else [];
    RpathStagesDescend(buf, rpaths, depth);
    FixedInOrder(buf, runpath, ld);
    FixedAfterRpaths(buf, runpath, ld);
    OrderedConcat(a, FixedStages(buf, runpath, ld));
  }

  /** The stages after the rpath stack come in the order of `Precedence`, none of them an rpath. */
  lemma FixedAfterRpaths(buf: string, runpath: Option<nat>, ld: nat)
    ensures forall i :: 0 <= i < |FixedStages(buf, runpath, ld)| ==> Precedence(FixedStages(buf, runpath, ld)[i].reason.how) >= 1
  {
  }

  lemma FixedInOrder(buf: string, runpath: Option<nat>, ld: nat)
    ensures InOrder(FixedStages(buf, runpath, ld))
  {
    var d := [Stage(Found(LdSoConf, 0), CStr(buf, 0)), Stage(Found(Default, 0), DEFAULT_PATHS)];
    forall i, k | 0 <= i < k < |d|
      ensures Before(d[i], d[k])
    {
      assert i == 0 && k == 1;
    }
    var d' := d;
    if runpath.Some? {
      d' := [Stage(Found(RunPath, 0), CStr(buf, runpath.value))] + d;
      LeadsInOrder(d'[0], d);
    }
    var f := FixedStages(buf, runpath, ld);
    if ld != MAX_SIZE_T {
      LeadsInOrder(Stage(Found(LdLibraryPath, 0), CStr(buf, ld)), d');
      assert f == [Stage(Found(LdLibraryPath, 0), CStr(buf, ld))] + d';
    } else {
      assert f == d';
    }
  }

  /** A stage of lower precedence than all of `st` keeps it in order when put first. */
  lemma LeadsInOrder(s: Stage, st: seq<Stage>)
    requires InOrder(st) && forall i :: 0 <= i < |st| ==> Precedence(s.reason.how) < Precedence(st[i].reason.how)
    ensures InOrder([s] + st)
  {
    var x := [s] + st;
    forall i, k | 0 <= i < k < |x|
      ensures Before(x[i], x[k])
    {
      assert x[k] == st[k - 1];
      if i > 0 {
        assert x[i] == st[i - 1];
      }
    }
  }

  /** Stage `s` is consulted before stage `t`. */
  predicate Before(s: Stage, t: Stage)
  {
    Precedence(s.reason.how) < Precedence(t.reason.how)
    || (s.reason.how == t.reason.how == RPath && s.reason.depth > t.reason.depth)
  }

  predicate InOrder(st: seq<Stage>)
  {
    forall i, k :: 0 <= i < k < |st| ==> Before(st[i], st[k])
  }

  lemma OrderedConcat(x: seq<Stage>, y: seq<Stage>)
    requires InOrder(x) && InOrder(y)
    requires forall i, k :: 0 <= i < |x| && 0 <= k < |y| ==> Before(x[i], y[k])
    ensures InOrder(x + y)
  {
    var xy := x + y;
    forall i, k | 0 <= i < k < |xy|
      ensures Before(xy[i], xy[k])
    {
      if k < |x| {
        assert xy[i] == x[i] && xy[k] == x[k];
      } else if i >= |x| {
        assert xy[i] == y[i - |x|] && xy[k] == y[k - |x|];
      } else {
        assert xy[i] == x[i] && xy[k] == y[k - |x|];
      }
    }
  }

  /** A runpath switches the rpath stack off entirely. */
  lemma RunpathHidesRpaths(buf: string, rpaths: map<nat, nat>, depth: nat, runpath: nat, ld: nat)
    ensures forall i :: 0 <= i < |Stages(buf, rpaths, depth, Some(runpath), ld)| ==>
              Stages(buf, rpaths, depth, Some(runpath), ld)[i].reason.how != RPath
  {
  }

  /** Without a runpath, every rpath on the stack at or below `depth` is a stage. */
  lemma {:induction false} RpathsConsulted(buf: string, rpaths: map<nat, nat>, j: int, k: nat)
    requires k <= j && k in rpaths && rpaths[k] != MAX_SIZE_T
    ensures Stage(Found(RPath, k), CStr(buf, rpaths[k])) in RpathStages(buf, rpaths, j)
    decreases j
  {
    if k < j {
      RpathsConsulted(buf, rpaths, j - 1, k);
    }
  }

  // ---------------------------------------------------------------------------------
  // The arena before the walk (print_tree)
  // ---------------------------------------------------------------------------------

  /** What `parse_ld_conf` leaves: each directory followed by a `:`. */
  function WithColons(dirs: seq<string>): (s: string)
    ensures |s| >= |dirs|
  {
    if dirs == [] then [] else dirs[0] + [':'] + WithColons(dirs[1..])
  }

  /** Collecting two runs of directories one after the other. */
  lemma {:induction false} WithColonsAppend(a: seq<string>, b: seq<string>)
    ensures WithColons(a + b) == WithColons(a) + WithColons(b)
    decreases |a|
  {
    if a == [] {
      assert a + b == b;
    } else {
      AppendParts(a, b);
      WithColonsAppend(a[1..], b);
    }
  }

  /** `parse_ld_library_path`'s copy: the value with `;` turned into `:`, and its NUL. */
  function LdLibraryPathCopy(env: Option<string>): string
  {
    if env.Some? then SemicolonsToColons(env.value) + ['\0'] else []
  }

  /** As written: the last byte of the arena becomes NUL after both copies. */
  function LayoutAsWritten(dirs: seq<string>, env: Option<string>): string
  {
    var b := WithColons(dirs) + LdLibraryPathCopy(env);
    if |b| > 0 then b[|b| - 1 := '\0'] else b
  }

  /** The ld.so.conf list terminated on its own: its last `:` replaced by NUL. */
  function ConfString(dirs: seq<string>): (s: string)
    ensures |s| > 0 && s[|s| - 1] == '\0'
  {
    var b := WithColons(dirs);
    if |b| > 0 then b[|b| - 1 := '\0'] else ['\0']
  }

  /** The intended layout: the terminated ld.so.conf list, then `LD_LIBRARY_PATH`. */
  function Layout(dirs: seq<string>, env: Option<string>): string
  {
    ConfString(dirs) + LdLibraryPathCopy(env)
  }

  /** Directories joined by `:` and then terminated read back as the joined string. */
  lemma {:induction false} WithColonsJoin(dirs: seq<string>)
    requires dirs != []
    ensures WithColons(dirs) == Join(dirs, ':') + [':']
  {
    if |dirs| > 1 {
      WithColonsJoin(dirs[1..]);
    }
  }

  /** With the intended layout the ld.so.conf string is exactly the directories. */
  lemma ConfStringIsJoin(dirs: seq<string>, env: Option<string>)
    requires forall i :: 0 <= i < |dirs| ==> '\0' !in dirs[i]
    ensures CStr(Layout(dirs, env), 0) == (if dirs == [] then [] else Join(dirs, ':'))
  {
    if dirs == [] {
      EmptyConfString(env);
    } else {
      var j := Join(dirs, ':');
      JoinWithoutNul(dirs);
      JoinedConfString(dirs, env, j);
    }
  }

  lemma EmptyConfString(env: Option<string>)
    ensures CStr(Layout([], env), 0) == []
  {
    var e := LdLibraryPathCopy(env);
    CStrOfTerminated([], [], e);
    assert [] + [] + ['\0'] + e == Layout([], env);
  }

  lemma JoinedConfString(dirs: seq<string>, env: Option<string>, j: string)
    requires dirs != [] && j == Join(dirs, ':') && '\0' !in j
    ensures CStr(Layout(dirs, env), 0) == j
  {
    var e := LdLibraryPathCopy(env);
    ConfStringOfJoin(dirs, j);
    CStrOfTerminated([], j, e);
    assert [] + j + ['\0'] + e == Layout(dirs, env);
  }

  lemma ConfStringOfJoin(dirs: seq<string>, j: string)
    requires dirs != [] && j == Join(dirs, ':')
    ensures ConfString(dirs) == j + ['\0']
  {
    WithColonsJoin(dirs);
    var b := WithColons(dirs);
    assert b == j + [':'];
    assert b[|b| - 1 := '\0'] == j + ['\0'];
  }

  lemma {:induction false} JoinWithoutNul(dirs: seq<string>)
    requires dirs != [] && forall i :: 0 <= i < |dirs| ==> '\0' !in dirs[i]
    ensures '\0' !in Join(dirs, ':')
  {
    if |dirs| > 1 {
      JoinWithoutNul(dirs[1..]);
    }
  }

  /** ... and `LD_LIBRARY_PATH` follows it, rewritten, at the offset the walk keeps. */
  lemma LdLibraryPathIsSeparate(dirs: seq<string>, v: string)
    requires '\0' !in v
    ensures CStr(Layout(dirs, Some(v)), |ConfString(dirs)|) == SemicolonsToColons(v)
  {
    assert '\0' !in SemicolonsToColons(v);
    CStrOfTerminated(ConfString(dirs), SemicolonsToColons(v), []);
    assert ConfString(dirs) + SemicolonsToColons(v) + ['\0'] + [] == Layout(dirs, Some(v));
  }

  /** As written, `LD_LIBRARY_PATH` is read as part of the ld.so.conf string too. */
  lemma ConfStringRunsOn()
    ensures CStr(LayoutAsWritten(["/a"], Some("/b")), 0) == "/a:/b"
    ensures CStr(Layout(["/a"], Some("/b")), 0) == "/a"
  {
    assert WithColons(["/a"]) == "/a:" by {
      assert ["/a"][1..] == [];
    }
    assert LayoutAsWritten(["/a"], Some("/b")) == "/a:/b\0";
    assert Layout(["/a"], Some("/b")) == "/a\0/b\0";
    assert CStr("/a:/b\0", 5) == [];
    assert CStr("/a\0/b\0", 2) == [];
  }

  /**
   * As written, with no ld.so.conf directory and no `LD_LIBRARY_PATH` the arena is empty,
   * so the ld.so.conf stage reads whatever string `recurse` copies in first at offset 0.
   * The intended layout gives that stage the empty string instead.
   */
  lemma EmptyArenaAsWritten(first: string, rest: string)
    requires '\0' !in first
    ensures LayoutAsWritten([], None) == []
    ensures CStr(LayoutAsWritten([], None) + first + ['\0'] + rest, 0) == first
    ensures CStr(Layout([], None) + first + ['\0'] + rest, 0) == []
  {
    CStrOfTerminated([], first, rest);
    assert [] + first + ['\0'] + rest == LayoutAsWritten([], None) + first + ['\0'] + rest;
    assert Layout([], None) + first + ['\0'] + rest == [] + [] + ['\0'] + (first + ['\0'] + rest);
    CStrOfTerminated([], [], first + ['\0'] + rest);
  }

  /**
   * What the ld.so.conf stage searches in the arena as written: the joined directories,
   * followed by `LD_LIBRARY_PATH` whenever it is set.
   */
  lemma ConfStageAsWritten(dirs: seq<string>, env: Option<string>)
    requires forall i :: 0 <= i < |dirs| ==> '\0' !in dirs[i]
    requires env.Some? ==> '\0' !in env.value
    requires dirs != [] || env.Some?
    ensures CStr(LayoutAsWritten(dirs, env), 0)
         == if env.None? then Join(dirs, ':')
            else if dirs == [] then SemicolonsToColons(env.value)
            else Join(dirs, ':') + [':'] + SemicolonsToColons(env.value)
  {
    if env.None? {
      ConfStageWithoutVariable(dirs);
    } else if dirs == [] {
      RunsOnIntoVariable([], [], env.value);
    } else {
      var j := Join(dirs, ':');
      JoinWithoutNul(dirs);
      WithColonsJoin(dirs);
      RunsOnIntoVariable(dirs, j + [':'], env.value);
    }
  }

  /** Without the variable the last `:` becomes the NUL, as intended. */
  lemma ConfStageWithoutVariable(dirs: seq<string>)
    requires dirs != [] && forall i :: 0 <= i < |dirs| ==> '\0' !in dirs[i]
    ensures CStr(LayoutAsWritten(dirs, None), 0) == Join(dirs, ':')
  {
    var j := Join(dirs, ':');
    JoinWithoutNul(dirs);
    ConfStringOfJoin(dirs, j);
    assert LayoutAsWritten(dirs, None) == ConfString(dirs);
    CStrOfTerminated([], j, []);
    assert [] + j + ['\0'] + [] == ConfString(dirs);
  }

  /** With the variable set its own NUL is the last byte, so the arena is unchanged. */
  lemma RunsOnIntoVariable(dirs: seq<string>, w: string, v: string)
    requires WithColons(dirs) == w && '\0' !in w && '\0' !in v
    ensures LayoutAsWritten(dirs, Some(v)) == w + SemicolonsToColons(v) + ['\0']
    ensures CStr(LayoutAsWritten(dirs, Some(v)), 0) == w + SemicolonsToColons(v)
  {
    var sv := SemicolonsToColons(v);
    assert '\0' !in sv;
    var b := (w + sv) + ['\0'];
    assert LdLibraryPathCopy(Some(v)) == sv + ['\0'];
    assert WithColons(dirs) + LdLibraryPathCopy(Some(v)) == b;
    TerminatedKeepsLast(w + sv);
    assert b == [] + (w + sv) + ['\0'] + [];
    CStrOfTerminated([], w + sv, []);
  }

  lemma TerminatedKeepsLast(s: string)
    ensures (s + ['\0'])[|s| := '\0'] == s + ['\0']
  {
  }

  /** As written, `LD_LIBRARY_PATH` sits right after the ld.so.conf list and reads back. */
  lemma LdLibraryPathAsWritten(dirs: seq<string>, v: string)
    requires '\0' !in v
    ensures CStr(LayoutAsWritten(dirs, Some(v)), |WithColons(dirs)|) == SemicolonsToColons(v)
  {
    var w := WithColons(dirs);
    var sv := SemicolonsToColons(v);
    assert '\0' !in sv;
    var b := (w + sv) + ['\0'];
    assert LdLibraryPathCopy(Some(v)) == sv + ['\0'];
    assert w + LdLibraryPathCopy(Some(v)) == b;
    TerminatedKeepsLast(w + sv);
    assert b == w + sv + ['\0'] + [];
    CStrOfTerminated(w, sv, []);
  }

  // ---------------------------------------------------------------------------------
  // The outcome of the search for the needed names
  // ---------------------------------------------------------------------------------

  /** Every name at these arena offsets failed in every one of the directories. */
  predicate AllFail(fs: FileSystem, buf: string, dirs: seq<string>, offsets: seq<nat>)
    requires FsWithinLimits(fs)
  {
    forall x :: x in offsets ==> FailsIn(fs, dirs, CStr(buf, x))
  }

  /** Every name at these arena offsets was found in one of the directories. */
  predicate AllResolve(fs: FileSystem, buf: string, dirs: seq<string>, offsets: seq<nat>)
    requires FsWithinLimits(fs)
  {
    forall x :: x in offsets ==> ResolvesIn(fs, dirs, CStr(buf, x))
  }

  /** `name` failed in every directory of every stage. */
  predicate FailsAll(fs: FileSystem, stages: seq<Stage>, name: string)
    requires FsWithinLimits(fs)
  {
    forall t :: 0 <= t < |stages| ==> FailsIn(fs, SearchDirs(stages[t].paths), name)
  }

  /** `name` was found in stage `s` after failing in every earlier stage. */
  predicate FoundFirstIn(fs: FileSystem, stages: seq<Stage>, s: nat, name: string)
    requires FsWithinLimits(fs)
  {
    s < |stages| && ResolvesIn(fs, SearchDirs(stages[s].paths), name) && FailsAll(fs, stages[..s], name)
  }

  predicate FoundIn(fs: FileSystem, stages: seq<Stage>, name: string)
    requires FsWithinLimits(fs)
  {
    exists s :: 0 <= s < |stages| && FoundFirstIn(fs, stages, s, name)
  }

  /** The names still pending: relative and failed everywhere so far. */
  predicate Unresolved(fs: FileSystem, buf: string, stages: seq<Stage>, offsets: seq<nat>)
    requires FsWithinLimits(fs)
  {
    forall x :: x in offsets ==> '/' !in CStr(buf, x) && FailsAll(fs, stages, CStr(buf, x))
  }

  /** The names moved out: handled as direct paths, or found at their first stage. */
  predicate Resolved(fs: FileSystem, buf: string, stages: seq<Stage>, offsets: seq<nat>)
    requires FsWithinLimits(fs)
  {
    forall x :: x in offsets ==> '/' in CStr(buf, x) || FoundIn(fs, stages, CStr(buf, x))
  }

  /** The pending prefix and the handled suffix of `needed_buf_offsets`. */
  predicate SearchInv(fs: FileSystem, buf: string, stages: seq<Stage>, offsets: seq<nat>, pending: nat)
    requires FsWithinLimits(fs)
  {
    pending <= |offsets|
    && Unresolved(fs, buf, stages, offsets[..pending])
    && Resolved(fs, buf, stages, offsets[pending..])
  }

  /** After the direct names, the stages start from here. */
  lemma SearchStart(fs: FileSystem, buf: string, offsets: seq<nat>, pending: nat)
    requires FsWithinLimits(fs) && pending <= |offsets|
    requires forall x :: x in offsets[..pending] ==> '/' !in CStr(buf, x)
    requires forall x :: x in offsets[pending..] ==> '/' in CStr(buf, x)
    ensures SearchInv(fs, buf, [], offsets, pending)
  {
  }

  lemma FailsInAppend(fs: FileSystem, dirs: seq<string>, dir: string, name: string)
    requires FsWithinLimits(fs)
    requires FailsIn(fs, dirs, name) && FailsIn(fs, [dir], name)
    ensures FailsIn(fs, dirs + [dir], name)
  {
    assert Fails(fs, [dir][0] + name);
  }

  lemma ResolvesInAppend(fs: FileSystem, dirs: seq<string>, more: seq<string>, name: string)
    requires FsWithinLimits(fs)
    requires ResolvesIn(fs, dirs, name) || ResolvesIn(fs, more, name)
    ensures ResolvesIn(fs, dirs + more, name)
  {
    if ResolvesIn(fs, dirs, name) {
      var i :| 0 <= i < |dirs| && Resolves(fs, dirs[i] + name);
      assert (dirs + more)[i] == dirs[i];
    } else {
      var i :| 0 <= i < |more| && Resolves(fs, more[i] + name);
      assert (dirs + more)[|dirs| + i] == more[i];
    }
  }

  /** A name found in some stage is still found once more stages follow. */
  lemma FoundInPrefix(fs: FileSystem, done: seq<Stage>, all: seq<Stage>, name: string)
    requires FsWithinLimits(fs)
    requires |done| <= |all| && all[..|done|] == done && FoundIn(fs, done, name)
    ensures FoundIn(fs, all, name)
  {
    var s :| 0 <= s < |done| && FoundFirstIn(fs, done, s, name);
    PrefixOfPrefix(all, done, s);
    assert FoundFirstIn(fs, all, s, name);
  }

  /** A name that failed in every earlier stage and resolves in the next one is found there. */
  lemma FoundInLast(fs: FileSystem, done: seq<Stage>, st: Stage, name: string)
    requires FsWithinLimits(fs)
    requires FailsAll(fs, done, name) && ResolvesIn(fs, SearchDirs(st.paths), name)
    ensures FoundIn(fs, done + [st], name)
  {
    var all := done + [st];
    assert all[|done|] == st;
    assert all[..|done|] == done;
    assert FoundFirstIn(fs, all, |done|, name);
  }

  lemma FailsAllAppend(fs: FileSystem, done: seq<Stage>, st: Stage, name: string)
    requires FsWithinLimits(fs)
    requires FailsAll(fs, done, name) && FailsIn(fs, SearchDirs(st.paths), name)
    ensures FailsAll(fs, done + [st], name)
  {
    var all := done + [st];
    forall t | 0 <= t < |all|
      ensures FailsIn(fs, SearchDirs(all[t].paths), name)
    {
      if t < |done| {
        assert all[t] == done[t];
      }
    }
  }

  /**
   * One `check_search_paths` call for stage `st`, which kept the handled suffix, only
   * permuted the pending prefix, failed for the names it leaves pending and succeeded
   * for the ones it moved out, keeps the search invariant with `st` added.
   */
  lemma {:induction false} StageStep(fs: FileSystem, buf: string, done: seq<Stage>, st: Stage,
                                     a: seq<nat>, b: seq<nat>, p: nat, p': nat)
    requires FsWithinLimits(fs)
    requires SearchInv(fs, buf, done, a, p) && p' <= p && |b| == |a|
    requires b[p..] == a[p..] && multiset(b[..p]) == multiset(a[..p])
    requires AllFail(fs, buf, SearchDirs(st.paths), b[..p'])
    requires AllResolve(fs, buf, SearchDirs(st.paths), b[p'..p])
    ensures SearchInv(fs, buf, done + [st], b, p')
  {
    var dirs := SearchDirs(st.paths);
    forall x | x in b[..p']
      ensures '/' !in CStr(buf, x) && FailsAll(fs, done + [st], CStr(buf, x))
    {
      assert x in b[..p] by {
        var k :| 0 <= k < p' && b[..p'][k] == x;
        assert b[..p][k] == x;
      }
      assert x in multiset(a[..p]);
      assert x in a[..p];
      FailsAllAppend(fs, done, st, CStr(buf, x));
    }
    forall x | x in b[p'..]
      ensures '/' in CStr(buf, x) || FoundIn(fs, done + [st], CStr(buf, x))
    {
      var k :| 0 <= k < |b| - p' && b[p'..][k] == x;
      if p' + k < p {
        assert x in b[p'..p] by {
          assert b[p'..p][k] == x;
        }
        assert x in b[..p] by {
          assert b[..p][p' + k] == x;
        }
        assert x in multiset(a[..p]);
        assert x in a[..p];
        FoundInLast(fs, done, st, CStr(buf, x));
      } else {
        assert x in a[p..] by {
          assert a[p..][p' + k - p] == x;
        }
        if '/' !in CStr(buf, x) {
          FoundInPrefix(fs, done, done + [st], CStr(buf, x));
        }
      }
    }
  }

  /** The search invariant over a prefix of the stages, with nothing pending, covers them all. */
  lemma SearchDone(fs: FileSystem, buf: string, done: seq<Stage>, all: seq<Stage>, offsets: seq<nat>, pending: nat)
    requires FsWithinLimits(fs)
    requires SearchInv(fs, buf, done, offsets, pending)
    requires |done| <= |all| && all[..|done|] == done && (pending == 0 || done == all)
    ensures SearchInv(fs, buf, all, offsets, pending)
  {
    forall x | x in offsets[pending..]
      ensures '/' in CStr(buf, x) || FoundIn(fs, all, CStr(buf, x))
    {
      if '/' !in CStr(buf, x) {
        FoundInPrefix(fs, done, all, CStr(buf, x));
      }
    }
  }

  /** `SearchDirs` one directory at a time: what `check_search_paths` has tried so far. */
  lemma TriedDirs(fs: FileSystem, buf: string, done: seq<string>, dir: string, a: seq<nat>, b: seq<nat>, p: nat, p': nat, q: nat)
    requires FsWithinLimits(fs)
    requires p' <= p <= q <= |a| == |b|
    requires b[p..] == a[p..] && multiset(b[..p]) == multiset(a[..p])
    requires AllFail(fs, buf, done, a[..p]) && AllResolve(fs, buf, done, a[p..q])
    requires AllFail(fs, buf, [dir], b[..p']) && AllResolve(fs, buf, [dir], b[p'..p])
    ensures AllFail(fs, buf, done + [dir], b[..p']) && AllResolve(fs, buf, done + [dir], b[p'..q])
  {
    forall x | x in b[..p']
      ensures FailsIn(fs, done + [dir], CStr(buf, x))
    {
      assert x in b[..p] by {
        var k :| 0 <= k < p' && b[..p'][k] == x;
        assert b[..p][k] == x;
      }
      assert x in multiset(a[..p]);
      assert x in a[..p];
      FailsInAppend(fs, done, dir, CStr(buf, x));
    }
    forall x | x in b[p'..q]
      ensures ResolvesIn(fs, done + [dir], CStr(buf, x))
    {
      var k :| 0 <= k < q - p' && b[p'..q][k] == x;
      if p' + k < p {
        assert b[p'..p][k] == x;
        ResolvesInAppend(fs, done, [dir], CStr(buf, x));
      } else {
        assert b[p' + k] == x;
        assert b[p..][p' + k - p] == a[p..][p' + k - p];
        assert a[p..q][p' + k - p] == x;
        ResolvesInAppend(fs, done, [dir], CStr(buf, x));
      }
    }
  }
}
