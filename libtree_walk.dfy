/**
 * libtree.c's walk: the global string arena `buf`, the rpath stack `rpath_offsets`,
 * the list `visited_files`, and `recurse` / `check_search_paths`, which append to
 * the arena, search for each needed name and give the arena back on return.
 */
module LibTreeWalk {
  import opened Wrappers
  import opened ElfBytes
  import opened ElfDecode
  import opened Substitution
  import opened SearchPaths
  import opened LibTreeSpec
  import opened Collections
  import LdConf

  /** The file `print_tree` reads the ld.so.conf directories from. */
  const LD_SO_CONF: string := "/etc/ld.so.conf"

  function VisitedSet(visited: seq<FileId>): set<FileId>
  {
    set x | x in visited
  }

  /** Marking a file not yet visited removes its identity from the unvisited ones. */
  lemma MarkShrinks(ids: set<FileId>, visited: seq<FileId>, id: FileId)
    requires id in ids && id !in visited
    ensures ids - VisitedSet(visited + [id]) < ids - VisitedSet(visited)
    ensures |ids - VisitedSet(visited + [id])| < |ids - VisitedSet(visited)|
  {
    var before, after := ids - VisitedSet(visited), ids - VisitedSet(visited + [id]);
    assert after == before - {id};
  }

  /** The `getc` loop reads no NUL. */
  lemma StringAtHasNoNul(f: seq<Byte>, strtab: nat, v: nat)
    ensures '\0' !in StringAt(f, strtab, v)
  {
    var bs := CStringAt(f, Wrap64(strtab + v));
    var s := StringAt(f, strtab, v);
    forall i | 0 <= i < |s|
      ensures s[i] != '\0'
    {
      assert s[i] as int == bs[i];
    }
  }

  lemma {:induction false} ExpandHasNoNul(s: string, p: nat, origin: string, lib: string, platform: string)
    requires '\0' !in s && '\0' !in origin && '\0' !in lib && '\0' !in platform
    ensures '\0' !in ExpandFrom(s, p, origin, lib, platform)
    decreases |s| - p
  {
    if p < |s| {
      var e := ExpandFrom(s, p, origin, lib, platform);
      if s[p] != '$' {
        ExpandHasNoNul(s, p + 1, origin, lib, platform);
        assert e == [s[p]] + ExpandFrom(s, p + 1, origin, lib, platform);
      } else {
        match Recognize(s[p + 1..])
        case NoToken =>
          ExpandHasNoNul(s, p + 1, origin, lib, platform);
          assert e == "$" + ExpandFrom(s, p + 1, origin, lib, platform);
        case Token(v, n) =>
          ExpandHasNoNul(s, p + 1 + n, origin, lib, platform);
          var value := ValueOf(v, origin, lib, platform);
          assert '\0' !in value;
          assert e == value + ExpandFrom(s, p + 1 + n, origin, lib, platform);
      }
    }
  }

  /** The path list the walk searches: the expansion when a token occurs, the copy otherwise. */
  function PathList(s: string, origin: string): string
  {
    if HasToken(s) then Expand(s, origin, "LIB", "x86_64") else s
  }

  /** The file passes the header stage, so its identity is recorded. */
  predicate Opened(fs: FileSystem, path: string)
  {
    path in fs && HeaderOf(fs[path].bytes).HeaderOk?
  }

  /** The name a file's line shows: its soname when it has one, else the path it was opened by. */
  function ShownName(path: string, f: seq<Byte>, d: DynInfo, strtab: nat): string
  {
    if d.soname != MAX_SIZE_T then StringAt(f, strtab, d.soname) else path
  }

  /** The line `recurse` prints for a file it returns 0 for. */
  function NodeFor(fs: FileSystem, path: string, depth: nat, reason: Found, seen: bool): Line
    requires FsWithinLimits(fs) && path in fs
  {
    match DecodeOf(fs[path].bytes)
    case Dyn(d, strtab) => Node(depth, ShownName(path, fs[path].bytes, d, strtab), reason, if seen then Repeated else Expanded)
    case _ => Node(depth, path, reason, NoDynamic(seen))
  }

  /** The dynamic stage of `recurse`, after a header that passed: the entries, then the string table's offset. */
  method ReadDynamicPart(f: seq<Byte>, h: Header) returns (r: Decoded)
    requires WithinLimits(f) && h == HeaderOf(f) && h.HeaderOk?
    ensures r == DecodeOf(f)
  {
    if h.dynamic == MAX_SIZE_T {
      return Leaf;
    }
    var dyn := ReadDynamic(f, h.dynamic);
    if dyn.DynFailed? {
      return Rejected(dyn.code);
    }
    var strtab := StrtabOffset(h.loads, dyn.info.strtab);
    return Dyn(dyn.info, strtab);
  }

  /** The report for the names still pending at the end. */
  function MissingLines(buf: string, offsets: seq<nat>, depth: nat): (r: seq<Line>)
    ensures |r| == |offsets|
    ensures forall k :: 0 <= k < |offsets| ==> r[k] == NotFound(depth, CStr(buf, offsets[k]))
  {
    seq(|offsets|, k requires 0 <= k < |offsets| => NotFound(depth, CStr(buf, offsets[k])))
  }

  /** Swapping entry `i` with entry `p - 1`, the last pending one, inside the first `q`. */
  lemma SwapKeeps(s: seq<nat>, i: nat, p: nat, q: nat)
    requires i < p <= q <= |s|
    ensures |s[i := s[p - 1]][p - 1 := s[i]]| == |s|
    ensures multiset(s[i := s[p - 1]][p - 1 := s[i]][..q]) == multiset(s[..q])
    ensures s[i := s[p - 1]][p - 1 := s[i]][q..] == s[q..]
    ensures s[i := s[p - 1]][p - 1 := s[i]][..i] == s[..i]
    ensures s[i := s[p - 1]][p - 1 := s[i]][p - 1..q] == [s[i]] + s[p..q]
  {
    var t := s[i := s[p - 1]][p - 1 := s[i]];
    assert t[..q] == s[..q][i := s[p - 1]][p - 1 := s[i]];
    assert t[p - 1..q] == [t[p - 1]] + t[p..q];
  }

  /** The first `|offs|` needed names sit in the arena at `offs`, each terminated inside it. */
  predicate NeededCopied(f: seq<Byte>, strtab: nat, vals: seq<nat>, b: string, offs: seq<nat>)
  {
    |offs| <= |vals|
    && forall k :: 0 <= k < |offs| ==>
         offs[k] + |CStr(b, offs[k])| < |b| && CStr(b, offs[k]) == StringAt(f, strtab, vals[k])
  }

  /** The `getc` loop of `copy_from_file` on a local copy of the arena. */
  method AppendCString(b: string, f: seq<Byte>, pos: nat) returns (b': string)
    ensures b' == b + Chars(CStringAt(f, pos)) + ['\0']
  {
    var p := pos;
    b' := b;
    while p < |f| && f[p] != 0 && f[p] != 0xFF
      invariant b' + Chars(CStringAt(f, p)) == b + Chars(CStringAt(f, pos))
      decreases |f| - p
    {
      CharsStep(b', f, p);
      b' := b' + [f[p] as char];
      p := p + 1;
    }
    assert CStringAt(f, p) == [] && Chars([]) == [];
    b' := b' + ['\0'];
  }

  /** One character of the `getc` loop moves from the file to the arena. */
  lemma CharsStep(b: string, f: seq<Byte>, p: nat)
    requires p < |f| && f[p] != 0 && f[p] != 0xFF
    ensures b + Chars(CStringAt(f, p)) == (b + [f[p] as char]) + Chars(CStringAt(f, p + 1))
  {
    var rest := CStringAt(f, p + 1);
    assert CStringAt(f, p) == [f[p]] + rest;
    assert Chars([f[p]] + rest) == [f[p] as char] + Chars(rest);
  }

  lemma NeededStep(f: seq<Byte>, strtab: nat, vals: seq<nat>, b: string, offs: seq<nat>, b': string)
    requires NeededCopied(f, strtab, vals, b, offs) && |offs| < |vals|
    requires b' == b + Chars(CStringAt(f, Wrap64(strtab + vals[|offs|]))) + ['\0']
    ensures NeededCopied(f, strtab, vals, b', offs + [|b|])
    ensures |b| <= |b'| && b'[..|b|] == b
  {
    var s := StringAt(f, strtab, vals[|offs|]);
    StringAtHasNoNul(f, strtab, vals[|offs|]);
    NeededGrow(f, strtab, vals, b, offs, s + ['\0']);
    assert b + (s + ['\0']) == b';
    CStrOfTerminated(b, s, []);
    assert b + s + ['\0'] + [] == b';
    NeededAppend(f, strtab, vals, b', offs, |b|);
  }

  /** Text added at the end of the arena leaves the copied names as they were. */
  lemma NeededGrow(f: seq<Byte>, strtab: nat, vals: seq<nat>, b: string, offs: seq<nat>, more: string)
    requires NeededCopied(f, strtab, vals, b, offs)
    ensures NeededCopied(f, strtab, vals, b + more, offs)
  {
    forall k | 0 <= k < |offs|
      ensures offs[k] + |CStr(b + more, offs[k])| < |b + more| && CStr(b + more, offs[k]) == StringAt(f, strtab, vals[k])
    {
      CStrExtend(b, more, offs[k]);
    }
  }

  /** The next needed name, terminated at `o`, extends the copied ones. */
  lemma NeededAppend(f: seq<Byte>, strtab: nat, vals: seq<nat>, b: string, offs: seq<nat>, o: nat)
    requires NeededCopied(f, strtab, vals, b, offs) && |offs| < |vals|
    requires o + |CStr(b, o)| < |b| && CStr(b, o) == StringAt(f, strtab, vals[|offs|])
    ensures NeededCopied(f, strtab, vals, b, offs + [o])
  {
  }

  lemma CStrExtend(b: string, more: string, off: nat)
    requires off + |CStr(b, off)| < |b|
    ensures off + |CStr(b + more, off)| < |b + more| && CStr(b + more, off) == CStr(b, off)
  {
    CStrPrefix(b, off, more);
  }

  /** The string at `off` ends before the end of the arena `b`. */
  predicate Terminated(b: string, off: nat)
  {
    off + |CStr(b, off)| < |b|
  }

  /** A terminated string reads the same in any arena that extends `b`. */
  lemma KeepsCStr(b: string, b': string, off: nat)
    requires Terminated(b, off) && |b| <= |b'| && b'[..|b|] == b
    ensures Terminated(b', off) && CStr(b', off) == CStr(b, off)
  {
    assert b' == b + b'[|b|..];
    CStrExtend(b, b'[|b|..], off);
  }

  /** In an arena whose last character is a NUL every string is terminated. */
  lemma {:induction false} EndsInNul(b: string, off: nat)
    requires off < |b| && b[|b| - 1] == '\0'
    ensures Terminated(b, off)
    decreases |b| - off
  {
    if b[off] != '\0' {
      EndsInNul(b, off + 1);
    }
  }

  /**
   * The arena after a path list `s` is copied in, followed by `dst`, the output of
   * `interpolate_variables`: the list starts at the expansion when there is one.
   */
  lemma PathListAt(b: string, s: string, dst: string, origin: string, b': string, start: nat)
    requires '\0' !in s
    requires HasToken(s) ==> dst == Expand(s, origin, "LIB", "x86_64") + ['\0']
    requires !HasToken(s) ==> dst == []
    requires b' == b + s + ['\0'] + dst && start == (if HasToken(s) then |b| + |s| + 1 else |b|)
    ensures |b| <= start < |b'| && b'[..|b|] == b && Terminated(b', start)
    ensures '\0' !in origin ==> CStr(b', start) == PathList(s, origin)
  {
    if HasToken(s) {
      EndsInNul(b', start);
      if '\0' !in origin {
        var e := Expand(s, origin, "LIB", "x86_64");
        ExpandHasNoNul(s, 0, origin, "LIB", "x86_64");
        CStrOfTerminated(b + s + ['\0'], e, []);
        assert b + s + ['\0'] + e + ['\0'] + [] == b';
      }
    } else {
      EndsInNul(b', start);
      CStrOfTerminated(b, s, []);
      assert b + s + ['\0'] + [] == b';
    }
  }

  /**
   * An rpath or runpath appended to the arena `b`: the literal copy, then, when it
   * holds a token, the expanded string right after it. The list starts at `start`.
   */
  method AppendPathList(b: string, f: seq<Byte>, strtab: nat, v: nat, origin: string) returns (b': string, start: nat)
    requires StringSeekOk(strtab, v)
    ensures |b| <= start < |b'| && b'[..|b|] == b && Terminated(b', start)
    ensures '\0' !in origin ==> CStr(b', start) == PathList(StringAt(f, strtab, v), origin)
  {
    var s := StringAt(f, strtab, v);
    StringAtHasNoNul(f, strtab, v);
    var lit := AppendCString(b, f, Wrap64(strtab + v));
    var dst, written := Interpolate(s, origin, "LIB", "x86_64");
    b' := lit + dst;
    start := if written > 0 then |lit| else |b|;
    PathListAt(b, s, dst, origin, b', start);
  }

  /** The rpath entries below `depth` are still there, unchanged. */
  predicate RpathsKept(before: map<nat, nat>, after: map<nat, nat>, depth: nat)
  {
    forall j :: 0 <= j < depth && j in before ==> j in after && after[j] == before[j]
  }

  /**
   * The state of the inner loop of `check_search_paths` over `s`, started from
   * `init`: the first `i` names failed in `dir`, the ones in `[p, q)` were found
   * there, and only the first `q` entries were permuted.
   */
  predicate TryInv(fs: FileSystem, buf: string, dir: string, init: seq<nat>, s: seq<nat>, i: nat, p: nat, q: nat)
    requires FsWithinLimits(fs)
  {
    i <= p <= q <= |s| == |init| && s[q..] == init[q..] && multiset(s[..q]) == multiset(init[..q])
    && AllFail(fs, buf, [dir], s[..i]) && AllResolve(fs, buf, [dir], s[p..q])
  }

  lemma TryHit(fs: FileSystem, buf: string, dir: string, init: seq<nat>, s: seq<nat>, i: nat, p: nat, q: nat)
    requires FsWithinLimits(fs) && TryInv(fs, buf, dir, init, s, i, p, q) && i < p
    requires Resolves(fs, dir + CStr(buf, s[i]))
    ensures TryInv(fs, buf, dir, init, s[i := s[p - 1]][p - 1 := s[i]], i, p - 1, q)
  {
    SwapKeeps(s, i, p, q);
    assert [dir][0] == dir;
    AllResolveCons(fs, buf, [dir], s[i], s[p..q]);
  }

  lemma AllResolveCons(fs: FileSystem, buf: string, dirs: seq<string>, x: nat, rest: seq<nat>)
    requires FsWithinLimits(fs)
    requires ResolvesIn(fs, dirs, CStr(buf, x)) && AllResolve(fs, buf, dirs, rest)
    ensures AllResolve(fs, buf, dirs, [x] + rest)
  {
  }

  lemma TryMiss(fs: FileSystem, buf: string, dir: string, init: seq<nat>, s: seq<nat>, i: nat, p: nat, q: nat)
    requires FsWithinLimits(fs) && TryInv(fs, buf, dir, init, s, i, p, q) && i < p
    requires Fails(fs, dir + CStr(buf, s[i]))
    ensures TryInv(fs, buf, dir, init, s, i + 1, p, q)
  {
    assert s[..i + 1] == s[..i] + [s[i]];
    assert [dir][0] == dir;
  }

  /**
   * The state of the first loop over `s`: the first `i` names hold no `/`, the
   * ones in `[p, q)` do, and only the first `q` entries were permuted.
   */
  predicate DirectInv(buf: string, init: seq<nat>, s: seq<nat>, i: nat, p: nat, q: nat)
  {
    i <= p <= q <= |s| == |init| && s[q..] == init[q..] && multiset(s[..q]) == multiset(init[..q])
    && (forall x :: x in s[..i] ==> '/' !in CStr(buf, x))
    && (forall x :: x in s[p..q] ==> '/' in CStr(buf, x))
  }

  lemma DirectMove(buf: string, init: seq<nat>, s: seq<nat>, i: nat, p: nat, q: nat)
    requires DirectInv(buf, init, s, i, p, q) && i < p && '/' in CStr(buf, s[i])
    ensures DirectInv(buf, init, s[i := s[p - 1]][p - 1 := s[i]], i, p - 1, q)
  {
    SwapKeeps(s, i, p, q);
  }

  lemma DirectKeep(buf: string, init: seq<nat>, s: seq<nat>, i: nat, p: nat, q: nat)
    requires DirectInv(buf, init, s, i, p, q) && i < p && '/' !in CStr(buf, s[i])
    ensures DirectInv(buf, init, s, i + 1, p, q)
  {
    assert s[..i + 1] == s[..i] + [s[i]];
  }

  /** After the first loop over all the names, the stages start from here. */
  lemma DirectDone(fs: FileSystem, buf: string, init: seq<nat>, s: seq<nat>, p: nat)
    requires FsWithinLimits(fs) && DirectInv(buf, init, s, p, p, |s|)
    ensures multiset(s) == multiset(init) && SearchInv(fs, buf, [], s, p)
  {
    assert s[..|s|] == s && init[..|init|] == init && s[p..|s|] == s[p..];
    SearchStart(fs, buf, s, p);
  }

  /** The rpath stack up to `j` reads only the entries up to `j`. */
  lemma {:induction false} RpathStagesKept(buf: string, a: map<nat, nat>, b: map<nat, nat>, j: int)
    requires forall k :: 0 <= k <= j ==> k in a && k in b && a[k] == b[k]
    ensures RpathStages(buf, a, j) == RpathStages(buf, b, j)
    decreases j + 1
  {
    if j >= 0 {
      RpathStagesKept(buf, a, b, j - 1);
    }
  }

  /** The directories of `paths` tried so far, with `pos` where the walk through the list stands. */
  predicate DirsTried(paths: string, tried: seq<string>, pos: nat)
  {
    pos <= |paths| && tried + AddSlashes(SegmentsFrom(paths, pos)) == SearchDirs(paths)
  }

  lemma DirsStart(paths: string)
    ensures DirsTried(paths, [], 0)
  {
    SegmentsFromStart(paths);
  }

  lemma DirsStep(paths: string, tried: seq<string>, pos: nat, dir: string, next: nat)
    requires DirsTried(paths, tried, pos)
    requires next <= |paths| && |SegmentsFrom(paths, pos)| > 0
    requires dir == AddSlash(SegmentsFrom(paths, pos)[0])
    requires SegmentsFrom(paths, next) == SegmentsFrom(paths, pos)[1..]
    ensures DirsTried(paths, tried + [dir], next)
  {
    var segs := SegmentsFrom(paths, pos);
    assert AddSlashes(segs) == [dir] + AddSlashes(segs[1..]);
    assert tried + [dir] + AddSlashes(segs[1..]) == tried + ([dir] + AddSlashes(segs[1..]));
  }

  lemma DirsDone(paths: string, tried: seq<string>, pos: nat)
    requires DirsTried(paths, tried, pos) && SegmentsFrom(paths, pos) == []
    ensures tried == SearchDirs(paths)
  {
    assert tried + [] == tried;
  }

  /**
   * The state of `check_search_paths` after the directories `tried`: `s` permutes the
   * first `q` offsets of `init` and keeps the rest; the first `p` failed in every tried
   * directory, the ones from `p` to `q` were found in one of them.
   */
  predicate CheckInv(fs: FileSystem, buf: string, tried: seq<string>, init: seq<nat>, s: seq<nat>, p: nat, q: nat)
    requires FsWithinLimits(fs)
  {
    p <= q <= |s| == |init| && s[q..] == init[q..] && multiset(s[..q]) == multiset(init[..q])
    && AllFail(fs, buf, tried, s[..p]) && AllResolve(fs, buf, tried, s[p..q])
  }

  lemma CheckStart(fs: FileSystem, buf: string, init: seq<nat>, q: nat)
    requires FsWithinLimits(fs) && q <= |init|
    ensures CheckInv(fs, buf, [], init, init, q, q)
  {
  }

  /** One more directory, tried by the inner loop, keeps the state. */
  lemma CheckStep(fs: FileSystem, buf: string, tried: seq<string>, dir: string, init: seq<nat>,
                  a: seq<nat>, b: seq<nat>, p: nat, p': nat, q: nat)
    requires FsWithinLimits(fs)
    requires CheckInv(fs, buf, tried, init, a, p, q)
    requires TryInv(fs, buf, dir, a, b, p', p', p)
    ensures CheckInv(fs, buf, tried + [dir], init, b, p', q)
  {
    TriedDirs(fs, buf, tried, dir, a, b, p, p', q);
    assert b[q..] == b[p..][q - p..] == a[p..][q - p..] == a[q..];
    assert b[p..q] == a[p..q] by {
      assert b[p..q] == b[p..][..q - p] && a[p..q] == a[p..][..q - p];
    }
    assert b[..q] == b[..p] + b[p..q];
    assert a[..q] == a[..p] + a[p..q];
  }

  /**
   * The loop copying the needed names into the arena `b`; `offsets` is
   * `needed_buf_offsets`. It stops at the first name whose offset cannot be reached.
   */
  method CopyNeeded(b: string, f: seq<Byte>, strtab: nat, vals: seq<nat>, offsets: array<nat>) returns (ok: bool, b': string)
    requires offsets.Length == |vals|
    modifies offsets
    ensures ok <==> forall i :: 0 <= i < |vals| ==> StringSeekOk(strtab, vals[i])
    ensures |b| <= |b'| && b'[..|b|] == b
    ensures ok ==> forall i :: 0 <= i < |vals| ==> CStr(b', offsets[i]) == StringAt(f, strtab, vals[i])
  {
    b' := b;
    var i := 0;
    while i < |vals|
      invariant 0 <= i <= |vals|
      invariant forall k :: 0 <= k < i ==> StringSeekOk(strtab, vals[k])
      invariant |b| <= |b'| && b'[..|b|] == b
      invariant NeededCopied(f, strtab, vals, b', offsets[..i])
    {
      var copied;
      copied, b' := CopyOneNeeded(b', f, strtab, vals, offsets, i);
      if !copied {
        return false, b';
      }
      i := i + 1;
    }
    assert offsets[..i] == offsets[..];
    ok := true;
  }

  /** One round of the loop: the offset is recorded, then the name is copied when it can be reached. */
  method CopyOneNeeded(b: string, f: seq<Byte>, strtab: nat, vals: seq<nat>, offsets: array<nat>, i: nat)
    returns (ok: bool, b': string)
    requires i < |vals| == offsets.Length && NeededCopied(f, strtab, vals, b, offsets[..i])
    modifies offsets
    ensures ok <==> StringSeekOk(strtab, vals[i])
    ensures |b| <= |b'| && b'[..|b|] == b
    ensures ok ==> NeededCopied(f, strtab, vals, b', offsets[..i + 1])
  {
    ghost var offs := offsets[..i];
    offsets[i] := |b|;
    assert offsets[..i + 1] == offs + [|b|];
    if !StringSeekOk(strtab, vals[i]) {
      return false, b;
    }
    b' := AppendCString(b, f, Wrap64(strtab + vals[i]));
    NeededStep(f, strtab, vals, b, offs, b');
    ok := true;
  }

  /** The swap `recurse` and `check_search_paths` make in `needed_buf_offsets`. */
  method Swap(a: array<nat>, i: nat, j: nat, ghost s: seq<nat>)
    requires i < a.Length && j < a.Length && a[..] == s
    modifies a
    ensures a[..] == s[i := s[j]][j := s[i]]
  {
    a[i], a[j] := a[j], a[i];
  }


  /** A name found in the directory is swapped behind the pending prefix. */
  method MoveFound(needed: array<nat>, i: nat, p: nat,
                   ghost fs: FileSystem, ghost buf: string, ghost dir: string, ghost init: seq<nat>, ghost q: nat)
    requires FsWithinLimits(fs) && TryInv(fs, buf, dir, init, needed[..], i, p, q) && i < p
    requires Resolves(fs, dir + CStr(buf, needed[i]))
    modifies needed
    ensures TryInv(fs, buf, dir, init, needed[..], i, p - 1, q)
  {
    ghost var s := needed[..];
    TryHit(fs, buf, dir, init, s, i, p, q);
    Swap(needed, i, p - 1, s);
  }

  /**
   * The end of one round of the loop over the pending names in a directory: the name
   * at `i` is swapped behind the pending prefix when it was found, else the loop
   * moves past it.
   */
  method SettleTry(needed: array<nat>, i: nat, p: nat, found: bool,
                   ghost fs: FileSystem, ghost buf: string, ghost dir: string, ghost init: seq<nat>, ghost q: nat)
    returns (i': nat, p': nat)
    requires FsWithinLimits(fs) && TryInv(fs, buf, dir, init, needed[..], i, p, q) && i < p
    requires found ==> Resolves(fs, dir + CStr(buf, needed[i]))
    requires !found ==> Fails(fs, dir + CStr(buf, needed[i]))
    modifies needed
    ensures TryInv(fs, buf, dir, init, needed[..], i', p', q) && p' - i' < p - i
  {
    if found {
      MoveFound(needed, i, p, fs, buf, dir, init, q);
      i', p' := i, p - 1;
    } else {
      TryMiss(fs, buf, dir, init, needed[..], i, p, q);
      i', p' := i + 1, p;
    }
  }

  /** The same for the first loop, where a name holding a `/` is moved behind the prefix. */
  method SettleDirect(needed: array<nat>, i: nat, p: nat, moved: bool, ghost buf: string, ghost init: seq<nat>, ghost q: nat)
    returns (i': nat, p': nat)
    requires DirectInv(buf, init, needed[..], i, p, q) && i < p
    requires moved <==> '/' in CStr(buf, needed[i])
    modifies needed
    ensures DirectInv(buf, init, needed[..], i', p', q) && p' - i' < p - i
  {
    if moved {
      MoveDirect(needed, i, p, buf, init, q);
      i', p' := i, p - 1;
    } else {
      DirectKeep(buf, init, needed[..], i, p, q);
      i', p' := i + 1, p;
    }
  }

  /** A name holding a `/` is swapped behind the prefix in the first loop. */
  method MoveDirect(needed: array<nat>, i: nat, p: nat, ghost buf: string, ghost init: seq<nat>, ghost q: nat)
    requires DirectInv(buf, init, needed[..], i, p, q) && i < p && '/' in CStr(buf, needed[i])
    modifies needed
    ensures DirectInv(buf, init, needed[..], i, p - 1, q)
  {
    ghost var s := needed[..];
    DirectMove(buf, init, s, i, p, q);
    Swap(needed, i, p - 1, s);
  }

  /** Every one of these files can be opened. */
  predicate AllOpen(c: LdConf.ConfFiles, paths: seq<string>)
  {
    forall j :: 0 <= j < |paths| ==> paths[j] in c.files
  }

  lemma AllOpenStep(c: LdConf.ConfFiles, paths: seq<string>, i: nat)
    requires i < |paths|
    ensures AllOpen(c, paths[..i + 1]) <==> AllOpen(c, paths[..i]) && paths[i] in c.files
  {
    assert forall j :: 0 <= j < i ==> paths[..i + 1][j] == paths[..i][j];
  }

  /** The arena so far and what is still to come make up the whole, one step further. */
  lemma Resume(before: string, after: string, step: string, rest: string, whole: string, total: string)
    requires after == before + step && whole == step + rest && before + whole == total
    ensures after + rest == total
  {
  }

  lemma ConfLinesStart(c: LdConf.ConfFiles, path: string)
    requires LdConf.CAcyclic(c) && path in c.files
    ensures LdConf.CLinesBelow(c, c.files[path][0..], LdConf.Rank(c, path))
    ensures LdConf.CLinesDirs(c, c.files[path][0..], LdConf.Rank(c, path)) == LdConf.CConfDirs(c, path)
  {
    assert c.files[path][0..] == c.files[path] == LdConf.Lines(c, path);
  }

  lemma ConfLinesStep(c: LdConf.ConfFiles, lines: seq<string>, i: nat, level: nat)
    requires LdConf.CAcyclic(c) && i < |lines| && LdConf.CLinesBelow(c, lines[i..], level)
    ensures LdConf.CLineBelow(c, lines[i], level) && LdConf.CLinesBelow(c, lines[i + 1..], level)
    ensures WithColons(LdConf.CLinesDirs(c, lines[i..], level))
            == WithColons(LdConf.CLineDirs(c, lines[i], level)) + WithColons(LdConf.CLinesDirs(c, lines[i + 1..], level))
  {
    LdConf.CLinesDirsAt(c, lines, i, level);
    WithColonsAppend(LdConf.CLineDirs(c, lines[i], level), LdConf.CLinesDirs(c, lines[i + 1..], level));
  }

  lemma ConfLinesEnd(c: LdConf.ConfFiles, lines: seq<string>, level: nat)
    requires LdConf.CAcyclic(c)
    ensures LdConf.CLinesBelow(c, lines[|lines|..], level)
    ensures WithColons(LdConf.CLinesDirs(c, lines[|lines|..], level)) == []
  {
    assert lines[|lines|..] == [];
  }

  lemma ConfFilesStep(c: LdConf.ConfFiles, paths: seq<string>, i: nat, level: nat)
    requires LdConf.CAcyclic(c) && i < |paths| && LdConf.FilesBelow(c, paths, level)
    ensures LdConf.Rank(c, paths[i]) < level
    ensures WithColons(LdConf.CFilesDirs(c, paths[i..], level))
            == WithColons(LdConf.CConfDirs(c, paths[i])) + WithColons(LdConf.CFilesDirs(c, paths[i + 1..], level))
  {
    LdConf.CFilesDirsAt(c, paths, i, level);
    WithColonsAppend(LdConf.CConfDirs(c, paths[i]), LdConf.CFilesDirs(c, paths[i + 1..], level));
  }

  lemma ConfFilesStart(c: LdConf.ConfFiles, paths: seq<string>, level: nat)
    requires LdConf.CAcyclic(c) && LdConf.FilesBelow(c, paths, level)
    ensures LdConf.CFilesDirs(c, paths[0..], level) == LdConf.CFilesDirs(c, paths, level)
    ensures AllOpen(c, paths[..0])
  {
    assert paths[0..] == paths;
  }

  lemma ConfFilesEnd(c: LdConf.ConfFiles, paths: seq<string>, level: nat)
    requires LdConf.CAcyclic(c) && LdConf.FilesBelow(c, paths, level)
    ensures WithColons(LdConf.CFilesDirs(c, paths[|paths|..], level)) == []
    ensures AllOpen(c, paths[..|paths|]) == AllOpen(c, paths)
  {
    assert paths[|paths|..] == [];
    assert paths[..|paths|] == paths;
  }

  class Walker {
    /** The files `fopen` can open. */
    const fs: FileSystem
    /** `buf`; its length is `buf_size`. */
    var buf: string
    /** `rpath_offsets`: per depth, where that depth's rpath list starts, or `MAX_SIZE_T`. */
    var rpathOffsets: map<nat, nat>
    /** `visited_files`, in the order the entries were appended. */
    var visited: seq<FileId>
    /** `ld_library_path_offset`. */
    var ldLibraryPathOffset: nat
    /** The tree as printed, line by line. */
    var trace: seq<Line>

    /** The state `print_tree` starts from. */
    constructor (fs: FileSystem)
      ensures this.fs == fs && buf == [] && rpathOffsets == map[] && visited == []
      ensures ldLibraryPathOffset == MAX_SIZE_T && trace == []
    {
      this.fs := fs;
      buf := [];
      rpathOffsets := map[];
      visited := [];
      ldLibraryPathOffset := MAX_SIZE_T;
      trace := [];
    }

    /** The identities of files that no call has recorded yet: the walk's measure. */
    function Unvisited(): set<FileId>
      reads this
    {
      Ids(fs) - VisitedSet(visited)
    }

    predicate Seen(path: string)
      reads this
    {
      path in fs && fs[path].id in visited
    }

    /**
     * What every call leaves alone: the arena (given back), `LD_LIBRARY_PATH`'s offset,
     * the rpaths of the depths below `depth`; the visited list and the tree only grow.
     */
    twostate predicate Kept(depth: nat)
      reads this
    {
      buf == old(buf) && ldLibraryPathOffset == old(ldLibraryPathOffset)
      && old(visited) <= visited && old(trace) <= trace
      && |Unvisited()| <= |old(Unvisited())|
      && RpathsKept(old(rpathOffsets), rpathOffsets, depth)
    }

    /** As `Kept`, except that the arena may have grown at its end. */
    twostate predicate Grown(depth: nat)
      reads this
    {
      |old(buf)| <= |buf| && buf[..|old(buf)|] == old(buf) && ldLibraryPathOffset == old(ldLibraryPathOffset)
      && old(visited) <= visited && old(trace) <= trace
      && |Unvisited()| <= |old(Unvisited())|
      && RpathsKept(old(rpathOffsets), rpathOffsets, depth)
    }

    /** The `visited_files` scan and the unconditional append after it. */
    method MarkVisited(id: FileId) returns (seen: bool)
      modifies this
      ensures seen <==> id in old(visited)
      ensures visited == old(visited) + [id]
      ensures buf == old(buf) && rpathOffsets == old(rpathOffsets) && trace == old(trace)
      ensures ldLibraryPathOffset == old(ldLibraryPathOffset)
    {
      seen := false;
      var i := 0;
      while i < |visited|
        invariant 0 <= i <= |visited|
        invariant id !in visited[..i]
      {
        if visited[i] == id {
          seen := true;
          break;
        }
        assert visited[..i + 1] == visited[..i] + [visited[i]];
        i := i + 1;
      }
      assert !seen ==> visited[..i] == visited;
      visited := visited + [id];
    }

    /** `copy_from_file`: the string at `pos` and a NUL, appended to the arena. */
    method CopyFromFile(f: seq<Byte>, pos: nat) returns (off: nat)
      modifies this
      ensures off == |old(buf)| && buf == old(buf) + Chars(CStringAt(f, pos)) + ['\0']
      ensures rpathOffsets == old(rpathOffsets) && visited == old(visited) && trace == old(trace)
      ensures ldLibraryPathOffset == old(ldLibraryPathOffset)
    {
      off := |buf|;
      buf := AppendCString(buf, f, pos);
    }

    /**
     * `recurse(path, depth, reason)`. It returns the code `Code` gives for whether the
     * file's identity had been recorded before; the arena is given back on every return;
     * a file passing the header stage has its identity appended; a file it returns 0
     * for gets its line in the tree before anything found below it.
     */
    method Recurse(path: string, depth: nat, reason: Found) returns (code: int)
      requires FsWithinLimits(fs)
      requires forall j :: 0 <= j < depth ==> j in rpathOffsets
      modifies this
      ensures Kept(depth)
      ensures code == Code(fs, path, old(Seen(path)))
      ensures code != 0 ==> trace == old(trace)
      ensures code == 0 ==> path in fs && |trace| > |old(trace)|
                            && trace[|old(trace)|] == NodeFor(fs, path, depth, reason, old(Seen(path)))
      ensures Opened(fs, path) ==> |visited| > |old(visited)| && visited[|old(visited)|] == fs[path].id
      ensures !Opened(fs, path) ==> visited == old(visited)
      decreases |Unvisited()|, 1
    {
      if path !in fs {
        return 1;
      }
      var f := fs[path].bytes;
      var h := ReadHeader(f);
      if h.HeaderFailed? {
        return h.error.Code();
      }
      ghost var unvisited := Unvisited();
      var seen := MarkVisited(fs[path].id);
      assert Unvisited() <= unvisited;
      SubsetCard(Unvisited(), unvisited);
      if !seen {
        MarkShrinks(Ids(fs), old(visited), fs[path].id);
      }
      code := DynamicStage(path, f, h, seen, depth, reason, |unvisited|);
    }

    /**
     * The rest of `recurse` once the file's identity is recorded: the dynamic section,
     * then the file's line, and, for a file met for the first time, what lies below it.
     */
    method DynamicStage(path: string, f: seq<Byte>, h: Header, seen: bool, depth: nat, reason: Found, ghost budget: nat)
      returns (code: int)
      requires FsWithinLimits(fs) && path in fs && f == fs[path].bytes && h == HeaderOf(f) && h.HeaderOk?
      requires |Unvisited()| <= budget && (!seen ==> |Unvisited()| < budget)
      requires forall j :: 0 <= j < depth ==> j in rpathOffsets
      modifies this
      ensures Kept(depth)
      ensures code == Code(fs, path, seen)
      ensures code != 0 ==> trace == old(trace)
      ensures code == 0 ==> |trace| > |old(trace)| && trace[|old(trace)|] == NodeFor(fs, path, depth, reason, seen)
      decreases budget, 0
    {
      var dec := ReadDynamicPart(f, h);
      match dec
      case Rejected(c) =>
        code := c;
      case Leaf =>
        trace := trace + [Node(depth, path, reason, NoDynamic(seen))];
        code := 0;
      case Dyn(d, strtab) =>
        if seen {
          code := Revisit(path, f, d, strtab, depth, reason);
        } else {
          code := FirstVisit(path, f, d, strtab, depth, reason, |Unvisited()|);
        }
    }

    /** A file met before: its line, marked as repeated, and nothing below it. */
    method Revisit(path: string, f: seq<Byte>, d: DynInfo, strtab: nat, depth: nat, reason: Found) returns (code: int)
      modifies this
      ensures code == (if SonameOk(d, strtab) then 0 else 16)
      ensures code != 0 ==> trace == old(trace)
      ensures code == 0 ==> trace == old(trace) + [Node(depth, ShownName(path, f, d, strtab), reason, Repeated)]
      ensures buf == old(buf) && rpathOffsets == old(rpathOffsets) && visited == old(visited)
      ensures ldLibraryPathOffset == old(ldLibraryPathOffset)
    {
      var oldSize := |buf|;
      var ok, name := CopySoname(path, f, d, strtab);
      if !ok {
        return 16;
      }
      trace := trace + [Node(depth, name, reason, Repeated)];
      buf := buf[..oldSize];
      code := 0;
    }

    /** A file met for the first time: its soname, then everything `ExpandFile` does; the arena is given back. */
    method FirstVisit(path: string, f: seq<Byte>, d: DynInfo, strtab: nat, depth: nat, reason: Found, ghost budget: nat)
      returns (code: int)
      requires FsWithinLimits(fs) && |Unvisited()| <= budget
      requires forall j :: 0 <= j < depth ==> j in rpathOffsets
      modifies this
      ensures Kept(depth)
      ensures code == (if !SonameOk(d, strtab) then 16 else if PathStringsOk(d, strtab) then 0 else 1)
      ensures code != 0 ==> trace == old(trace)
      ensures code == 0 ==> |trace| > |old(trace)| && trace[|old(trace)|] == Node(depth, ShownName(path, f, d, strtab), reason, Expanded)
      decreases budget, 11
    {
      var oldSize := |buf|;
      var ok, name := CopySoname(path, f, d, strtab);
      if !ok {
        return 16;
      }
      code := ExpandFile(path, f, d, strtab, depth, reason, name, budget);
      buf := buf[..oldSize];
    }

    /** The soname, when there is one, copied into the arena; `name` is what the file's line shows. */
    method CopySoname(path: string, f: seq<Byte>, d: DynInfo, strtab: nat) returns (ok: bool, name: string)
      modifies this
      ensures ok <==> SonameOk(d, strtab)
      ensures ok ==> name == ShownName(path, f, d, strtab)
      ensures |old(buf)| <= |buf| && buf[..|old(buf)|] == old(buf) && (!ok ==> buf == old(buf))
      ensures rpathOffsets == old(rpathOffsets) && visited == old(visited) && trace == old(trace)
      ensures ldLibraryPathOffset == old(ldLibraryPathOffset)
    {
      name := path;
      if d.soname != MAX_SIZE_T {
        if !StringSeekOk(strtab, d.soname) {
          return false, path;
        }
        var off := CopyFromFile(f, Wrap64(strtab + d.soname));
        name := StringAt(f, strtab, d.soname);
      }
      ok := true;
    }

    /**
     * The part of `recurse` for a file seen for the first time: its path lists and
     * needed names are copied, its line is printed, and the needed names are searched for.
     */
    method ExpandFile(path: string, f: seq<Byte>, d: DynInfo, strtab: nat, depth: nat, reason: Found, name: string, ghost budget: nat)
      returns (code: int)
      requires FsWithinLimits(fs) && |Unvisited()| <= budget
      requires forall j :: 0 <= j < depth ==> j in rpathOffsets
      modifies this
      ensures Grown(depth)
      ensures code == (if PathStringsOk(d, strtab) then 0 else 1)
      ensures code != 0 ==> trace == old(trace)
      ensures code == 0 ==> |trace| > |old(trace)| && trace[|old(trace)|] == Node(depth, name, reason, Expanded)
      decreases budget, 10
    {
      var ok, runpath, needed := CopyStrings(path, f, d, strtab, depth);
      if !ok {
        return 1;
      }
      ExpandNode(Node(depth, name, reason, Expanded), needed, depth, runpath, budget);
      code := 0;
    }

    /** The file's line, then the search for its needed names one level down. */
    method ExpandNode(line: Line, needed: array<nat>, depth: nat, runpath: Option<nat>, ghost budget: nat)
      requires FsWithinLimits(fs) && |Unvisited()| <= budget
      requires forall j :: 0 <= j <= depth ==> j in rpathOffsets
      modifies this, needed
      ensures Kept(depth + 1)
      ensures |trace| > |old(trace)| && trace[|old(trace)|] == line
      decreases budget, 9
    {
      trace := trace + [line];
      var pending, searched := Search(needed, depth, runpath, budget);
    }

    /**
     * The strings `recurse` copies into the arena for a file it expands: the rpath,
     * pushed on the stack at `depth`, the runpath, and the needed names, each list
     * followed by its expansion when it holds a token. It stops at the first string
     * whose offset cannot be reached.
     */
    method CopyStrings(path: string, f: seq<Byte>, d: DynInfo, strtab: nat, depth: nat)
      returns (ok: bool, runpath: Option<nat>, needed: array<nat>)
      modifies this
      ensures fresh(needed) && needed.Length == |d.needed|
      ensures ok <==> PathStringsOk(d, strtab)
      ensures ok ==> depth in rpathOffsets
      ensures ok && d.rpath != MAX_SIZE_T && '\0' !in LibTreeSpec.Origin(path) ==>
                CStr(buf, rpathOffsets[depth]) == PathList(StringAt(f, strtab, d.rpath), LibTreeSpec.Origin(path))
      ensures ok && d.rpath == MAX_SIZE_T ==> rpathOffsets[depth] == MAX_SIZE_T
      ensures ok && runpath.Some? && '\0' !in LibTreeSpec.Origin(path) ==>
                CStr(buf, runpath.value) == PathList(StringAt(f, strtab, d.runpath), LibTreeSpec.Origin(path))
      ensures ok ==> (runpath.Some? <==> d.runpath != MAX_SIZE_T)
      ensures ok ==> forall i :: 0 <= i < |d.needed| ==> CStr(buf, needed[i]) == StringAt(f, strtab, d.needed[i])
      ensures old(buf) <= buf && RpathsKept(old(rpathOffsets), rpathOffsets, depth)
      ensures visited == old(visited) && trace == old(trace) && ldLibraryPathOffset == old(ldLibraryPathOffset)
    {
      needed, runpath := new nat[|d.needed|], None;
      var origin := LibTreeSpec.Origin(path);
      ok := PushRpath(f, d, strtab, depth, origin);
      if !ok {
        return;
      }
      ghost var b0 := buf;
      ok, runpath := CopyRunpath(f, d, strtab, origin);
      if !ok {
        return;
      }
      if d.rpath != MAX_SIZE_T {
        KeepsCStr(b0, buf, rpathOffsets[depth]);
      }
      var copied;
      ok, copied := CopyNeeded(buf, f, strtab, d.needed, needed);
      if !ok {
        return;
      }
      if d.rpath != MAX_SIZE_T {
        KeepsCStr(buf, copied, rpathOffsets[depth]);
      }
      if runpath.Some? {
        KeepsCStr(buf, copied, runpath.value);
      }
      buf := copied;
    }

    /** `rpath_offsets[depth]`: where this file's rpath list starts in the arena, or `MAX_SIZE_T` without one. */
    method PushRpath(f: seq<Byte>, d: DynInfo, strtab: nat, depth: nat, origin: string) returns (ok: bool)
      modifies this
      ensures ok <==> d.rpath == MAX_SIZE_T || StringSeekOk(strtab, d.rpath)
      ensures depth in rpathOffsets && rpathOffsets == old(rpathOffsets)[depth := rpathOffsets[depth]]
      ensures d.rpath == MAX_SIZE_T ==> rpathOffsets[depth] == MAX_SIZE_T
      ensures ok && d.rpath != MAX_SIZE_T ==> Terminated(buf, rpathOffsets[depth])
      ensures ok && d.rpath != MAX_SIZE_T && '\0' !in origin ==>
                CStr(buf, rpathOffsets[depth]) == PathList(StringAt(f, strtab, d.rpath), origin)
      ensures |old(buf)| <= |buf| && buf[..|old(buf)|] == old(buf)
      ensures visited == old(visited) && trace == old(trace) && ldLibraryPathOffset == old(ldLibraryPathOffset)
    {
      if d.rpath == MAX_SIZE_T {
        rpathOffsets := rpathOffsets[depth := MAX_SIZE_T];
        return true;
      }
      rpathOffsets := rpathOffsets[depth := |buf|];
      if !StringSeekOk(strtab, d.rpath) {
        return false;
      }
      var b', start := AppendPathList(buf, f, strtab, d.rpath, origin);
      buf, rpathOffsets := b', rpathOffsets[depth := start];
      ok := true;
    }

    /** The runpath list, when the file has one, and where it starts in the arena. */
    method CopyRunpath(f: seq<Byte>, d: DynInfo, strtab: nat, origin: string) returns (ok: bool, runpath: Option<nat>)
      modifies this
      ensures ok <==> d.runpath == MAX_SIZE_T || StringSeekOk(strtab, d.runpath)
      ensures runpath.Some? <==> ok && d.runpath != MAX_SIZE_T
      ensures runpath.Some? ==> Terminated(buf, runpath.value)
      ensures runpath.Some? && '\0' !in origin ==> CStr(buf, runpath.value) == PathList(StringAt(f, strtab, d.runpath), origin)
      ensures |old(buf)| <= |buf| && buf[..|old(buf)|] == old(buf)
      ensures rpathOffsets == old(rpathOffsets) && visited == old(visited) && trace == old(trace)
      ensures ldLibraryPathOffset == old(ldLibraryPathOffset)
    {
      if d.runpath == MAX_SIZE_T {
        return true, None;
      }
      if !StringSeekOk(strtab, d.runpath) {
        return false, None;
      }
      var b', start := AppendPathList(buf, f, strtab, d.runpath, origin);
      buf := b';
      return true, Some(start);
    }

    /**
     * The search for the needed names of a file at `depth`: the names holding a `/`
     * first, then the stages in order. Afterwards the pending prefix holds the relative
     * names that failed in every directory of every stage, in the order given by
     * `Stages`, and every other name either held a `/` or was found in the first stage
     * where it could be; the pending ones are reported, in order, at the end of the tree.
     */
    method Search(needed: array<nat>, depth: nat, runpath: Option<nat>, ghost budget: nat)
      returns (pending: nat, ghost searched: seq<Line>)
      requires FsWithinLimits(fs) && |Unvisited()| <= budget
      requires forall j :: 0 <= j <= depth ==> j in rpathOffsets
      modifies this, needed
      ensures Kept(depth + 1)
      ensures multiset(needed[..]) == old(multiset(needed[..]))
      ensures SearchInv(fs, buf, Stages(buf, old(rpathOffsets), depth, runpath, ldLibraryPathOffset), needed[..], pending)
      ensures old(trace) <= searched && trace == searched + MissingLines(buf, needed[..pending], depth + 1)
      decreases budget, 8, 2
    {
      if needed.Length == 0 {
        pending := 0;
        searched := trace;
        assert needed[..] == [] && needed[..pending] == [];
        return;
      }
      pending, searched := SearchNeeded(needed, depth, runpath, budget);
    }

    /** `Search` with at least one needed name: the direct pass, the stages, the report. */
    method SearchNeeded(needed: array<nat>, depth: nat, runpath: Option<nat>, ghost budget: nat)
      returns (pending: nat, ghost searched: seq<Line>)
      requires FsWithinLimits(fs) && |Unvisited()| <= budget && needed.Length > 0
      requires forall j :: 0 <= j <= depth ==> j in rpathOffsets
      modifies this, needed
      ensures Kept(depth + 1)
      ensures multiset(needed[..]) == old(multiset(needed[..]))
      ensures SearchInv(fs, buf, Stages(buf, old(rpathOffsets), depth, runpath, ldLibraryPathOffset), needed[..], pending)
      ensures old(trace) <= searched && trace == searched + MissingLines(buf, needed[..pending], depth + 1)
      decreases budget, 8, 1
    {
      pending := Resolve(needed, depth, runpath, budget);
      searched := trace;
      ReportMissing(needed, pending, depth);
    }

    /** The direct pass over the names with a `/`, then the search stages for the rest. */
    method Resolve(needed: array<nat>, depth: nat, runpath: Option<nat>, ghost budget: nat) returns (pending: nat)
      requires FsWithinLimits(fs) && |Unvisited()| <= budget && needed.Length > 0
      requires forall j :: 0 <= j <= depth ==> j in rpathOffsets
      modifies this, needed
      ensures Kept(depth + 1)
      ensures multiset(needed[..]) == old(multiset(needed[..]))
      ensures SearchInv(fs, buf, Stages(buf, old(rpathOffsets), depth, runpath, ldLibraryPathOffset), needed[..], pending)
      decreases budget, 8, 0
    {
      pending := needed.Length;
      ghost var init := needed[..];
      pending := DirectPass(needed, pending, depth, budget);
      DirectDone(fs, buf, init, needed[..], pending);
      RpathStagesKept(buf, old(rpathOffsets), rpathOffsets, depth);
      var stages := Stages(buf, rpathOffsets, depth, runpath, ldLibraryPathOffset);
      pending := RunStages(stages, 0, needed, pending, depth, budget);
    }

    /**
     * The stages in order, each one only while something is pending. (A stage run with
     * nothing pending, as `recurse` does with the default paths right after
     * ld.so.conf, tries no file, so skipping it changes nothing.)
     */
    method RunStages(stages: seq<Stage>, k: nat, needed: array<nat>, pending: nat, depth: nat, ghost budget: nat)
      returns (pending': nat)
      requires FsWithinLimits(fs) && |Unvisited()| <= budget && k <= |stages|
      requires forall j :: 0 <= j <= depth ==> j in rpathOffsets
      requires SearchInv(fs, buf, stages[..k], needed[..], pending)
      modifies this, needed
      ensures Kept(depth + 1)
      ensures multiset(needed[..]) == old(multiset(needed[..]))
      ensures SearchInv(fs, buf, stages, needed[..], pending')
      decreases budget, 7, |stages| - k
    {
      if k == |stages| || pending == 0 {
        SearchDone(fs, buf, stages[..k], stages, needed[..], pending);
        return pending;
      }
      var p := RunStage(stages, k, needed, pending, depth, budget);
      pending' := RunStages(stages, k + 1, needed, p, depth, budget);
    }

    /** Stage `k`: `check_search_paths` with its reason and path list. */
    method RunStage(stages: seq<Stage>, k: nat, needed: array<nat>, pending: nat, depth: nat, ghost budget: nat)
      returns (pending': nat)
      requires FsWithinLimits(fs) && |Unvisited()| <= budget && k < |stages|
      requires forall j :: 0 <= j <= depth ==> j in rpathOffsets
      requires SearchInv(fs, buf, stages[..k], needed[..], pending)
      modifies this, needed
      ensures Kept(depth + 1)
      ensures multiset(needed[..]) == old(multiset(needed[..]))
      ensures SearchInv(fs, buf, stages[..k + 1], needed[..], pending')
      decreases budget, 6
    {
      ghost var a := needed[..];
      ghost var done := stages[..k];
      var st := stages[k];
      PrefixStep(stages, k);
      pending' := CheckSearchPaths(st.reason, st.paths, needed, pending, depth, budget);
      ghost var b := needed[..];
      StageStep(fs, buf, done, st, a, b, pending, pending');
      assert b == b[..pending] + b[pending..];
      assert a == a[..pending] + a[pending..];
    }

    /**
     * The first loop over the needed names: a name holding a `/` is tried as it is
     * when absolute, reported when relative, and moved behind the pending prefix
     * either way.
     */
    method DirectPass(needed: array<nat>, pending: nat, depth: nat, ghost budget: nat) returns (pending': nat)
      requires FsWithinLimits(fs) && |Unvisited()| <= budget && pending <= needed.Length
      requires forall j :: 0 <= j <= depth ==> j in rpathOffsets
      modifies this, needed
      ensures Kept(depth + 1)
      ensures DirectInv(buf, old(needed[..]), needed[..], pending', pending', pending)
      decreases budget, 4
    {
      ghost var init := needed[..];
      pending' := pending;
      var i: nat := 0;
      while i < pending'
        invariant Kept(depth + 1) && |Unvisited()| <= budget
        invariant DirectInv(buf, init, needed[..], i, pending', pending)
        decreases pending' - i
      {
        i, pending' := DirectName(needed, i, pending', depth, init, pending, budget);
      }
    }

    /** One round of the first loop: the name at `i`. */
    method DirectName(needed: array<nat>, i: nat, p: nat, depth: nat, ghost init: seq<nat>, ghost q: nat, ghost budget: nat)
      returns (i': nat, p': nat)
      requires FsWithinLimits(fs) && |Unvisited()| <= budget
      requires forall j :: 0 <= j <= depth ==> j in rpathOffsets
      requires DirectInv(buf, init, needed[..], i, p, q) && i < p
      modifies this, needed
      ensures Kept(depth + 1)
      ensures DirectInv(buf, init, needed[..], i', p', q)
      ensures p' - i' < p - i
      decreases budget, 3
    {
      var name := CStr(buf, needed[i]);
      if '/' in name {
        VisitDirect(name, depth, budget);
      }
      i', p' := SettleDirect(needed, i, p, '/' in name, buf, init, q);
    }

    /** A name holding a `/`: reported when relative, else opened as it is and reported when that fails. */
    method VisitDirect(name: string, depth: nat, ghost budget: nat)
      requires FsWithinLimits(fs) && |Unvisited()| <= budget && '/' in name
      requires forall j :: 0 <= j <= depth ==> j in rpathOffsets
      modifies this
      ensures Kept(depth + 1)
      ensures name[0] != '/' ==> trace == old(trace) + [NotAbsolute(depth + 1, name)]
      ensures name[0] == '/' && Code(fs, name, old(Seen(name))) != 0 ==> trace == old(trace) + [NotFound(depth + 1, name)]
      decreases budget, 2
    {
      if name[0] != '/' {
        trace := trace + [NotAbsolute(depth + 1, name)];
      } else {
        var code := Recurse(name, depth + 1, Found(Direct, 0));
        if code != 0 {
          trace := trace + [NotFound(depth + 1, name)];
        }
      }
    }

    /**
     * `check_search_paths`: each directory of the list in turn, with `/` appended when
     * missing, is tried for every pending name. The names it leaves pending failed in
     * every directory; the ones it moved out were found in one of them.
     */
    method CheckSearchPaths(reason: Found, paths: string, needed: array<nat>, pending: nat, depth: nat, ghost budget: nat)
      returns (pending': nat)
      requires FsWithinLimits(fs) && |Unvisited()| <= budget && pending <= needed.Length
      requires forall j :: 0 <= j <= depth ==> j in rpathOffsets
      modifies this, needed
      ensures Kept(depth + 1)
      ensures CheckInv(fs, buf, SearchDirs(paths), old(needed[..]), needed[..], pending', pending)
      decreases budget, 5
    {
      ghost var init := needed[..];
      ghost var tried: seq<string> := [];
      DirsStart(paths);
      CheckStart(fs, buf, init, pending);
      pending' := pending;
      var pos: nat := 0;
      while true
        invariant Kept(depth + 1) && |Unvisited()| <= budget
        invariant DirsTried(paths, tried, pos)
        invariant CheckInv(fs, buf, tried, init, needed[..], pending', pending)
        decreases |paths| - pos
      {
        var found, dir, next := NextDir(paths, pos);
        if !found {
          DirsDone(paths, tried, pos);
          break;
        }
        ghost var a := needed[..];
        ghost var p := pending';
        pending' := TryDir(reason, dir, needed, pending', depth, budget);
        CheckStep(fs, buf, tried, dir, init, a, needed[..], p, pending', pending);
        DirsStep(paths, tried, pos, dir, next);
        tried := tried + [dir];
        pos := next;
      }
    }

    /** The inner loop: every pending name in one directory; a hit is swapped behind the pending ones. */
    method TryDir(reason: Found, dir: string, needed: array<nat>, pending: nat, depth: nat, ghost budget: nat)
      returns (pending': nat)
      requires FsWithinLimits(fs) && |Unvisited()| <= budget && pending <= needed.Length
      requires forall j :: 0 <= j <= depth ==> j in rpathOffsets
      modifies this, needed
      ensures Kept(depth + 1)
      ensures TryInv(fs, buf, dir, old(needed[..]), needed[..], pending', pending', pending)
      decreases budget, 4
    {
      ghost var init := needed[..];
      pending' := pending;
      var i: nat := 0;
      while i < pending'
        invariant Kept(depth + 1) && |Unvisited()| <= budget
        invariant TryInv(fs, buf, dir, init, needed[..], i, pending', pending)
        decreases pending' - i
      {
        i, pending' := TryName(reason, dir, needed, i, pending', depth, init, pending, budget);
      }
    }

    /** One round of the inner loop: the name at `i` in `dir`. */
    method TryName(reason: Found, dir: string, needed: array<nat>, i: nat, p: nat, depth: nat,
                   ghost init: seq<nat>, ghost q: nat, ghost budget: nat)
      returns (i': nat, p': nat)
      requires FsWithinLimits(fs) && |Unvisited()| <= budget
      requires forall j :: 0 <= j <= depth ==> j in rpathOffsets
      requires TryInv(fs, buf, dir, init, needed[..], i, p, q) && i < p
      modifies this, needed
      ensures Kept(depth + 1)
      ensures TryInv(fs, buf, dir, init, needed[..], i', p', q)
      ensures p' - i' < p - i
      decreases budget, 3
    {
      var code := TryPath(dir, CStr(buf, needed[i]), depth, reason, budget);
      i', p' := SettleTry(needed, i, p, code == 0, fs, buf, dir, init, q);
    }

    /** `recurse` on the directory joined with the name, one level down. */
    method TryPath(dir: string, name: string, depth: nat, reason: Found, ghost budget: nat) returns (code: int)
      requires FsWithinLimits(fs) && |Unvisited()| <= budget
      requires forall j :: 0 <= j <= depth ==> j in rpathOffsets
      modifies this
      ensures Kept(depth + 1)
      ensures code == 0 ==> Resolves(fs, dir + name)
      ensures code != 0 ==> Fails(fs, dir + name)
      decreases budget, 2
    {
      var path := dir + name;
      ghost var seen := Seen(path);
      code := Recurse(path, depth + 1, reason);
      TriedCode(fs, path, seen);
    }

    /** The names still pending are reported as not found, in order. */
    method ReportMissing(needed: array<nat>, pending: nat, depth: nat)
      requires pending <= needed.Length
      modifies this
      ensures trace == old(trace) + MissingLines(buf, needed[..pending], depth + 1)
      ensures buf == old(buf) && visited == old(visited) && rpathOffsets == old(rpathOffsets)
      ensures ldLibraryPathOffset == old(ldLibraryPathOffset)
    {
      var i := 0;
      while i < pending
        invariant 0 <= i <= pending
        invariant trace == old(trace) + MissingLines(buf, needed[..i], depth + 1)
        invariant buf == old(buf) && visited == old(visited) && rpathOffsets == old(rpathOffsets)
        invariant ldLibraryPathOffset == old(ldLibraryPathOffset)
      {
        trace := trace + [NotFound(depth + 1, CStr(buf, needed[i]))];
        assert MissingLines(buf, needed[..i + 1], depth + 1) == MissingLines(buf, needed[..i], depth + 1) + [NotFound(depth + 1, CStr(buf, needed[i]))];
        i := i + 1;
      }
    }

    /** What the arena-building steps leave alone. */
    twostate predicate OnlyArena()
      reads this
    {
      rpathOffsets == old(rpathOffsets) && visited == old(visited) && trace == old(trace)
      && ldLibraryPathOffset == old(ldLibraryPathOffset)
    }

    /**
     * `parse_ld_conf(path)`: the directories of the file, and of the files its includes
     * match, each followed by a `:`, appended to the arena; 1 when the file cannot be
     * opened, else 0.
     */
    method ParseLdConf(c: LdConf.ConfFiles, path: string) returns (code: int)
      requires LdConf.CAcyclic(c)
      modifies this
      ensures buf == old(buf) + WithColons(LdConf.CConfDirs(c, path))
      ensures code == (if path in c.files then 0 else 1)
      ensures OnlyArena()
      decreases LdConf.Rank(c, path), 2
    {
      if path !in c.files {
        return 1;
      }
      var lines := c.files[path];
      ghost var level := LdConf.Rank(c, path);
      ghost var total := old(buf) + WithColons(LdConf.CConfDirs(c, path));
      ConfLinesStart(c, path);
      var i := 0;
      while i < |lines|
        invariant 0 <= i <= |lines| && LdConf.CLinesBelow(c, lines[i..], level)
        invariant buf + WithColons(LdConf.CLinesDirs(c, lines[i..], level)) == total
        invariant OnlyArena()
      {
        ghost var before := buf;
        ConfLinesStep(c, lines, i, level);
        ParseConfLine(c, lines[i], level);
        Resume(before, buf, WithColons(LdConf.CLineDirs(c, lines[i], level)),
               WithColons(LdConf.CLinesDirs(c, lines[i + 1..], level)), WithColons(LdConf.CLinesDirs(c, lines[i..], level)), total);
        i := i + 1;
      }
      ConfLinesEnd(c, lines, level);
      return 0;
    }

    /** One line: a directory is appended with its `:`, an absolute include is globbed. */
    method ParseConfLine(c: LdConf.ConfFiles, line: string, ghost level: nat)
      requires LdConf.CAcyclic(c) && LdConf.CLineBelow(c, line, level)
      modifies this
      ensures buf == old(buf) + WithColons(LdConf.CLineDirs(c, line, level))
      ensures OnlyArena()
      decreases level, 1
    {
      var r := LdConf.ClassifyLine(line);
      match r
      case Skip =>
      case Dir(d) =>
        buf := buf + d + [':'];
        assert [d][1..] == [];
      case Include(pattern) =>
        var ignored := LdConfGlobbing(c, pattern, level);
    }

    /**
     * `ld_conf_globbing(pattern)`: `parse_ld_conf` on every match, in glob order; 1 when
     * some match could not be opened, else 0. No match reads nothing.
     */
    method LdConfGlobbing(c: LdConf.ConfFiles, pattern: string, ghost level: nat) returns (code: int)
      requires LdConf.CAcyclic(c) && LdConf.FilesBelow(c, c.glob(pattern), level)
      modifies this
      ensures buf == old(buf) + WithColons(LdConf.CFilesDirs(c, c.glob(pattern), level))
      ensures code == 0 <==> AllOpen(c, c.glob(pattern))
      ensures OnlyArena()
      decreases level, 0, 1
    {
      var paths := c.glob(pattern);
      ghost var total := old(buf) + WithColons(LdConf.CFilesDirs(c, paths, level));
      ConfFilesStart(c, paths, level);
      code := 0;
      var i := 0;
      while i < |paths|
        invariant 0 <= i <= |paths|
        invariant buf + WithColons(LdConf.CFilesDirs(c, paths[i..], level)) == total
        invariant code == 0 <==> AllOpen(c, paths[..i])
        invariant OnlyArena()
      {
        code := ParseMatch(c, paths, i, level, total, code);
        i := i + 1;
      }
      ConfFilesEnd(c, paths, level);
    }

    /** One round of that loop: `code |= parse_ld_conf(...)` on the `i`-th match. */
    method ParseMatch(c: LdConf.ConfFiles, paths: seq<string>, i: nat, ghost level: nat, ghost total: string, code: int)
      returns (code': int)
      requires LdConf.CAcyclic(c) && i < |paths| && LdConf.FilesBelow(c, paths, level)
      requires buf + WithColons(LdConf.CFilesDirs(c, paths[i..], level)) == total
      requires code == 0 <==> AllOpen(c, paths[..i])
      modifies this
      ensures buf + WithColons(LdConf.CFilesDirs(c, paths[i + 1..], level)) == total
      ensures code' == 0 <==> AllOpen(c, paths[..i + 1])
      ensures OnlyArena()
      decreases level, 0, 0
    {
      ghost var before := buf;
      ConfFilesStep(c, paths, i, level);
      var r := ParseLdConf(c, paths[i]);
      Resume(before, buf, WithColons(LdConf.CConfDirs(c, paths[i])),
             WithColons(LdConf.CFilesDirs(c, paths[i + 1..], level)), WithColons(LdConf.CFilesDirs(c, paths[i..], level)), total);
      AllOpenStep(c, paths, i);
      code' := if r != 0 then 1 else code;
    }

    /**
     * `parse_ld_library_path`: unset, the offset is `MAX_SIZE_T`; set, the value and its
     * NUL are appended with every `;` turned into `:`, and the offset points at them.
     */
    method ParseLdLibraryPath(env: Option<string>)
      requires env.Some? ==> '\0' !in env.value
      modifies this
      ensures buf == old(buf) + LdLibraryPathCopy(env)
      ensures ldLibraryPathOffset == (if env.Some? then |old(buf)| else MAX_SIZE_T)
      ensures rpathOffsets == old(rpathOffsets) && visited == old(visited) && trace == old(trace)
    {
      ldLibraryPathOffset := MAX_SIZE_T;
      if env.None? {
        return;
      }
      var v := env.value;
      var off := |buf|;
      ldLibraryPathOffset := off;
      buf := buf + v + ['\0'];
      var i := off;
      while buf[i] != '\0'
        invariant off <= i <= off + |v| && |buf| == off + |v| + 1
        invariant buf[..off] == old(buf) && buf[off + |v|] == '\0'
        invariant forall k :: off <= k < i ==> buf[k] == (if v[k - off] == ';' then ':' else v[k - off])
        invariant forall k :: i <= k < off + |v| ==> buf[k] == v[k - off]
        invariant rpathOffsets == old(rpathOffsets) && visited == old(visited) && trace == old(trace)
        invariant ldLibraryPathOffset == off
        decreases off + |v| - i
      {
        if buf[i] == ';' {
          buf := buf[i := ':'];
        }
        i := i + 1;
      }
      assert buf == old(buf) + SemicolonsToColons(v) + ['\0'];
    }

    /**
     * The first half of `print_tree`: a fresh arena and visited list, the ld.so.conf
     * directories each followed by `:`, then `LD_LIBRARY_PATH`, and then the last byte
     * of the whole arena made NUL.
     */
    method BuildArena(c: LdConf.ConfFiles, env: Option<string>)
      requires LdConf.CAcyclic(c) && (env.Some? ==> '\0' !in env.value)
      modifies this
      ensures buf == LayoutAsWritten(LdConf.CConfDirs(c, LD_SO_CONF), env) && visited == []
      ensures ldLibraryPathOffset == (if env.Some? then |WithColons(LdConf.CConfDirs(c, LD_SO_CONF))| else MAX_SIZE_T)
      ensures rpathOffsets == old(rpathOffsets) && trace == old(trace)
    {
      buf := [];
      visited := [];
      var ignored := ParseLdConf(c, LD_SO_CONF);
      ParseLdLibraryPath(env);
      TerminateArena(LdConf.CConfDirs(c, LD_SO_CONF), env);
    }

    /** Only the last byte of the arena becomes NUL, and only when there is one. */
    method TerminateArena(ghost dirs: seq<string>, ghost env: Option<string>)
      requires buf == WithColons(dirs) + LdLibraryPathCopy(env)
      modifies this
      ensures buf == LayoutAsWritten(dirs, env)
      ensures OnlyArena()
    {
      if |buf| > 0 {
        buf := buf[|buf| - 1 := '\0'];
      }
    }

    /** `print_tree(path)`: the arena, then the walk from the input file at depth 0. */
    method PrintTree(c: LdConf.ConfFiles, env: Option<string>, path: string) returns (code: int)
      requires FsWithinLimits(fs) && LdConf.CAcyclic(c) && (env.Some? ==> '\0' !in env.value)
      modifies this
      ensures buf == LayoutAsWritten(LdConf.CConfDirs(c, LD_SO_CONF), env)
      ensures ldLibraryPathOffset == (if env.Some? then |WithColons(LdConf.CConfDirs(c, LD_SO_CONF))| else MAX_SIZE_T)
      ensures code == Code(fs, path, false)
      ensures code == 0 ==> |trace| > |old(trace)| && trace[|old(trace)|] == NodeFor(fs, path, 0, Found(Input, 0), false)
    {
      BuildArena(c, env);
      code := Recurse(path, 0, Found(Input, 0));
    }
  }
}
