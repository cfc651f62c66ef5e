/**
 * The C++ generation's reading of one ELF file: `from_path` in src/elf.cpp and its
 * earlier copy in src/main.cc, with the `std::filesystem` path operations they use.
 *
 * ELFIO stands behind a map from a path to what `elf.load` makes of that file: nothing
 * when it cannot load it, else the ELF class and, for each `SHT_DYNAMIC` section in
 * section order, the `(tag, string)` pairs `get_entry` yields. A path is in the map
 * exactly when `fs::exists` holds for it.
 */
module CppElf {
  import opened Wrappers
  import opened Collections
  import opened SearchPaths
  import opened Substitution
  import ElfDecode

  datatype DeployType = Executable | Library

  /** A dynamic entry as `dynamic.get_entry(i, tag, value, str)` reports it. */
  datatype DynEntry = DynEntry(tag: nat, str: string)

  /** A file ELFIO loads: whether it is `ELFCLASS64`, and its dynamic sections' entries. */
  datatype Loaded = Loaded(is64: bool, dynamics: seq<seq<DynEntry>>)

  /**
   * The file system: the existing paths and what ELFIO loads from each, the process's
   * current directory (absolute), and `fs::canonical` as an oracle.
   */
  datatype Fs = Fs(files: map<string, Option<Loaded>>, pwd: string, canonical: string -> string)

  /** `struct Elf`. */
  datatype Elf = Elf(kind: DeployType, name: string, absPath: string,
                     runpaths: seq<string>, rpaths: seq<string>, needed: seq<string>)

  /** The two copies of `from_path`: src/elf.cpp, and the canonicalising one in src/main.cc. */
  datatype Copy = ElfCpp | MainCc

  // ---------------------------------------------------------------------------------
  // std::filesystem::path on POSIX
  // ---------------------------------------------------------------------------------

  predicate IsAbsolute(p: string)
  {
    |p| > 0 && p[0] == '/'
  }

  /** `p.filename()`: what follows the last `/`. */
  function FileName(p: string): string
  {
    match LastSlashBelow(p, |p|)
    case Some(i) => p[i + 1..]
    case None => p
  }

  /** `p.remove_filename()`: everything up to and including the last `/`. */
  function RemoveFilename(p: string): string
  {
    match LastSlashBelow(p, |p|)
    case Some(i) => p[..i + 1]
    case None => []
  }

  /** `p / q`: an absolute `q` replaces `p`; otherwise a `/` is put between them if `p` has a file name. */
  function Slash(p: string, q: string): string
  {
    if IsAbsolute(q) then q
    else if p != [] && p[|p| - 1] != '/' then p + "/" + q
    else p + q
  }

  /** `fs::absolute(p)`: `current_path() / p`. */
  function Absolute(pwd: string, p: string): string
  {
    Slash(pwd, p)
  }

  predicate AllSlashes(p: string)
  {
    forall i :: 0 <= i < |p| ==> p[i] == '/'
  }

  /**
   * `++so.begin() != so.end()`: the path has more than one element. The elements are
   * the root directory and the names between `/`s (an empty one after a trailing `/`),
   * so this holds exactly when there is a `/` and something other than `/`.
   */
  predicate MultiComponent(so: string)
  {
    '/' in so && !AllSlashes(so)
  }

  /** The directory and the file name make up the path, and the file name holds no `/`. */
  lemma FileNameSplit(p: string)
    ensures RemoveFilename(p) + FileName(p) == p
    ensures '/' !in FileName(p)
  {
    match LastSlashBelow(p, |p|)
    case Some(i) =>
      assert p[..i + 1] + p[i + 1..] == p;
      var f := p[i + 1..];
      assert forall j :: 0 <= j < |f| ==> f[j] == p[i + 1 + j] != '/';
    case None =>
  }

  /** A directory is empty, or ends with `/`. */
  lemma RemoveFilenameEndsInSlash(p: string)
    ensures var d := RemoveFilename(p); d == [] || d[|d| - 1] == '/'
    ensures '/' in p ==> RemoveFilename(p) != []
  {
    if '/' in p {
      var k :| 0 <= k < |p| && p[k] == '/';
    }
  }

  /**
   * `fs::absolute(path_str).remove_filename()` in src/elf.cpp is an absolute directory
   * with its trailing `/`.
   */
  lemma CwdIsDirectory(pwd: string, p: string)
    requires IsAbsolute(pwd)
    ensures var c := RemoveFilename(Absolute(pwd, p)); IsAbsolute(c) && c[|c| - 1] == '/'
  {
    var a := Absolute(pwd, p);
    assert IsAbsolute(a) && a[0] == '/';
    RemoveFilenameEndsInSlash(a);
    var i := LastSlashBelow(a, |a|).value;
    assert RemoveFilename(a)[0] == a[0];
  }

  /** A name without `/` is the file name of the path `dir / name`. */
  lemma FileNameOfSlash(dir: string, so: string)
    requires '/' !in so
    ensures FileName(Slash(dir, so)) == so
  {
    var p := Slash(dir, so);
    assert !IsAbsolute(so);
    var pre := p[..|p| - |so|];
    assert p == pre + so;
    if pre != [] {
      assert pre[|pre| - 1] == '/';
      assert p[|pre| - 1] == '/';
      assert forall k :: |pre| <= k < |p| ==> p[k] == so[k - |pre|];
      var i := LastSlashBelow(p, |p|).value;
      assert i == |pre| - 1;
      assert p[i + 1..] == so;
    } else {
      assert p == so;
    }
  }

  // ---------------------------------------------------------------------------------
  // from_path
  // ---------------------------------------------------------------------------------

  /** The values `from_path` gathers: the name, and the three vectors. */
  datatype Info = Info(name: string, needed: seq<string>, rpaths: seq<string>, runpaths: seq<string>)

  /** `apply_substitutions(path, cwd)` for each path, in order. */
  function Substituted(paths: seq<string>, cwd: string): seq<string>
  {
    seq(|paths|, i requires 0 <= i < |paths| => ApplySubstitutions(paths[i], cwd))
  }

  lemma SubstitutedSnoc(paths: seq<string>, k: nat, cwd: string)
    requires k < |paths|
    ensures Substituted(paths[..k + 1], cwd) == Substituted(paths[..k], cwd) + [ApplySubstitutions(paths[k], cwd)]
  {
    var a, b := Substituted(paths[..k + 1], cwd), Substituted(paths[..k], cwd) + [ApplySubstitutions(paths[k], cwd)];
    assert |a| == |b|;
    forall i | 0 <= i < |a|
      ensures a[i] == b[i]
    {
      assert paths[..k + 1][i] == paths[i];
    }
  }

  /** The body of the entry loop for an entry other than `DT_NULL`. */
  function Step(info: Info, e: DynEntry, cwd: string): Info
  {
    if e.tag == ElfDecode.DT_NEEDED then info.(needed := info.needed + [e.str])
    else if e.tag == ElfDecode.DT_RUNPATH then info.(runpaths := info.runpaths + Substituted(ColonSegments(e.str), cwd))
    else if e.tag == ElfDecode.DT_RPATH then info.(rpaths := info.rpaths + Substituted(ColonSegments(e.str), cwd))
    else if e.tag == ElfDecode.DT_SONAME then info.(name := e.str)
    else info
  }

  /** The entry loop of one dynamic section: entries up to the first `DT_NULL`. */
  function ScanEntries(info: Info, entries: seq<DynEntry>, cwd: string): Info
    decreases |entries|
  {
    if entries == [] || entries[0].tag == ElfDecode.DT_NULL then info
    else ScanEntries(Step(info, entries[0], cwd), entries[1..], cwd)
  }

  /** The section loop: every dynamic section in turn. */
  function ScanSections(info: Info, sections: seq<seq<DynEntry>>, cwd: string): Info
    decreases |sections|
  {
    if sections == [] then info
    else ScanEntries(ScanSections(info, sections[..|sections| - 1], cwd), sections[|sections| - 1], cwd)
  }

  /** The file `elf.load` reads: `path_str` itself, or its canonical form. */
  function Binary(fs: Fs, path: string, copy: Copy): string
  {
    if copy == MainCc then fs.canonical(path) else path
  }

  /** The directory `$ORIGIN` stands for. */
  function Cwd(fs: Fs, path: string, copy: Copy): string
  {
    if copy == MainCc then RemoveFilename(fs.canonical(path)) else RemoveFilename(Absolute(fs.pwd, path))
  }

  /** `elf.load` succeeds and the class is 64-bit. */
  predicate Loads64(fs: Fs, binary: string)
  {
    binary in fs.files && fs.files[binary].Some? && fs.files[binary].value.is64
  }

  /** `from_path(type, path_str)`. */
  function FromPathSpec(fs: Fs, kind: DeployType, path: string, copy: Copy): Option<Elf>
  {
    var binary := Binary(fs, path, copy);
    if !Loads64(fs, binary) then None
    else
      var info := ScanSections(Info(FileName(path), [], [], []), fs.files[binary].value.dynamics, Cwd(fs, path, copy));
      Some(Elf(kind, info.name, binary, info.runpaths, info.rpaths, info.needed))
  }

  // The contents, stated without the loops: the live entries of each section

  /** The index of the first `DT_NULL`, or the length. */
  function FirstNull(es: seq<DynEntry>): (k: nat)
    ensures k <= |es|
    decreases |es|
  {
    if es == [] || es[0].tag == ElfDecode.DT_NULL then 0 else 1 + FirstNull(es[1..])
  }

  /** The entries of every section before its first `DT_NULL`, section after section. */
  function Live(sections: seq<seq<DynEntry>>): seq<DynEntry>
    decreases |sections|
  {
    if sections == [] then []
    else
      var last := sections[|sections| - 1];
      Live(sections[..|sections| - 1]) + last[..FirstNull(last)]
  }

  /** The strings of the entries with tag `tag`, in entry order. */
  function Strings(es: seq<DynEntry>, tag: nat): seq<string>
    decreases |es|
  {
    if es == [] then [] else (if es[0].tag == tag then [es[0].str] else []) + Strings(es[1..], tag)
  }

  /** Each string of a path tag, split at `:` and substituted, in entry order. */
  function PathsOf(es: seq<DynEntry>, tag: nat, cwd: string): seq<string>
    decreases |es|
  {
    if es == [] then []
    else (if es[0].tag == tag then Substituted(ColonSegments(es[0].str), cwd) else []) + PathsOf(es[1..], tag, cwd)
  }

  function LastOr(s: seq<string>, d: string): string
  {
    if s == [] then d else s[|s| - 1]
  }

  /** The record the live entries `es` make of `info`, each field on its own. */
  predicate Scanned(info: Info, es: seq<DynEntry>, cwd: string, r: Info)
  {
    r.needed == info.needed + Strings(es, ElfDecode.DT_NEEDED)
    && r.rpaths == info.rpaths + PathsOf(es, ElfDecode.DT_RPATH, cwd)
    && r.runpaths == info.runpaths + PathsOf(es, ElfDecode.DT_RUNPATH, cwd)
    && r.name == LastOr(Strings(es, ElfDecode.DT_SONAME), info.name)
  }

  lemma {:induction false} StringsAppend(a: seq<DynEntry>, b: seq<DynEntry>, tag: nat)
    ensures Strings(a + b, tag) == Strings(a, tag) + Strings(b, tag)
    decreases |a|
  {
    if a == [] {
      assert a + b == b;
    } else {
      AppendParts(a, b);
      StringsAppend(a[1..], b, tag);
    }
  }

  lemma {:induction false} PathsOfAppend(a: seq<DynEntry>, b: seq<DynEntry>, tag: nat, cwd: string)
    ensures PathsOf(a + b, tag, cwd) == PathsOf(a, tag, cwd) + PathsOf(b, tag, cwd)
    decreases |a|
  {
    if a == [] {
      assert a + b == b;
    } else {
      AppendParts(a, b);
      PathsOfAppend(a[1..], b, tag, cwd);
    }
  }

  lemma LastOrAppend(a: seq<string>, b: seq<string>, d: string)
    ensures LastOr(a + b, d) == LastOr(b, LastOr(a, d))
  {
  }

  /** Scanning `a`, then `b`, is scanning `a + b`. */
  lemma ScannedAppend(info: Info, a: seq<DynEntry>, mid: Info, b: seq<DynEntry>, r: Info, cwd: string)
    requires Scanned(info, a, cwd, mid) && Scanned(mid, b, cwd, r)
    ensures Scanned(info, a + b, cwd, r)
  {
    StringsAppend(a, b, ElfDecode.DT_NEEDED);
    StringsAppend(a, b, ElfDecode.DT_SONAME);
    PathsOfAppend(a, b, ElfDecode.DT_RPATH, cwd);
    PathsOfAppend(a, b, ElfDecode.DT_RUNPATH, cwd);
    LastOrAppend(Strings(a, ElfDecode.DT_SONAME), Strings(b, ElfDecode.DT_SONAME), info.name);
  }

  /** One live entry. */
  lemma ScannedOne(info: Info, e: DynEntry, cwd: string)
    requires e.tag != ElfDecode.DT_NULL
    ensures Scanned(info, [e], cwd, Step(info, e, cwd))
  {
    assert [e][1..] == [];
  }

  /**
   * The entry loop of one section appends the NEEDED strings in entry order, splits and
   * substitutes each RPATH and RUNPATH string, lets the last SONAME win, and stops at
   * the first `DT_NULL`.
   */
  lemma {:induction false} ScanEntriesIs(info: Info, es: seq<DynEntry>, cwd: string)
    ensures Scanned(info, es[..FirstNull(es)], cwd, ScanEntries(info, es, cwd))
    decreases |es|
  {
    if es == [] || es[0].tag == ElfDecode.DT_NULL {
      assert es[..FirstNull(es)] == [];
    } else {
      var mid := Step(info, es[0], cwd);
      ScanEntriesIs(mid, es[1..], cwd);
      ScannedOne(info, es[0], cwd);
      var rest := es[1..][..FirstNull(es[1..])];
      ScannedAppend(info, [es[0]], mid, rest, ScanEntries(info, es, cwd), cwd);
      assert es[..FirstNull(es)] == [es[0]] + rest;
    }
  }

  /** Over all dynamic sections: the record is made of the live entries, section after section. */
  lemma {:induction false} ScanSectionsIs(info: Info, sections: seq<seq<DynEntry>>, cwd: string)
    ensures Scanned(info, Live(sections), cwd, ScanSections(info, sections, cwd))
    decreases |sections|
  {
    if sections == [] {
      assert Strings([], ElfDecode.DT_NEEDED) == [] && Strings([], ElfDecode.DT_SONAME) == [];
      assert info.needed + [] == info.needed && info.rpaths + [] == info.rpaths && info.runpaths + [] == info.runpaths;
    } else {
      var init := sections[..|sections| - 1];
      var last := sections[|sections| - 1];
      ScanSectionsIs(info, init, cwd);
      var mid := ScanSections(info, init, cwd);
      ScanEntriesIs(mid, last, cwd);
      ScannedAppend(info, Live(init), mid, last[..FirstNull(last)], ScanSections(info, sections, cwd), cwd);
    }
  }

  /**
   * `from_path` returns nothing unless ELFIO loads the file and it is 64-bit; otherwise
   * it carries the caller's type, the path it loaded, the NEEDED strings in entry order,
   * the split and substituted RPATH and RUNPATH lists, and the last SONAME, or the file
   * name of `path_str` when there is none.
   */
  lemma FromPathContents(fs: Fs, kind: DeployType, path: string, copy: Copy)
    ensures var r := FromPathSpec(fs, kind, path, copy);
      var binary := Binary(fs, path, copy);
      (r.Some? <==> Loads64(fs, binary))
      && (r.Some? ==>
        var live := Live(fs.files[binary].value.dynamics);
        var cwd := Cwd(fs, path, copy);
        r.value.kind == kind && r.value.absPath == binary
        && r.value.needed == Strings(live, ElfDecode.DT_NEEDED)
        && r.value.rpaths == PathsOf(live, ElfDecode.DT_RPATH, cwd)
        && r.value.runpaths == PathsOf(live, ElfDecode.DT_RUNPATH, cwd)
        && r.value.name == LastOr(Strings(live, ElfDecode.DT_SONAME), FileName(path)))
  {
    var binary := Binary(fs, path, copy);
    if Loads64(fs, binary) {
      ScanSectionsIs(Info(FileName(path), [], [], []), fs.files[binary].value.dynamics, Cwd(fs, path, copy));
    }
  }

  /** Every name a loaded file can be given: a file name of an existing path, or a dynamic string. */
  function Names(fs: Fs): set<string>
  {
    (set p | p in fs.files :: FileName(p))
    + (set p, i, j | p in fs.files && fs.files[p].Some? && 0 <= i < |fs.files[p].value.dynamics|
                     && 0 <= j < |fs.files[p].value.dynamics[i]| :: fs.files[p].value.dynamics[i][j].str)
  }

  lemma {:induction false} StringsFrom(es: seq<DynEntry>, tag: nat, k: nat)
    requires k < |Strings(es, tag)|
    ensures exists j :: 0 <= j < |es| && es[j].str == Strings(es, tag)[k]
    decreases |es|
  {
    if es[0].tag == tag && k == 0 {
      assert es[0].str == Strings(es, tag)[0];
    } else {
      var h := if es[0].tag == tag then 1 else 0;
      assert Strings(es, tag)[k] == Strings(es[1..], tag)[k - h];
      StringsFrom(es[1..], tag, k - h);
      var j :| 0 <= j < |es[1..]| && es[1..][j].str == Strings(es[1..], tag)[k - h];
      assert es[j + 1].str == Strings(es, tag)[k];
    }
  }

  lemma {:induction false} LiveFrom(sections: seq<seq<DynEntry>>, k: nat)
    requires k < |Live(sections)|
    ensures exists i, j :: 0 <= i < |sections| && 0 <= j < |sections[i]| && sections[i][j] == Live(sections)[k]
    decreases |sections|
  {
    var init := sections[..|sections| - 1];
    var last := sections[|sections| - 1];
    if k < |Live(init)| {
      LiveFrom(init, k);
      var i, j :| 0 <= i < |init| && 0 <= j < |init[i]| && init[i][j] == Live(init)[k];
      assert sections[i][j] == Live(sections)[k];
    } else {
      var j := k - |Live(init)|;
      assert Live(sections)[k] == last[..FirstNull(last)][j] == last[j];
    }
  }

  /** The name of a loaded existing file is one of `Names(fs)`: the walk's measure counts them. */
  lemma NameKnown(fs: Fs, kind: DeployType, path: string, copy: Copy)
    requires path in fs.files && FromPathSpec(fs, kind, path, copy).Some?
    ensures FromPathSpec(fs, kind, path, copy).value.name in Names(fs)
  {
    FromPathContents(fs, kind, path, copy);
    var binary := Binary(fs, path, copy);
    var secs := fs.files[binary].value.dynamics;
    var live := Live(secs);
    var sonames := Strings(live, ElfDecode.DT_SONAME);
    if sonames != [] {
      StringsFrom(live, ElfDecode.DT_SONAME, |sonames| - 1);
      var k :| 0 <= k < |live| && live[k].str == sonames[|sonames| - 1];
      LiveFrom(secs, k);
      var i, j :| 0 <= i < |secs| && 0 <= j < |secs[i]| && secs[i][j] == live[k];
      assert fs.files[binary].value.dynamics[i][j].str in Names(fs);
    } else {
      assert FileName(path) in Names(fs);
    }
  }

  // The loops

  /** `from_path(type, path_str)`, with its section loop. */
  method FromPath(fs: Fs, kind: DeployType, path: string, copy: Copy) returns (r: Option<Elf>)
    requires copy == MainCc ==> path in fs.files
    ensures r == FromPathSpec(fs, kind, path, copy)
  {
    var binary := if copy == MainCc then fs.canonical(path) else path;
    var cwd := if copy == MainCc then RemoveFilename(binary) else RemoveFilename(Absolute(fs.pwd, path));
    var name := FileName(path);
    if binary !in fs.files || fs.files[binary].None? || !fs.files[binary].value.is64 {
      return None;
    }
    var sections := fs.files[binary].value.dynamics;
    var info := Info(name, [], [], []);
    ghost var init := info;
    var i := 0;
    while i < |sections|
      invariant 0 <= i <= |sections|
      invariant info == ScanSections(init, sections[..i], cwd)
    {
      if |sections[i]| > 0 {
        info := ScanSection(info, sections[i], cwd);
      }
      assert sections[..i + 1][..i] == sections[..i];
      i := i + 1;
    }
    assert sections[..i] == sections;
    r := Some(Elf(kind, info.name, binary, info.runpaths, info.rpaths, info.needed));
  }

  /** The entry loop of one dynamic section, with its `break` at `DT_NULL`. */
  method ScanSection(info: Info, entries: seq<DynEntry>, cwd: string) returns (info': Info)
    ensures info' == ScanEntries(info, entries, cwd)
  {
    info' := info;
    var j := 0;
    while j < |entries|
      invariant 0 <= j <= |entries|
      invariant ScanEntries(info', entries[j..], cwd) == ScanEntries(info, entries, cwd)
    {
      var e := entries[j];
      AppendParts(entries[j..], []);
      assert entries[j..] + [] == entries[j..];
      assert entries[j..][1..] == entries[j + 1..];
      if e.tag == ElfDecode.DT_NULL {
        break;
      }
      info' := ApplyEntry(info', e, cwd);
      j := j + 1;
    }
  }

  /** The `if` chain on the tag of one entry. */
  method ApplyEntry(info: Info, e: DynEntry, cwd: string) returns (info': Info)
    ensures info' == Step(info, e, cwd)
  {
    if e.tag == ElfDecode.DT_NEEDED {
      info' := info.(needed := info.needed + [e.str]);
    } else if e.tag == ElfDecode.DT_RUNPATH {
      var paths := PushSubstituted(info.runpaths, e.str, cwd);
      info' := info.(runpaths := paths);
    } else if e.tag == ElfDecode.DT_RPATH {
      var paths := PushSubstituted(info.rpaths, e.str, cwd);
      info' := info.(rpaths := paths);
    } else if e.tag == ElfDecode.DT_SONAME {
      info' := info.(name := e.str);
    } else {
      info' := info;
    }
  }

  /** `for (auto const &path : split_paths(str)) v.push_back(apply_substitutions(path, cwd))`. */
  method PushSubstituted(v: seq<string>, str: string, cwd: string) returns (v': seq<string>)
    ensures v' == v + Substituted(ColonSegments(str), cwd)
  {
    var parts := SplitPaths(str);
    v' := v;
    var k := 0;
    while k < |parts|
      invariant 0 <= k <= |parts|
      invariant v' == v + Substituted(parts[..k], cwd)
    {
      SubstitutedSnoc(parts, k, cwd);
      v' := v' + [ApplySubstitutions(parts[k], cwd)];
      k := k + 1;
    }
    assert parts[..k] == parts;
  }
}
