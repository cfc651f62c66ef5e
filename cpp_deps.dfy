/**
 * The C++ generation's walk: the `deps` class of src/deps.cpp (`explore`, `try_paths`,
 * `search`) and the `DepsTree` class of src/main.cc, which does the same with the
 * canonicalising copy of `from_path`.
 *
 * ELFs are deduplicated by the path their name denotes (`PathKey`); one `rpaths` vector
 * is shared by every `explore` call and only ever grows; each ELF's candidate directories
 * are fixed before its needed names are looked up. What is printed is kept as a list of events.
 */
module CppDeps {
  import opened Wrappers
  import opened Collections
  import opened CppElf

  /** How `explore` shows an ELF: plain, "(visited)", or "(excluded)". */
  datatype Mark = Fresh | Cached | Excluded

  /** A line of output: an ELF at a depth, or "ERROR could not find" a needed name. */
  datatype Event = Shown(depth: nat, name: string, mark: Mark) | NotFound(depth: nat, so: string)

  /** What stays fixed during the walk: the file system, which `from_path`, the lists. */
  datatype Config = Config(fs: Fs, copy: Copy, searchPaths: seq<string>, ldLibraryPaths: seq<string>,
                           excluded: seq<string>)

  /** What the walk changes: `m_visited`, `m_all_binaries`, the shared `rpaths`, the output. */
  datatype State = State(visited: set<string>, all: seq<Elf>, rpaths: seq<string>, log: seq<Event>)

  // ---------------------------------------------------------------------------------
  // Path equality
  // ---------------------------------------------------------------------------------

  /** Two consecutive separators at `i`. */
  predicate DoubleSlashAt(s: string, i: int)
  {
    0 <= i && i + 1 < |s| && s[i] == '/' && s[i + 1] == '/'
  }

  /**
   * What `m_visited` compares: it holds `fs::path` values, and two paths are equal when
   * they have the same root directory and the same elements, so a run of '/' counts as
   * one separator and nothing else is normalised (POSIX paths have no root name). The key
   * is the name with every run of '/' collapsed into one.
   */
  function PathKey(name: string): (k: string)
    ensures |k| <= |name| && (name == [] <==> k == [])
    ensures forall i :: 0 <= i < |k| ==> !DoubleSlashAt(k, i)
    ensures |name| > 0 ==> k[0] == name[0]
    decreases |name|
  {
    if |name| <= 1 then name
    else if name[0] == '/' && name[1] == '/' then PathKey(name[1..])
    else
      var t := PathKey(name[1..]);
      var k := [name[0]] + t;
      assert forall i :: 0 <= i < |k| ==> !DoubleSlashAt(k, i) by {
        forall i | 0 <= i < |k|
          ensures !DoubleSlashAt(k, i)
        {
          if i > 0 {
            assert DoubleSlashAt(k, i) ==> DoubleSlashAt(t, i - 1);
          }
        }
      }
      k
  }

  /** A name without a run of '/' is its own key. */
  lemma {:induction false} KeyOfCollapsed(name: string)
    requires forall i :: 0 <= i < |name| ==> !DoubleSlashAt(name, i)
    ensures PathKey(name) == name
    decreases |name|
  {
    if |name| > 1 {
      assert !DoubleSlashAt(name, 0);
      forall i | 0 <= i < |name[1..]|
        ensures !DoubleSlashAt(name[1..], i)
      {
        assert !DoubleSlashAt(name, i + 1);
      }
      KeyOfCollapsed(name[1..]);
      assert [name[0]] + name[1..] == name;
    }
  }

  /** Taking the key twice is taking it once: equal paths share a key, the key names the same path. */
  lemma PathKeyIdempotent(name: string)
    ensures PathKey(PathKey(name)) == PathKey(name)
  {
    KeyOfCollapsed(PathKey(name));
  }

  /** `x//y` and `x/y` are the same `fs::path`; `x/` and `x` are not, nor are `x/./y` and `x/y`. */
  lemma PathKeyExamples()
    ensures PathKey("x//y") == PathKey("x/y") == "x/y"
    ensures PathKey("x/") != PathKey("x")
    ensures PathKey("x/./y") != PathKey("x/y")
  {
    assert PathKey("y") == "y";
    assert PathKey("/y") == "/y";
    assert PathKey("//y") == "/y";
    assert PathKey("x/y") == "x/y";
    assert PathKey("x//y") == "x/y";
    assert PathKey("x/") == "x/";
    assert PathKey("./y") == "./y";
    assert PathKey("/./y") == "/./y";
    assert PathKey("x/./y") == "x/./y";
  }

  /** The keys of a set of names. */
  function KeysOf(names: set<string>): set<string>
  {
    set n | n in names :: PathKey(n)
  }

  lemma KeyOfMember(names: set<string>, x: string)
    requires x in names
    ensures PathKey(x) in KeysOf(names)
  {
  }

  const Start: State := State({}, [], [], [])

  // ---------------------------------------------------------------------------------
  // Locating a needed name
  // ---------------------------------------------------------------------------------

  /** `search(dir, so)`: nothing unless `dir / so` exists, else `from_path` on it. */
  function SearchSpec(cfg: Config, dir: string, so: string): Option<Elf>
  {
    var full := Slash(dir, so);
    if full !in cfg.fs.files then None else FromPathSpec(cfg.fs, Library, full, cfg.copy)
  }

  /** `try_paths(paths, so)`: the first directory whose `search` succeeds. */
  function TryPathsSpec(cfg: Config, paths: seq<string>, so: string): Option<Elf>
    decreases |paths|
  {
    if paths == [] then None
    else
      var r := SearchSpec(cfg, paths[0], so);
      if r.Some? then r else TryPathsSpec(cfg, paths[1..], so)
  }

  /**
   * `all_paths`: the shared rpaths when the ELF has no runpath and there are any, then
   * `LD_LIBRARY_PATH`, the ELF's runpaths, and the generic search paths.
   */
  function AllPaths(cfg: Config, rpaths: seq<string>, e: Elf): seq<string>
  {
    (if |e.runpaths| == 0 && |rpaths| > 0 then rpaths else []) + cfg.ldLibraryPaths + e.runpaths + cfg.searchPaths
  }

  /** A needed path with a directory part: as it is when absolute, else next to the parent. */
  function DirectPath(parent: Elf, so: string): string
  {
    if IsAbsolute(so) then so else Slash(RemoveFilename(parent.absPath), so)
  }

  /** The lambda in `explore`: a path is followed directly, a bare name is searched for. */
  function Locate(cfg: Config, parent: Elf, paths: seq<string>, so: string): Option<Elf>
  {
    if MultiComponent(so) then
      var full := DirectPath(parent, so);
      if full in cfg.fs.files then FromPathSpec(cfg.fs, Library, full, cfg.copy) else None
    else TryPathsSpec(cfg, paths, so)
  }

  /**
   * `try_paths` is a first hit: it finds nothing exactly when every `search` fails, and
   * otherwise gives the result of the first directory whose `search` succeeds.
   */
  lemma {:induction false} TryPathsFirstHit(cfg: Config, paths: seq<string>, so: string)
    ensures var r := TryPathsSpec(cfg, paths, so);
      (r.None? <==> forall i :: 0 <= i < |paths| ==> SearchSpec(cfg, paths[i], so).None?)
      && (r.Some? ==> exists i :: 0 <= i < |paths| && SearchSpec(cfg, paths[i], so) == r
                                  && forall j :: 0 <= j < i ==> SearchSpec(cfg, paths[j], so).None?)
    decreases |paths|
  {
    if paths != [] {
      var rest := paths[1..];
      TryPathsFirstHit(cfg, rest, so);
      assert forall i :: 0 < i < |paths| ==> paths[i] == rest[i - 1];
      var r := TryPathsSpec(cfg, paths, so);
      if SearchSpec(cfg, paths[0], so).None? && r.Some? {
        var i :| 0 <= i < |rest| && SearchSpec(cfg, rest[i], so) == r
                 && forall j :: 0 <= j < i ==> SearchSpec(cfg, rest[j], so).None?;
        assert SearchSpec(cfg, paths[i + 1], so) == r;
      }
    }
  }

  /** Trying `a + b` is trying `a`, and `b` only when nothing in `a` is found. */
  lemma {:induction false} TryPathsAppend(cfg: Config, a: seq<string>, b: seq<string>, so: string)
    ensures TryPathsSpec(cfg, a + b, so)
            == (if TryPathsSpec(cfg, a, so).Some? then TryPathsSpec(cfg, a, so) else TryPathsSpec(cfg, b, so))
    decreases |a|
  {
    if a == [] {
      assert a + b == b;
    } else {
      AppendParts(a, b);
      TryPathsAppend(cfg, a[1..], b, so);
    }
  }

  /**
   * The candidate order: without a runpath, a hit in the shared rpaths wins over every
   * other directory, and a miss there falls through to `LD_LIBRARY_PATH` and the search
   * paths; with a runpath the shared rpaths play no part at all.
   */
  lemma CandidateOrder(cfg: Config, rpaths: seq<string>, e: Elf, so: string)
    ensures |e.runpaths| == 0 ==>
      TryPathsSpec(cfg, AllPaths(cfg, rpaths, e), so)
      == (if TryPathsSpec(cfg, rpaths, so).Some? then TryPathsSpec(cfg, rpaths, so)
          else TryPathsSpec(cfg, cfg.ldLibraryPaths + cfg.searchPaths, so))
    ensures |e.runpaths| > 0 ==>
      TryPathsSpec(cfg, AllPaths(cfg, rpaths, e), so)
      == TryPathsSpec(cfg, cfg.ldLibraryPaths + e.runpaths + cfg.searchPaths, so)
  {
    var rest := cfg.ldLibraryPaths + e.runpaths + cfg.searchPaths;
    if |e.runpaths| == 0 {
      assert e.runpaths == [];
      assert rest == cfg.ldLibraryPaths + cfg.searchPaths;
      if |rpaths| > 0 {
        assert AllPaths(cfg, rpaths, e) == rpaths + rest;
        TryPathsAppend(cfg, rpaths, rest, so);
      } else {
        assert AllPaths(cfg, rpaths, e) == rest;
      }
    } else {
      assert [] + cfg.ldLibraryPaths == cfg.ldLibraryPaths;
      assert AllPaths(cfg, rpaths, e) == rest;
    }
  }

  /**
   * A library found by searching for a bare name is named by its last SONAME, or by the
   * needed name itself when it has none.
   */
  lemma SearchedName(cfg: Config, dir: string, so: string)
    requires '/' !in so && SearchSpec(cfg, dir, so).Some?
    ensures var full := Slash(dir, so);
      var live := Live(cfg.fs.files[Binary(cfg.fs, full, cfg.copy)].value.dynamics);
      SearchSpec(cfg, dir, so).value.name == LastOr(Strings(live, ElfDecode.DT_SONAME), so)
  {
    var full := Slash(dir, so);
    FromPathContents(cfg.fs, Library, full, cfg.copy);
    FileNameOfSlash(dir, so);
  }

  /** A multi-component name that does not exist is not looked for anywhere else. */
  lemma DirectHasNoFallback(cfg: Config, parent: Elf, paths: seq<string>, so: string)
    requires MultiComponent(so) && DirectPath(parent, so) !in cfg.fs.files
    ensures Locate(cfg, parent, paths, so) == None
  {
  }

  /** Everything `Locate` finds is named by one of `Names`. */
  lemma LocatedKnown(cfg: Config, parent: Elf, paths: seq<string>, so: string)
    requires Locate(cfg, parent, paths, so).Some?
    ensures Locate(cfg, parent, paths, so).value.name in Names(cfg.fs)
    ensures PathKey(Locate(cfg, parent, paths, so).value.name) in KeysOf(Names(cfg.fs))
  {
    if MultiComponent(so) {
      NameKnown(cfg.fs, Library, DirectPath(parent, so), cfg.copy);
    } else {
      TriedKnown(cfg, paths, so);
    }
    KeyOfMember(Names(cfg.fs), Locate(cfg, parent, paths, so).value.name);
  }

  lemma {:induction false} TriedKnown(cfg: Config, paths: seq<string>, so: string)
    requires TryPathsSpec(cfg, paths, so).Some?
    ensures TryPathsSpec(cfg, paths, so).value.name in Names(cfg.fs)
    decreases |paths|
  {
    if SearchSpec(cfg, paths[0], so).Some? {
      NameKnown(cfg.fs, Library, Slash(paths[0], so), cfg.copy);
    } else {
      TriedKnown(cfg, paths[1..], so);
    }
  }

  // ---------------------------------------------------------------------------------
  // explore
  // ---------------------------------------------------------------------------------

  /** The paths no ELF has been visited under yet: the walk's measure. */
  function Unvisited(cfg: Config, st: State): nat
  {
    |KeysOf(Names(cfg.fs)) - st.visited|
  }

  /** The measure of a call on `e`: a top-level ELF's name need not be one of `Names`. */
  function Bound(cfg: Config, st: State, e: Elf): nat
  {
    Unvisited(cfg, st) + (if PathKey(e.name) in KeysOf(Names(cfg.fs)) then 0 else 1)
  }

  /** The state only grows: sets by inclusion, lists by extension. */
  predicate Grows(st: State, r: State)
  {
    st.visited <= r.visited && st.all <= r.all && st.rpaths <= r.rpaths && st.log <= r.log
  }

  lemma GrowsTrans(a: State, b: State, c: State)
    requires Grows(a, b) && Grows(b, c)
    ensures Grows(a, c)
  {
  }

  lemma Insert(names: set<string>, visited: set<string>, x: string)
    requires x !in visited
    ensures x in names ==> |names - (visited + {x})| < |names - visited|
    ensures x !in names ==> names - (visited + {x}) == names - visited
  {
    if x in names {
      assert names - (visited + {x}) == (names - visited) - {x};
    }
  }

  lemma Shrinks(cfg: Config, st: State, r: State)
    requires st.visited <= r.visited
    ensures Unvisited(cfg, r) <= Unvisited(cfg, st)
  {
    SubsetCard(KeysOf(Names(cfg.fs)) - r.visited, KeysOf(Names(cfg.fs)) - st.visited);
  }

  function MarkOf(cfg: Config, st: State, e: Elf): Mark
  {
    if e.name in cfg.excluded then Excluded else if PathKey(e.name) in st.visited then Cached else Fresh
  }

  /** The state once `explore` has decided to expand `e`: it is cached, kept, its rpaths appended. */
  function Entered(cfg: Config, st: State, e: Elf, depth: nat): State
  {
    State(st.visited + {PathKey(e.name)}, st.all + [e], st.rpaths + e.rpaths, st.log + [Shown(depth, e.name, Fresh)])
  }

  /**
   * `explore(elf, rpaths, depth)`: an ELF already visited, or excluded, is shown and
   * neither kept nor expanded; any other is kept once, its rpaths are appended for good,
   * and its needed names are looked up in turn.
   */
  function ExploreSpec(cfg: Config, st: State, e: Elf, depth: nat): (r: State)
    ensures Grows(st, r) && |r.log| > |st.log| && r.log[|st.log|] == Shown(depth, e.name, MarkOf(cfg, st, e))
    ensures (PathKey(e.name) in st.visited || e.name in cfg.excluded) ==>
      r.visited == st.visited && r.all == st.all && r.rpaths == st.rpaths
    ensures !(PathKey(e.name) in st.visited || e.name in cfg.excluded) ==>
      PathKey(e.name) in r.visited && |r.all| > |st.all| && r.all[|st.all|] == e && st.rpaths + e.rpaths <= r.rpaths
    decreases Bound(cfg, st, e), 1, 0
  {
    if PathKey(e.name) in st.visited || e.name in cfg.excluded then
      st.(log := st.log + [Shown(depth, e.name, MarkOf(cfg, st, e))])
    else
      var st1 := Entered(cfg, st, e, depth);
      Insert(KeysOf(Names(cfg.fs)), st.visited, PathKey(e.name));
      var r := ExploreNeeded(cfg, st1, e, AllPaths(cfg, st1.rpaths, e), 0, depth, Bound(cfg, st, e));
      GrowsTrans(st, st1, r);
      r
  }

  /**
   * The loop over the needed names from the `i`-th on: an empty one is skipped, one that
   * is located is explored one level deeper, one that is not is reported and the loop
   * goes on. `bound` is the measure of the `explore` call the loop belongs to.
   */
  function ExploreNeeded(cfg: Config, st: State, e: Elf, paths: seq<string>, i: nat, depth: nat, bound: nat): (r: State)
    requires i <= |e.needed| && Unvisited(cfg, st) < bound
    ensures Grows(st, r)
    decreases bound, 0, |e.needed| - i
  {
    if i == |e.needed| then st
    else if e.needed[i] == [] then ExploreNeeded(cfg, st, e, paths, i + 1, depth, bound)
    else
      var so := e.needed[i];
      match Locate(cfg, e, paths, so)
      case None =>
        ExploreNeeded(cfg, st.(log := st.log + [NotFound(depth, so)]), e, paths, i + 1, depth, bound)
      case Some(c) =>
        LocatedKnown(cfg, e, paths, so);
        var st' := ExploreSpec(cfg, st, c, depth + 1);
        Shrinks(cfg, st, st');
        var r := ExploreNeeded(cfg, st', e, paths, i + 1, depth, bound);
        GrowsTrans(st, st', r);
        r
  }

  /** An empty needed name is skipped: the loop goes on to the next name with nothing changed. */
  lemma EmptyNeededStep(cfg: Config, st: State, e: Elf, paths: seq<string>, i: nat, depth: nat, bound: nat)
    requires i < |e.needed| && Unvisited(cfg, st) < bound && e.needed[i] == []
    ensures ExploreNeeded(cfg, st, e, paths, i, depth, bound) == ExploreNeeded(cfg, st, e, paths, i + 1, depth, bound)
  {
  }

  /** So an ELF whose remaining needed names are all empty changes nothing more. */
  lemma {:induction false} EmptyNeededSkipped(cfg: Config, st: State, e: Elf, paths: seq<string>, i: nat, depth: nat, bound: nat)
    requires i <= |e.needed| && Unvisited(cfg, st) < bound
    requires forall k :: i <= k < |e.needed| ==> e.needed[k] == []
    ensures ExploreNeeded(cfg, st, e, paths, i, depth, bound) == st
    decreases |e.needed| - i
  {
    if i < |e.needed| {
      EmptyNeededStep(cfg, st, e, paths, i, depth, bound);
      EmptyNeededSkipped(cfg, st, e, paths, i + 1, depth, bound);
    }
  }

  /** The constructor's loop: the top-level ELFs in input order, with one shared rpaths vector. */
  function ExploreAll(cfg: Config, st: State, input: seq<Elf>): (r: State)
    ensures Grows(st, r)
    decreases |input|
  {
    if input == [] then st
    else
      var st' := ExploreSpec(cfg, st, input[0], 0);
      var r := ExploreAll(cfg, st', input[1..]);
      GrowsTrans(st, st', r);
      r
  }

  // ---------------------------------------------------------------------------------
  // Deduplication
  // ---------------------------------------------------------------------------------

  /** The keys of the names of `all`. */
  function KeysOfAll(all: seq<Elf>): set<string>
  {
    set i | 0 <= i < |all| :: PathKey(all[i].name)
  }

  /**
   * `m_visited` holds exactly the paths of the names in `m_all_binaries`, no two of which
   * name the same path (so no two share a name), and none of which is excluded.
   */
  predicate Deduplicated(cfg: Config, st: State)
  {
    st.visited == KeysOfAll(st.all)
    && (forall i, j :: 0 <= i < j < |st.all| ==> PathKey(st.all[i].name) != PathKey(st.all[j].name))
    && (forall i :: 0 <= i < |st.all| ==> st.all[i].name !in cfg.excluded)
  }

  lemma EnteredDeduplicated(cfg: Config, st: State, e: Elf, depth: nat)
    requires Deduplicated(cfg, st) && PathKey(e.name) !in st.visited && e.name !in cfg.excluded
    ensures Deduplicated(cfg, Entered(cfg, st, e, depth))
  {
    var all := st.all + [e];
    assert forall i :: 0 <= i < |st.all| ==> all[i] == st.all[i];
    assert all[|st.all|] == e;
    assert KeysOfAll(all) == KeysOfAll(st.all) + {PathKey(e.name)} by {
      forall x | x in KeysOfAll(all)
        ensures x in KeysOfAll(st.all) + {PathKey(e.name)}
      {
        var i :| 0 <= i < |all| && PathKey(all[i].name) == x;
        if i < |st.all| {
          assert PathKey(st.all[i].name) == x;
        }
      }
      forall x | x in KeysOfAll(st.all)
        ensures x in KeysOfAll(all)
      {
        var i :| 0 <= i < |st.all| && PathKey(st.all[i].name) == x;
        assert PathKey(all[i].name) == x;
      }
    }
    forall i | 0 <= i < |st.all|
      ensures PathKey(all[i].name) != PathKey(e.name)
    {
      assert PathKey(st.all[i].name) in KeysOfAll(st.all);
    }
  }

  /** `explore` keeps `m_all_binaries` free of duplicate and excluded names. */
  lemma {:induction false} ExploreDeduplicates(cfg: Config, st: State, e: Elf, depth: nat)
    requires Deduplicated(cfg, st)
    ensures Deduplicated(cfg, ExploreSpec(cfg, st, e, depth))
    decreases Bound(cfg, st, e), 1, 0
  {
    if !(PathKey(e.name) in st.visited || e.name in cfg.excluded) {
      var st1 := Entered(cfg, st, e, depth);
      Insert(KeysOf(Names(cfg.fs)), st.visited, PathKey(e.name));
      EnteredDeduplicated(cfg, st, e, depth);
      NeededDeduplicates(cfg, st1, e, AllPaths(cfg, st1.rpaths, e), 0, depth, Bound(cfg, st, e));
    }
  }

  lemma {:induction false} NeededDeduplicates(cfg: Config, st: State, e: Elf, paths: seq<string>, i: nat, depth: nat, bound: nat)
    requires i <= |e.needed| && Unvisited(cfg, st) < bound && Deduplicated(cfg, st)
    ensures Deduplicated(cfg, ExploreNeeded(cfg, st, e, paths, i, depth, bound))
    decreases bound, 0, |e.needed| - i
  {
    if i < |e.needed| {
      var so := e.needed[i];
      if so == [] {
        NeededDeduplicates(cfg, st, e, paths, i + 1, depth, bound);
      } else {
        match Locate(cfg, e, paths, so)
        case None =>
          NeededDeduplicates(cfg, st.(log := st.log + [NotFound(depth, so)]), e, paths, i + 1, depth, bound);
        case Some(c) =>
          LocatedKnown(cfg, e, paths, so);
          var st' := ExploreSpec(cfg, st, c, depth + 1);
          ExploreDeduplicates(cfg, st, c, depth + 1);
          Shrinks(cfg, st, st');
          NeededDeduplicates(cfg, st', e, paths, i + 1, depth, bound);
      }
    }
  }

  /** Over all top-level ELFs: `m_all_binaries` never holds two entries with the same name. */
  lemma {:induction false} ExploreAllDeduplicates(cfg: Config, st: State, input: seq<Elf>)
    requires Deduplicated(cfg, st)
    ensures Deduplicated(cfg, ExploreAll(cfg, st, input))
    decreases |input|
  {
    if input != [] {
      ExploreDeduplicates(cfg, st, input[0], 0);
      ExploreAllDeduplicates(cfg, ExploreSpec(cfg, st, input[0], 0), input[1..]);
    }
  }

  /**
   * After the constructor every top-level ELF that is not excluded has been visited, no
   * name is kept twice, and no excluded name is kept.
   */
  lemma {:induction false} TopLevelVisited(cfg: Config, st: State, input: seq<Elf>)
    ensures var r := ExploreAll(cfg, st, input);
      forall k :: 0 <= k < |input| && input[k].name !in cfg.excluded ==> PathKey(input[k].name) in r.visited
    decreases |input|
  {
    if input != [] {
      var st' := ExploreSpec(cfg, st, input[0], 0);
      TopLevelVisited(cfg, st', input[1..]);
      var r := ExploreAll(cfg, st', input[1..]);
      assert forall k :: 0 < k < |input| ==> input[k] == input[1..][k - 1];
      assert input[0].name !in cfg.excluded ==> PathKey(input[0].name) in st'.visited;
    }
  }

  /** The start state is deduplicated, so the whole walk is. */
  lemma WalkDeduplicates(cfg: Config, input: seq<Elf>)
    ensures Deduplicated(cfg, ExploreAll(cfg, Start, input))
  {
    assert KeysOfAll([]) == {};
    ExploreAllDeduplicates(cfg, Start, input);
  }

  // ---------------------------------------------------------------------------------
  // The class
  // ---------------------------------------------------------------------------------

  class Deps {
    const cfg: Config
    /** `m_visited`, as the keys of the paths it holds. */
    var visited: set<string>
    /** `m_all_binaries`. */
    var allBinaries: seq<Elf>
    /** The constructor's `rpaths` vector, which every `explore` call appends to by reference. */
    var rpaths: seq<string>
    /** What has been printed. */
    var log: seq<Event>

    function Current(): State
      reads this
    {
      State(visited, allBinaries, rpaths, log)
    }

    /** `deps(input, search_paths, ld_library_paths)`: explore each top-level ELF in turn. */
    constructor (cfg: Config, input: seq<Elf>)
      ensures this.cfg == cfg && Current() == ExploreAll(cfg, Start, input)
    {
      this.cfg := cfg;
      visited, allBinaries, rpaths, log := {}, [], [], [];
      new;
      var k := 0;
      while k < |input|
        invariant 0 <= k <= |input| && this.cfg == cfg
        invariant ExploreAll(cfg, Current(), input[k..]) == ExploreAll(cfg, Start, input)
      {
        AppendParts(input[k..], []);
        assert input[k..] + [] == input[k..] && input[k..][1..] == input[k + 1..];
        Explore(input[k], 0);
        k := k + 1;
      }
    }

    /** `explore(elf, rpaths, depth)`. */
    method Explore(e: Elf, depth: nat)
      modifies this
      ensures Current() == ExploreSpec(cfg, old(Current()), e, depth)
      decreases Bound(cfg, Current(), e), 1
    {
      ghost var st := Current();
      var cached := PathKey(e.name) in visited;
      var excluded := e.name in cfg.excluded;
      log := log + [Shown(depth, e.name, if excluded then Excluded else if cached then Cached else Fresh)];
      if cached || excluded {
        return;
      }
      visited := visited + {PathKey(e.name)};
      allBinaries := allBinaries + [e];
      rpaths := rpaths + e.rpaths;
      var allPaths: seq<string> := [];
      if |e.runpaths| == 0 && |rpaths| > 0 {
        allPaths := allPaths + rpaths;
      }
      allPaths := allPaths + cfg.ldLibraryPaths;
      allPaths := allPaths + e.runpaths;
      allPaths := allPaths + cfg.searchPaths;
      assert allPaths == AllPaths(cfg, rpaths, e);
      Insert(KeysOf(Names(cfg.fs)), st.visited, PathKey(e.name));
      ExploreNeededLoop(e, allPaths, depth, Bound(cfg, st, e));
    }

    /** The `for (auto const &so : elf.needed)` loop of `explore`. */
    method ExploreNeededLoop(e: Elf, allPaths: seq<string>, depth: nat, ghost bound: nat)
      requires Unvisited(cfg, Current()) < bound
      modifies this
      ensures Current() == ExploreNeeded(cfg, old(Current()), e, allPaths, 0, depth, bound)
      decreases bound, 0, 1
    {
      ghost var st := Current();
      var i := 0;
      while i < |e.needed|
        invariant 0 <= i <= |e.needed| && Unvisited(cfg, Current()) < bound
        invariant ExploreNeeded(cfg, Current(), e, allPaths, i, depth, bound) == ExploreNeeded(cfg, st, e, allPaths, 0, depth, bound)
      {
        VisitNeeded(e, allPaths, i, depth, bound);
        i := i + 1;
      }
    }

    /** One iteration of that loop: skip an empty name, explore what is located, report the rest. */
    method VisitNeeded(e: Elf, allPaths: seq<string>, i: nat, depth: nat, ghost bound: nat)
      requires i < |e.needed| && Unvisited(cfg, Current()) < bound
      modifies this
      ensures Unvisited(cfg, Current()) < bound
      ensures ExploreNeeded(cfg, Current(), e, allPaths, i + 1, depth, bound)
              == ExploreNeeded(cfg, old(Current()), e, allPaths, i, depth, bound)
      decreases bound, 0, 0
    {
      var so := e.needed[i];
      if so != [] {
        var result := LocateNeeded(e, allPaths, so);
        if result.Some? {
          LocatedKnown(cfg, e, allPaths, so);
          ghost var before := Current();
          Explore(result.value, depth + 1);
          Shrinks(cfg, before, Current());
        } else {
          log := log + [NotFound(depth, so)];
        }
      }
    }

    /** The lambda that locates one needed name. */
    method LocateNeeded(parent: Elf, allPaths: seq<string>, so: string) returns (r: Option<Elf>)
      ensures r == Locate(cfg, parent, allPaths, so)
    {
      if '/' in so && !AllSlashes(so) {
        var full := so;
        if !IsAbsolute(so) {
          var cwd := RemoveFilename(parent.absPath);
          full := Slash(cwd, so);
        }
        if full in cfg.fs.files {
          r := FromPath(cfg.fs, Library, full, cfg.copy);
        } else {
          r := None;
        }
      } else {
        r := TryPaths(allPaths, so);
      }
    }

    /** `try_paths(paths, so)`. */
    method TryPaths(paths: seq<string>, so: string) returns (r: Option<Elf>)
      ensures r == TryPathsSpec(cfg, paths, so)
    {
      var k := 0;
      while k < |paths|
        invariant 0 <= k <= |paths|
        invariant TryPathsSpec(cfg, paths[k..], so) == TryPathsSpec(cfg, paths, so)
      {
        AppendParts(paths[k..], []);
        assert paths[k..] + [] == paths[k..] && paths[k..][1..] == paths[k + 1..];
        r := Search(paths[k], so);
        if r.Some? {
          return;
        }
        k := k + 1;
      }
      return None;
    }

    /** `search(dir, so)`. */
    method Search(dir: string, so: string) returns (r: Option<Elf>)
      ensures r == SearchSpec(cfg, dir, so)
    {
      var full := Slash(dir, so);
      if full !in cfg.fs.files {
        return None;
      }
      r := FromPath(cfg.fs, Library, full, cfg.copy);
    }
  }
}
