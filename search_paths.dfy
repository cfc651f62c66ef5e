/**
 * Colon-separated search-path lists: `split_paths` of the C++ generations, the directory
 * walk of libtree.c's `check_search_paths`, and the `;` to `:` rewrite of
 * `LD_LIBRARY_PATH` in `parse_ld_library_path`.
 */
module SearchPaths {
  import opened Wrappers
  import opened Collections

  /** The index of the first `:` in `s`, or `|s|` when there is none. */
  function ColonIndex(s: string): (k: nat)
    ensures k <= |s|
    ensures k < |s| ==> s[k] == ':'
  {
    if s == [] || s[0] == ':' then 0 else 1 + ColonIndex(s[1..])
  }

  /** No `:` comes before the first one. */
  lemma {:induction false} ColonFreePrefix(s: string)
    ensures ':' !in s[..ColonIndex(s)]
  {
    if s != [] && s[0] != ':' {
      ColonFreePrefix(s[1..]);
      assert s[..ColonIndex(s)] == [s[0]] + s[1..][..ColonIndex(s[1..])];
    }
  }

  /** The non-empty `:`-separated segments of `s`, in order. */
  function ColonSegments(s: string): seq<string>
    decreases |s|
  {
    if s == [] then []
    else
      var k := ColonIndex(s);
      (if k == 0 then [] else [s[..k]]) + (if k == |s| then [] else ColonSegments(s[k + 1..]))
  }

  /** No segment is empty and none holds a `:`. */
  lemma {:induction false} SegmentsNonEmpty(s: string)
    ensures forall i :: 0 <= i < |ColonSegments(s)| ==> ColonSegments(s)[i] != [] && ':' !in ColonSegments(s)[i]
    decreases |s|
  {
    if s != [] {
      var k := ColonIndex(s);
      if k < |s| {
        SegmentsNonEmpty(s[k + 1..]);
      }
      ColonFreePrefix(s);
    }
  }

  /** A segment followed by `:` and the rest. */
  lemma ColonSegmentsCons(x: string, y: string)
    requires ':' !in x
    ensures ColonSegments(x + [':'] + y) == (if x == [] then [] else [x]) + ColonSegments(y)
  {
    var s := x + [':'] + y;
    assert forall i :: 0 <= i < |x| ==> s[i] == x[i];
    ColonIndexIs(s, |x|);
    assert s[..|x|] == x;
    assert s[|x| + 1..] == y;
  }

  /** A string without `:` is one segment, or none when it is empty. */
  lemma ColonSegmentsPlain(x: string)
    requires ':' !in x
    ensures ColonSegments(x) == (if x == [] then [] else [x])
  {
    if x != [] {
      ColonIndexIs(x, |x|);
      assert x[..|x|] == x;
    }
  }

  lemma {:induction false} ColonIndexIs(s: string, k: nat)
    requires k <= |s| && (forall i :: 0 <= i < k ==> s[i] != ':') && (k < |s| ==> s[k] == ':')
    ensures ColonIndex(s) == k
  {
    if k > 0 {
      ColonIndexIs(s[1..], k - 1);
    }
  }

  function Join(xs: seq<string>, sep: char): string
  {
    if xs == [] then []
    else if |xs| == 1 then xs[0]
    else xs[0] + [sep] + Join(xs[1..], sep)
  }

  /** Splitting a `:`-joined list of non-empty, colon-free segments gives the list back. */
  lemma {:induction false} SplitJoinRoundTrip(xs: seq<string>)
    requires forall i :: 0 <= i < |xs| ==> xs[i] != [] && ':' !in xs[i]
    ensures ColonSegments(Join(xs, ':')) == xs
  {
    if |xs| == 1 {
      ColonSegmentsPlain(xs[0]);
    } else if |xs| > 1 {
      SplitJoinRoundTrip(xs[1..]);
      ColonSegmentsCons(xs[0], Join(xs[1..], ':'));
    }
  }

  function Concat(xs: seq<string>): string
  {
    if xs == [] then [] else xs[0] + Concat(xs[1..])
  }

  /** The characters of `s` other than `:`, in order. */
  function WithoutColons(s: string): string
  {
    if s == [] then [] else (if s[0] == ':' then [] else [s[0]]) + WithoutColons(s[1..])
  }

  lemma {:induction false} WithoutColonsAppend(a: string, b: string)
    ensures WithoutColons(a + b) == WithoutColons(a) + WithoutColons(b)
  {
    if a != [] {
      assert (a + b)[1..] == a[1..] + b;
      WithoutColonsAppend(a[1..], b);
    } else {
      assert a + b == b;
    }
  }

  lemma {:induction false} WithoutColonsPlain(x: string)
    requires ':' !in x
    ensures WithoutColons(x) == x
  {
    if x != [] {
      assert x[0] in x;
      assert forall c :: c in x[1..] ==> c in x;
      WithoutColonsPlain(x[1..]);
    }
  }

  lemma ConcatAppend(a: seq<string>, b: seq<string>)
    ensures Concat(a + b) == Concat(a) + Concat(b)
  {
    if a != [] {
      assert (a + b)[1..] == a[1..] + b;
      ConcatAppend(a[1..], b);
    } else {
      assert a + b == b;
    }
  }

  /** The segments hold every character of `s` except the separators, in order. */
  lemma {:induction false} SegmentsKeepText(s: string)
    ensures Concat(ColonSegments(s)) == WithoutColons(s)
    decreases |s|
  {
    if s != [] {
      var k := ColonIndex(s);
      var x := s[..k];
      ColonFreePrefix(s);
      WithoutColonsPlain(x);
      if k == |s| {
        assert x == s;
        ColonSegmentsPlain(s);
      } else {
        var y := s[k + 1..];
        assert s == x + [':'] + y;
        ColonSegmentsCons(x, y);
        SegmentsKeepText(y);
        ConcatAppend(if x == [] then [] else [x], ColonSegments(y));
        WithoutColonsAppend(x + [':'], y);
        WithoutColonsAppend(x, [':']);
        assert WithoutColons([':']) == [];
      }
    }
  }

  /** The first `:` at or after `p`, or `|s|`. */
  function NextColon(s: string, p: nat): (k: nat)
    requires p <= |s|
    ensures p <= k <= |s| && (k < |s| ==> s[k] == ':')
    decreases |s| - p
  {
    if p == |s| || s[p] == ':' then p else NextColon(s, p + 1)
  }

  /** The segments of `s[p..]`, walked by index the way the C loops walk a buffer. */
  function SegmentsFrom(s: string, p: nat): seq<string>
    requires p <= |s|
    decreases |s| - p
  {
    if p == |s| then []
    else
      var k := NextColon(s, p);
      (if k == p then [] else [s[p..k]]) + (if k == |s| then [] else SegmentsFrom(s, k + 1))
  }

  /** No `:` lies between `p` and the first `:` found from `p`. */
  lemma {:induction false} NextColonPast(s: string, p: nat, i: nat)
    requires p <= i < |s| && NextColon(s, p) >= i
    ensures s[i] == ':' ==> NextColon(s, p) == i
    ensures s[i] != ':' ==> NextColon(s, p) > i
    decreases |s| - p
  {
    if p < i {
      NextColonPast(s, p + 1, i);
    }
  }

  lemma {:induction false} NextColonIs(s: string, p: nat)
    requires p <= |s|
    ensures NextColon(s, p) == p + ColonIndex(s[p..])
    decreases |s| - p
  {
    if p < |s| && s[p] != ':' {
      assert s[p..][1..] == s[p + 1..];
      NextColonIs(s, p + 1);
    }
  }

  /** The index-based walk finds the same segments as `ColonSegments`. */
  lemma {:induction false} SegmentsFromIs(s: string, p: nat)
    requires p <= |s|
    ensures SegmentsFrom(s, p) == ColonSegments(s[p..])
    decreases |s| - p, 1
  {
    if p < |s| && NextColon(s, p) < |s| {
      SegmentsFromIsAt(s, p, NextColon(s, p));
    } else if p < |s| {
      SegmentsFromLast(s, p);
    } else {
      assert s[p..] == [];
    }
  }

  lemma SegmentsFromStart(s: string)
    ensures SegmentsFrom(s, 0) == ColonSegments(s)
  {
    SegmentsFromIs(s, 0);
    assert s[0..] == s;
  }

  lemma {:induction false} SegmentsFromIsAt(s: string, p: nat, k: nat)
    requires p <= k < |s| && NextColon(s, p) == k
    ensures SegmentsFrom(s, p) == ColonSegments(s[p..])
    decreases |s| - p, 0
  {
    SegmentsFromIs(s, k + 1);
    SegmentsFromStep(s, p, k);
  }

  lemma SegmentsFromStep(s: string, p: nat, k: nat)
    requires p <= k < |s| && NextColon(s, p) == k
    requires SegmentsFrom(s, k + 1) == ColonSegments(s[k + 1..])
    ensures SegmentsFrom(s, p) == ColonSegments(s[p..])
  {
    NextColonIs(s, p);
    var t := s[p..];
    assert ColonIndex(t) == k - p;
    assert t[..k - p] == s[p..k];
    assert t[k - p + 1..] == s[k + 1..];
    SegmentEndsAt(s, p, k);
    ColonSegmentsAt(t, k - p);
    var head := if k > p then [s[p..k]] else [];
    assert SegmentsFrom(s, p) == head + ColonSegments(s[k + 1..]);
    assert ColonSegments(t) == head + ColonSegments(t[k - p + 1..]);
  }

  lemma SegmentsFromLast(s: string, p: nat)
    requires p < |s| && NextColon(s, p) == |s|
    ensures SegmentsFrom(s, p) == ColonSegments(s[p..])
  {
    NextColonIs(s, p);
    SegmentsFromWhole(s, p);
    ColonSegmentsWhole(s[p..]);
  }

  lemma SegmentsFromWhole(s: string, p: nat)
    requires p < |s| && NextColon(s, p) == |s|
    ensures SegmentsFrom(s, p) == [s[p..]]
  {
    assert s[p..|s|] == s[p..];
  }

  lemma ColonSegmentsWhole(t: string)
    requires t != [] && ColonIndex(t) == |t|
    ensures ColonSegments(t) == [t]
  {
    assert t[..|t|] == t;
  }

  lemma ColonSegmentsAt(t: string, k: nat)
    requires k < |t| && ColonIndex(t) == k
    ensures ColonSegments(t) == (if k > 0 then [t[..k]] else []) + ColonSegments(t[k + 1..])
  {
  }

  /** A segment from `p` that ends at the `:` at `k`. */
  lemma SegmentEndsAt(s: string, p: nat, k: nat)
    requires p <= k < |s| && NextColon(s, p) == k
    ensures SegmentsFrom(s, p) == (if k > p then [s[p..k]] else []) + SegmentsFrom(s, k + 1)
  {
  }

  /** A `:` at `p` starts no segment. */
  lemma SegmentsFromColon(s: string, p: nat)
    requires p < |s| && s[p] == ':'
    ensures SegmentsFrom(s, p) == SegmentsFrom(s, p + 1)
  {
  }

  /** `split_paths`: the `getline(buffer, path, ':')` loop, keeping non-empty segments. */
  method SplitPaths(raw: string) returns (paths: seq<string>)
    ensures paths == ColonSegments(raw)
  {
    paths := [];
    var start: nat := 0;
    var i: nat := 0;
    while i < |raw|
      invariant SplitInv(raw, start, i, paths)
    {
      start, paths := SplitStep(raw, start, i, paths);
      i := i + 1;
    }
    SplitEnd(raw, start, paths);
    if start < |raw| {
      paths := paths + [raw[start..]];
    }
  }

  /** At the end of the input the current segment, if any, is the last one. */
  lemma SplitEnd(raw: string, start: nat, paths: seq<string>)
    requires SplitInv(raw, start, |raw|, paths)
    ensures ColonSegments(raw) == paths + if start < |raw| then [raw[start..]] else []
  {
    SegmentsFromStart(raw);
    if start < |raw| {
      SegmentsFromWhole(raw, start);
    }
  }

  /** The segments found so far, and a current segment from `start` to `i` without `:`. */
  predicate SplitInv(raw: string, start: nat, i: nat, paths: seq<string>)
  {
    start <= i <= |raw| && SplitSoFar(raw, start, i, paths)
  }

  predicate SplitSoFar(raw: string, start: nat, i: nat, paths: seq<string>)
    requires start <= |raw|
  {
    NextColon(raw, start) >= i && SegmentsFrom(raw, 0) == paths + SegmentsFrom(raw, start)
  }

  /** One character of the `getline` loop: a `:` ends the current segment. */
  method SplitStep(raw: string, start: nat, i: nat, paths: seq<string>) returns (start': nat, paths': seq<string>)
    requires i < |raw| && SplitInv(raw, start, i, paths)
    ensures SplitInv(raw, start', i + 1, paths')
  {
    if raw[i] == ':' {
      paths' := paths + if i > start then [raw[start..i]] else [];
      start' := i + 1;
      SplitAtColon(raw, start, i, paths);
    } else {
      SplitPastChar(raw, start, i, paths);
      start', paths' := start, paths;
    }
  }

  lemma SplitAtColon(raw: string, start: nat, i: nat, paths: seq<string>)
    requires i < |raw| && raw[i] == ':' && SplitInv(raw, start, i, paths)
    ensures SplitInv(raw, i + 1, i + 1, paths + if i > start then [raw[start..i]] else [])
  {
    NextColonPast(raw, start, i);
    var seg := if i > start then [raw[start..i]] else [];
    SegmentEndsAt(raw, start, i);
    Associative(paths, seg, SegmentsFrom(raw, i + 1));
  }

  lemma SplitPastChar(raw: string, start: nat, i: nat, paths: seq<string>)
    requires i < |raw| && raw[i] != ':' && SplitInv(raw, start, i, paths)
    ensures SplitInv(raw, start, i + 1, paths)
  {
    NextColonPast(raw, start, i);
  }

  /** libtree.c appends a `/` to a directory that does not end in one. */
  function AddSlash(dir: string): (d: string)
    ensures d != [] && d[|d| - 1] == '/'
    ensures d == dir || d == dir + "/"
  {
    if dir != [] && dir[|dir| - 1] == '/' then dir else dir + "/"
  }

  /** The directories `check_search_paths` tries, in order. */
  function SearchDirs(s: string): seq<string>
  {
    AddSlashes(ColonSegments(s))
  }

  function AddSlashes(segs: seq<string>): (r: seq<string>)
    ensures |r| == |segs|
    ensures forall i :: 0 <= i < |segs| ==> r[i] == AddSlash(segs[i])
  {
    if segs == [] then [] else [AddSlash(segs[0])] + AddSlashes(segs[1..])
  }

  /**
   * One turn of the walk in `check_search_paths`: skip a run of `:`, copy the segment up
   * to the next `:` or the end, and append `/` when needed. `found` is false when only
   * colons were left.
   */
  method NextDir(s: string, pos: nat) returns (found: bool, dir: string, next: nat)
    requires pos <= |s|
    ensures pos <= next <= |s|
    ensures !found ==> next == |s| && SegmentsFrom(s, pos) == []
    ensures found ==> pos < next && |SegmentsFrom(s, pos)| > 0
    ensures found ==> dir == AddSlash(SegmentsFrom(s, pos)[0]) && SegmentsFrom(s, next) == SegmentsFrom(s, pos)[1..]
  {
    var p := SkipColons(s, pos);
    if p == |s| {
      return false, [], p;
    }
    var segment;
    segment, next := CopySegment(s, p);
    dir := AddSlash(segment);
    found := true;
  }

  /** The `for (; *rpaths == ':'; ++rpaths)` loop. */
  method SkipColons(s: string, pos: nat) returns (p: nat)
    requires pos <= |s|
    ensures pos <= p <= |s| && (p < |s| ==> s[p] != ':')
    ensures SegmentsFrom(s, pos) == SegmentsFrom(s, p)
  {
    p := pos;
    while p < |s| && s[p] == ':'
      invariant pos <= p <= |s|
      invariant SegmentsFrom(s, pos) == SegmentsFrom(s, p)
    {
      SegmentsFromColon(s, p);
      p := p + 1;
    }
  }

  /** The `while (*rpaths != '\0' && *rpaths != ':')` copy of one segment. */
  method CopySegment(s: string, start: nat) returns (segment: string, next: nat)
    requires start < |s| && s[start] != ':'
    ensures start < next <= |s|
    ensures SegmentsFrom(s, start) == [segment] + SegmentsFrom(s, next)
  {
    var p := start;
    while p < |s| && s[p] != ':'
      invariant start <= p <= |s| && NextColon(s, start) >= p
    {
      NextColonPast(s, start, p);
      p := p + 1;
    }
    if p < |s| {
      NextColonPast(s, start, p);
      SegmentsFromColon(s, p);
    }
    segment := s[start..p];
    next := p;
  }

  /** `parse_ld_library_path` turns every `;` into `:`. */
  function SemicolonsToColons(s: string): (r: string)
    ensures |r| == |s| && ';' !in r
    ensures forall i :: 0 <= i < |s| ==> r[i] == (if s[i] == ';' then ':' else s[i])
  {
    seq(|s|, i requires 0 <= i < |s| => if s[i] == ';' then ':' else s[i])
  }

  /** `strrchr(s, '/')` on the first `j` characters. */
  function LastSlashBelow(s: string, j: nat): (r: Option<nat>)
    requires j <= |s|
    ensures r.Some? ==> r.value < j && s[r.value] == '/'
                        && forall k :: r.value < k < j ==> s[k] != '/'
    ensures r.None? ==> forall k :: 0 <= k < j ==> s[k] != '/'
  {
    if j == 0 then None else if s[j - 1] == '/' then Some(j - 1) else LastSlashBelow(s, j - 1)
  }
}
