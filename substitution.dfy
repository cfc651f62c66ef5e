/**
 * Dynamic string tokens in search paths (System V gABI, chapter 5, "Substitution
 * Sequences"): `$ORIGIN`, `$LIB` and `$PLATFORM`, each also written with braces.
 * libtree.c expands them in one left-to-right scan (`interpolate_variables`); the C++
 * generations run three whole-string replacements one after the other
 * (`apply_substitutions`). Both are modelled here, with the condition under which
 * they agree.
 */
module Substitution {

  predicate StartsWith(s: string, w: string)
  {
    |w| <= |s| && s[..|w|] == w
  }

  datatype Variable = Origin | Lib | Platform

  /** A token recognised right after a `$`, and the number of characters it spans. */
  datatype Token = NoToken | Token(v: Variable, len: nat)

  /** The prefix tests `interpolate_variables` makes after a `$`, in its order. */
  function Recognize(t: string): (r: Token)
    ensures r.Token? ==> 0 < r.len <= |t|
  {
    if StartsWith(t, "{ORIGIN}") then Token(Origin, 8)
    else if StartsWith(t, "ORIGIN") then Token(Origin, 6)
    else if StartsWith(t, "{LIB}") then Token(Lib, 5)
    else if StartsWith(t, "LIB") then Token(Lib, 3)
    else if StartsWith(t, "{PLATFORM}") then Token(Platform, 10)
    else if StartsWith(t, "PLATFORM") then Token(Platform, 8)
    else NoToken
  }

  /** A recognised token spans the variable's name, with or without braces. */
  lemma RecognizedWord(t: string)
    requires Recognize(t).Token?
    ensures var r := Recognize(t);
            && (r.v == Origin ==> t[..r.len] == "ORIGIN" || t[..r.len] == "{ORIGIN}")
            && (r.v == Lib ==> t[..r.len] == "LIB" || t[..r.len] == "{LIB}")
            && (r.v == Platform ==> t[..r.len] == "PLATFORM" || t[..r.len] == "{PLATFORM}")
  {
  }

  function ValueOf(v: Variable, origin: string, lib: string, platform: string): string
  {
    match v
    case Origin => origin
    case Lib => lib
    case Platform => platform
  }

  /** A `$` at `i` that starts a token. */
  predicate TokenAt(s: string, i: nat)
    requires i < |s|
  {
    s[i] == '$' && Recognize(s[i + 1..]).Token?
  }

  predicate HasToken(s: string)
  {
    exists i :: 0 <= i < |s| && TokenAt(s, i)
  }

  /** Some token starts before position `p`. */
  predicate TokenBefore(s: string, p: nat)
    requires p <= |s|
  {
    p > 0 && (TokenBefore(s, p - 1) || TokenAt(s, p - 1))
  }

  lemma {:induction false} TokenBeforeEnd(s: string, p: nat)
    requires p <= |s|
    ensures TokenBefore(s, p) <==> exists i :: 0 <= i < p && TokenAt(s, i)
  {
    if p > 0 {
      TokenBeforeEnd(s, p - 1);
    }
  }

  /**
   * The one-pass expansion: each token is replaced by its value, every other
   * character, including a `$` that starts no token, is kept. A value is never
   * scanned again.
   */
  function Expand(s: string, origin: string, lib: string, platform: string): string
  {
    ExpandFrom(s, 0, origin, lib, platform)
  }

  function ExpandFrom(s: string, p: nat, origin: string, lib: string, platform: string): string
    decreases |s| - p
  {
    if p >= |s| then []
    else if s[p] != '$' then [s[p]] + ExpandFrom(s, p + 1, origin, lib, platform)
    else match Recognize(s[p + 1..])
      case NoToken => "$" + ExpandFrom(s, p + 1, origin, lib, platform)
      case Token(v, n) => ValueOf(v, origin, lib, platform) + ExpandFrom(s, p + 1 + n, origin, lib, platform)
  }

  /** Text without tokens is expanded to itself. */
  lemma {:induction false} ExpandWithoutToken(s: string, p: nat, origin: string, lib: string, platform: string)
    requires p <= |s|
    requires forall i :: p <= i < |s| ==> !TokenAt(s, i)
    ensures ExpandFrom(s, p, origin, lib, platform) == s[p..]
    decreases |s| - p
  {
    if p < |s| {
      assert !TokenAt(s, p);
      ExpandWithoutToken(s, p + 1, origin, lib, platform);
      assert s[p..] == [s[p]] + s[p + 1..];
    }
  }

  /** `ExpandFrom` is the expansion of a suffix. */
  lemma {:induction false} ExpandFromSuffix(s: string, p: nat, origin: string, lib: string, platform: string)
    requires p <= |s|
    ensures ExpandFrom(s, p, origin, lib, platform) == Expand(s[p..], origin, lib, platform)
    decreases |s| - p
  {
    if p == 0 {
      assert s[0..] == s;
    } else if p < |s| {
      var t := s[p..];
      assert t[1..] == s[p + 1..];
      ExpandFromSuffix(s, p + 1, origin, lib, platform);
      ExpandFromSuffix(t, 1, origin, lib, platform);
      var r := Recognize(s[p + 1..]);
      if s[p] == '$' && r.Token? {
        assert t[1 + r.len..] == s[p + 1 + r.len..];
        ExpandFromSuffix(s, p + 1 + r.len, origin, lib, platform);
        ExpandFromSuffix(t, 1 + r.len, origin, lib, platform);
      }
    }
  }

  /**
   * `interpolate_variables(dst, src, ORIGIN, LIB, PLATFORM)`: `dst` receives the expanded
   * string and its NUL, and the count of bytes written is returned, when `src` holds a
   * token; otherwise nothing is written and 0 is returned.
   */
  method Interpolate(src: string, origin: string, lib: string, platform: string) returns (dst: string, written: nat)
    ensures written == 0 <==> !HasToken(src)
    ensures written == 0 ==> dst == []
    ensures written > 0 ==> dst == Expand(src, origin, lib, platform) + ['\0'] && written == |dst|
  {
    dst := [];
    var copied: nat := 0;
    var p: nat := 0;
    while p < |src|
      invariant ScanInv(src, origin, lib, platform, copied, p, dst)
      decreases |src| - p
    {
      copied, p, dst := ScanStep(src, origin, lib, platform, copied, p, dst);
    }
    ScanDone(src, origin, lib, platform, copied, dst);
    if copied == 0 {
      written := 0;
    } else {
      dst := dst + src[copied..] + ['\0'];
      written := |dst|;
    }
  }

  /** One turn of the scan: pass a character, or replace the token at `p`. */
  method ScanStep(src: string, origin: string, lib: string, platform: string, copied: nat, p: nat, dst: string)
    returns (copied': nat, p': nat, dst': string)
    requires p < |src| && ScanInv(src, origin, lib, platform, copied, p, dst)
    ensures p < p' && ScanInv(src, origin, lib, platform, copied', p', dst')
  {
    var tok := if src[p] == '$' then Recognize(src[p + 1..]) else NoToken;
    if tok.NoToken? {
      KeepCharacter(src, copied, p, dst, origin, lib, platform);
      copied', p', dst' := copied, p + 1, dst;
    } else {
      ReplaceToken(src, copied, p, dst, origin, lib, platform);
      p' := p + 1 + tok.len;
      copied', dst' := p', dst + src[copied..p] + ValueOf(tok.v, origin, lib, platform);
    }
  }

  /**
   * The scan state: `dst` holds the expansion of `src[..copied]`, `src[copied..p]` is
   * waiting to be copied, and `copied` moves only when a token was replaced.
   */
  predicate ScanInv(src: string, origin: string, lib: string, platform: string, copied: nat, p: nat, dst: string)
  {
    copied <= p <= |src|
    && Expand(src, origin, lib, platform) == dst + src[copied..p] + ExpandFrom(src, p, origin, lib, platform)
    && (copied == 0 <==> !TokenBefore(src, p))
    && (copied == 0 ==> dst == [])
  }

  lemma ScanDone(src: string, origin: string, lib: string, platform: string, copied: nat, dst: string)
    requires ScanInv(src, origin, lib, platform, copied, |src|, dst)
    ensures copied == 0 <==> !HasToken(src)
    ensures copied == 0 ==> dst == []
    ensures Expand(src, origin, lib, platform) == dst + src[copied..]
  {
    TokenBeforeEnd(src, |src|);
    assert src[|src|..] == [];
  }

  /** The scan passes a character that does not start a token. */
  lemma KeepCharacter(src: string, copied: nat, p: nat, dst: string, origin: string, lib: string, platform: string)
    requires p < |src| && ScanInv(src, origin, lib, platform, copied, p, dst)
    requires src[p] != '$' || Recognize(src[p + 1..]).NoToken?
    ensures ScanInv(src, origin, lib, platform, copied, p + 1, dst)
  {
    assert src[copied..p + 1] == src[copied..p] + [src[p]];
    Regroup(dst, src[copied..p], [src[p]], ExpandFrom(src, p + 1, origin, lib, platform));
    assert !TokenAt(src, p);
  }

  /** The scan replaces the token starting at `p`. */
  lemma ReplaceToken(src: string, copied: nat, p: nat, dst: string, origin: string, lib: string, platform: string)
    requires p < |src| && ScanInv(src, origin, lib, platform, copied, p, dst)
    requires src[p] == '$' && Recognize(src[p + 1..]).Token?
    ensures var t := Recognize(src[p + 1..]);
            var q := p + 1 + t.len;
            ScanInv(src, origin, lib, platform, q, q, dst + src[copied..p] + ValueOf(t.v, origin, lib, platform))
  {
    var t := Recognize(src[p + 1..]);
    var q := p + 1 + t.len;
    assert TokenAt(src, p);
    TokenBeforeMonotone(src, p + 1, q);
    assert src[q..q] == [];
  }

  lemma Regroup(a: string, b: string, c: string, d: string)
    ensures a + b + (c + d) == a + (b + c) + d
  {
  }

  lemma {:induction false} TokenBeforeMonotone(s: string, p: nat, q: nat)
    requires p <= q <= |s|
    ensures TokenBefore(s, p) ==> TokenBefore(s, q)
    decreases q - p
  {
    if p < q {
      TokenBeforeMonotone(s, p, q - 1);
    }
  }

  /**
   * One `std::regex_replace` of `\$(NAME|\{NAME\})` by `value`: matches are found left to
   * right, do not overlap, and the replaced text is not searched again.
   */
  function ReplaceVar(s: string, name: string, value: string): string
    decreases |s|
  {
    if s == [] then []
    else if s[0] == '$' && StartsWith(s[1..], name) then value + ReplaceVar(s[1 + |name|..], name, value)
    else if s[0] == '$' && StartsWith(s[1..], "{" + name + "}") then value + ReplaceVar(s[3 + |name|..], name, value)
    else [s[0]] + ReplaceVar(s[1..], name, value)
  }

  /** `apply_substitutions(rpath, cwd)`: the ORIGIN pass, then LIB, then PLATFORM. */
  function ApplySubstitutions(s: string, cwd: string): string
  {
    ReplaceVar(ReplaceVar(ReplaceVar(s, "ORIGIN", cwd), "LIB", "lib64"), "PLATFORM", "x86_64")
  }

  /** A replacement pass leaves text without `$` alone, and resumes right after it. */
  lemma {:induction false} ReplaceSkipsPlainText(v: string, z: string, name: string, value: string)
    requires '$' !in v
    ensures ReplaceVar(v + z, name, value) == v + ReplaceVar(z, name, value)
    decreases |v|
  {
    if v != [] {
      assert v[0] in v;
      assert (v + z)[0] == v[0];
      assert (v + z)[1..] == v[1..] + z;
      ReplaceSkipsPlainText(v[1..], z, name, value);
      assert ReplaceVar(v + z, name, value) == [v[0]] + ReplaceVar(v[1..] + z, name, value);
      assert v == [v[0]] + v[1..];
    } else {
      assert v + z == z;
    }
  }

  /** The characters of token names after the `$`. */
  predicate NameChar(c: char)
  {
    'A' <= c <= 'Z' || c == '{' || c == '}'
  }

  /**
   * A value that is not empty, has no `$` and does not start with a name character
   * cannot take part in a later pass's match.
   */
  predicate Inert(value: string)
  {
    value != [] && '$' !in value && !NameChar(value[0])
  }

  /** A pass with an inert value neither creates nor destroys a leading run of name characters. */
  lemma {:induction false} ReplaceKeepsNamePrefix(x: string, w: string, name: string, value: string)
    requires forall i :: 0 <= i < |w| ==> NameChar(w[i])
    requires Inert(value)
    ensures StartsWith(ReplaceVar(x, name, value), w) <==> StartsWith(x, w)
    decreases |w|
  {
    if w != [] && x != [] {
      var r := ReplaceVar(x, name, value);
      if x[0] == '$' {
        assert !NameChar(x[0]);
        if r != [] {
          assert r[0] == value[0] || r[0] == '$';
        }
      } else {
        assert r == [x[0]] + ReplaceVar(x[1..], name, value);
        ReplaceKeepsNamePrefix(x[1..], w[1..], name, value);
        assert StartsWith(x, w) <==> x[0] == w[0] && StartsWith(x[1..], w[1..]);
        assert StartsWith(r, w) <==> r[0] == w[0] && StartsWith(r[1..], w[1..]);
      }
    }
  }

  /** A pass whose name does not start the text after a `$` keeps that `$`. */
  lemma KeepsDollar(t: string, name: string, value: string)
    requires !StartsWith(t, name) && !StartsWith(t, "{" + name + "}")
    ensures ReplaceVar("$" + t, name, value) == "$" + ReplaceVar(t, name, value)
  {
    assert ("$" + t)[1..] == t;
  }

  /** A pass whose name, plain or braced, is `w` replaces the `$w` at the start. */
  lemma ReplacesLeading(w: string, z: string, name: string, value: string)
    requires w == name || w == "{" + name + "}"
    requires name != [] && name[0] != '{'
    ensures ReplaceVar("$" + w + z, name, value) == value + ReplaceVar(z, name, value)
  {
    var s := "$" + w + z;
    assert s[1..] == w + z;
    assert s[1..][..|w|] == w;
    if w == name {
      assert s[1 + |name|..] == z;
    } else {
      assert s[1..][0] == '{';
      assert !StartsWith(s[1..], name);
      assert s[3 + |name|..] == z;
    }
  }

  /** Passes over a character other than `$`. */
  lemma PassesKeepPlain(c: char, y: string, cwd: string)
    requires c != '$' && '$' !in cwd
    ensures ApplySubstitutions([c] + y, cwd) == [c] + ApplySubstitutions(y, cwd)
  {
    var r1 := ReplaceVar(y, "ORIGIN", cwd);
    var r2 := ReplaceVar(r1, "LIB", "lib64");
    ReplaceSkipsPlainText([c], y, "ORIGIN", cwd);
    ReplaceSkipsPlainText([c], r1, "LIB", "lib64");
    ReplaceSkipsPlainText([c], r2, "PLATFORM", "x86_64");
  }

  /** Passes over text inserted by an earlier pass, which holds no `$`. */
  lemma PassesKeepValue(v: string, y: string, cwd: string)
    requires '$' !in v
    ensures ReplaceVar(ReplaceVar(v + y, "LIB", "lib64"), "PLATFORM", "x86_64")
            == v + ReplaceVar(ReplaceVar(y, "LIB", "lib64"), "PLATFORM", "x86_64")
  {
    ReplaceSkipsPlainText(v, y, "LIB", "lib64");
    ReplaceSkipsPlainText(v, ReplaceVar(y, "LIB", "lib64"), "PLATFORM", "x86_64");
  }

  /** The passes keep a `$` that starts no token. */
  lemma PassesKeepDollar(t: string, cwd: string)
    requires Inert(cwd) && Recognize(t).NoToken?
    ensures ApplySubstitutions("$" + t, cwd) == "$" + ApplySubstitutions(t, cwd)
  {
    var r1 := ReplaceVar(t, "ORIGIN", cwd);
    OriginPassKeepsDollar(t, cwd);
    BracedLib();
    BracedPlatform();
    KeepsDollar(r1, "LIB", "lib64");
    var r2 := ReplaceVar(r1, "LIB", "lib64");
    ReplaceKeepsNamePrefix(r1, "PLATFORM", "LIB", "lib64");
    ReplaceKeepsNamePrefix(r1, "{PLATFORM}", "LIB", "lib64");
    KeepsDollar(r2, "PLATFORM", "x86_64");
  }

  /** The ORIGIN pass keeps a `$` that starts no token, and what follows still starts none. */
  lemma OriginPassKeepsDollar(t: string, cwd: string)
    requires Inert(cwd) && Recognize(t).NoToken?
    ensures ReplaceVar("$" + t, "ORIGIN", cwd) == "$" + ReplaceVar(t, "ORIGIN", cwd)
    ensures var r1 := ReplaceVar(t, "ORIGIN", cwd);
      !StartsWith(r1, "LIB") && !StartsWith(r1, "{LIB}") && !StartsWith(r1, "PLATFORM") && !StartsWith(r1, "{PLATFORM}")
  {
    BracedOrigin();
    KeepsDollar(t, "ORIGIN", cwd);
    ReplaceKeepsNamePrefix(t, "LIB", "ORIGIN", cwd);
    ReplaceKeepsNamePrefix(t, "{LIB}", "ORIGIN", cwd);
    ReplaceKeepsNamePrefix(t, "PLATFORM", "ORIGIN", cwd);
    ReplaceKeepsNamePrefix(t, "{PLATFORM}", "ORIGIN", cwd);
  }

  /** The ORIGIN pass replaces `$ORIGIN` by `cwd`, which the later passes leave alone. */
  lemma PassesReplaceOrigin(w: string, z: string, cwd: string)
    requires Inert(cwd) && (w == "ORIGIN" || w == "{ORIGIN}")
    ensures ApplySubstitutions("$" + w + z, cwd) == cwd + ApplySubstitutions(z, cwd)
  {
    ReplacesLeading(w, z, "ORIGIN", cwd);
    PassesKeepValue(cwd, ReplaceVar(z, "ORIGIN", cwd), cwd);
  }

  /** A pass whose name does not start `w + z` passes over `$w` unchanged. */
  lemma PassKeepsLeading(w: string, z: string, name: string, value: string)
    requires '$' !in w && !StartsWith(w + z, name) && !StartsWith(w + z, "{" + name + "}")
    ensures ReplaceVar("$" + w + z, name, value) == "$" + w + ReplaceVar(z, name, value)
  {
    assert "$" + w + z == "$" + (w + z);
    KeepsDollar(w + z, name, value);
    ReplaceSkipsPlainText(w, z, name, value);
  }

  /** Two strings that differ at index `i` do not start one with the other. */
  lemma DiffersAt(x: string, w: string, i: nat)
    requires i < |x| && i < |w| && x[i] != w[i]
    ensures !StartsWith(x, w)
  {
    if |w| <= |x| {
      assert x[..|w|][i] == x[i];
    }
  }

  /** The LIB pass replaces a `$LIB` that the ORIGIN pass left alone. */
  lemma PassesReplaceLib(w: string, z: string, cwd: string)
    requires Inert(cwd) && (w == "LIB" || w == "{LIB}")
    ensures ApplySubstitutions("$" + w + z, cwd) == "lib64" + ApplySubstitutions(z, cwd)
  {
    var i := if w == "LIB" then 0 else 1;
    assert (w + z)[i] == 'L';
    DiffersAt(w + z, "ORIGIN", i);
    DiffersAt(w + z, "{ORIGIN}", i);
    PassKeepsLeading(w, z, "ORIGIN", cwd);
    var r1 := ReplaceVar(z, "ORIGIN", cwd);
    ReplacesLeading(w, r1, "LIB", "lib64");
    ReplaceSkipsPlainText("lib64", ReplaceVar(r1, "LIB", "lib64"), "PLATFORM", "x86_64");
  }

  lemma BracedLib()
    ensures "{" + "LIB" + "}" == "{LIB}"
  {
    var b := "{" + "LIB" + "}";
    assert |b| == 5 && b[0] == '{' && b[1] == 'L' && b[2] == 'I' && b[3] == 'B' && b[4] == '}';
  }

  lemma BracedPlatform()
    ensures "{" + "PLATFORM" + "}" == "{PLATFORM}"
  {
    var b := "{" + "PLATFORM" + "}";
    assert |b| == 10 && b[0] == '{' && b[1] == 'P' && b[2] == 'L' && b[3] == 'A' && b[4] == 'T'
      && b[5] == 'F' && b[6] == 'O' && b[7] == 'R' && b[8] == 'M' && b[9] == '}';
  }

  lemma BracedOrigin()
    ensures "{" + "ORIGIN" + "}" == "{ORIGIN}"
  {
    var b := "{" + "ORIGIN" + "}";
    assert |b| == 8 && b[0] == '{' && b[1] == 'O' && b[2] == 'R' && b[3] == 'I' && b[4] == 'G'
      && b[5] == 'I' && b[6] == 'N' && b[7] == '}';
  }

  /** The PLATFORM pass replaces a `$PLATFORM` that the earlier passes left alone. */
  lemma PassesReplacePlatform(w: string, z: string, cwd: string)
    requires Inert(cwd) && (w == "PLATFORM" || w == "{PLATFORM}")
    ensures ApplySubstitutions("$" + w + z, cwd) == "x86_64" + ApplySubstitutions(z, cwd)
  {
    var r1 := ReplaceVar(z, "ORIGIN", cwd);
    PlatformSkipsPass(w, z, "ORIGIN", cwd);
    PlatformSkipsPass(w, r1, "LIB", "lib64");
    ReplacesLeading(w, ReplaceVar(r1, "LIB", "lib64"), "PLATFORM", "x86_64");
  }

  /** The ORIGIN and LIB passes go past a leading `$PLATFORM`. */
  lemma PlatformSkipsPass(w: string, z: string, name: string, value: string)
    requires w == "PLATFORM" || w == "{PLATFORM}"
    requires name == "ORIGIN" || name == "LIB"
    ensures ReplaceVar("$" + w + z, name, value) == "$" + w + ReplaceVar(z, name, value)
  {
    var i := if w == "PLATFORM" then 0 else 1;
    assert (w + z)[i] == 'P';
    DiffersAt(w + z, name, i);
    if name == "LIB" {
      BracedLib();
    }
    DiffersAt(w + z, "{" + name + "}", i);
    PassKeepsLeading(w, z, name, value);
  }

  /**
   * The three passes of `apply_substitutions` give the one-pass expansion with the values
   * "lib64" and "x86_64" whenever `cwd` is inert, as an absolute directory, which starts
   * with `/`, is when it holds no `$`.
   */
  lemma {:induction false} PassesAgreeWithScan(s: string, cwd: string)
    requires Inert(cwd)
    ensures ApplySubstitutions(s, cwd) == Expand(s, cwd, "lib64", "x86_64")
    decreases |s|
  {
    if s == [] {
      return;
    }
    var t := s[1..];
    assert s == [s[0]] + t;
    ExpandFromSuffix(s, 1, cwd, "lib64", "x86_64");
    var r := Recognize(t);
    if s[0] != '$' {
      PassesAgreeWithScan(t, cwd);
      PassesKeepPlain(s[0], t, cwd);
    } else if r.NoToken? {
      PassesAgreeWithScan(t, cwd);
      PassesKeepDollar(t, cwd);
    } else {
      PassesAgreeWithScan(s[1 + r.len..], cwd);
      AgreeAtToken(s, cwd);
    }
  }

  /** The step of `PassesAgreeWithScan` at a recognised token, given the agreement after it. */
  lemma AgreeAtToken(s: string, cwd: string)
    requires Inert(cwd) && s != [] && s[0] == '$' && Recognize(s[1..]).Token?
    requires var z := s[1 + Recognize(s[1..]).len..];
             ApplySubstitutions(z, cwd) == Expand(z, cwd, "lib64", "x86_64")
    ensures ApplySubstitutions(s, cwd) == Expand(s, cwd, "lib64", "x86_64")
  {
    var t := s[1..];
    var r := Recognize(t);
    var n := r.len;
    var w := t[..n];
    var z := s[1 + n..];
    RecognizedWord(t);
    assert s == "$" + w + z;
    ExpandFromSuffix(s, 1 + n, cwd, "lib64", "x86_64");
    match r.v
    case Origin => PassesReplaceOrigin(w, z, cwd);
    case Lib => PassesReplaceLib(w, z, cwd);
    case Platform => PassesReplacePlatform(w, z, cwd);
  }

  /** `$NAME` or `${NAME}` occurs at `i`. */
  predicate NameAt(s: string, i: nat, name: string)
    requires i < |s|
  {
    s[i] == '$' && (StartsWith(s[i + 1..], name) || StartsWith(s[i + 1..], "{" + name + "}"))
  }

  /** A pass that finds no match returns its input. */
  lemma {:induction false} ReplaceWithoutMatch(s: string, name: string, value: string)
    requires forall i :: 0 <= i < |s| ==> !NameAt(s, i, name)
    ensures ReplaceVar(s, name, value) == s
    decreases |s|
  {
    if s != [] {
      assert !NameAt(s, 0, name);
      forall i | 0 <= i < |s| - 1
        ensures !NameAt(s[1..], i, name)
      {
        assert !NameAt(s, i + 1, name);
        assert s[1..][i + 1..] == s[i + 2..];
      }
      ReplaceWithoutMatch(s[1..], name, value);
      assert s == [s[0]] + s[1..];
    }
  }

  /** Where no token starts, no pass finds its name. */
  lemma NoNameWithoutToken(s: string, name: string)
    requires !HasToken(s) && name in {"ORIGIN", "LIB", "PLATFORM"}
    ensures forall i :: 0 <= i < |s| ==> !NameAt(s, i, name)
  {
    assert "{" + "ORIGIN" + "}" == "{ORIGIN}";
    assert "{" + "LIB" + "}" == "{LIB}";
    assert "{" + "PLATFORM" + "}" == "{PLATFORM}";
    forall i | 0 <= i < |s|
      ensures !NameAt(s, i, name)
    {
      assert !TokenAt(s, i);
    }
  }

  /** `apply_substitutions` returns a string without tokens unchanged, whatever `cwd` is. */
  lemma SubstitutionsWithoutToken(s: string, cwd: string)
    requires !HasToken(s)
    ensures ApplySubstitutions(s, cwd) == s
  {
    NoNameWithoutToken(s, "ORIGIN");
    NoNameWithoutToken(s, "LIB");
    NoNameWithoutToken(s, "PLATFORM");
    ReplaceWithoutMatch(s, "ORIGIN", cwd);
    ReplaceWithoutMatch(s, "LIB", "lib64");
    ReplaceWithoutMatch(s, "PLATFORM", "x86_64");
  }

  /**
   * The passes run one after the other: a `$LIB` inside the inserted `cwd` is replaced by
   * the LIB pass.
   */
  lemma OriginTextIsRescanned()
    ensures ApplySubstitutions("$ORIGIN", "/$LIB") == "/lib64"
  {
    var s := "$ORIGIN";
    assert s[1..] == "ORIGIN" && s[7..] == [];
    assert ReplaceVar(s, "ORIGIN", "/$LIB") == "/$LIB";
    var t := "/$LIB";
    assert t[1..] == "$LIB";
    assert ReplaceVar(t, "LIB", "lib64") == "/" + ReplaceVar("$LIB", "LIB", "lib64");
    assert "$LIB"[1..] == "LIB" && "$LIB"[4..] == [];
    assert ReplaceVar("$LIB", "LIB", "lib64") == "lib64";
    ReplaceSkipsPlainText("/lib64", [], "PLATFORM", "x86_64");
    assert "/lib64" + [] == "/lib64";
  }

  /** The one-pass scan inserts the value of `$ORIGIN` as it is. */
  lemma ScanDoesNotRescan()
    ensures Expand("$ORIGIN", "/$LIB", "lib64", "x86_64") == "/$LIB"
  {
    var s := "$ORIGIN";
    assert s[1..] == "ORIGIN";
    assert !StartsWith("ORIGIN", "{ORIGIN}");
    assert Recognize(s[1..]) == Token(Origin, 6);
    assert ExpandFrom(s, 7, "/$LIB", "lib64", "x86_64") == [];
  }
}
