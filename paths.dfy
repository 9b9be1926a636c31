/**
 * Paths as sequences of components, the library-directory classifier, the
 * derivation of canonical library names, and the path algebra (common prefix,
 * relative path) used to rewrite dependency paths.
 */
module Paths {

  /** One component of a path, as a path's component iterator yields it. */
  datatype Component = Prefix(text: string) | RootDir | CurDir | ParentDir | Normal(name: string)

  type Path = seq<Component>

  /** Suffix that marks a library directory. */
  const LIB_MARKER: string := ".lib"

  /** Name of the last segment that stands for "the primary module of its parent". */
  const CORE: string := "core"

  predicate EndsWith(s: string, suffix: string) {
    |suffix| <= |s| && s[|s| - |suffix|..] == suffix
  }

  /** Whether a single component is a marked library segment; non-Normal components never are. */
  predicate IsMarked(c: Component) {
    c.Normal? && EndsWith(c.name, LIB_MARKER)
  }

  /** The per-component marks that `is_lib_dir` collects. */
  function Marks(p: Path): (r: seq<bool>)
    ensures |r| == |p| && forall i :: 0 <= i < |p| ==> r[i] == IsMarked(p[i])
  {
    seq(|p|, i requires 0 <= i < |p| => IsMarked(p[i]))
  }

  /**
   * `is_lib_dir`: a directory whose last component is marked and no earlier one is.
   * Past the directory check the source indexes the last mark, so an empty
   * directory path is outside its domain.
   */
  function IsLibDir(path: Path, isDir: bool): (r: bool)
    requires isDir ==> |path| > 0
    ensures r <==>
      isDir
      && path[|path| - 1].Normal? && EndsWith(path[|path| - 1].name, LIB_MARKER)
      && forall i :: 0 <= i < |path| - 1 ==> !IsMarked(path[i])
  {
    if !isDir then false
    else
      var cs := Marks(path);
      (forall i :: 0 <= i < |cs| - 1 ==> !cs[i]) && cs[|cs| - 1]
  }

  /** The documented exclusion: `a.lib/b.lib` has a marked component before the last, so it is no library. */
  lemma NestedMarkedDirIsExcluded()
    ensures !IsLibDir([Normal("a.lib"), Normal("b.lib")], true)
  {
    var p := [Normal("a.lib"), Normal("b.lib")];
    assert p[0] == Normal("a.lib");
    assert "a.lib"[|"a.lib"| - |LIB_MARKER|..] == LIB_MARKER;
    assert IsMarked(p[0]);
  }

  predicate AllNormal(p: Path) {
    forall i :: 0 <= i < |p| ==> p[i].Normal?
  }

  /** The segment strings of a path made only of Normal components. */
  function Segments(p: Path): (r: seq<string>)
    requires AllNormal(p)
    ensures |r| == |p| && forall i :: 0 <= i < |p| ==> r[i] == p[i].name
  {
    seq(|p|, i requires 0 <= i < |p| => p[i].name)
  }

  /** `k` copies of `x`, one after another. */
  function Repeat(x: string, k: nat): (r: string)
    ensures |r| == k * |x|
  {
    if k == 0 then "" else Repeat(x, k - 1) + x
  }

  /** `trim_end_matches`: strips the suffix as many times as it repeats at the end. */
  function TrimEndMatches(s: string, suffix: string): (r: string)
    requires |suffix| > 0
    ensures |r| <= |s| && r == s[..|r|]
    ensures !EndsWith(r, suffix)
    ensures !EndsWith(s, suffix) ==> r == s
    decreases |s|
  {
    if EndsWith(s, suffix) then TrimEndMatches(s[..|s| - |suffix|], suffix) else s
  }

  lemma RepeatAppend(r: string, x: string, k: nat)
    ensures r + Repeat(x, k + 1) == (r + Repeat(x, k)) + x
  {
    assert Repeat(x, k + 1) == Repeat(x, k) + x;
  }

  /** How many trailing copies of the suffix `trim_end_matches` strips. */
  function TrimCount(s: string, suffix: string): nat
    requires |suffix| > 0
    decreases |s|
  {
    if EndsWith(s, suffix) then TrimCount(s[..|s| - |suffix|], suffix) + 1 else 0
  }

  /** One strip of a trailing suffix. */
  lemma TrimStep(s: string, suffix: string)
    requires |suffix| > 0 && EndsWith(s, suffix)
    ensures s == s[..|s| - |suffix|] + suffix
    ensures TrimEndMatches(s, suffix) == TrimEndMatches(s[..|s| - |suffix|], suffix)
    ensures TrimCount(s, suffix) == TrimCount(s[..|s| - |suffix|], suffix) + 1
  {
    assert s == s[..|s| - |suffix|] + s[|s| - |suffix|..];
  }

  /**
   * Only copies of the suffix are stripped: what is left, followed by the
   * stripped copies of the suffix, is the input. With `!EndsWith(r, suffix)`
   * this fixes the result.
   */
  lemma {:induction false} TrimStripsOnlyCopies(s: string, suffix: string)
    requires |suffix| > 0
    ensures s == TrimEndMatches(s, suffix) + Repeat(suffix, TrimCount(s, suffix))
    decreases |s|
  {
    if EndsWith(s, suffix) {
      var rest := s[..|s| - |suffix|];
      var r, k := TrimEndMatches(rest, suffix), TrimCount(rest, suffix);
      TrimStep(s, suffix);
      TrimStripsOnlyCopies(rest, suffix);
      RepeatAppend(r, suffix, k);
      calc {
        s;
        rest + suffix;
        (r + Repeat(suffix, k)) + suffix;
        r + Repeat(suffix, k + 1);
      }
    } else {
      assert s == s + Repeat(suffix, 0);
    }
  }

  /** The documented name rule on a concrete input: `x.lib.lib` loses both markers. */
  lemma TrimRepeatedMarker()
    ensures TrimEndMatches("x.lib.lib", LIB_MARKER) == "x"
  {
    assert EndsWith("x.lib.lib", LIB_MARKER);
    assert "x.lib.lib"[..|"x.lib.lib"| - |LIB_MARKER|] == "x.lib";
    assert EndsWith("x.lib", LIB_MARKER);
    assert "x.lib"[..|"x.lib"| - |LIB_MARKER|] == "x";
    assert !EndsWith("x", LIB_MARKER);
  }

  /** `join`: the parts separated by `sep`. */
  function Join(parts: seq<string>, sep: char): string
  {
    if |parts| == 0 then ""
    else if |parts| == 1 then parts[0]
    else parts[0] + [sep] + Join(parts[1..], sep)
  }

  /**
   * The canonical library name of a library's relative path: the marker is
   * trimmed from the last segment, that segment is dropped when it is then
   * `core`, and the segments are joined with `-`.
   */
  function CanonicalName(rel: Path): string
    requires |rel| > 0 && AllNormal(rel)
  {
    var init := Segments(rel[..|rel| - 1]);
    var last := TrimEndMatches(rel[|rel| - 1].name, LIB_MARKER);
    Join(if last == CORE then init else init + [last], '-')
  }

  /** `lib_rel_path_to_lib_name`, popping and pushing segments as the source does. */
  method LibRelPathToLibName(libRelPath: Path) returns (name: string)
    requires |libRelPath| > 0 && AllNormal(libRelPath)
    ensures name == CanonicalName(libRelPath)
  {
    var cs := Segments(libRelPath);
    var last := TrimEndMatches(cs[|cs| - 1], LIB_MARKER);
    cs := cs[..|cs| - 1];
    assert cs == Segments(libRelPath[..|libRelPath| - 1]);
    cs := cs + [last];
    if last == CORE {
      cs := cs[..|cs| - 1];
    }
    name := Join(cs, '-');
  }

  /** What remains of a marked segment once the marker is cut off once. */
  function Unmarked(t: string): string
    requires EndsWith(t, LIB_MARKER)
  {
    t[..|t| - |LIB_MARKER|]
  }

  /**
   * Name derivation on a marked last segment `t` that carries the marker once:
   * the marker is cut off and the rest is dropped only when it is `core`.
   */
  lemma CanonicalNameOfMarked(init: Path, t: string)
    requires AllNormal(init) && EndsWith(t, LIB_MARKER) && !EndsWith(Unmarked(t), LIB_MARKER)
    ensures AllNormal(init + [Normal(t)])
    ensures CanonicalName(init + [Normal(t)])
         == Join(if Unmarked(t) == CORE then Segments(init) else Segments(init) + [Unmarked(t)], '-')
  {
    var p := init + [Normal(t)];
    assert p[..|p| - 1] == init;
  }

  /** Documented example: `foo.lib` is named `foo`. */
  lemma NameOfTopLevelLib()
    ensures CanonicalName([Normal("foo.lib")]) == "foo"
  {
    assert Unmarked("foo.lib") == "foo";
    CanonicalNameOfMarked([], "foo.lib");
    assert [] + [Normal("foo.lib")] == [Normal("foo.lib")];
  }

  /** Documented example: `foo/core.lib` is named `foo`. */
  lemma NameOfCoreLib()
    ensures CanonicalName([Normal("foo"), Normal("core.lib")]) == "foo"
  {
    assert Unmarked("core.lib") == CORE;
    CanonicalNameOfMarked([Normal("foo")], "core.lib");
  }

  /** Documented example: `foo/util.lib` is named `foo-util`. */
  lemma NameOfNestedLib()
    ensures CanonicalName([Normal("foo"), Normal("util.lib")]) == "foo-util"
  {
    assert Unmarked("util.lib") == "util";
    CanonicalNameOfMarked([Normal("foo")], "util.lib");
    assert Segments([Normal("foo")]) + ["util"] == ["foo", "util"];
  }

  /** Documented example: `foo/util/bar.lib` is named `foo-util-bar`. */
  lemma NameOfDeepLib()
    ensures CanonicalName([Normal("foo"), Normal("util"), Normal("bar.lib")]) == "foo-util-bar"
  {
    assert Unmarked("bar.lib") == "bar";
    CanonicalNameOfMarked([Normal("foo"), Normal("util")], "bar.lib");
    assert [Normal("foo"), Normal("util")] + [Normal("bar.lib")]
        == [Normal("foo"), Normal("util"), Normal("bar.lib")];
    assert Segments([Normal("foo"), Normal("util")]) + ["bar"] == ["foo", "util", "bar"];
    assert Join(["util", "bar"], '-') == "util-bar";
  }

  /**
   * Distinct library directories can derive the same name, which is why the
   * engine validates uniqueness: `foo.lib` and `foo/core.lib` both give `foo`.
   */
  lemma CoreNameCollision()
    ensures CanonicalName([Normal("foo.lib")]) == CanonicalName([Normal("foo"), Normal("core.lib")])
  {
    NameOfTopLevelLib();
    NameOfCoreLib();
  }

  /** Likewise `foo/bar.lib` and `foo-bar.lib` both give `foo-bar`. */
  lemma HyphenNameCollision()
    ensures CanonicalName([Normal("foo"), Normal("bar.lib")]) == CanonicalName([Normal("foo-bar.lib")])
  {
    assert Unmarked("bar.lib") == "bar";
    CanonicalNameOfMarked([Normal("foo")], "bar.lib");
    assert Segments([Normal("foo")]) + ["bar"] == ["foo", "bar"];
    assert Join(["foo", "bar"], '-') == "foo-bar";
    assert Unmarked("foo-bar.lib") == "foo-bar";
    CanonicalNameOfMarked([], "foo-bar.lib");
    assert [] + [Normal("foo-bar.lib")] == [Normal("foo-bar.lib")];
    assert Join(["foo-bar"], '-') == "foo-bar";
  }

  /** `core` is dropped only as the last segment: an earlier `core` stays in the name. */
  lemma CoreKeptWhenNotLast()
    ensures CanonicalName([Normal("core"), Normal("util.lib")]) == "core-util"
  {
    assert Unmarked("util.lib") == "util";
    CanonicalNameOfMarked([Normal("core")], "util.lib");
  }

  /** Repeated markers at the end are all trimmed. */
  lemma RepeatedMarkerTrimmed(init: Path, t: string)
    requires AllNormal(init) && EndsWith(t, LIB_MARKER)
    ensures AllNormal(init + [Normal(t)]) && AllNormal(init + [Normal(Unmarked(t))])
    ensures CanonicalName(init + [Normal(t)]) == CanonicalName(init + [Normal(Unmarked(t))])
  {
    var p := init + [Normal(t)];
    var q := init + [Normal(Unmarked(t))];
    assert p[..|p| - 1] == init == q[..|q| - 1];
  }

  // ---------------------------------------------------------------------------
  // Path algebra

  predicate IsPrefix(p: Path, q: Path) {
    |p| <= |q| && q[..|p|] == p
  }

  /** The longest common component prefix of two paths. */
  function Common(a: Path, b: Path): (r: Path)
    ensures IsPrefix(r, a) && IsPrefix(r, b)
    ensures |r| == |a| || |r| == |b| || a[|r|] != b[|r|]
  {
    if |a| == 0 || |b| == 0 || a[0] != b[0] then []
    else [a[0]] + Common(a[1..], b[1..])
  }

  /** A common prefix at which the paths stop agreeing is the one `Common` gives. */
  lemma CommonUnique(a: Path, b: Path, c: Path)
    requires IsPrefix(c, a) && IsPrefix(c, b)
    requires |c| == |a| || |c| == |b| || a[|c|] != b[|c|]
    ensures c == Common(a, b)
  {
    var r := Common(a, b);
    assert a[..|c|] == c && a[..|r|] == r;
  }

  /** `Common` is the longest: every common prefix is a prefix of it. */
  lemma {:induction false} CommonIsLongest(a: Path, b: Path, c: Path)
    requires IsPrefix(c, a) && IsPrefix(c, b)
    ensures IsPrefix(c, Common(a, b))
  {
    if |c| > 0 {
      assert a[0] == c[0] == b[0];
      assert IsPrefix(c[1..], a[1..]) && IsPrefix(c[1..], b[1..]) by {
        assert a[1..][..|c| - 1] == a[..|c|][1..];
        assert b[1..][..|c| - 1] == b[..|c|][1..];
      }
      CommonIsLongest(a[1..], b[1..], c[1..]);
      var r := Common(a, b);
      assert r == [a[0]] + Common(a[1..], b[1..]);
      assert r[..|c|] == [a[0]] + Common(a[1..], b[1..])[..|c| - 1];
    }
  }

  /** `common_prefix`, walking both component lists together. */
  method CommonPrefix(a: Path, b: Path) returns (common: Path)
    ensures common == Common(a, b)
  {
    common := [];
    var i := 0;
    while i < |a| && i < |b|
      invariant 0 <= i <= |a| && i <= |b|
      invariant common == a[..i] == b[..i]
    {
      if a[i] == b[i] {
        common := common + [a[i]];
        i := i + 1;
      } else {
        break;
      }
    }
    CommonUnique(a, b, common);
  }

  /** `n` parent-directory steps. */
  function Ups(n: nat): (r: Path)
    ensures |r| == n && forall i :: 0 <= i < n ==> r[i] == ParentDir
  {
    if n == 0 then [] else Ups(n - 1) + [ParentDir]
  }

  /**
   * The relative path from `from` to `to`: one `..` per component of `from`
   * past the common prefix, then the rest of `to`.
   */
  function Relative(from: Path, to: Path): Path
  {
    var c := Common(from, to);
    Ups(|from| - |c|) + to[|c|..]
  }

  /** `relative_path`, pushing onto an empty path in two loops. */
  method RelativePath(from: Path, to: Path) returns (rel: Path)
    ensures rel == Relative(from, to)
  {
    var common := CommonPrefix(from, to);
    var popCount := |from| - |common|;
    rel := [];
    var k := 0;
    while k < popCount
      invariant 0 <= k <= popCount
      invariant rel == Ups(k)
    {
      rel := rel + [ParentDir];
      k := k + 1;
    }
    var j := |common|;
    while j < |to|
      invariant |common| <= j <= |to|
      invariant rel == Ups(popCount) + to[|common|..j]
    {
      rel := rel + [to[j]];
      j := j + 1;
    }
    assert to[|common|..j] == to[|common|..];
  }

  /** The relative path from a path to itself is empty. */
  lemma RelativeToSelf(p: Path)
    ensures Relative(p, p) == []
  {
    CommonUnique(p, p, p);
  }

  /** The relative path is as long as the steps up plus the steps down. */
  lemma RelativeLength(from: Path, to: Path)
    ensures |Relative(from, to)| == |from| + |to| - 2 * |Common(from, to)|
  {
  }

  /** Follows `rel` from `base`: each `..` pops one component, every other component is appended. */
  function Resolve(base: Path, rel: Path): Path
    decreases |rel|
  {
    if rel == [] then base
    else
      var next := if rel[0] == ParentDir then (if |base| > 0 then base[..|base| - 1] else base)
                  else base + [rel[0]];
      Resolve(next, rel[1..])
  }

  lemma {:induction false} ResolveUps(base: Path, k: nat, rest: Path)
    requires k <= |base|
    ensures Resolve(base, Ups(k) + rest) == Resolve(base[..|base| - k], rest)
    decreases k
  {
    if k > 0 {
      var s := Ups(k) + rest;
      assert s[0] == ParentDir;
      assert s[1..] == Ups(k - 1) + rest;
      ResolveUps(base[..|base| - 1], k - 1, rest);
      assert base[..|base| - 1][..|base| - 1 - (k - 1)] == base[..|base| - k];
    } else {
      assert Ups(0) + rest == rest;
      assert base[..|base| - 0] == base;
    }
  }

  lemma {:induction false} ResolveDescend(base: Path, rest: Path)
    requires forall i :: 0 <= i < |rest| ==> rest[i] != ParentDir
    ensures Resolve(base, rest) == base + rest
    decreases |rest|
  {
    if rest != [] {
      ResolveDescend(base + [rest[0]], rest[1..]);
      assert base + [rest[0]] + rest[1..] == base + rest;
    }
  }

  /**
   * Round trip: following the relative path from `from` reaches `to`, when
   * `to` has no `..` components (library paths never do).
   */
  lemma RelativeResolves(from: Path, to: Path)
    requires forall i :: 0 <= i < |to| ==> to[i] != ParentDir
    ensures Resolve(from, Relative(from, to)) == to
  {
    var c := Common(from, to);
    var rest := to[|c|..];
    ResolveUps(from, |from| - |c|, rest);
    assert from[..|from| - (|from| - |c|)] == c;
    ResolveDescend(c, rest);
    assert c + rest == to;
  }

  /** The text of one component in a rendered path. */
  function ComponentText(c: Component): string
  {
    match c
    case Prefix(t) => t
    case RootDir => ""
    case CurDir => "."
    case ParentDir => ".."
    case Normal(s) => s
  }

  /** A path as a string, components joined with `/`. */
  function Render(p: Path): string
  {
    Join(seq(|p|, i requires 0 <= i < |p| => ComponentText(p[i])), '/')
  }

  /** A library at `x/a` reaches one at `x/y/b` by `../y/b`, and one level deeper by `../../y/b`. */
  lemma RenderRelativeExamples()
    ensures Render(Relative([Normal("x"), Normal("a")], [Normal("x"), Normal("y"), Normal("b")])) == "../y/b"
    ensures Render(Relative([Normal("x"), Normal("a"), Normal("c")], [Normal("x"), Normal("y"), Normal("b")]))
         == "../../y/b"
  {
    var to := [Normal("x"), Normal("y"), Normal("b")];
    var from2 := [Normal("x"), Normal("a")];
    var from3 := [Normal("x"), Normal("a"), Normal("c")];
    CommonUnique(from2, to, [Normal("x")]);
    CommonUnique(from3, to, [Normal("x")]);
    assert Ups(1) == [ParentDir];
    assert Ups(2) == [ParentDir, ParentDir];
    assert Relative(from2, to) == [ParentDir, Normal("y"), Normal("b")];
    assert Relative(from3, to) == [ParentDir, ParentDir, Normal("y"), Normal("b")];
    var t2 := seq(3, i requires 0 <= i < 3 => ComponentText([ParentDir, Normal("y"), Normal("b")][i]));
    assert t2 == ["..", "y", "b"];
    var t3 := seq(4, i requires 0 <= i < 4 => ComponentText([ParentDir, ParentDir, Normal("y"), Normal("b")][i]));
    assert t3 == ["..", "..", "y", "b"];
    assert Join(["..", "y", "b"], '/') == "../y/b";
    assert Join(["..", "..", "y", "b"], '/') == "../../y/b";
  }
}
