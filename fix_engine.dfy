/**
 * The convention-fixing engine: library analysis, the snapshot registry,
 * name-uniqueness validation, the manifest rewrite, the write decision and
 * the whole run over a walked directory tree.
 *
 * The file system is a map from paths to file texts; reading and parsing a
 * manifest and serialising a document are parameters, since the engine only
 * consumes them.
 */
module FixEngine {
  import opened Wrappers
  import opened Paths
  import opened Manifest

  const MANIFEST_FILE_NAME: string := "Cargo.toml"
  const CRATES_DIR_NAME: string := "crates"
  /** Written in place of a dependency path whose target library is unknown. */
  const NOT_FOUND: string := "NOT_FOUND"
  const PATH_KEY: string := "path"
  const NAME_KEY: string := "name"
  const DUPLICATE_MESSAGE_PREFIX: string := "multiple libs with the same name: "

  /** File texts by path. */
  type Files = map<Path, string>

  /** A write of `text` to the file at `path`. */
  datatype Write = Write(path: Path, text: string)

  /** One entry of the recursive walk, with its path relative to the crates directory. */
  datatype DirEntry = DirEntry(rel: Path, isDir: bool)

  /** What the engine knows about one library directory. */
  datatype LibAnalysis = LibAnalysis(
    libRelPath: Path,
    libName: string,
    cargoTomlAccessPath: Path,
    cargoToml: Option<TomlFile>)

  function Lookup(files: Files, p: Path): Option<string> {
    if p in files then Some(files[p]) else None
  }

  /** Reads and parses a manifest; a missing or unparsable file gives no manifest. */
  function ReadManifest(files: Files, p: Path, parse: string -> Option<Document>): Option<TomlFile> {
    match Lookup(files, p)
    case None => None
    case Some(text) =>
      match parse(text)
      case None => None
      case Some(doc) => Some(TomlFile(text, doc))
  }

  function AccessPath(cratesDir: Path, libRelPath: Path): Path {
    cratesDir + libRelPath + [Normal(MANIFEST_FILE_NAME)]
  }

  /** `analyze_lib`: the library's name and manifest, tolerating a missing or unparsable manifest. */
  function AnalyzeLib(cratesDir: Path, libRelPath: Path, files: Files, parse: string -> Option<Document>)
    : (lib: LibAnalysis)
    requires |libRelPath| > 0 && AllNormal(libRelPath)
    ensures lib.libRelPath == libRelPath && lib.libName == CanonicalName(libRelPath)
    ensures lib.cargoTomlAccessPath == cratesDir + libRelPath + [Normal(MANIFEST_FILE_NAME)]
    ensures lib.cargoToml.Some? <==>
      lib.cargoTomlAccessPath in files && parse(files[lib.cargoTomlAccessPath]).Some?
    ensures lib.cargoToml.Some? ==>
      lib.cargoToml.value.text == files[lib.cargoTomlAccessPath]
      && parse(lib.cargoToml.value.text) == Some(lib.cargoToml.value.doc)
  {
    var access := AccessPath(cratesDir, libRelPath);
    LibAnalysis(libRelPath, CanonicalName(libRelPath), access, ReadManifest(files, access, parse))
  }

  // ---------------------------------------------------------------------------
  // Names and their uniqueness

  function LibNames(libs: seq<LibAnalysis>): (r: seq<string>)
    ensures |r| == |libs| && forall i :: 0 <= i < |libs| ==> r[i] == libs[i].libName
  {
    seq(|libs|, i requires 0 <= i < |libs| => libs[i].libName)
  }

  predicate Distinct(s: seq<string>) {
    forall i, j :: 0 <= i < j < |s| ==> s[i] != s[j]
  }

  /** How often `x` occurs in `s`. */
  function Count(s: seq<string>, x: string): nat {
    if |s| == 0 then 0 else Count(s[..|s| - 1], x) + (if s[|s| - 1] == x then 1 else 0)
  }

  /** The names that occur more than once. */
  function DuplicateNames(names: seq<string>): set<string> {
    set n | n in names && Count(names, n) > 1
  }

  function DuplicateMessage(name: string): string {
    DUPLICATE_MESSAGE_PREFIX + name
  }

  lemma {:induction false} CountPositive(s: seq<string>, x: string)
    ensures Count(s, x) > 0 <==> x in s
  {
    if |s| > 0 {
      var init := s[..|s| - 1];
      CountPositive(init, x);
      assert s == init + [s[|s| - 1]];
    }
  }

  lemma {:induction false} DistinctIffCountsAtMostOne(s: seq<string>)
    ensures Distinct(s) <==> forall x :: x in s ==> Count(s, x) <= 1
  {
    if |s| > 0 {
      var init, y := s[..|s| - 1], s[|s| - 1];
      assert s == init + [y];
      DistinctIffCountsAtMostOne(init);
      CountPositive(init, y);
      if Distinct(s) {
        assert Distinct(init);
        forall k | 0 <= k < |init| ensures init[k] != y {
          assert s[k] != s[|s| - 1];
        }
        forall x | x in s ensures Count(s, x) <= 1 {
          if x != y { assert x in init; }
        }
      } else {
        var i, j :| 0 <= i < j < |s| && s[i] == s[j];
        if j == |s| - 1 {
          assert init[i] == y;
          assert y in s && Count(s, y) >= 2;
        } else {
          assert init[i] == init[j];
          assert !Distinct(init);
          var x :| x in init && Count(init, x) > 1;
          assert x in s && Count(s, x) >= 2;
        }
      }
    }
  }

  /** The names are pairwise distinct exactly when no name is duplicated. */
  lemma DistinctIffNoDuplicates(s: seq<string>)
    ensures Distinct(s) <==> DuplicateNames(s) == {}
  {
    DistinctIffCountsAtMostOne(s);
    if !Distinct(s) {
      var x :| x in s && Count(s, x) > 1;
      assert x in DuplicateNames(s);
    }
  }

  /** Different names give different messages. */
  lemma DuplicateMessageInjective(a: string, b: string)
    ensures DuplicateMessage(a) == DuplicateMessage(b) ==> a == b
  {
    if DuplicateMessage(a) == DuplicateMessage(b) {
      assert DuplicateMessage(a)[|DUPLICATE_MESSAGE_PREFIX|..] == a;
      assert DuplicateMessage(b)[|DUPLICATE_MESSAGE_PREFIX|..] == b;
    }
  }

  /** The first loop of `check_libs`: the libraries grouped by name, in order. */
  method GroupByName(libs: seq<LibAnalysis>) returns (libMap: map<string, seq<LibAnalysis>>)
    ensures forall n :: n in libMap <==> n in LibNames(libs)
    ensures forall n :: n in libMap ==> |libMap[n]| == Count(LibNames(libs), n)
  {
    ghost var names := LibNames(libs);
    libMap := map[];
    var i := 0;
    while i < |libs|
      invariant 0 <= i <= |libs|
      invariant forall n :: n in libMap <==> n in names[..i]
      invariant forall n :: n in libMap ==> |libMap[n]| == Count(names[..i], n)
    {
      var name := libs[i].libName;
      var group := if name in libMap then libMap[name] else [];
      assert names[..i + 1] == names[..i] + [name];
      assert names[..i + 1][..i] == names[..i];
      CountPositive(names[..i], name);
      libMap := libMap[name := group + [libs[i]]];
      i := i + 1;
    }
    assert names[..i] == names;
  }

  /** The messages for the groups of more than one among the names in `dom`. */
  ghost function GroupMessages(libMap: map<string, seq<LibAnalysis>>, dom: set<string>): set<string> {
    set n | n in dom && n in libMap && |libMap[n]| > 1 :: DuplicateMessage(n)
  }

  lemma GroupMessagesAdd(libMap: map<string, seq<LibAnalysis>>, dom: set<string>, n: string)
    requires n in libMap
    ensures GroupMessages(libMap, dom + {n})
         == GroupMessages(libMap, dom) + (if |libMap[n]| > 1 then {DuplicateMessage(n)} else {})
  {
  }

  /** The second loop of `check_libs`: one message per group of more than one, in any key order. */
  method ReportDuplicates(libMap: map<string, seq<LibAnalysis>>) returns (errors: seq<string>)
    ensures Distinct(errors)
    ensures (set m | m in errors) == GroupMessages(libMap, libMap.Keys)
  {
    errors := [];
    var remaining := libMap.Keys;
    while remaining != {}
      invariant remaining <= libMap.Keys
      invariant Distinct(errors)
      invariant (set m | m in errors) == GroupMessages(libMap, libMap.Keys - remaining)
      decreases |remaining|
    {
      var n :| n in remaining;
      ghost var done := libMap.Keys - remaining;
      GroupMessagesAdd(libMap, done, n);
      assert libMap.Keys - (remaining - {n}) == done + {n};
      if |libMap[n]| > 1 {
        forall k | 0 <= k < |errors| ensures errors[k] != DuplicateMessage(n) {
          assert errors[k] in GroupMessages(libMap, done);
          var n' :| n' in done && n' in libMap && |libMap[n']| > 1 && errors[k] == DuplicateMessage(n');
          DuplicateMessageInjective(n', n);
        }
        ghost var e0 := errors;
        errors := errors + [DuplicateMessage(n)];
        forall j, k | 0 <= j < k < |errors| ensures errors[j] != errors[k] {
          if k < |e0| {
            assert errors[j] == e0[j] && errors[k] == e0[k];
          }
        }
        assert (set m | m in errors) == (set m | m in e0) + {DuplicateMessage(n)};
      }
      remaining := remaining - {n};
    }
    assert libMap.Keys - remaining == libMap.Keys;
  }

  /**
   * `check_libs`: groups the libraries by name, then reports every group of
   * more than one, in the unspecified order of the grouping map's keys.
   */
  method CheckLibs(libs: seq<LibAnalysis>) returns (r: Outcome<seq<string>>)
    ensures r.Ok? <==> Distinct(LibNames(libs))
    ensures r.Err? ==> |r.error| > 0 && Distinct(r.error)
    ensures r.Err? ==>
      (set m | m in r.error) == (set n | n in DuplicateNames(LibNames(libs)) :: DuplicateMessage(n))
  {
    ghost var names := LibNames(libs);
    var libMap := GroupByName(libs);
    var errors := ReportDuplicates(libMap);
    ghost var duplicated := DuplicateNames(names);
    ghost var expected := set n | n in duplicated :: DuplicateMessage(n);
    forall m ensures m in GroupMessages(libMap, libMap.Keys) <==> m in expected {
      if m in expected {
        var n :| n in duplicated && m == DuplicateMessage(n);
        assert n in libMap && |libMap[n]| > 1;
      }
      if m in GroupMessages(libMap, libMap.Keys) {
        var n :| n in libMap && |libMap[n]| > 1 && m == DuplicateMessage(n);
        assert n in duplicated;
      }
    }
    assert (set m | m in errors) == expected;
    DistinctIffNoDuplicates(names);
    if errors == [] {
      assert expected == {};
      forall x | x in duplicated ensures DuplicateMessage(x) in expected { }
      assert duplicated == {};
      r := Ok;
    } else {
      assert errors[0] in expected;
      assert duplicated != {};
      r := Err(errors);
    }
  }

  // ---------------------------------------------------------------------------
  // The registry snapshot

  /** `LibAnalysisBundle`: the libraries by name, built once per run. */
  datatype LibAnalysisBundle = LibAnalysisBundle(libsMap: map<string, LibAnalysis>)
  {
    /** `new`: keyed by name; a later library overwrites an earlier one of the same name. */
    static function New(libs: seq<LibAnalysis>): (b: LibAnalysisBundle)
      ensures forall n :: n in b.libsMap <==> n in LibNames(libs)
      ensures forall n :: n in b.libsMap ==> b.libsMap[n] in libs && b.libsMap[n].libName == n
    {
      LibAnalysisBundle(map n | n in LibNames(libs) :: libs[LastWith(libs, n)])
    }

    /** `get`: the library registered under `libName`, if any. */
    function Get(libName: string): Option<LibAnalysis> {
      if libName in libsMap then Some(libsMap[libName]) else None
    }
  }

  /** The position of the last library named `n`: the one a name-keyed collection keeps. */
  function LastWith(libs: seq<LibAnalysis>, n: string): (k: nat)
    requires n in LibNames(libs)
    ensures k < |libs| && libs[k].libName == n
    ensures forall j :: k < j < |libs| ==> libs[j].libName != n
  {
    var last := |libs| - 1;
    if libs[last].libName == n then last
    else
      var init := libs[..last];
      assert LibNames(libs) == LibNames(init) + [libs[last].libName];
      LastWith(init, n)
  }

  /** With distinct names, two libraries of the same name are the same entry of the list. */
  lemma SameNameSameIndex(libs: seq<LibAnalysis>, i: nat, j: nat)
    requires Distinct(LibNames(libs)) && i < |libs| && j < |libs|
    requires libs[i].libName == libs[j].libName
    ensures i == j
  {
    var names := LibNames(libs);
    assert names[i] == names[j];
  }

  /** With distinct names, looking up a library's name finds that library. */
  lemma BundleGetFound(libs: seq<LibAnalysis>, i: nat)
    requires Distinct(LibNames(libs)) && i < |libs|
    ensures LibAnalysisBundle.New(libs).Get(libs[i].libName) == Some(libs[i])
  {
    var n := libs[i].libName;
    assert LibNames(libs)[i] == n;
    SameNameSameIndex(libs, i, LastWith(libs, n));
  }

  /** A name no library has is not found. */
  lemma BundleGetMissing(libs: seq<LibAnalysis>, n: string)
    requires n !in LibNames(libs)
    ensures LibAnalysisBundle.New(libs).Get(n) == None
  {
  }

  /** Two registries that resolve every name to the same directory, or to nothing alike. */
  ghost predicate SameTargets(b1: LibAnalysisBundle, b2: LibAnalysisBundle) {
    forall n :: b1.Get(n).Some? == b2.Get(n).Some?
      && (b1.Get(n).Some? ==> b1.Get(n).value.libRelPath == b2.Get(n).value.libRelPath)
  }

  /**
   * Registries built from library lists that agree on names and directories
   * resolve alike, whatever the manifests hold: rewriting manifests never
   * changes how another library's dependencies resolve.
   */
  lemma BundlesAgree(libs1: seq<LibAnalysis>, libs2: seq<LibAnalysis>)
    requires |libs1| == |libs2|
    requires forall i :: 0 <= i < |libs1| ==>
      libs1[i].libName == libs2[i].libName && libs1[i].libRelPath == libs2[i].libRelPath
    requires Distinct(LibNames(libs1))
    ensures SameTargets(LibAnalysisBundle.New(libs1), LibAnalysisBundle.New(libs2))
  {
    assert LibNames(libs1) == LibNames(libs2);
    forall n ensures LibAnalysisBundle.New(libs1).Get(n).Some? == LibAnalysisBundle.New(libs2).Get(n).Some?
      && (LibAnalysisBundle.New(libs1).Get(n).Some? ==>
          LibAnalysisBundle.New(libs1).Get(n).value.libRelPath
          == LibAnalysisBundle.New(libs2).Get(n).value.libRelPath)
    {
      if n in LibNames(libs1) {
        var i :| 0 <= i < |libs1| && LibNames(libs1)[i] == n;
        BundleGetFound(libs1, i);
        BundleGetFound(libs2, i);
      } else {
        BundleGetMissing(libs1, n);
        BundleGetMissing(libs2, n);
      }
    }
  }

  // ---------------------------------------------------------------------------
  // The manifest rewrite

  /** The path written for a dependency named `depName` of the library at `from`. */
  function DepTarget(from: Path, libs: LibAnalysisBundle, depName: string): string {
    match libs.Get(depName)
    case Some(depLib) => Render(Relative(from, depLib.libRelPath))
    case None => NOT_FOUND
  }

  /** Only an inline table with a `path` key is rewritten, and only at that key. */
  function RewriteDep(d: Dep, from: Path, libs: LibAnalysisBundle): Dep {
    match d.item
    case Inline(fields) =>
      if PATH_KEY in fields then Dep(d.key, Inline(fields[PATH_KEY := Str(DepTarget(from, libs, d.key))]))
      else d
    case OtherItem(_) => d
  }

  /**
   * The loop over the dependency table: entries keep their keys and their
   * places, entries that are not inline tables with a `path` key are left as
   * they are, and the others get the target path at `path` and keep every
   * other field.
   */
  function RewriteDeps(ds: seq<Dep>, from: Path, libs: LibAnalysisBundle): (r: seq<Dep>)
    ensures |r| == |ds| && forall i :: 0 <= i < |ds| ==> r[i] == RewriteDep(ds[i], from, libs)
    ensures forall i :: 0 <= i < |ds| ==> r[i].key == ds[i].key
    ensures forall i :: 0 <= i < |ds| && !(ds[i].item.Inline? && PATH_KEY in ds[i].item.fields) ==> r[i] == ds[i]
    ensures forall i :: 0 <= i < |ds| && ds[i].item.Inline? && PATH_KEY in ds[i].item.fields ==>
      r[i].item.Inline? && r[i].item.fields == ds[i].item.fields[PATH_KEY := Str(DepTarget(from, libs, ds[i].key))]
  {
    seq(|ds|, i requires 0 <= i < |ds| => RewriteDep(ds[i], from, libs))
  }

  /** The document after `fix_lib` for the library named `libName` at `libRelPath`. */
  function FixedDoc(doc: Document, libName: string, libRelPath: Path, libs: LibAnalysisBundle): Document {
    doc.(
      package := if doc.package.Some? then Some(doc.package.value[NAME_KEY := Str(libName)]) else None,
      dependencies :=
        if doc.dependencies.Some? then Some(SortByKey(RewriteDeps(doc.dependencies.value, libRelPath, libs)))
        else None)
  }

  /** The library after `fix_lib`; a library without a manifest is left as it is. */
  function Fixed(lib: LibAnalysis, libs: LibAnalysisBundle): LibAnalysis {
    match lib.cargoToml
    case None => lib
    case Some(file) =>
      lib.(cargoToml := Some(file.(doc := FixedDoc(file.doc, lib.libName, lib.libRelPath, libs))))
  }

  /** `fix_lib`: sets the package name, rewrites the dependency paths in place, sorts the dependencies. */
  method FixLib(lib: LibAnalysis, libs: LibAnalysisBundle) returns (fixed: LibAnalysis)
    ensures fixed == Fixed(lib, libs)
  {
    fixed := lib;
    if lib.cargoToml.Some? {
      var doc := lib.cargoToml.value.doc;
      if doc.package.Some? {
        doc := doc.(package := Some(doc.package.value[NAME_KEY := Str(lib.libName)]));
      }
      if doc.dependencies.Some? {
        ghost var original := doc.dependencies.value;
        var deps := doc.dependencies.value;
        var i := 0;
        while i < |deps|
          invariant 0 <= i <= |deps| && |deps| == |original|
          invariant forall k :: 0 <= k < i ==> deps[k] == RewriteDep(original[k], lib.libRelPath, libs)
          invariant forall k :: i <= k < |deps| ==> deps[k] == original[k]
        {
          var dep := deps[i];
          if dep.item.Inline? && PATH_KEY in dep.item.fields {
            var target: string;
            var depLib := libs.Get(dep.key);
            if depLib.Some? {
              var rel := RelativePath(lib.libRelPath, depLib.value.libRelPath);
              target := Render(rel);
            } else {
              target := NOT_FOUND;
            }
            deps := deps[i := Dep(dep.key, Inline(dep.item.fields[PATH_KEY := Str(target)]))];
          }
          i := i + 1;
        }
        assert deps == RewriteDeps(original, lib.libRelPath, libs);
        doc := doc.(dependencies := Some(SortByKey(deps)));
      }
      fixed := lib.(cargoToml := Some(lib.cargoToml.value.(doc := doc)));
    }
  }

  /**
   * A found dependency's new path leads from the library to the target's
   * directory; a missing one gets the sentinel.
   */
  lemma DepTargetMeaning(from: Path, libs: LibAnalysisBundle, depName: string)
    ensures libs.Get(depName).None? ==> DepTarget(from, libs, depName) == NOT_FOUND
    ensures libs.Get(depName).Some? && AllNormal(libs.Get(depName).value.libRelPath) ==>
      exists rel :: DepTarget(from, libs, depName) == Render(rel)
        && Resolve(from, rel) == libs.Get(depName).value.libRelPath
  {
    if libs.Get(depName).Some? && AllNormal(libs.Get(depName).value.libRelPath) {
      var to := libs.Get(depName).value.libRelPath;
      RelativeResolves(from, to);
      assert DepTarget(from, libs, depName) == Render(Relative(from, to));
    }
  }

  /** One dependency entry after the rewrite: its key stays, and only its `path` may change. */
  lemma RewriteDepFields(d: Dep, from: Path, libs: LibAnalysisBundle)
    ensures RewriteDep(d, from, libs).key == d.key
    ensures !(d.item.Inline? && PATH_KEY in d.item.fields) ==> RewriteDep(d, from, libs) == d
    ensures d.item.Inline? && PATH_KEY in d.item.fields ==>
      var fields := RewriteDep(d, from, libs).item.fields;
      RewriteDep(d, from, libs).item.Inline?
      && fields.Keys == d.item.fields.Keys
      && fields[PATH_KEY] == Str(DepTarget(from, libs, d.key))
      && forall k :: k in fields && k != PATH_KEY ==> fields[k] == d.item.fields[k]
  {
  }

  /** The manifest after `fix_lib`, field by field. */
  lemma FixedFields(lib: LibAnalysis, libs: LibAnalysisBundle)
    ensures lib.cargoToml.None? ==> Fixed(lib, libs) == lib
    ensures lib.cargoToml.Some? ==>
      var f := Fixed(lib, libs);
      var old_, new_ := lib.cargoToml.value.doc, f.cargoToml.value.doc;
      && f.libRelPath == lib.libRelPath && f.libName == lib.libName
      && f.cargoTomlAccessPath == lib.cargoTomlAccessPath
      && f.cargoToml.Some? && f.cargoToml.value.text == lib.cargoToml.value.text
      && new_.rest == old_.rest
      && new_.package.Some? == old_.package.Some?
      && (old_.package.Some? ==>
            new_.package.value[NAME_KEY] == Str(lib.libName)
            && new_.package.value.Keys == old_.package.value.Keys + {NAME_KEY}
            && forall k :: k in old_.package.value && k != NAME_KEY ==>
                 new_.package.value[k] == old_.package.value[k])
      && new_.dependencies.Some? == old_.dependencies.Some?
      && (old_.dependencies.Some? ==>
            SortedByKey(new_.dependencies.value)
            && multiset(new_.dependencies.value)
               == multiset(RewriteDeps(old_.dependencies.value, lib.libRelPath, libs)))
  {
  }

  /** Every rewritten entry is a fixed point of the rewrite. */
  lemma RewriteDepIdempotent(d: Dep, from: Path, libs: LibAnalysisBundle)
    ensures RewriteDep(RewriteDep(d, from, libs), from, libs) == RewriteDep(d, from, libs)
  {
    match d.item
    case Inline(fields) =>
      if PATH_KEY in fields {
        var v := Str(DepTarget(from, libs, d.key));
        assert fields[PATH_KEY := v][PATH_KEY := v] == fields[PATH_KEY := v];
      }
    case OtherItem(_) =>
  }

  /** Rewriting a document a second time with the same registry changes nothing. */
  lemma FixedDocIdempotent(doc: Document, libName: string, libRelPath: Path, libs: LibAnalysisBundle)
    ensures FixedDoc(FixedDoc(doc, libName, libRelPath, libs), libName, libRelPath, libs)
         == FixedDoc(doc, libName, libRelPath, libs)
  {
    var once := FixedDoc(doc, libName, libRelPath, libs);
    if doc.package.Some? {
      var p := doc.package.value[NAME_KEY := Str(libName)];
      assert p[NAME_KEY := Str(libName)] == p;
    }
    if doc.dependencies.Some? {
      var rewritten := RewriteDeps(doc.dependencies.value, libRelPath, libs);
      var sorted := SortByKey(rewritten);
      forall k | 0 <= k < |sorted|
        ensures RewriteDep(sorted[k], libRelPath, libs) == sorted[k]
      {
        SortSameEntries(rewritten, sorted[k]);
        var j :| 0 <= j < |rewritten| && rewritten[j] == sorted[k];
        RewriteDepIdempotent(doc.dependencies.value[j], libRelPath, libs);
      }
      assert RewriteDeps(sorted, libRelPath, libs) == sorted;
      SortIdempotent(rewritten);
    }
  }

  /** `fix_lib` is idempotent. */
  lemma FixedIdempotent(lib: LibAnalysis, libs: LibAnalysisBundle)
    ensures Fixed(Fixed(lib, libs), libs) == Fixed(lib, libs)
  {
    if lib.cargoToml.Some? {
      FixedDocIdempotent(lib.cargoToml.value.doc, lib.libName, lib.libRelPath, libs);
    }
  }

  /** The rewrite sees the registry only through where it resolves each name. */
  lemma FixedDocSameTargets(doc: Document, libName: string, libRelPath: Path,
                           b1: LibAnalysisBundle, b2: LibAnalysisBundle)
    requires SameTargets(b1, b2)
    ensures FixedDoc(doc, libName, libRelPath, b1) == FixedDoc(doc, libName, libRelPath, b2)
  {
    if doc.dependencies.Some? {
      var ds := doc.dependencies.value;
      forall k | 0 <= k < |ds|
        ensures RewriteDep(ds[k], libRelPath, b1) == RewriteDep(ds[k], libRelPath, b2)
      {
        assert DepTarget(libRelPath, b1, ds[k].key) == DepTarget(libRelPath, b2, ds[k].key);
      }
      assert RewriteDeps(ds, libRelPath, b1) == RewriteDeps(ds, libRelPath, b2);
    }
  }

  // ---------------------------------------------------------------------------
  // The write decision

  /** `write_lib`: a write happens, and `true` is returned, exactly when the serialised document differs from the text read. */
  function WriteLib(lib: LibAnalysis, serialize: Document -> string): (w: Option<Write>)
    ensures w.Some? <==>
      lib.cargoToml.Some? && serialize(lib.cargoToml.value.doc) != lib.cargoToml.value.text
    ensures w.Some? ==> w.value == Write(lib.cargoTomlAccessPath, serialize(lib.cargoToml.value.doc))
  {
    match lib.cargoToml
    case None => None
    case Some(file) =>
      var textNew := serialize(file.doc);
      if file.text != textNew then Some(Write(lib.cargoTomlAccessPath, textNew)) else None
  }

  // ---------------------------------------------------------------------------
  // The whole run

  function CratesDir(root: Path): Path {
    root + [Normal(CRATES_DIR_NAME)]
  }

  /** The walk yields plain names below the crates directory for every library directory. */
  predicate WalkShaped(root: Path, entries: seq<DirEntry>) {
    forall e :: e in entries && IsLibDir(CratesDir(root) + e.rel, e.isDir) ==> AllNormal(e.rel)
  }

  lemma CratesDirIsNotLib(root: Path)
    ensures !IsLibDir(CratesDir(root), true)
  {
    assert CRATES_DIR_NAME[2] != LIB_MARKER[0];
    assert CRATES_DIR_NAME[|CRATES_DIR_NAME| - |LIB_MARKER|..] != LIB_MARKER;
  }

  /** The relative paths of the walked entries that are library directories, in walk order. */
  function LibRelPaths(root: Path, entries: seq<DirEntry>): (rels: seq<Path>)
    requires WalkShaped(root, entries)
    ensures forall i :: 0 <= i < |rels| ==> |rels[i]| > 0 && AllNormal(rels[i])
    ensures forall r :: r in rels <==>
      exists e :: e in entries && e.rel == r && IsLibDir(CratesDir(root) + e.rel, e.isDir)
  {
    if |entries| == 0 then []
    else
      var init, e := entries[..|entries| - 1], entries[|entries| - 1];
      assert entries == init + [e];
      assert WalkShaped(root, init);
      CratesDirIsNotLib(root);
      assert CratesDir(root) + [] == CratesDir(root);
      LibRelPaths(root, init) + (if IsLibDir(CratesDir(root) + e.rel, e.isDir) then [e.rel] else [])
  }

  /** The analysed libraries of one run. */
  function Libs(root: Path, entries: seq<DirEntry>, files: Files, parse: string -> Option<Document>)
    : (libs: seq<LibAnalysis>)
    requires WalkShaped(root, entries)
    ensures |libs| == |LibRelPaths(root, entries)|
    ensures forall i :: 0 <= i < |libs| ==>
      libs[i] == AnalyzeLib(CratesDir(root), LibRelPaths(root, entries)[i], files, parse)
    ensures forall i :: 0 <= i < |libs| ==>
      var rel := LibRelPaths(root, entries)[i];
      libs[i].libRelPath == rel && libs[i].libName == CanonicalName(rel)
      && libs[i].cargoTomlAccessPath == AccessPath(CratesDir(root), rel)
      && (libs[i].cargoToml.Some? <==> libs[i].cargoTomlAccessPath in files && parse(files[libs[i].cargoTomlAccessPath]).Some?)
  {
    var rels := LibRelPaths(root, entries);
    seq(|rels|, i requires 0 <= i < |rels| => AnalyzeLib(CratesDir(root), rels[i], files, parse))
  }

  /** The writes of the rewrite loop over `libs`, in order. */
  function PlannedWrites(libs: seq<LibAnalysis>, bundle: LibAnalysisBundle, serialize: Document -> string)
    : seq<Write>
  {
    if |libs| == 0 then []
    else
      PlannedWrites(libs[..|libs| - 1], bundle, serialize)
      + match WriteLib(Fixed(libs[|libs| - 1], bundle), serialize)
        case Some(w) => [w]
        case None => []
  }

  /** The writes one run performs: none when validation fails. */
  function RunWrites(root: Path, entries: seq<DirEntry>, files: Files,
                     parse: string -> Option<Document>, serialize: Document -> string): seq<Write>
    requires WalkShaped(root, entries)
  {
    var libs := Libs(root, entries, files, parse);
    if Distinct(LibNames(libs)) then PlannedWrites(libs, LibAnalysisBundle.New(libs), serialize) else []
  }

  /**
   * `fix`: discovers and analyses the libraries, validates their names before
   * anything else, snapshots the registry, then rewrites and writes each
   * library in place against that snapshot.
   */
  method Fix(root: Path, entries: seq<DirEntry>, files: Files,
             parse: string -> Option<Document>, serialize: Document -> string)
    returns (outcome: Outcome<seq<string>>, writes: seq<Write>)
    requires WalkShaped(root, entries)
    ensures outcome.Ok? <==> Distinct(LibNames(Libs(root, entries, files, parse)))
    ensures outcome.Err? ==> writes == [] && |outcome.error| > 0 && Distinct(outcome.error)
    ensures outcome.Err? ==>
      (set m | m in outcome.error)
      == (set n | n in DuplicateNames(LibNames(Libs(root, entries, files, parse))) :: DuplicateMessage(n))
    ensures writes == RunWrites(root, entries, files, parse, serialize)
  {
    var libs := Libs(root, entries, files, parse);
    outcome := CheckLibs(libs);
    if outcome.Err? {
      writes := [];
      return;
    }
    var libsOriginal := LibAnalysisBundle.New(libs);
    libs, writes := FixAndWriteAll(libs, libsOriginal, serialize);
  }

  /**
   * The loop of `fix`: each library is rewritten in place against the
   * snapshot taken before the loop, then written if it changed.
   */
  method FixAndWriteAll(libs: seq<LibAnalysis>, libsOriginal: LibAnalysisBundle, serialize: Document -> string)
    returns (fixedLibs: seq<LibAnalysis>, writes: seq<Write>)
    ensures |fixedLibs| == |libs| && forall k :: 0 <= k < |libs| ==> fixedLibs[k] == Fixed(libs[k], libsOriginal)
    ensures writes == PlannedWrites(libs, libsOriginal, serialize)
  {
    fixedLibs := libs;
    writes := [];
    var i := 0;
    while i < |fixedLibs|
      invariant 0 <= i <= |fixedLibs| && |fixedLibs| == |libs|
      invariant forall k :: 0 <= k < i ==> fixedLibs[k] == Fixed(libs[k], libsOriginal)
      invariant forall k :: i <= k < |fixedLibs| ==> fixedLibs[k] == libs[k]
      invariant writes == PlannedWrites(libs[..i], libsOriginal, serialize)
    {
      var fixed := FixLib(fixedLibs[i], libsOriginal);
      fixedLibs := fixedLibs[i := fixed];
      var w := WriteLib(fixedLibs[i], serialize);
      if w.Some? {
        writes := writes + [w.value];
      }
      assert libs[..i + 1][..i] == libs[..i];
      i := i + 1;
    }
    assert libs[..i] == libs;
  }

  // ---------------------------------------------------------------------------
  // A second run writes nothing

  /** The files after performing the writes in order. */
  function ApplyWrites(files: Files, writes: seq<Write>): Files {
    if |writes| == 0 then files
    else
      var w := writes[|writes| - 1];
      ApplyWrites(files, writes[..|writes| - 1])[w.path := w.text]
  }

  /** One more library in the loop: its write, if any, is performed after those of the libraries before it. */
  lemma ApplyPlannedLast(files: Files, libs: seq<LibAnalysis>, b: LibAnalysisBundle, serialize: Document -> string)
    requires |libs| > 0
    ensures var before := ApplyWrites(files, PlannedWrites(libs[..|libs| - 1], b, serialize));
      var after := ApplyWrites(files, PlannedWrites(libs, b, serialize));
      match WriteLib(Fixed(libs[|libs| - 1], b), serialize)
      case Some(w) => w.path == libs[|libs| - 1].cargoTomlAccessPath && after == before[w.path := w.text]
      case None => after == before
  {
    var ws := PlannedWrites(libs[..|libs| - 1], b, serialize);
    match WriteLib(Fixed(libs[|libs| - 1], b), serialize)
    case Some(w) =>
      assert PlannedWrites(libs, b, serialize) == ws + [w];
      assert (ws + [w])[..|ws|] == ws;
    case None =>
      assert PlannedWrites(libs, b, serialize) == ws + [];
      assert ws + [] == ws;
  }

  lemma {:induction false} ApplyPlannedElsewhere(files: Files, libs: seq<LibAnalysis>,
                                               b: LibAnalysisBundle, serialize: Document -> string, p: Path)
    requires forall j :: 0 <= j < |libs| ==> libs[j].cargoTomlAccessPath != p
    ensures Lookup(ApplyWrites(files, PlannedWrites(libs, b, serialize)), p) == Lookup(files, p)
  {
    if |libs| > 0 {
      ApplyPlannedElsewhere(files, libs[..|libs| - 1], b, serialize, p);
      ApplyPlannedLast(files, libs, b, serialize);
    }
  }

  /** The manifest of the last library in the loop holds what was written to it, or what it held before. */
  lemma ApplyPlannedAtLast(files: Files, libs: seq<LibAnalysis>, b: LibAnalysisBundle, serialize: Document -> string)
    requires |libs| > 0
    requires forall j :: 0 <= j < |libs| - 1 ==> libs[j].cargoTomlAccessPath != libs[|libs| - 1].cargoTomlAccessPath
    ensures Lookup(ApplyWrites(files, PlannedWrites(libs, b, serialize)), libs[|libs| - 1].cargoTomlAccessPath)
         == match WriteLib(Fixed(libs[|libs| - 1], b), serialize)
            case Some(w) => Some(w.text)
            case None => Lookup(files, libs[|libs| - 1].cargoTomlAccessPath)
  {
    var init := libs[..|libs| - 1];
    ApplyPlannedLast(files, libs, b, serialize);
    ApplyPlannedElsewhere(files, init, b, serialize, libs[|libs| - 1].cargoTomlAccessPath);
  }

  /** After a run's writes, a library's manifest holds what that run wrote to it, or what it held before. */
  lemma {:induction false} ApplyPlannedAt(files: Files, libs: seq<LibAnalysis>,
                                        b: LibAnalysisBundle, serialize: Document -> string, i: nat)
    requires i < |libs|
    requires forall j, k :: 0 <= j < k < |libs| ==> libs[j].cargoTomlAccessPath != libs[k].cargoTomlAccessPath
    ensures Lookup(ApplyWrites(files, PlannedWrites(libs, b, serialize)), libs[i].cargoTomlAccessPath)
         == match WriteLib(Fixed(libs[i], b), serialize)
            case Some(w) => Some(w.text)
            case None => Lookup(files, libs[i].cargoTomlAccessPath)
  {
    var n := |libs|;
    if i == n - 1 {
      ApplyPlannedAtLast(files, libs, b, serialize);
    } else {
      var init := libs[..n - 1];
      forall j, k | 0 <= j < k < |init|
        ensures init[j].cargoTomlAccessPath != init[k].cargoTomlAccessPath
      {
        assert init[j] == libs[j] && init[k] == libs[k];
      }
      assert init[i] == libs[i];
      var p := libs[i].cargoTomlAccessPath;
      assert p != libs[n - 1].cargoTomlAccessPath;
      ApplyPlannedAt(files, init, b, serialize, i);
      ApplyPlannedLast(files, libs, b, serialize);
    }
  }

  lemma {:induction false} PlannedNone(libs: seq<LibAnalysis>, b: LibAnalysisBundle, serialize: Document -> string)
    requires forall i :: 0 <= i < |libs| ==> WriteLib(Fixed(libs[i], b), serialize).None?
    ensures PlannedWrites(libs, b, serialize) == []
  {
    if |libs| > 0 {
      PlannedNone(libs[..|libs| - 1], b, serialize);
    }
  }

  /** Libraries with distinct names live in distinct directories, so their manifests are distinct files. */
  lemma AccessPathsDistinct(root: Path, entries: seq<DirEntry>, files: Files, parse: string -> Option<Document>)
    requires WalkShaped(root, entries)
    requires Distinct(LibNames(Libs(root, entries, files, parse)))
    ensures var libs := Libs(root, entries, files, parse);
      forall j, k :: 0 <= j < k < |libs| ==> libs[j].cargoTomlAccessPath != libs[k].cargoTomlAccessPath
  {
    var libs := Libs(root, entries, files, parse);
    var c := CratesDir(root);
    forall j, k | 0 <= j < k < |libs|
      ensures libs[j].cargoTomlAccessPath != libs[k].cargoTomlAccessPath
    {
      var pj, pk := libs[j].cargoTomlAccessPath, libs[k].cargoTomlAccessPath;
      var rj, rk := libs[j].libRelPath, libs[k].libRelPath;
      assert LibNames(libs)[j] != LibNames(libs)[k];
      assert rj != rk;
      assert pj[|c|..|pj| - 1] == rj;
      assert pk[|c|..|pk| - 1] == rk;
    }
  }

  /**
   * Idempotence of the whole engine: when parsing a serialised document
   * gives that document back, a second run over the files left by a first
   * run performs no write.
   */
  lemma RerunWritesNothing(root: Path, entries: seq<DirEntry>, files: Files,
                           parse: string -> Option<Document>, serialize: Document -> string)
    requires WalkShaped(root, entries)
    requires forall d :: parse(serialize(d)) == Some(d)
    ensures RunWrites(root, entries,
                      ApplyWrites(files, RunWrites(root, entries, files, parse, serialize)),
                      parse, serialize) == []
  {
    var libs1 := Libs(root, entries, files, parse);
    var files2 := ApplyWrites(files, RunWrites(root, entries, files, parse, serialize));
    var libs2 := Libs(root, entries, files2, parse);
    assert LibNames(libs2) == LibNames(libs1);
    if Distinct(LibNames(libs1)) {
      var b1, b2 := LibAnalysisBundle.New(libs1), LibAnalysisBundle.New(libs2);
      BundlesAgree(libs1, libs2);
      AccessPathsDistinct(root, entries, files, parse);
      forall i | 0 <= i < |libs2|
        ensures WriteLib(Fixed(libs2[i], b2), serialize).None?
      {
        var lib1, lib2 := libs1[i], libs2[i];
        var p := lib1.cargoTomlAccessPath;
        ApplyPlannedAt(files, libs1, b1, serialize, i);
        assert lib2.cargoToml == ReadManifest(files2, p, parse);
        assert lib1.cargoToml == ReadManifest(files, p, parse);
        match WriteLib(Fixed(lib1, b1), serialize)
        case Some(w) =>
          var fd := FixedDoc(lib1.cargoToml.value.doc, lib1.libName, lib1.libRelPath, b1);
          assert w.text == serialize(fd);
          assert lib2.cargoToml == Some(TomlFile(serialize(fd), fd));
          FixedDocSameTargets(fd, lib1.libName, lib1.libRelPath, b1, b2);
          FixedDocIdempotent(lib1.cargoToml.value.doc, lib1.libName, lib1.libRelPath, b1);
        case None =>
          assert lib2.cargoToml == lib1.cargoToml;
          if lib1.cargoToml.Some? {
            FixedDocSameTargets(lib1.cargoToml.value.doc, lib1.libName, lib1.libRelPath, b1, b2);
          }
      }
      PlannedNone(libs2, b2, serialize);
    }
  }
}
