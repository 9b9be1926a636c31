# luma-impl-meta: a verified model of the library fixer

`luma-impl-meta` maintains a Cargo workspace of many small libraries. Each
library lives in a directory whose name ends in `.lib` below `<root>/crates`.
The `fix` command derives every library's canonical name from its directory:
`foo/util.lib` becomes `foo-util`, and `foo/core.lib` becomes `foo`. It
refuses to go on when two libraries share a name. Otherwise it rewrites every
`Cargo.toml`: `package.name` becomes the canonical name, and each inline
dependency that has a `path` gets the relative path to the library of that
name (`NOT_FOUND` when there is none). The dependency table is then sorted by
key, and the file is written back only when its text changed. The
`watch-fix` command reruns `fix` whenever a `Cargo.toml` below `crates`
changes. It ignores events for 300 ms after an accepted one. It keeps at most
one run in flight and at most one follow-up queued.

The project has five modules:

- `Wrappers` holds `Option` and `Outcome`.
- `Paths` covers path components, the library-directory predicate, canonical
  names, common prefixes, relative paths and their resolution.
- `Manifest` is an abstract manifest document and the sort of a dependency
  table by key.
- `FixEngine` covers library analysis, name validation, the registry, the
  per-library rewrite, the write decision and the whole `fix` run.
- `WatchFix` covers the event filter and the debounce/coalescing scheduler.

Each operation the source performs step by step is a `method`. Most methods
are proved equal to a specification function, and the properties are lemmas
about those functions. The grouping and reporting loops of the name check,
and the outcome of `fix`, are specified directly by the properties they
guarantee. The file system is a map from paths to texts. A walk
of the crates directory is a sequence of entries. Parsing and serialising
TOML are function parameters. The two shared variables of the watcher are
fields of `WatchFix.Scheduler`, with one method per thread action, and the
pure transition function `WatchFix.Next` specifies them.

The main theorem is `FixEngine.RerunWritesNothing`. Assume that parsing a
serialised document gives that document back. Then a second `fix` over the
files left by a first one writes nothing.

The watcher's debounce is sometimes summarised as "five events inside one
window cause two runs". The code does something different. It ignores every
event while `accepting` is set, so a burst inside one window starting from
idle causes exactly one run. The model follows the code
(`WatchFix.BurstStartsOneRun`). A coalesced follow-up run happens only when
a new window opens while the first run is still in flight
(`WatchFix.AcceptedDuringRunIsFollowedUp`). An event accepted after the first
run has finished starts a fresh run.

## Model

| member | source | states |
|---|---|---|
| Paths.IsLibDir | src/fix.rs:9-29 | true exactly for a directory whose last component is a `.lib` name and none of whose earlier components is one; a non-directory is never one; a directory path must be non-empty |
| Paths.NestedMarkedDirIsExcluded | src/fix.rs:7-8 | the documented exclusion: `a.lib/b.lib` is not a library directory |
| Paths.TrimEndMatches | src/fix.rs:46 | the result is a prefix of the input that no longer ends with the suffix; an input not ending with it is returned unchanged |
| Paths.TrimStripsOnlyCopies | src/fix.rs:46 | only trailing copies of the suffix are removed: the result followed by as many copies of the suffix as were stripped is the input; with the result not ending in the suffix this fixes it |
| Paths.TrimRepeatedMarker | src/fix.rs:46 | `x.lib.lib` is trimmed to `x` |
| Paths.LibRelPathToLibName | src/fix.rs:35-52 | computes `CanonicalName` of the relative path (the `.lib` marker trimmed from the last segment, a final `core` dropped, the segments joined with `-`) |
| Paths.CanonicalNameOfMarked | src/fix.rs:35-52 | the name of `init/t.lib` (one marker): `init`'s segments and the unmarked last segment joined with `-`, except that a last segment `core` is dropped |
| Paths.NameOfTopLevelLib | src/fix.rs:31 | `foo.lib` is named `foo` |
| Paths.NameOfCoreLib | src/fix.rs:32 | `foo/core.lib` is named `foo` |
| Paths.NameOfNestedLib | src/fix.rs:33 | `foo/util.lib` is named `foo-util` |
| Paths.NameOfDeepLib | src/fix.rs:34 | `foo/util/bar.lib` is named `foo-util-bar` |
| Paths.CoreNameCollision | src/fix.rs:46-51 | different directories can share a name: `foo.lib` and `foo/core.lib` are both `foo`, which is why names are validated |
| Paths.HyphenNameCollision | src/fix.rs:46-51 | `foo/bar.lib` and `foo-bar.lib` are both `foo-bar` |
| Paths.CoreKeptWhenNotLast | src/fix.rs:48-50 | only a last segment `core` is dropped: `core/util.lib` is `core-util` |
| Paths.RepeatedMarkerTrimmed | src/fix.rs:46 | every trailing `.lib` is trimmed, so `x.lib.lib` is named like `x.lib` |
| Paths.Common | src/fix.rs:102-114 | the result is a prefix of both paths and cannot be extended: it ends where one path ends or where they first differ |
| Paths.CommonUnique | src/fix.rs:102-114 | any maximal common prefix is that one |
| Paths.CommonIsLongest | src/fix.rs:102-114 | every common prefix is a prefix of it |
| Paths.CommonPrefix | src/fix.rs:102-114 | the zip-and-break loop computes `Common` |
| Paths.RelativePath | src/fix.rs:116-129 | the two loops compute as many `..` as `from` has components beyond the common prefix, followed by `to`'s remaining components |
| Paths.RelativeToSelf | src/fix.rs:116-129 | the path from a directory to itself is empty |
| Paths.RelativeLength | src/fix.rs:116-129 | the relative path has `|from| + |to| - 2·|common|` components |
| Paths.ResolveUps | src/fix.rs:122-124 | each leading `..` climbs one directory |
| Paths.ResolveDescend | src/fix.rs:125-127 | components without `..` descend |
| Paths.RelativeResolves | src/fix.rs:116-129 | resolving the relative path from `from` leads to `to` whenever `to` contains no `..` |
| Paths.RenderRelativeExamples | src/fix.rs:165-172 | from `x/a` the path to `x/y/b` is written `../y/b`, and from `x/a/c` it is `../../y/b` |
| Manifest.KeyLeTotal | src/fix.rs:179 | the key order is total |
| Manifest.Insert | src/fix.rs:179 | inserting into a sorted table keeps it sorted, adds exactly that entry, and places it first or keeps the old first |
| Manifest.SortByKey | src/fix.rs:179 | the sorted table is ordered by key and is a permutation of the original |
| Manifest.SortKeepsSorted | src/fix.rs:179 | a table already in key order is left as it is |
| Manifest.SortIdempotent | src/fix.rs:179 | sorting twice is sorting once |
| Manifest.SortSameEntries | src/fix.rs:179 | sorting keeps exactly the same entries |
| FixEngine.AnalyzeLib | src/fix.rs:66-83 | the manifest path is `crates/<rel>/Cargo.toml`; the name is the canonical one; a manifest is present exactly when the file exists and parses, and it keeps the text read and its parse |
| FixEngine.CountPositive | src/fix.rs:131-135 | a name has a positive count exactly when it occurs |
| FixEngine.DistinctIffCountsAtMostOne | src/fix.rs:131-141 | names are pairwise distinct exactly when no name occurs twice |
| FixEngine.DistinctIffNoDuplicates | src/fix.rs:131-147 | names are distinct exactly when the set of duplicated names is empty |
| FixEngine.DuplicateMessageInjective | src/fix.rs:139 | different names give different messages |
| FixEngine.GroupByName | src/fix.rs:132-135 | the grouping map's keys are exactly the names, and each group holds as many libraries as carry that name |
| FixEngine.ReportDuplicates | src/fix.rs:136-141 | visiting the keys in an unspecified order yields each duplicated name's message exactly once |
| FixEngine.CheckLibs | src/fix.rs:131-147 | (with the helper `LibNames`, the names in list order) `Ok` exactly when the names are distinct; otherwise a non-empty list without repeats whose messages are exactly `multiple libs with the same name: <n>` for the duplicated names |
| FixEngine.LibAnalysisBundle.New | src/fix.rs:90-96 | the registry's keys are exactly the names, and each name maps to a library of that name from the list |
| FixEngine.LastWith | src/fix.rs:91-94 | the entry a name-keyed collection keeps for a name: a library of that name after which no library carries it |
| FixEngine.SameNameSameIndex | src/fix.rs:131-147 | once names are validated, two libraries with the same name are the same library |
| FixEngine.BundleGetFound | src/fix.rs:97-99 | with distinct names, looking up a library's name finds that library |
| FixEngine.BundleGetMissing | src/fix.rs:97-99 | a name that no library has is not found |
| FixEngine.BundlesAgree | src/fix.rs:209-213 | registries of library lists that agree on names and directories resolve every name alike, whatever the manifests hold |
| FixEngine.RewriteDeps | src/fix.rs:162-177 | every entry keeps its key and its place; an entry that is not an inline table with `path` is left as it is; otherwise its `path` becomes the target path and every other field stays |
| FixEngine.FixLib | src/fix.rs:149-182 | the in-place loop over the dependency table computes `Fixed` |
| FixEngine.DepTargetMeaning | src/fix.rs:164-174 | a dependency with no library of its name gets `NOT_FOUND`; otherwise its new path is a relative path that resolves, from the library's directory, to the target's directory |
| FixEngine.RewriteDepFields | src/fix.rs:162-177 | the key stays; an entry that is not an inline table with `path` is untouched; otherwise only `path` changes |
| FixEngine.FixedFields | src/fix.rs:149-182 | without a manifest nothing changes; otherwise `package.name` becomes the canonical name and other package keys stay; the dependency table, if present, becomes a key-sorted permutation of the rewritten entries; the document's other parts, the text read and the paths stay |
| FixEngine.RewriteDepIdempotent | src/fix.rs:162-177 | rewriting an entry twice is rewriting it once |
| FixEngine.FixedDocIdempotent | src/fix.rs:149-182 | rewriting a document twice against the same registry is rewriting it once |
| FixEngine.FixedIdempotent | src/fix.rs:149-182 | `fix_lib` is idempotent |
| FixEngine.FixedDocSameTargets | src/fix.rs:164-174 | the rewrite depends on the registry only through where it resolves each name |
| FixEngine.WriteLib | src/fix.rs:184-193 | a write of the serialised document to the manifest's path happens, and `true` is returned, exactly when a manifest is present and its serialisation differs from the text read |
| FixEngine.CratesDirIsNotLib | src/fix.rs:196-200 | the crates directory itself is never taken for a library |
| FixEngine.LibRelPaths | src/fix.rs:196-203 | the relative paths are exactly those of the walked entries that are library directories, and each is non-empty and made of plain names |
| FixEngine.Libs | src/fix.rs:205-208 | one analysis per discovered library, in walk order: each keeps its relative path, gets the canonical name and the manifest path `crates/<rel>/Cargo.toml`, and has a manifest exactly when that file exists and parses |
| FixEngine.FixAndWriteAll | src/fix.rs:212-215 | each library is rewritten against the snapshot taken before the loop and written if it changed, in order |
| FixEngine.Fix | src/fix.rs:195-218 | `Ok` exactly when the discovered names are distinct; on `Err` nothing is written and the error lists each duplicated name once; the writes are exactly the planned writes of the rewrite |
| FixEngine.ApplyPlannedElsewhere | src/fix.rs:188 | a file that belongs to no library keeps its content after a run |
| FixEngine.ApplyPlannedLast | src/fix.rs:212-215 | the loop writes the last library's manifest, at its own path, after the writes for the libraries before it |
| FixEngine.ApplyPlannedAtLast | src/fix.rs:184-193 | after a run the last library's manifest holds what was written to it, or what it held before |
| FixEngine.ApplyPlannedAt | src/fix.rs:184-193 | after a run a manifest holds what the run wrote to it, or what it held before |
| FixEngine.PlannedNone | src/fix.rs:212-215 | when no library's rewrite changes its text, a run writes nothing |
| FixEngine.AccessPathsDistinct | src/fix.rs:67 | libraries with distinct names have distinct manifest files |
| FixEngine.RerunWritesNothing | src/fix.rs:195-218 | when parsing a serialised document returns it, a second run over the files left by a first run writes nothing |
| WatchFix.Qualifies | src/watch_fix.rs:47-56 | an event qualifies exactly when one of its paths ends in the component `Cargo.toml` |
| WatchFix.Next | src/watch_fix.rs:20-91 | every modelled step (runs that return, with any outcome) keeps at most one follow-up queued, one run in flight exactly while the counter is positive, and a pending reset exactly while events are suppressed; a step starts at most one run |
| WatchFix.Run | src/watch_fix.rs:15-92 | the invariant holds after any sequence of steps; no step sequence starts more runs than its length |
| WatchFix.SuppressedEventIgnored | src/watch_fix.rs:44-46 | while events are suppressed, or when the lock is poisoned, an event changes nothing |
| WatchFix.NonQualifyingEventIgnored | src/watch_fix.rs:47-56 | an event that names no manifest changes nothing |
| WatchFix.WatchErrorIgnored | src/watch_fix.rs:90 | a channel error is only logged |
| WatchFix.AcceptedEvent | src/watch_fix.rs:58-87 | an accepted event suppresses further events, schedules one reset, and bumps the counter (0 to 1 starting a run, 1 to 2, 2 stays) |
| WatchFix.CompletionStep | src/watch_fix.rs:20-38 | a completion decrements the counter without underflow and starts the next run exactly when it stays positive, whatever the run's outcome |
| WatchFix.MessagesIgnoredWhileSuppressed | src/watch_fix.rs:44-46 | no sequence of messages changes a suppressed state |
| WatchFix.BurstStartsOneRun | src/watch_fix.rs:44-87 | events inside one window, starting from idle, start exactly one run |
| WatchFix.BusyStartsNothing | src/watch_fix.rs:65-80 | while a run is in flight and none completes, no run starts and the counter only grows, up to 2 |
| WatchFix.AtMostOneFollowUp | src/watch_fix.rs:27-37 | however many events arrive during a run, its completion starts at most one follow-up and leaves nothing queued |
| WatchFix.AcceptedDuringRunIsFollowedUp | src/watch_fix.rs:72-74 | an event accepted while a run is in flight is not lost: that run's completion starts a follow-up |
| WatchFix.DrainsInTwoCompletions | src/watch_fix.rs:27-37 | without new events two completions bring the scheduler to rest, starting at most one run between them |
| WatchFix.StalledForever | src/watch_fix.rs:65-80 | with the counter positive and no run in flight, no step ever starts a run: an event only bumps 1 to 2 or leaves 2 |
| WatchFix.PanicStallsWatcher | src/watch_fix.rs:20-37 | as written: after a run panics inside `fix`, no later sequence of steps starts `fix` again in the session |
| WatchFix.FailedRunDoesNotStall | src/watch_fix.rs:20-37 | as intended: a run that fails still decrements the counter, so the next accepted event starts a run |
| WatchFix.Scheduler.constructor | src/watch_fix.rs:13-14 | the session starts with events not suppressed, no run in flight or queued, and no reset pending |
| WatchFix.Scheduler.Receive | src/watch_fix.rs:42-91 | the watcher thread's handling of one message updates the shared state as `Next` prescribes, and reports a spawn exactly when a run starts |
| WatchFix.Scheduler.ResetFires | src/watch_fix.rs:82-86 | the delayed reset ends suppression as `Next` prescribes |
| WatchFix.Scheduler.RunCompletes | src/watch_fix.rs:27-37 | a finishing run decrements the counter as `Next` prescribes and respawns exactly when it stays positive |

## Left out

- The directory walk (`WalkDir`) is a parameter. It is a sequence of entries, each a relative path with a directory flag. Unreadable entries are already dropped. `FixEngine.WalkShaped` states what the walk yields: library directories below `crates` are plain names.
- File reads and writes are modelled on a map from paths to texts. An I/O error on write, which panics in the source, is not modelled.
- TOML parsing and serialisation are function parameters. `FixEngine.RerunWritesNothing` assumes that parsing a serialised document gives that document back. Comments, formatting and non-dependency tables are one opaque `rest` field.
- The rendering of a key in its `Display` form (quoting) is not modelled. The registry is looked up with the key's bare text.
- `package` entries that are not tables, which make the source panic on indexing, are not modelled; `package` is taken to be a table.
- `Paths.IsLibDir`: a directory with an empty path panics in the source. The model excludes it with a precondition.
- `Paths.Render`: the model joins components with `/`. It does not model `PathBuf` joining of root or prefix components, or non-UTF-8 names, which panic in the source.
- WatchFix.Next: a run that panics inside `fix` is not one of its steps, so its invariant speaks only of runs that return. In the source a panic (the `unwrap` of a failed write at src/fix.rs:188, of a non-UTF-8 name at src/fix.rs:40 or 170, or indexing a `package` that is not a table at src/fix.rs:153) unwinds the run thread before the decrement. `run_wait` then stays positive with no run in flight. `WatchFix.PanicStallsWatcher` shows this under "## Findings".
- Threads, the mutex retry loops with their 100 ms sleeps, and the 300 ms delay are not modelled. Concurrent interleavings are steps of `WatchFix.Next`, and the delay is the `ResetFires` step that may happen at any time after it was scheduled.
- A poisoned lock is modelled only when `accepting` is read for an event (`poisoned`). A poisoned lock in the reset thread, which would leave events suppressed for good, is not modelled.
- Watcher setup errors, the logging, and the command-line dispatch in `src/main.rs` are not part of this model.

## Findings

| source | as written | input that shows it | evidently intended | confidence | as-written member | corrected member |
|---|---|---|---|---|---|---|
| src/watch_fix.rs:20-37 | a panic inside `fix` unwinds the run thread before the decrement, so `run_wait` stays at 1 or 2 with no run in flight; every later accepted event only bumps it (lines 72-75), and `fix` never runs again in the session | a watch session whose first run fails to write a manifest (the `unwrap` at src/fix.rs:188), followed by any further `Cargo.toml` change | a failed run still decrements `run_wait`, so later events start new runs | not executed | WatchFix.PanicStallsWatcher | WatchFix.FailedRunDoesNotStall |
