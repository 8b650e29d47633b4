# clang-tidy-gui, modelled in Dafny

clang-tidy-gui is a small desktop front end that applies clang-tidy checks to a
C++ project one check at a time. The configuration holds the path of the
`run-clang-tidy` script, the project path and an ordered list of fixes. Each
fix is a check name with an enabled flag. At start-up the program:

- loads `config.json`, or starts from an empty configuration when it cannot;
- merges in the check names listed in `fixes.txt`, appending only the names
  that are not present yet.

In the window the user sets paths, selects or deselects all fixes, and
filters the list by a case-insensitive substring. Ticking a fix's box records
a change; the changes are applied after the scan. A Start button hands a copy
of the configuration to a background worker. For each enabled fix, in order,
the worker writes a `.clang-tidy` file that selects only that check, then runs
`python <run-clang-tidy> . -fix "-j 10"` in the project directory. It stops
at the first iteration that sees the cancel flag set.

The model has one module per source file, plus two helper modules:

- `Wrappers` holds `Option`.
- `Text` (text.dfy) holds an ASCII case fold, substring search, and splitting
  and joining on a separator, with their round trips.
- `FixConfig` (config.dfy) models `src/config.rs`. `Config` is a class whose
  setters change its fields in place. A ghost counter `saves` counts calls of
  `save()`. `ConfigValue` is the value copy that `clone()` produces.
- `TidyRunner` (utils.dfy) models `src/utils.rs`. `ProcessFixes` is the loop.
  It returns the sequence of events it asks of the outside world: a `Write`
  of the `.clang-tidy` file and a `Launch` of the process. The loop is proved
  equal to the specification function `Trace`, and the lemmas are about
  `Trace`.
- `Startup` (main.dfy) models `src/main.rs`. `MergeAvailableFixes` is the
  append-if-absent loop over a `Config`, and `Merged` is its specification.
- `Gui` (ui.dfy) models the non-drawing logic of `src/ui.rs`, as the class
  `Application`.

Inputs that come from outside the program are parameters:

- the parsed `config.json` (`None` when it cannot be loaded);
- the lines of `fixes.txt` (`None` when it cannot be read);
- which check boxes the user clicked (a set of list positions);
- the iteration at which the worker first reads the cancel flag as set;
- which file writes fail.

## Model

| member | source | states |
|---|---|---|
| `FixConfig.Config.constructor` | src/config.rs:25-33 | a new configuration has four empty strings and no fixes, and nothing has been saved |
| `FixConfig.Config.SetRunClangTidyPath` | src/config.rs:56-59 | replaces only the tool path; every other field and the fix list stay as they were; saves once |
| `FixConfig.Config.SetProjectPath` | src/config.rs:61-64 | replaces only the project path; everything else stays; saves once |
| `FixConfig.Config.SetBuildCommandsPath` | src/config.rs:66-69 | replaces only the build-commands path; everything else stays; saves once |
| `FixConfig.Config.SetFixEnabled` | src/config.rs:71-76 | the fix list becomes `WithFixEnabled` of the old one and no other field changes; saves exactly when some fix has the name |
| `FixConfig.Config.FromValue` | src/config.rs:35-41 | the configuration `from_json_file` reads back, once the JSON is parsed: exactly the given value, nothing saved |
| `FixConfig.Config.Value` | src/ui.rs:43 | the `clone()` of the configuration: a value that later edits of the object cannot reach; `Gui.Application.StartProcessing` hands it to the worker |
| `FixConfig.Config.Save` | src/config.rs:49-55 | `save()` adds one to the save count; writing the JSON file is not modelled |
| `FixConfig.IndexOfName` | src/config.rs:72 | the position `find` stops at: it holds the name, no earlier fix does, and there is none exactly when no fix has the name |
| `FixConfig.Find` | src/config.rs:72 | the scan returns the position of the first fix with the name, or `None` |
| `FixConfig.Any` | src/main.rs:25-28 | the scan answers true exactly when some fix has the name |
| `FixConfig.IndexOfUniqueName` | src/config.rs:72 | with unique names, a fix's own name leads back to its position |
| `FixConfig.WithFixEnabled` | src/config.rs:71-73 | same length, order and names; exactly the first fix with the name takes the new flag; every other fix is unchanged |
| `FixConfig.SetUnknownFixChangesNothing` | src/config.rs:72-75 | a name no fix carries leaves the list unchanged |
| `FixConfig.SetFixEnabledTwice` | src/config.rs:71-74 | a second `set_fix_enabled` on the same name overrides the first, so setting the same flag twice equals setting it once |
| `FixConfig.SetFixEnabledCommutes` | src/config.rs:71-74 | setting two different names gives the same result in either order |
| `FixConfig.SameNamesHasName` | src/config.rs:72 | lists with the same names contain the same names |
| `FixConfig.FixesFromLines` | src/config.rs:84-87 | one fix per line, in line order, named by the line and disabled |
| `FixConfig.LoadFixes` | src/config.rs:82-89 | the push loop builds exactly `FixesFromLines` of the lines |
| `TidyRunner.ChecksString` | src/utils.rs:59-65 | builds `-*` then `,<check>` per check; its meaning is stated by `TidyRunner.ChecksStringRoundTrip` and `TidyRunner.SingleCheckString` |
| `TidyRunner.Contents` | src/utils.rs:68-79 | builds the file text; its layout is stated by `TidyRunner.ContentsLines` |
| `TidyRunner.WriteClangTidyFile` | src/utils.rs:52-87 | the write of `<dir>/.clang-tidy`; its target and contents are stated by `TidyRunner.WrittenFileSelectsChecks` |
| `TidyRunner.LaunchArgs` | src/utils.rs:27 | the argument vector; stated as `[tool, ".", "-fix", "-j 10"]` at every launch by `TidyRunner.StepsShape` |
| `TidyRunner.RunProcessAndWait` | src/utils.rs:34-44 | one launch event with command, arguments and working directory; its use in the loop is stated by `TidyRunner.StepsShape` |
| `TidyRunner.EnabledNames` | src/utils.rs:10-18 | the names the loop applies; stated by `TidyRunner.EnabledNamesMembers`, `TidyRunner.EnabledNamesAppend` and `TidyRunner.EnabledNamesSingle` |
| `TidyRunner.Trace` | src/utils.rs:10-29 | the specification of the loop's events; `TidyRunner.ProcessFixes` is proved equal to it, and `TidyRunner.RunAppliesEnabledFixes`, `TidyRunner.CancelledRunIsPrefix` and `TidyRunner.LaterFixesUnused` state what it contains |
| `TidyRunner.ChecksStringRoundTrip` | src/utils.rs:59-65 | the selection string reads back as `-*` followed by exactly the given checks, in order |
| `TidyRunner.SingleCheckString` | src/utils.rs:59-65 | one check yields `-*,<name>` |
| `TidyRunner.PrefixedFreeOf` | src/utils.rs:59-65 | a selection built from newline-free names contains no newline |
| `TidyRunner.ContentsLines` | src/utils.rs:68-79 | the file consists of the `Checks: '<selection>'` line followed by the seven fixed lines, each ending in a newline |
| `TidyRunner.WrittenFileSelectsChecks` | src/utils.rs:52-87 | the file goes to the project path joined with `.clang-tidy`, and its text parses back to exactly the given checks |
| `TidyRunner.Cutoff` | src/utils.rs:10-14 | the loop never reads past the end of the list |
| `TidyRunner.ProcessFixes` | src/utils.rs:9-32 | the loop, with `break` on cancel and `continue` on disabled fixes, emits exactly `Trace`: a write-then-launch pair per enabled fix before the cancel point |
| `TidyRunner.EnabledNamesAppend` | src/utils.rs:10-18 | the applied names of a concatenation are the applied names of its parts, concatenated |
| `TidyRunner.EnabledNamesSingle` | src/utils.rs:16-18 | a single fix contributes its name exactly when it is enabled |
| `TidyRunner.EnabledNamesMembers` | src/utils.rs:10-18 | a name is applied exactly when some enabled fix carries it |
| `TidyRunner.StepsShape` | src/utils.rs:22-28 | the `j`-th pair is the write of a file selecting only the `j`-th name, then the launch of `python` with `[tool, ".", "-fix", "-j 10"]` in the project directory |
| `TidyRunner.StepsPrefix` | src/utils.rs:10-29 | the steps for a prefix of the names are a prefix of the steps |
| `TidyRunner.RunAppliesEnabledFixes` | src/utils.rs:10-29 | without a cancel, the run writes and launches once per enabled fix, in list order; the `j`-th pair belongs to the `j`-th enabled fix |
| `TidyRunner.DisabledFixIsSkipped` | src/utils.rs:16-18 | removing a disabled fix from the list does not change the run |
| `TidyRunner.EnabledNamesWithout` | src/utils.rs:16-18 | deleting a disabled fix from the list leaves the applied names unchanged |
| `TidyRunner.CancelledRunIsPrefix` | src/utils.rs:10-14 | a cancelled run does a prefix of what the uncancelled run does |
| `TidyRunner.LaterFixesUnused` | src/utils.rs:10-14 | once the flag is seen at iteration `k`, the run depends only on the first `k` fixes, enabled or not |
| `TidyRunner.CancelledRunLaunches` | src/utils.rs:10-14 | a run cancelled at `k` makes two events per enabled fix among the first `k`; a flag set from the start gives an empty run |
| `TidyRunner.WriteFailuresDoNotStopTheRun` | src/utils.rs:24 | whichever writes fail, the same files are attempted and the same processes launched |
| `TidyRunner.EachWriteSelectsOneCheck` | src/utils.rs:22-28 | every file written for a fix with a plain name selects exactly that check |
| `Startup.Merged` | src/main.rs:24-31 | the fix list after the merge; stated by `Startup.MergeKeepsKnown`, `Startup.MergeNames`, `Startup.MergeAppendsFirstOccurrences` and `Startup.MergeIdempotent` |
| `Startup.LoadedOrNew` | src/main.rs:15-18 | the loaded configuration, or `Config::new()` when loading failed; used by the contract of `Startup.Start` |
| `Startup.MergeKeepsKnown` | src/main.rs:24-31 | the entries that were present stay as a prefix, unchanged and in order |
| `Startup.MergeNames` | src/main.rs:24-31 | a name is in the merged list exactly when it was present or is in the catalog |
| `Startup.HasNameSnoc` | src/main.rs:25-30 | appending an entry adds exactly its name to the names present |
| `Startup.IndexOfNameSnoc` | src/main.rs:25-30 | appending an entry does not move the first occurrence of a name already present |
| `Startup.MergeAppendsFirstOccurrences` | src/main.rs:25-30 | every appended entry has a name that was not present and is that name's first occurrence in the catalog |
| `Startup.MergeFollowsCatalogOrder` | src/main.rs:24-31 | the appended entries follow the catalog order of their names' first occurrences, strictly increasing |
| `Startup.MergeKeepsNamesUnique` | src/main.rs:25-30 | unique names before the merge stay unique after it |
| `Startup.MergeCoveredIsIdentity` | src/main.rs:24-31 | a catalog whose names are all present changes nothing |
| `Startup.MergeIdempotent` | src/main.rs:24-31 | merging the same catalog twice equals merging it once |
| `Startup.MergeLoadedCatalog` | src/main.rs:23-31 | after merging `fixes.txt`: the old entries are a prefix, every line names some fix, and every appended fix is disabled |
| `Startup.MergeAvailableFixes` | src/main.rs:24-31 | the loop of `any` scans and `push`es leaves fixes equal to `Merged` of the old list, and changes nothing else and saves nothing |
| `Startup.Start` | src/main.rs:12-41 | fails exactly when `fixes.txt` cannot be read; otherwise a new, unsaved configuration: the loaded one (or `Config::new()` when loading failed) with the catalog merged in |
| `Gui.Matches` | src/ui.rs:221-224 | the filter test; stated by `Gui.EmptyFilterMatchesAll` and `Gui.FilterIgnoresCase` |
| `Gui.ToggleRequests` | src/ui.rs:219-234 | the changes the scan records; `Gui.CollectChanges` is proved equal to it and `Gui.RequestComesFromVisibleClick` states where each change comes from |
| `Gui.AppliedChanges` | src/ui.rs:237-239 | the fix list after the changes; stated by `Gui.AppliedChangesKeepNames`, `Gui.UntouchedFixesKeepFlag` and `Gui.ToggleEffect` |
| `Gui.EmptyFilterMatchesAll` | src/ui.rs:220-224 | an empty search text lists every fix |
| `Gui.FilterIgnoresCase` | src/ui.rs:220-224 | lower-casing the name or the search text does not change what is listed |
| `Gui.CollectChanges` | src/ui.rs:219-234 | the scan only reads the list and records `(name, flipped flag)` for each listed, clicked fix, in list order |
| `Gui.RequestComesFromVisibleClick` | src/ui.rs:219-234 | every recorded change names a listed fix that was clicked and carries its flipped flag |
| `Gui.AppliedChangesKeepNames` | src/ui.rs:236-239 | applying the changes keeps the number, order and names of the fixes |
| `Gui.UntouchedFixesKeepFlag` | src/ui.rs:226-239 | a fix that no change names keeps its flag |
| `Gui.ToggleRequestsSnoc` | src/ui.rs:220-234 | scanning one more fix adds at most that fix's change |
| `Gui.WithFixEnabledAt` | src/config.rs:71-73 | with unique names, setting by a fix's name touches only that fix |
| `Gui.ToggledStep` | src/ui.rs:219-239 | one more scanned position flips that fix's flag exactly when it is listed and clicked |
| `Gui.AppliedChangesSnoc` | src/ui.rs:237-239 | one more change is one more `set_fix_enabled` |
| `Gui.ToggledPrefix` | src/ui.rs:219-239 | with unique names, applying the changes from a scanned prefix flips exactly the listed, clicked fixes in that prefix |
| `Gui.ToggleEffect` | src/ui.rs:219-239 | with unique names, the deferred application flips exactly the listed fixes the user clicked; everything else stays |
| `Gui.PresentCount` | src/config.rs:72-75 | counts the changes whose name some fix carries: at most all of them, and all of them exactly when every change names a present fix |
| `Gui.RequestsNameListedFixes` | src/ui.rs:219-239 | every change the scan records names a fix of the list, so applying them saves once per change |
| `Gui.Application.constructor` | src/ui.rs:28-38 | a new window: nothing selected, empty search, not running, flag clear, progress 0 |
| `Gui.Application.StartProcessing` | src/ui.rs:40-47 | sets running and progress 0, hands the worker a copy of the configuration, and leaves the cancel flag as it is |
| `Gui.Application.StartProcessingFresh` | src/ui.rs:40-47 | corrected start: as `StartProcessing`, and the cancel flag is cleared |
| `Gui.Application.CancelProcessing` | src/ui.rs:55-57 | only stores true, so pressing twice equals pressing once |
| `Gui.Application.RunInBackground` | src/ui.rs:49-52 | the worker's run is `Trace` of the copy, with the flag seen at the first iteration if it was already set; then running is cleared and progress is untouched |
| `Gui.Application.SelectAllClicked` | src/ui.rs:209-215 | the box flips, every fix takes its new value with name, order and length unchanged, and the configuration is saved once |
| `Gui.Application.ApplyChanges` | src/ui.rs:236-239 | the changes go through `set_fix_enabled` in recorded order; the saves grow by `PresentCount`, one per change whose name is present |
| `Gui.Application.UpdateFixList` | src/ui.rs:219-239 | the fix list after a frame is the recorded changes applied to the list as it was scanned, and the configuration is saved once per recorded change |
| `Gui.CancelThenRestart` | src/ui.rs:40-57 | as written: after a cancelled run, a new start with no press applies nothing, although the configuration has enabled fixes |
| `Gui.CancelThenRestartFresh` | src/ui.rs:40-57 | with the corrected start, the next run applies every enabled fix again |

## Left out

- Drawing the window: egui layout, widget sizes, the progress bar, and the file dialogs that pick paths (src/ui.rs:59-193). The Start button is enabled only when no run is under way (src/ui.rs:146-164). The model does not check this; a caller of `StartProcessing` is not required to test `isRunning`.
- Threads and the shared cells (`Arc`, `Mutex`, `AtomicBool`). A run is modelled as a start followed by the worker's whole run. A cancel press during the run is the iteration at which the worker first reads the flag.
- Running the process: the subprocess and its captured output. A launch is one event. The process's exit status is never inspected, so a process that runs and fails does not change which fixes run next.
- A launch that cannot start: `expect` then panics (src/utils.rs:40-41). The worker thread ends there, so the remaining fixes are skipped. `is_running` is never cleared (src/ui.rs:51), and the Start button stays disabled. The model assumes every launch starts. `Gui.Application.RunInBackground`: its `!isRunning` and its full `Trace` hold only under that assumption.
- Creating and writing the file on disk, and the log lines the program prints. Whether a write succeeds is an input. The loop discards the write's result, and the model does too. This is where the source's behaviour differs from a design in which a failed write ends the run; the model follows the source.
- JSON loading and saving through serde. A loaded configuration is a parameter, and `save()` is a ghost counter.
- Reading `fixes.txt`: the model starts from its lines. A read error in the middle of the file is not modelled.
- The progress value: the source stores an `f32`. The worker call at src/ui.rs:50 passes three arguments to a `process_fixes` that takes two (src/utils.rs:9). No code updates the value during a run. The model keeps it as a `real` set to 0 at start and never changed by the worker.
- `Gui.Matches`: Rust's `to_lowercase` applies the Unicode lower-case mapping, which covers letters outside ASCII and can change a string's length. The model lower-cases ASCII letters only, and the filter lemmas are stated for that mapping.
- `TidyRunner.WriteClangTidyFile`: joining the directory and `.clang-tidy` follows the platform's path rules. The model keeps the pair `Joined(dir, file)`.
- `TidyRunner.WrittenFileSelectsChecks`: the read-back holds for check names without commas or newlines. A name containing either cannot be told apart from the separators in the file.
- `Gui.ToggleEffect`: stated for lists with unique names, which is what the merge gives (`Startup.MergeKeepsNamesUnique`). With duplicate names, `set_fix_enabled` reaches only the first fix of a name, and `Gui.Application.ApplyChanges` still describes that exactly.

## Findings

| source | as written | input that shows it | evidently intended | confidence | as-written member | corrected member |
|---|---|---|---|---|---|---|
| src/ui.rs:40-57 | `start_processing` does not clear `cancel_flag`, and nothing else resets it after `cancel_processing` stores `true` | one fix, enabled; Start, Cancel, then Start again: the second run sees the flag at its first iteration and applies nothing | each start begins with the flag cleared, so a new run applies every enabled fix | not executed | `Gui.CancelThenRestart` (with `Gui.Application.StartProcessing`) | `Gui.CancelThenRestartFresh` (with `Gui.Application.StartProcessingFresh`) |
