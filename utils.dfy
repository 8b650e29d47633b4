/**
 * The fix-application loop (src/utils.rs): for every enabled fix, in list order,
 * write a `.clang-tidy` file that selects only that check and then launch
 * `python <run-clang-tidy> . -fix "-j 10"` in the project directory, until the
 * cancel flag is seen.
 *
 * The file system and the operating system are represented by the events the
 * loop emits: a `Write` of a file and a `Launch` of a process. The cancel flag,
 * set by another thread, is represented by the index of the first iteration that
 * reads it as true; the outcome of each file write is an input as well.
 */
module TidyRunner {
  import opened Wrappers
  import opened Text
  import opened FixConfig

  /** A path built by joining a directory and a file name; platform path rules are not modelled. */
  datatype FilePath = Joined(dir: string, file: string)

  /** What the loop asks of the outside world. */
  datatype Event =
    | Write(path: FilePath, contents: string, ok: bool)
    | Launch(command: string, args: seq<string>, cwd: string)

  const ClangTidyFileName := ".clang-tidy"
  const Python := "python"

  /** The lines that follow the `Checks:` line in every generated file. */
  const FixedLines := [
    "WarningsAsErrors: ''",
    "HeaderFilterRegex: ''",
    "AnalyzeTemporaryDtors: false",
    "FormatStyle: none",
    "User: ''",
    "ExtraArgs: []",
    "ExtraArgsBefore: []"
  ]

  /** `-*` (disable every check) followed by `,<check>` for each check to enable, in order. */
  function ChecksString(checks: seq<string>): string {
    "-*" + Prefixed(checks, ',')
  }

  /** The first line of the file, quoting the check selection. */
  function ChecksLine(checksStr: string): string {
    "Checks: '" + checksStr + "'"
  }

  /** The text of the generated file: the `Checks:` line then the fixed lines, each ending in a newline. */
  function Contents(checksStr: string): string {
    Terminated([ChecksLine(checksStr)] + FixedLines, '\n')
  }

  /** Reads a check selection back: `-*` then the enabled checks. */
  function ParseChecks(s: string): Option<seq<string>> {
    if |s| >= 2 && s[..2] == "-*" then SplitPrefixed(s[2..], ',') else None
  }

  /** Reads the enabled checks back out of a generated file; `None` for any other text. */
  function ParseContents(text: string): Option<seq<string>> {
    var lines := SplitTerminated(text, '\n');
    if |lines| == 1 + |FixedLines| && lines[1..] == FixedLines
       && |lines[0]| >= 10 && lines[0][..9] == "Checks: '" && lines[0][|lines[0]| - 1] == '\''
    then ParseChecks(lines[0][9..|lines[0]| - 1])
    else None
  }

  /** Check names that the comma list and the line layout can carry unambiguously. */
  predicate PlainChecks(checks: seq<string>) {
    FreeOf(checks, ',') && FreeOf(checks, '\n')
  }

  /** The check selection names exactly the given checks, in order. */
  lemma {:induction false} ChecksStringRoundTrip(checks: seq<string>)
    requires FreeOf(checks, ',')
    ensures ParseChecks(ChecksString(checks)) == Some(checks)
  {
    var s := ChecksString(checks);
    assert s[..2] == "-*";
    assert s[2..] == Prefixed(checks, ',');
    SplitPrefixedRoundTrip(checks, ',');
  }

  /** A single check yields `-*,<name>`. */
  lemma SingleCheckString(name: string)
    ensures ChecksString([name]) == "-*," + name
  {
    assert Prefixed([name], ',') == [','] + name + Prefixed([], ',');
  }

  /** No newline inside a selection built from newline-free checks. */
  lemma {:induction false} PrefixedFreeOf(items: seq<string>, sep: char, c: char)
    requires FreeOf(items, c) && sep != c
    ensures c !in Prefixed(items, sep)
  {
    if items != [] {
      assert FreeOf(items[1..], c) by {
        forall i | 0 <= i < |items[1..]| ensures c !in items[1..][i] {
          assert items[1..][i] == items[i + 1];
        }
      }
      PrefixedFreeOf(items[1..], sep, c);
      assert c !in items[0];
    }
  }

  /** The file is the `Checks:` line followed by the seven fixed lines. */
  lemma {:induction false} ContentsLines(checks: seq<string>)
    requires FreeOf(checks, '\n')
    ensures SplitTerminated(Contents(ChecksString(checks)), '\n')
         == [ChecksLine(ChecksString(checks))] + FixedLines
  {
    PrefixedFreeOf(checks, ',', '\n');
    var lines := [ChecksLine(ChecksString(checks))] + FixedLines;
    assert '\n' !in ChecksString(checks);
    assert '\n' !in ChecksLine(ChecksString(checks));
    assert FreeOf(lines, '\n');
    SplitTerminatedRoundTrip(lines, '\n');
  }

  /**
   * `write_clang_tidy_file(dir, checks)`: overwrites `<dir>/.clang-tidy` with a
   * file selecting `checks`. `ioOk` is whether the file system accepted the write.
   */
  function WriteClangTidyFile(dir: string, checks: seq<string>, ioOk: bool): Event {
    Write(Joined(dir, ClangTidyFileName), Contents(ChecksString(checks)), ioOk)
  }

  /** The written file goes to `<dir>/.clang-tidy` and selects exactly `checks`, in order, and nothing else. */
  lemma WrittenFileSelectsChecks(dir: string, checks: seq<string>, ioOk: bool)
    requires PlainChecks(checks)
    ensures var e := WriteClangTidyFile(dir, checks, ioOk);
      e.Write? && e.path == Joined(dir, ".clang-tidy") && ParseContents(e.contents) == Some(checks)
  {
    ContentsLines(checks);
    ChecksStringRoundTrip(checks);
    var line := ChecksLine(ChecksString(checks));
    assert line[..9] == "Checks: '";
    assert line[9..|line| - 1] == ChecksString(checks);
  }

  /** The argument vector handed to `python`. */
  function LaunchArgs(runClangTidyPath: string): seq<string> {
    [runClangTidyPath, ".", "-fix", "-j 10"]
  }

  /** `run_process_and_wait`: starts the process and waits; its output is only printed. */
  function RunProcessAndWait(command: string, args: seq<string>, cwd: string): Event {
    Launch(command, args, cwd)
  }

  /** The fixes the loop reads before it stops: all of them, or those before the cancel point. */
  function Cutoff(count: nat, cancelAt: Option<nat>): (n: nat)
    ensures n <= count
  {
    match cancelAt
    case None => count
    case Some(k) => if k < count then k else count
  }

  /** Names of the enabled fixes, in list order; disabled fixes contribute nothing. */
  function EnabledNames(fixes: seq<Fix>): seq<string> {
    if fixes == [] then []
    else
      var last := fixes[|fixes| - 1];
      EnabledNames(fixes[..|fixes| - 1]) + (if last.enabled then [last.name] else [])
  }

  /**
   * The write-then-launch pairs for the given names, with the tool at `tool` and
   * the project at `project`; the `j`-th write fails when `j` is in `failedWrites`.
   */
  function Steps(tool: string, project: string, names: seq<string>, failedWrites: set<nat>): seq<Event> {
    if names == [] then []
    else
      var j := |names| - 1;
      Steps(tool, project, names[..j], failedWrites)
        + [WriteClangTidyFile(project, [names[j]], j !in failedWrites),
           RunProcessAndWait(Python, LaunchArgs(tool), project)]
  }

  /** The names the loop applies: the enabled fixes before the cancel point. */
  function Applied(config: ConfigValue, cancelAt: Option<nat>): seq<string> {
    EnabledNames(config.fixes[..Cutoff(|config.fixes|, cancelAt)])
  }

  /** Everything `process_fixes` asks of the outside world, in order. */
  function Trace(config: ConfigValue, cancelAt: Option<nat>, failedWrites: set<nat>): seq<Event> {
    Steps(config.runClangTidyPath, config.projectPath, Applied(config, cancelAt), failedWrites)
  }

  /**
   * `process_fixes`. `cancelAt` is the first iteration (over all fixes, enabled or
   * not) at whose top the cancel flag reads true; `failedWrites` holds the numbers
   * of the write attempts that fail. The write's result is discarded.
   */
  method ProcessFixes(config: ConfigValue, cancelAt: Option<nat>, failedWrites: set<nat>)
    returns (trace: seq<Event>)
    ensures trace == Trace(config, cancelAt, failedWrites)
  {
    trace := [];
    ghost var done: seq<string> := [];
    var writes := 0;
    for i := 0 to |config.fixes|
      invariant cancelAt.Some? ==> i <= cancelAt.value
      invariant done == EnabledNames(config.fixes[..i]) && writes == |done|
      invariant trace == Steps(config.runClangTidyPath, config.projectPath, done, failedWrites)
    {
      if cancelAt == Some(i) {
        break;
      }
      var fix := config.fixes[i];
      assert config.fixes[..i + 1][..i] == config.fixes[..i];
      if !fix.enabled {
        continue;
      }
      var written := WriteClangTidyFile(config.projectPath, [fix.name], writes !in failedWrites);
      var launched := RunProcessAndWait(Python, LaunchArgs(config.runClangTidyPath), config.projectPath);
      trace := trace + [written, launched];
      assert (done + [fix.name])[..writes] == done;
      done := done + [fix.name];
      writes := writes + 1;
    }
    assert config.fixes[..|config.fixes|] == config.fixes;
  }

  // ---------------------------------------------------------------------------
  // Properties of the loop

  /** The enabled names of a concatenation are those of its parts, concatenated. */
  lemma {:induction false} EnabledNamesAppend(a: seq<Fix>, b: seq<Fix>)
    ensures EnabledNames(a + b) == EnabledNames(a) + EnabledNames(b)
    decreases |b|
  {
    if b == [] {
      assert a + b == a;
    } else {
      var n := |b| - 1;
      assert (a + b)[..|a + b| - 1] == a + b[..n];
      EnabledNamesAppend(a, b[..n]);
    }
  }

  /** A single fix contributes its name exactly when it is enabled. */
  lemma EnabledNamesSingle(f: Fix)
    ensures EnabledNames([f]) == if f.enabled then [f.name] else []
  {
    assert [f][..0] == [];
  }

  /** A name is applied exactly when some enabled fix carries it. */
  lemma {:induction false} EnabledNamesMembers(fixes: seq<Fix>, name: string)
    ensures name in EnabledNames(fixes) <==> exists i :: 0 <= i < |fixes| && fixes[i].enabled && fixes[i].name == name
  {
    if fixes != [] {
      var n := |fixes| - 1;
      EnabledNamesMembers(fixes[..n], name);
      if exists i :: 0 <= i < |fixes| && fixes[i].enabled && fixes[i].name == name {
        var i :| 0 <= i < |fixes| && fixes[i].enabled && fixes[i].name == name;
        if i < n {
          assert fixes[..n][i] == fixes[i];
        }
      }
      if exists i :: 0 <= i < n && fixes[..n][i].enabled && fixes[..n][i].name == name {
        var i :| 0 <= i < n && fixes[..n][i].enabled && fixes[..n][i].name == name;
        assert fixes[i] == fixes[..n][i];
      }
    }
  }

  /** Each applied name opens a pair: the file selecting only it, then the launch. */
  lemma {:induction false} StepsShape(tool: string, project: string, names: seq<string>, failedWrites: set<nat>)
    ensures |Steps(tool, project, names, failedWrites)| == 2 * |names|
    ensures forall j :: 0 <= j < |names| ==>
      && Steps(tool, project, names, failedWrites)[2 * j]
         == Write(Joined(project, ".clang-tidy"), Contents(ChecksString([names[j]])), j !in failedWrites)
      && Steps(tool, project, names, failedWrites)[2 * j + 1]
         == Launch("python", [tool, ".", "-fix", "-j 10"], project)
  {
    if names != [] {
      var n := |names| - 1;
      var prev := Steps(tool, project, names[..n], failedWrites);
      StepsShape(tool, project, names[..n], failedWrites);
      var s := Steps(tool, project, names, failedWrites);
      forall j | 0 <= j < n
        ensures s[2 * j] == prev[2 * j] && s[2 * j + 1] == prev[2 * j + 1]
        ensures names[..n][j] == names[j]
      {
      }
    }
  }

  /** The steps for a prefix of the names are a prefix of the steps. */
  lemma {:induction false} StepsPrefix(tool: string, project: string, names: seq<string>, more: seq<string>, failedWrites: set<nat>)
    ensures Steps(tool, project, names, failedWrites) <= Steps(tool, project, names + more, failedWrites)
    decreases |more|
  {
    if more == [] {
      assert names + more == names;
    } else {
      var n := |more| - 1;
      assert (names + more)[..|names + more| - 1] == names + more[..n];
      StepsPrefix(tool, project, names, more[..n], failedWrites);
    }
  }

  /**
   * Without a cancel, the run writes and launches once per enabled fix, in list
   * order: the `j`-th pair belongs to the `j`-th enabled fix.
   */
  lemma RunAppliesEnabledFixes(config: ConfigValue, failedWrites: set<nat>)
    ensures var t := Trace(config, None, failedWrites); var names := EnabledNames(config.fixes);
      && |t| == 2 * |names|
      && forall j :: 0 <= j < |names| ==>
        && t[2 * j] == Write(Joined(config.projectPath, ".clang-tidy"), Contents(ChecksString([names[j]])), j !in failedWrites)
        && t[2 * j + 1] == Launch("python", [config.runClangTidyPath, ".", "-fix", "-j 10"], config.projectPath)
  {
    assert config.fixes[..|config.fixes|] == config.fixes;
    StepsShape(config.runClangTidyPath, config.projectPath, EnabledNames(config.fixes), failedWrites);
  }

  /** Removing a disabled fix leaves the enabled names as they were. */
  lemma EnabledNamesWithout(fs: seq<Fix>, i: nat)
    requires i < |fs| && !fs[i].enabled
    ensures EnabledNames(fs) == EnabledNames(fs[..i] + fs[i + 1..])
  {
    var before, after := fs[..i], fs[i + 1..];
    assert fs == (before + [fs[i]]) + after;
    EnabledNamesAppend(before + [fs[i]], after);
    EnabledNamesAppend(before, [fs[i]]);
    EnabledNamesSingle(fs[i]);
    EnabledNamesAppend(before, after);
  }

  /** A disabled fix writes nothing and launches nothing: the run is as if it were absent. */
  lemma DisabledFixIsSkipped(config: ConfigValue, i: nat, failedWrites: set<nat>)
    requires i < |config.fixes| && !config.fixes[i].enabled
    ensures Trace(config, None, failedWrites)
         == Trace(config.(fixes := config.fixes[..i] + config.fixes[i + 1..]), None, failedWrites)
  {
    var fs := config.fixes;
    var without := fs[..i] + fs[i + 1..];
    EnabledNamesWithout(fs, i);
    assert Applied(config, None) == EnabledNames(fs) by {
      assert fs[..|fs|] == fs;
    }
    assert Applied(config.(fixes := without), None) == EnabledNames(without) by {
      assert without[..|without|] == without;
    }
  }

  /** A cancelled run did a prefix of what the uncancelled run does. */
  lemma CancelledRunIsPrefix(config: ConfigValue, k: nat, failedWrites: set<nat>)
    ensures Trace(config, Some(k), failedWrites) <= Trace(config, None, failedWrites)
  {
    var fs := config.fixes;
    var c := Cutoff(|fs|, Some(k));
    assert fs == fs[..c] + fs[c..];
    assert fs[..|fs|] == fs;
    EnabledNamesAppend(fs[..c], fs[c..]);
    StepsPrefix(config.runClangTidyPath, config.projectPath, EnabledNames(fs[..c]), EnabledNames(fs[c..]), failedWrites);
  }

  /**
   * Once the flag is seen at iteration `k`, nothing at position `k` or later, enabled
   * or not, is written or run: the run depends only on the first `k` fixes.
   */
  lemma LaterFixesUnused(config: ConfigValue, other: seq<Fix>, k: nat, failedWrites: set<nat>)
    requires k <= |config.fixes| && k <= |other| && other[..k] == config.fixes[..k]
    ensures Trace(config, Some(k), failedWrites) == Trace(config.(fixes := other), Some(k), failedWrites)
  {
    assert Cutoff(|other|, Some(k)) == k == Cutoff(|config.fixes|, Some(k));
  }

  /** Cancelling after `k` fixes launches once per enabled fix among the first `k`; at `0`, not at all. */
  lemma CancelledRunLaunches(config: ConfigValue, k: nat, failedWrites: set<nat>)
    requires k <= |config.fixes|
    ensures |Trace(config, Some(k), failedWrites)| == 2 * |EnabledNames(config.fixes[..k])|
    ensures k == 0 ==> Trace(config, Some(k), failedWrites) == []
  {
    StepsShape(config.runClangTidyPath, config.projectPath, EnabledNames(config.fixes[..k]), failedWrites);
  }

  /** An event with the write's outcome forgotten. */
  function Attempt(e: Event): Event {
    if e.Write? then e.(ok := true) else e
  }

  /**
   * Write failures do not change what the loop does: the same files are
   * attempted and the same processes launched, whatever writes fail.
   */
  lemma WriteFailuresDoNotStopTheRun(config: ConfigValue, cancelAt: Option<nat>, f1: set<nat>, f2: set<nat>)
    ensures |Trace(config, cancelAt, f1)| == |Trace(config, cancelAt, f2)|
    ensures forall i :: 0 <= i < |Trace(config, cancelAt, f1)| ==>
      Attempt(Trace(config, cancelAt, f1)[i]) == Attempt(Trace(config, cancelAt, f2)[i])
  {
    var names := Applied(config, cancelAt);
    StepsShape(config.runClangTidyPath, config.projectPath, names, f1);
    StepsShape(config.runClangTidyPath, config.projectPath, names, f2);
    var t1, t2 := Trace(config, cancelAt, f1), Trace(config, cancelAt, f2);
    forall i | 0 <= i < |t1| ensures Attempt(t1[i]) == Attempt(t2[i]) {
      var j := i / 2;
      assert i == 2 * j || i == 2 * j + 1;
    }
  }

  /** Every file written for a fix with a plain name selects exactly that one check. */
  lemma EachWriteSelectsOneCheck(config: ConfigValue, cancelAt: Option<nat>, failedWrites: set<nat>, j: nat)
    requires j < |Applied(config, cancelAt)|
    requires PlainChecks([Applied(config, cancelAt)[j]])
    ensures var t := Trace(config, cancelAt, failedWrites);
      && 2 * j < |t| && t[2 * j].Write?
      && ParseContents(t[2 * j].contents) == Some([Applied(config, cancelAt)[j]])
  {
    var names := Applied(config, cancelAt);
    StepsShape(config.runClangTidyPath, config.projectPath, names, failedWrites);
    WrittenFileSelectsChecks(config.projectPath, [names[j]], j !in failedWrites);
  }
}
